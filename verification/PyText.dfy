/** The Python string operations that the parsers below rely on. */
module PyText {

  /** The characters str.strip() removes and str.isspace() accepts; 0x1c to 0x1f are among them. */
  predicate IsSpace(c: char)
  {
    var n := c as int;
    0x09 <= n <= 0x0d || 0x1c <= n <= 0x20 || n == 0x85 || n == 0xa0 || n == 0x1680
    || 0x2000 <= n <= 0x200a || n == 0x2028 || n == 0x2029 || n == 0x202f || n == 0x205f || n == 0x3000
  }

  /** The ASCII ones are tab to carriage return, the four separators from 0x1c, and the space itself. */
  lemma {:induction false} AsciiSpaces(c: char)
    requires c as int < 0x80
    ensures IsSpace(c) <==>
            c in {'\t', '\n', '\U{0b}', '\U{0c}', '\r', '\U{1c}', '\U{1d}', '\U{1e}', '\U{1f}', ' '}
  {
    var n := c as int;
    assert n == 9 ==> c == '\t';
    assert n == 10 ==> c == '\n';
    assert n == 11 ==> c == '\U{0b}';
    assert n == 12 ==> c == '\U{0c}';
    assert n == 13 ==> c == '\r';
    assert n == 28 ==> c == '\U{1c}';
    assert n == 29 ==> c == '\U{1d}';
    assert n == 30 ==> c == '\U{1e}';
    assert n == 31 ==> c == '\U{1f}';
    assert n == 32 ==> c == ' ';
  }

  /** Drops leading characters from `cut`. */
  function TrimLeft(s: string, cut: char -> bool): string
  {
    if s != [] && cut(s[0]) then TrimLeft(s[1..], cut) else s
  }

  function TrimRight(s: string, cut: char -> bool): string
  {
    if s != [] && cut(s[|s| - 1]) then TrimRight(s[..|s| - 1], cut) else s
  }

  function Strip(s: string): string
  {
    TrimRight(TrimLeft(s, IsSpace), IsSpace)
  }

  predicate IsNewline(c: char)
  {
    c == '\n'
  }

  /** str.strip("\n") */
  function StripNewlines(s: string): string
  {
    TrimRight(TrimLeft(s, IsNewline), IsNewline)
  }

  predicate StartsWith(s: string, prefix: string)
  {
    prefix <= s
  }

  function Take(s: string, n: nat): string
  {
    if |s| <= n then s else s[..n]
  }

  /** Text-mode output of a subprocess: CR LF and lone CR become LF. */
  function Newlines(s: string): string
  {
    if s == "" then ""
    else if s[0] == '\r' then "\n" + Newlines(if |s| > 1 && s[1] == '\n' then s[2..] else s[1..])
    else [s[0]] + Newlines(s[1..])
  }

  /** str.split(sep), for a one-character separator. */
  function Split(s: string, sep: char): (parts: seq<string>)
    ensures parts != []
  {
    if s == "" then [""]
    else
      var rest := Split(s[1..], sep);
      if s[0] == sep then [""] + rest else [[s[0]] + rest[0]] + rest[1..]
  }

  /** str.split(sep, n): at most `n` cuts. */
  function SplitAtMost(s: string, sep: char, n: nat): (parts: seq<string>)
    ensures parts != []
  {
    if s == "" || n == 0 then [s]
    else if s[0] == sep then [""] + SplitAtMost(s[1..], sep, n - 1)
    else
      var rest := SplitAtMost(s[1..], sep, n);
      [[s[0]] + rest[0]] + rest[1..]
  }

  // ---- Facts about trimming -------------------------------------------------------------

  /** Trimming on the right stops at a character that is kept. */
  lemma {:induction false} TrimRightStops(a: string, c: char, b: string, cut: char -> bool)
    requires !cut(c)
    ensures TrimRight(a + [c] + b, cut) == a + [c] + TrimRight(b, cut)
  {
    var s := a + [c] + b;
    if b != "" && cut(b[|b| - 1]) {
      assert s[..|s| - 1] == a + [c] + b[..|b| - 1];
      TrimRightStops(a, c, b[..|b| - 1], cut);
    } else {
      assert TrimRight(b, cut) == b;
      assert s[|s| - 1] == if b == "" then c else b[|b| - 1];
    }
  }

  lemma {:induction false} TrimLeftSnoc(s: string, w: char, cut: char -> bool)
    requires cut(w)
    ensures TrimLeft(s + [w], cut) == if TrimLeft(s, cut) == "" then "" else TrimLeft(s, cut) + [w]
  {
    if s == "" {
      assert s + [w] == [w] && [w][1..] == "";
    } else {
      assert (s + [w])[1..] == s[1..] + [w];
      if cut(s[0]) {
        TrimLeftSnoc(s[1..], w, cut);
      }
    }
  }

  lemma {:induction false} StripSnoc(s: string, w: char)
    requires IsSpace(w)
    ensures Strip(s + [w]) == Strip(s)
  {
    TrimLeftSnoc(s, w, IsSpace);
    var t := TrimLeft(s, IsSpace);
    if t != "" {
      assert (t + [w])[..|t|] == t;
    }
  }

  /** Stripping newlines first changes nothing for a later full strip. */
  lemma {:induction false} StripAfterNewlines(s: string)
    ensures Strip(TrimRight(s, IsNewline)) == Strip(s)
  {
    if s != "" && s[|s| - 1] == '\n' {
      assert s == s[..|s| - 1] + ['\n'];
      StripSnoc(s[..|s| - 1], '\n');
      StripAfterNewlines(s[..|s| - 1]);
    }
  }

  /** Nothing is stripped on the left of, and something is left of, a text that starts non-blank. */
  lemma {:induction false} StripNonBlank(s: string)
    requires s != "" && !IsSpace(s[0])
    ensures Strip(s) != "" && Strip(s) == TrimRight(s, IsSpace) && Strip(s)[0] == s[0]
  {
    assert s == "" + [s[0]] + s[1..];
    TrimRightStops("", s[0], s[1..], IsSpace);
  }

  // ---- Facts about splitting -------------------------------------------------------------

  lemma {:induction false} SplitCons(a: string, sep: char, b: string)
    requires sep !in a
    ensures Split(a + [sep] + b, sep) == [a] + Split(b, sep)
  {
    var s := a + [sep] + b;
    if a == "" {
      assert s == [sep] + b && s[1..] == b;
    } else {
      assert s[1..] == a[1..] + [sep] + b;
      SplitCons(a[1..], sep, b);
      assert [a[0]] + a[1..] == a;
    }
  }

  lemma {:induction false} SplitAtMostCons(a: string, sep: char, b: string, n: nat)
    requires sep !in a && n > 0
    ensures SplitAtMost(a + [sep] + b, sep, n) == [a] + SplitAtMost(b, sep, n - 1)
  {
    var s := a + [sep] + b;
    if a == "" {
      assert s == [sep] + b && s[1..] == b;
    } else {
      assert s[1..] == a[1..] + [sep] + b;
      SplitAtMostCons(a[1..], sep, b, n);
      assert [a[0]] + a[1..] == a;
    }
  }

  // ---- Facts about newline translation -----------------------------------------------------

  lemma {:induction false} Regroup(head: string, a: string, c: char, b: string)
    ensures head + (a + [c] + b) == head + a + [c] + b
  {
  }

  lemma {:induction false} NewlinesConcat(a: string, c: char, b: string)
    requires c != '\r' && c != '\n'
    ensures Newlines(a + [c] + b) == Newlines(a) + [c] + Newlines(b)
    decreases |a|
  {
    var s := a + [c] + b;
    if a == "" {
      assert s == [c] + b && s[1..] == b;
    } else if a[0] == '\r' && |a| > 1 && a[1] == '\n' {
      assert s[2..] == a[2..] + [c] + b;
      NewlinesConcat(a[2..], c, b);
      Regroup("\n", Newlines(a[2..]), c, Newlines(b));
    } else {
      assert s[1..] == a[1..] + [c] + b;
      assert |s| > 1 && (s[1] == '\n' ==> |a| > 1 && a[1] == '\n');
      NewlinesConcat(a[1..], c, b);
      var head := if a[0] == '\r' then "\n" else [a[0]];
      assert Newlines(s) == head + Newlines(s[1..]) && Newlines(a) == head + Newlines(a[1..]);
      Regroup(head, Newlines(a[1..]), c, Newlines(b));
    }
  }

  lemma {:induction false} NewlinesAdds(s: string, c: char)
    requires c != '\n' && c !in s
    ensures c !in Newlines(s)
    decreases |s|
  {
    if s != "" {
      if s[0] == '\r' && |s| > 1 && s[1] == '\n' {
        NewlinesAdds(s[2..], c);
      } else {
        NewlinesAdds(s[1..], c);
      }
    }
  }
}
