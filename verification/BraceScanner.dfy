/** Picking the first JSON object out of free text by counting braces. */
module BraceScanner {
  import opened Seqs

  /** Opening braces less closing braces. */
  function Depth(s: string): int
  {
    if s == "" then 0
    else Depth(s[..|s| - 1]) + if s[|s| - 1] == '{' then 1 else if s[|s| - 1] == '}' then -1 else 0
  }

  /** `s` opens with a brace that its last character is the first to close. */
  ghost predicate Closed(s: string)
  {
    && s != "" && s[0] == '{' && Depth(s) == 0
    && forall k :: 0 < k < |s| ==> Depth(s[..k]) != 0
  }

  /** The scan from `start` offers the slice up to `end`, and no other. */
  ghost predicate Candidate(text: string, start: int, end: int)
  {
    0 <= start < end <= |text| && Closed(text[start..end])
  }

  ghost predicate Parses<T>(text: string, parse: string -> Option<T>, start: int)
  {
    exists end :: Candidate(text, start, end) && parse(text[start..end]).Some?
  }

  /** The scan settles on this slice: it parses, and no opening brace before it offers one that does. */
  ghost predicate Picks<T>(text: string, parse: string -> Option<T>, start: int, end: int)
  {
    && Candidate(text, start, end) && parse(text[start..end]).Some?
    && forall s :: 0 <= s < start ==> !Parses(text, parse, s)
  }

  /** The parse of the slice that the scan settles on, or none when no slice on offer parses. */
  ghost predicate IsAnswer<T>(text: string, parse: string -> Option<T>, r: Option<T>)
  {
    if r.None? then forall start :: !Parses(text, parse, start)
    else exists start, end :: Picks(text, parse, start, end) && parse(text[start..end]) == r
  }

  /** What extraction comes to: the answer, and for a parse the slice it was made from. */
  ghost predicate Extracts<T>(text: string, parse: string -> Option<T>, r: Option<T>, from: int, to: int)
  {
    IsAnswer(text, parse, r) && (r.Some? ==> Picks(text, parse, from, to) && r == parse(text[from..to]))
  }

  method Find(text: string, from: nat) returns (at: int)
    requires from <= |text|
    ensures at == -1 ==> '{' !in text[from..]
    ensures at != -1 ==> from <= at < |text| && text[at] == '{' && '{' !in text[from..at]
  {
    for i := from to |text|
      invariant '{' !in text[from..i]
    {
      if text[i] == '{' {
        return i;
      }
      assert text[from..i + 1] == text[from..i] + [text[i]];
    }
    return -1;
  }

  lemma {:induction false} NoShorter(text: string, start: int, a: int, b: int)
    requires Candidate(text, start, b) && start < a < b
    ensures Depth(text[start..a]) != 0
  {
    assert text[start..b][..a - start] == text[start..a];
  }

  lemma {:induction false} ClosedUnique(text: string, start: int, a: int, b: int)
    requires Candidate(text, start, a) && Candidate(text, start, b)
    ensures a == b
  {
    if a < b {
      NoShorter(text, start, a, b);
    } else if b < a {
      NoShorter(text, start, b, a);
    }
  }

  lemma {:induction false} NoParseAt<T>(text: string, parse: string -> Option<T>, start: int, end: int)
    requires Candidate(text, start, end) && parse(text[start..end]).None?
    ensures !Parses(text, parse, start)
  {
    forall e | Candidate(text, start, e) ensures parse(text[start..e]).None? {
      ClosedUnique(text, start, end, e);
    }
  }

  lemma {:induction false} NeverCloses<T>(text: string, parse: string -> Option<T>, start: nat)
    requires start < |text| && forall e :: start < e <= |text| ==> Depth(text[start..e]) != 0
    ensures !Parses(text, parse, start)
  {
  }

  lemma {:induction false} NoBraceNoParse<T>(text: string, parse: string -> Option<T>, from: nat, to: nat)
    requires from <= to <= |text| && '{' !in text[from..to]
    ensures forall s :: from <= s < to ==> !Parses(text, parse, s)
  {
    forall s | from <= s < to ensures !Parses(text, parse, s) {
      assert text[from..to][s - from] == text[s];
      forall e | s < e <= |text| ensures !Closed(text[s..e]) {
        assert text[s..e][0] == text[s];
      }
    }
  }

  lemma {:induction false} DepthSnoc(text: string, start: nat, i: nat)
    requires start <= i < |text|
    ensures Depth(text[start..i + 1])
         == Depth(text[start..i]) + if text[i] == '{' then 1 else if text[i] == '}' then -1 else 0
  {
    assert text[start..i + 1][..i - start] == text[start..i];
  }

  lemma {:induction false} FirstZero(text: string, start: nat, end: nat)
    requires start < end <= |text| && text[start] == '{' && Depth(text[start..end]) == 0
    requires forall k :: start < k < end ==> Depth(text[start..k]) != 0
    ensures Candidate(text, start, end)
  {
    forall k | 0 < k < end - start ensures Depth(text[start..end][..k]) != 0 {
      assert text[start..end][..k] == text[start..start + k];
    }
  }

  /** The inner loop: the slice that starts at an opening brace and is closed first, if there is one. */
  method Scan(text: string, start: nat) returns (end: Option<nat>)
    requires start < |text| && text[start] == '{'
    ensures end.Some? ==> Candidate(text, start, end.value)
    ensures end.None? ==> forall e :: start < e <= |text| ==> Depth(text[start..e]) != 0
  {
    var depth := 0;
    for i := start to |text|
      invariant depth == Depth(text[start..i]) && (i > start ==> depth > 0)
      invariant forall e :: start < e <= i ==> Depth(text[start..e]) != 0
    {
      DepthSnoc(text, start, i);
      if text[i] == '{' {
        depth := depth + 1;
      } else if text[i] == '}' {
        depth := depth - 1;
        if depth == 0 {
          FirstZero(text, start, i + 1);
          return Some(i + 1);
        }
      }
    }
    return None;
  }

  /** Returns the parse, and for the specification the slice it was made from. */
  method ExtractJson<T>(text: string, parse: string -> Option<T>) returns (r: Option<T>, ghost from: int, ghost to: int)
    ensures IsAnswer(text, parse, r)
    ensures Extracts(text, parse, r, from, to)
  {
    from, to := 0, 0;
    var start := Find(text, 0);
    NoBraceNoParse(text, parse, 0, if start == -1 then |text| else start);
    while start != -1
      invariant -1 <= start < |text|
      invariant start != -1 ==> text[start] == '{'
      invariant forall s :: 0 <= s < (if start == -1 then |text| else start) ==> !Parses(text, parse, s)
      decreases if start == -1 then 0 else |text| - start
    {
      var end := Scan(text, start);
      if end.Some? {
        r := parse(text[start..end.value]);
        if r.Some? {
          from, to := start, end.value;
          return;
        }
        NoParseAt(text, parse, start, end.value);
      } else {
        NeverCloses(text, parse, start);
      }
      var next := Find(text, start + 1);
      NoBraceNoParse(text, parse, start + 1, if next == -1 then |text| else next);
      start := next;
    }
    r := None;
  }

  lemma {:induction false} PickUnique<T>(text: string, parse: string -> Option<T>, i: int, ei: int, j: int, ej: int)
    requires Picks(text, parse, i, ei) && Picks(text, parse, j, ej)
    ensures i == j && ei == ej
  {
    assert Parses(text, parse, i) && Parses(text, parse, j);
    ClosedUnique(text, i, ei, ej);
  }

  lemma {:induction false} AnswerUnique<T>(text: string, parse: string -> Option<T>, a: Option<T>, i: int, ei: int)
    requires IsAnswer(text, parse, a) && Picks(text, parse, i, ei)
    ensures a == parse(text[i..ei])
  {
    assert Parses(text, parse, i);
    var j, ej :| Picks(text, parse, j, ej) && parse(text[j..ej]) == a;
    PickUnique(text, parse, i, ei, j, ej);
  }

  function Opening(s: string): nat
  {
    if s == "" then 0 else Opening(s[..|s| - 1]) + if s[|s| - 1] == '{' then 1 else 0
  }

  function Closing(s: string): nat
  {
    if s == "" then 0 else Closing(s[..|s| - 1]) + if s[|s| - 1] == '}' then 1 else 0
  }

  lemma {:induction false} DepthIsDifference(s: string)
    ensures Depth(s) == Opening(s) - Closing(s)
  {
    if s != "" {
      DepthIsDifference(s[..|s| - 1]);
    }
  }

  /** Inside a slice on offer every proper prefix has more opening than closing braces. */
  lemma {:induction false} OpenUntilEnd(s: string, k: nat)
    requires Closed(s) && 0 < k < |s|
    ensures Opening(s[..k]) > Closing(s[..k]) && Opening(s) == Closing(s)
  {
    DepthIsDifference(s);
    DepthIsDifference(s[..k]);
    assert s[..k][..k - 1] == s[..k - 1];
    assert s[..1] == [s[0]] && s[..1][..0] == "" && Depth(s[..1]) == 1;
    if k > 1 {
      OpenUntilEnd(s, k - 1);
      DepthIsDifference(s[..k - 1]);
      assert Depth(s[..k]) >= Depth(s[..k - 1]) - 1;
    }
  }

  lemma {:induction false} ClosedWithin(prefix: string, obj: string, suffix: string)
    requires Closed(obj)
    ensures Candidate(prefix + obj + suffix, |prefix|, |prefix| + |obj|)
    ensures (prefix + obj + suffix)[|prefix|..|prefix| + |obj|] == obj
  {
    assert (prefix + obj + suffix)[|prefix|..|prefix| + |obj|] == obj;
  }

  lemma {:induction false} PickIff<T>(prefix: string, obj: string, suffix: string, parse: string -> Option<T>)
    requires parse(obj).Some?
    ensures var text := prefix + obj + suffix;
            Picks(text, parse, |prefix|, |prefix| + |obj|) <==>
            Closed(obj) && forall s :: 0 <= s < |prefix| ==> !Parses(text, parse, s)
  {
    assert (prefix + obj + suffix)[|prefix|..|prefix| + |obj|] == obj;
    if Closed(obj) {
      ClosedWithin(prefix, obj, suffix);
    }
  }

  /**
   * Extraction returns an object's parse, made from that slice, wherever it stands and whatever
   * else parses, if and only if its first brace closes at its end and no slice on offer before
   * it parses.
   */
  lemma {:induction false} ObjectIsPickedIff<T>(prefix: string, obj: string, suffix: string, parse: string -> Option<T>,
                                                r: Option<T>, from: int, to: int)
    requires parse(obj).Some? && Extracts(prefix + obj + suffix, parse, r, from, to)
    ensures r == parse(obj) && from == |prefix| && to == |prefix| + |obj| <==>
            Closed(obj) && forall s :: 0 <= s < |prefix| ==> !Parses(prefix + obj + suffix, parse, s)
  {
    var text := prefix + obj + suffix;
    PickIff(prefix, obj, suffix, parse);
    if Picks(text, parse, |prefix|, |prefix| + |obj|) {
      assert text[|prefix|..|prefix| + |obj|] == obj;
      AnswerUnique(text, parse, r, |prefix|, |prefix| + |obj|);
      PickUnique(text, parse, from, to, |prefix|, |prefix| + |obj|);
    }
  }

  /** So after a text without an opening brace it is returned exactly when its first brace closes at its end. */
  lemma {:induction false} FirstObjectIsFound<T>(prefix: string, obj: string, suffix: string,
                                                 parse: string -> Option<T>, r: Option<T>, from: int, to: int)
    requires '{' !in prefix && parse(obj).Some?
    requires Extracts(prefix + obj + suffix, parse, r, from, to)
    ensures r == parse(obj) && from == |prefix| && to == |prefix| + |obj| <==> Closed(obj)
  {
    var text := prefix + obj + suffix;
    assert text[0..|prefix|] == prefix;
    NoBraceNoParse(text, parse, 0, |prefix|);
    ObjectIsPickedIff(prefix, obj, suffix, parse, r, from, to);
  }

  /**
   * What happens otherwise: the scan offers `broken`, the part of an object up to a brace
   * that closes too early, and when that does not parse it goes on inside the object and
   * returns the next object it meets there.
   */
  lemma {:induction false} InnerObjectInstead<T>(broken: string, middle: string, inner: string, rest: string,
                                                 parse: string -> Option<T>, r: Option<T>)
    requires Closed(broken) && '{' !in broken[1..] + middle && parse(broken).None?
    requires Closed(inner) && parse(inner).Some?
    requires IsAnswer(broken + middle + inner + rest, parse, r)
    ensures r == parse(inner)
  {
    var prefix := broken + middle;
    var text := prefix + inner + rest;
    NothingBefore(broken, middle, inner + rest, parse);
    assert text == broken + middle + (inner + rest);
    PickIff(prefix, inner, rest, parse);
    assert text[|prefix|..|prefix| + |inner|] == inner;
    AnswerUnique(text, parse, r, |prefix|, |prefix| + |inner|);
  }

  /** Of a slice that does not parse, and a text without opening braces after it, nothing parses. */
  lemma {:induction false} NothingBefore<T>(broken: string, middle: string, rest: string, parse: string -> Option<T>)
    requires Closed(broken) && '{' !in broken[1..] + middle && parse(broken).None?
    ensures forall s :: 0 <= s < |broken + middle| ==> !Parses(broken + middle + rest, parse, s)
  {
    var prefix := broken + middle;
    var text := prefix + rest;
    assert text == "" + broken + (middle + rest);
    ClosedWithin("", broken, middle + rest);
    NoParseAt(text, parse, 0, |broken|);
    assert text[1..|prefix|] == broken[1..] + middle;
    NoBraceNoParse(text, parse, 1, |prefix|);
  }

  /**
   * The shape of {"a":"}","b":{"c":1}}, an object with a closing brace in a string literal and
   * an object inside: every parser that rejects {"a":"} and accepts {"c":1}, as a JSON parser
   * does, makes the scan return the inner object, not the whole.
   */
  lemma {:induction false} BraceInString<T>(a: string, b: string, c: string, parse: string -> Option<T>, r: Option<T>)
    requires '{' !in a + b + c && '}' !in a + b + c
    requires parse("{" + a + "}").None? && parse("{" + c + "}").Some?
    requires IsAnswer("{" + a + "}" + b + ("{" + c + "}") + "}", parse, r)
    ensures r == parse("{" + c + "}")
    ensures !Closed("{" + a + "}" + b + ("{" + c + "}") + "}")
  {
    var broken, inner := "{" + a + "}", "{" + c + "}";
    assert forall x :: x in a + b + c <==> x in a || x in b || x in c;
    ClosedPlain(a);
    ClosedPlain(c);
    assert broken[1..] + b == a + "}" + b;
    InnerObjectInstead(broken, b, inner, "}", parse, r);
    assert (broken + b + inner + "}")[..|broken|] == broken;
  }

  /** Braces around a text without braces close at the end. */
  lemma {:induction false} ClosedPlain(s: string)
    requires '{' !in s && '}' !in s
    ensures Closed("{" + s + "}")
  {
    var t := "{" + s + "}";
    forall k | 0 < k < |t| ensures Depth(t[..k]) == 1 {
      DepthPlain(s, k - 1);
      assert t[..k] == "{" + s[..k - 1];
    }
    assert t[..|t| - 1] == t[..|s| + 1];
  }

  lemma {:induction false} DepthPlain(s: string, k: nat)
    requires '{' !in s && '}' !in s && k <= |s|
    ensures Depth("{" + s[..k]) == 1
  {
    var t := "{" + s[..k];
    if k == 0 {
      assert t == "{" && t[..0] == "";
    } else {
      DepthPlain(s, k - 1);
      assert t[..k] == "{" + s[..k - 1] && t[k] == s[k - 1];
    }
  }
}
