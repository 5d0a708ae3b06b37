/** The commit log: the format handed to git, the output as `run` returns it, and its parser. */
module GitLog {
  import opened Seqs
  import opened PyText

  const SEP: char := '\U{1f}'
  const REC: char := '\U{0}'

  datatype Commit = Commit(hash: string, author: string, date: string, subject: string, body: string)

  // A parsed entry; `body` is present only when it was asked for.
  datatype Entry = Entry(sha7: string, author: string, date: string, subject: string, body: Option<string>)

  // ---- What git prints ------------------------------------------------------------------

  function Fields(c: Commit, withBody: bool): seq<string>
  {
    [c.hash, c.author, c.date, c.subject] + if withBody then [c.body] else []
  }

  /** The fields of a record, separated. */
  function Join(fields: seq<string>): string
    requires fields != []
  {
    if |fields| == 1 then fields[0] else fields[0] + [SEP] + Join(fields[1..])
  }

  function Record(c: Commit, withBody: bool): string
  {
    Join(Fields(c, withBody))
  }

  /** Each record is followed by the escaped NUL of the format and by git's own newline. */
  function Print(cs: seq<Commit>, withBody: bool): string
  {
    if cs == [] then "" else Record(cs[0], withBody) + [REC] + ("\n" + Print(cs[1..], withBody))
  }

  /** The backend's run(): text-mode output, stripped. */
  function RunOutput(printed: string): string
  {
    Strip(Newlines(printed))
  }

  // ---- The parser -------------------------------------------------------------------------

  function ParseRecord(record: string, withBody: bool): seq<Entry>
  {
    var r := StripNewlines(record);
    if Strip(r) == "" then []
    else
      var width := if withBody then 5 else 4;
      var parts := SplitAtMost(r, SEP, width - 1);
      if |parts| != width then []
      else [Entry(parts[0], parts[1], parts[2], Take(parts[3], 80), if withBody then Some(Strip(parts[4])) else None)]
  }

  function ParseAll(records: seq<string>, withBody: bool): seq<Entry>
  {
    if records == [] then []
    else ParseAll(records[..|records| - 1], withBody) + ParseRecord(records[|records| - 1], withBody)
  }

  method ParseLog(raw: string, withBody: bool) returns (commits: seq<Entry>)
    ensures commits == ParseAll(Split(raw, REC), withBody)
  {
    var width := if withBody then 5 else 4;
    var records := Split(raw, REC);
    commits := [];
    var i := 0;
    while i < |records|
      invariant i <= |records|
      invariant commits == ParseAll(records[..i], withBody)
    {
      assert records[..i + 1][..i] == records[..i];
      var record := StripNewlines(records[i]);
      i := i + 1;
      if Strip(record) == "" {
        continue;
      }
      var parts := SplitAtMost(record, SEP, width - 1);
      if |parts| != width {
        continue;
      }
      var body := None;
      if withBody {
        body := Some(Strip(parts[4]));
      }
      commits := commits + [Entry(parts[0], parts[1], parts[2], Take(parts[3], 80), body)];
    }
    assert records[..i] == records;
  }

  // ---- What a reader should get ---------------------------------------------------------------

  /** The entry for a commit: newlines translated, subject cut to 80, body stripped. */
  function Shown(c: Commit, withBody: bool): Entry
  {
    var subject := Newlines(c.subject);
    Entry(Newlines(c.hash), Newlines(c.author), Newlines(c.date),
          Take(if withBody then subject else TrimRight(subject, IsNewline), 80),
          if withBody then Some(Strip(Newlines(c.body))) else None)
  }

  /** The printed text of a record and the entry it comes back as, character by character. */
  lemma {:induction false} FormatIs(c: Commit)
    ensures Record(c, false) == c.hash + "\U{1f}" + c.author + "\U{1f}" + c.date + "\U{1f}" + c.subject
    ensures Record(c, true) == Record(c, false) + "\U{1f}" + c.body
    ensures Print([c], true) == Record(c, true) + "\U{0}\n"
    ensures var s := Newlines(c.subject);
            Shown(c, true) == Entry(Newlines(c.hash), Newlines(c.author), Newlines(c.date),
                                    if |s| > 80 then s[..80] else s, Some(Strip(Newlines(c.body))))
    ensures Shown(c, false).body == None
  {
    var a, b, d, e, f := c.hash, c.author, c.date, c.subject, c.body;
    var sep := [SEP];
    JoinOne(e);
    JoinMore(d, [e]);
    JoinMore(b, [d, e]);
    JoinMore(a, [b, d, e]);
    JoinOne(f);
    JoinMore(e, [f]);
    JoinMore(d, [e, f]);
    JoinMore(b, [d, e, f]);
    JoinMore(a, [b, d, e, f]);
    assert Fields(c, false) == [a] + [b, d, e] && Fields(c, true) == [a] + [b, d, e, f];
    assert [b, d, e] == [b] + [d, e] && [b, d, e, f] == [b] + [d, e, f];
    assert [d, e] == [d] + [e] && [d, e, f] == [d] + [e, f] && [e, f] == [e] + [f];
    assert Record(c, false) == a + sep + (b + sep + (d + sep + e));
    assert Record(c, true) == a + sep + (b + sep + (d + sep + (e + sep + f)));
    assert [c][1..] == [] && Print([], true) == "";
  }

  lemma {:induction false} JoinOne(f: string)
    ensures Join([f]) == f
  {
  }

  lemma {:induction false} JoinMore(f: string, fields: seq<string>)
    requires fields != []
    ensures Join([f] + fields) == f + [SEP] + Join(fields)
  {
    assert ([f] + fields)[1..] == fields;
  }

  function ShownAll(cs: seq<Commit>, withBody: bool): (es: seq<Entry>)
    ensures |es| == |cs|
    ensures forall i :: 0 <= i < |cs| ==> es[i] == Shown(cs[i], withBody)
  {
    if cs == [] then [] else [Shown(cs[0], withBody)] + ShownAll(cs[1..], withBody)
  }

  /** No NUL anywhere, no separator in a field that a separator closes, a hash that starts non-blank. */
  ghost predicate Printable(c: Commit, withBody: bool)
  {
    && REC !in c.hash && REC !in c.author && REC !in c.date && REC !in c.subject && REC !in c.body
    && SEP !in c.hash && SEP !in c.author && SEP !in c.date && (withBody ==> SEP !in c.subject)
    && c.hash != "" && !IsSpace(c.hash[0])
  }

  /** The commit as text mode shows it. */
  function Translated(c: Commit): Commit
  {
    Commit(Newlines(c.hash), Newlines(c.author), Newlines(c.date), Newlines(c.subject), Newlines(c.body))
  }

  function TranslatedAll(cs: seq<Commit>): (ts: seq<Commit>)
    ensures |ts| == |cs|
    ensures forall i :: 0 <= i < |cs| ==> ts[i] == Translated(cs[i])
  {
    if cs == [] then [] else [Translated(cs[0])] + TranslatedAll(cs[1..])
  }

  lemma {:induction false} TranslatedPrintable(c: Commit, withBody: bool)
    requires Printable(c, withBody)
    ensures Printable(Translated(c), withBody)
  {
    NewlinesAdds(c.hash, REC);
    NewlinesAdds(c.author, REC);
    NewlinesAdds(c.date, REC);
    NewlinesAdds(c.subject, REC);
    NewlinesAdds(c.body, REC);
    NewlinesAdds(c.hash, SEP);
    NewlinesAdds(c.author, SEP);
    NewlinesAdds(c.date, SEP);
    if withBody {
      NewlinesAdds(c.subject, SEP);
    }
  }

  function NewlinesAll(fields: seq<string>): (r: seq<string>)
    ensures |r| == |fields|
    ensures forall i :: 0 <= i < |fields| ==> r[i] == Newlines(fields[i])
  {
    if fields == [] then [] else [Newlines(fields[0])] + NewlinesAll(fields[1..])
  }

  lemma {:induction false} NewlinesJoin(fields: seq<string>)
    requires fields != []
    ensures Newlines(Join(fields)) == Join(NewlinesAll(fields))
  {
    if |fields| > 1 {
      NewlinesJoin(fields[1..]);
      NewlinesConcat(fields[0], SEP, Join(fields[1..]));
      assert NewlinesAll(fields)[1..] == NewlinesAll(fields[1..]);
    }
  }

  /** Translating the printed record is printing the translated one. */
  lemma {:induction false} NewlinesRecord(c: Commit, withBody: bool)
    ensures Newlines(Record(c, withBody)) == Record(Translated(c), withBody)
  {
    NewlinesJoin(Fields(c, withBody));
    assert NewlinesAll(Fields(c, withBody)) == Fields(Translated(c), withBody);
  }

  lemma {:induction false} NewlinesPrint(cs: seq<Commit>, withBody: bool)
    ensures Newlines(Print(cs, withBody)) == Print(TranslatedAll(cs), withBody)
  {
    if cs != [] {
      var rest := Print(cs[1..], withBody);
      NewlinesPrint(cs[1..], withBody);
      NewlinesRecord(cs[0], withBody);
      NewlinesConcat(Record(cs[0], withBody), REC, "\n" + rest);
      assert ("\n" + rest)[1..] == rest;
      assert TranslatedAll(cs)[1..] == TranslatedAll(cs[1..]);
    }
  }

  // ---- One record ----------------------------------------------------------------------------

  /** Trimming the end of a joined record trims its last field only. */
  lemma {:induction false} TrimJoin(fields: seq<string>)
    requires |fields| >= 2
    ensures var n := |fields| - 1;
            TrimRight(Join(fields), IsNewline) == Join(fields[n := TrimRight(fields[n], IsNewline)])
  {
    var n := |fields| - 1;
    var trimmed := fields[n := TrimRight(fields[n], IsNewline)];
    TrimRightStops(fields[0], SEP, Join(fields[1..]), IsNewline);
    assert trimmed[1..] == fields[1..][n - 1 := TrimRight(fields[n], IsNewline)];
    if n > 1 {
      TrimJoin(fields[1..]);
    }
  }

  lemma {:induction false} SplitJoin(fields: seq<string>)
    requires fields != [] && forall i :: 0 <= i < |fields| - 1 ==> SEP !in fields[i]
    ensures SplitAtMost(Join(fields), SEP, |fields| - 1) == fields
  {
    if |fields| > 1 {
      SplitJoin(fields[1..]);
      SplitAtMostCons(fields[0], SEP, Join(fields[1..]), |fields| - 1);
    }
  }

  lemma {:induction false} JoinStarts(fields: seq<string>)
    requires fields != [] && fields[0] != ""
    ensures Join(fields) != "" && Join(fields)[0] == fields[0][0]
  {
  }

  /** After the newline strip a record is its fields again, the last one trimmed, and is not blank. */
  lemma {:induction false} RecordStrips(c: Commit, withBody: bool, lead: string)
    requires Printable(c, withBody) && (lead == "" || lead == "\n")
    ensures var fs := Fields(c, withBody);
            var n := |fs| - 1;
            var r := StripNewlines(lead + Record(c, withBody));
            r == Join(fs[n := TrimRight(fs[n], IsNewline)]) && Strip(r) != ""
  {
    var fs := Fields(c, withBody);
    var r := Record(c, withBody);
    JoinStarts(fs);
    assert TrimLeft(lead + r, IsNewline) == r by {
      if lead == "\n" {
        assert (lead + r)[1..] == r;
      } else {
        assert lead + r == r;
      }
    }
    TrimJoin(fs);
    JoinStarts(fs[|fs| - 1 := TrimRight(fs[|fs| - 1], IsNewline)]);
    StripNonBlank(StripNewlines(lead + r));
  }

  /** The entry of a commit whose text has no CR left. */
  function Parsed(c: Commit, withBody: bool): Entry
  {
    Entry(c.hash, c.author, c.date, Take(if withBody then c.subject else TrimRight(c.subject, IsNewline), 80),
          if withBody then Some(Strip(c.body)) else None)
  }

  lemma {:induction false} RecordParses(c: Commit, withBody: bool, lead: string)
    requires Printable(c, withBody) && (lead == "" || lead == "\n")
    ensures ParseRecord(lead + Record(c, withBody), withBody) == [Parsed(c, withBody)]
  {
    RecordStrips(c, withBody, lead);
    var fs := Fields(c, withBody);
    var parts := fs[|fs| - 1 := TrimRight(fs[|fs| - 1], IsNewline)];
    SplitJoin(parts);
    StripAfterNewlines(c.body);
    var r := StripNewlines(lead + Record(c, withBody));
    assert SplitAtMost(r, SEP, if withBody then 4 else 3) == parts && Strip(r) != "";
  }

  // ---- The whole output -------------------------------------------------------------------------

  /** What follows the NUL of a record once the output has been stripped. */
  function Rest(cs: seq<Commit>, withBody: bool): string
  {
    if cs == [] then "" else ("\n" + Record(cs[0], withBody)) + [REC] + Rest(cs[1..], withBody)
  }

  lemma {:induction false} PrintIsRest(cs: seq<Commit>, withBody: bool)
    ensures "\n" + Print(cs, withBody) == Rest(cs, withBody) + "\n"
  {
    if cs != [] {
      PrintIsRest(cs[1..], withBody);
      var r := Record(cs[0], withBody);
      assert "\n" + (r + [REC] + (Rest(cs[1..], withBody) + "\n"))
          == ("\n" + r) + [REC] + Rest(cs[1..], withBody) + "\n";
    }
  }

  lemma {:induction false} RestEndsInRecord(cs: seq<Commit>, withBody: bool)
    ensures cs != [] ==> Rest(cs, withBody) != "" && Rest(cs, withBody)[|Rest(cs, withBody)| - 1] == REC
  {
    if cs != [] {
      RestEndsInRecord(cs[1..], withBody);
    }
  }

  /** A text that starts non-blank and ends in NUL loses exactly a newline put after it. */
  lemma {:induction false} StripFinalNewline(q: string)
    requires q != "" && !IsSpace(q[0]) && q[|q| - 1] == REC
    ensures Strip(q + ['\n']) == q
  {
    StripSnoc(q, '\n');
    StripNonBlank(q);
    var n := |q| - 1;
    assert q == q[..n] + [REC] + "";
    TrimRightStops(q[..n], REC, "", IsSpace);
  }

  /** run()'s strip takes off the final newline and nothing else. */
  lemma {:induction false} StripPrint(cs: seq<Commit>, withBody: bool)
    requires cs != [] && Printable(cs[0], withBody)
    ensures Strip(Print(cs, withBody)) == Record(cs[0], withBody) + [REC] + Rest(cs[1..], withBody)
  {
    var r := Record(cs[0], withBody);
    var rest := Rest(cs[1..], withBody);
    PrintIsRest(cs[1..], withBody);
    assert Print(cs, withBody) == r + [REC] + rest + ['\n'];
    RestEndsInRecord(cs[1..], withBody);
    JoinStarts(Fields(cs[0], withBody));
    StripFinalNewline(r + [REC] + rest);
  }

  lemma {:induction false} JoinLacks(fields: seq<string>, ch: char)
    requires fields != [] && ch != SEP && forall i :: 0 <= i < |fields| ==> ch !in fields[i]
    ensures ch !in Join(fields)
  {
    if |fields| > 1 {
      JoinLacks(fields[1..], ch);
    }
  }

  lemma {:induction false} RecordHasNoNul(c: Commit, withBody: bool)
    requires Printable(c, withBody)
    ensures REC !in Record(c, withBody)
  {
    JoinLacks(Fields(c, withBody), REC);
  }

  lemma {:induction false} RestParses(cs: seq<Commit>, withBody: bool)
    requires forall c :: c in cs ==> Printable(c, withBody)
    ensures ParseAll(Split(Rest(cs, withBody), REC), withBody) == ParsedAll(cs, withBody)
  {
    if cs == [] {
      BlankRecord(withBody);
    } else {
      var c := cs[0];
      assert c in cs;
      RecordHasNoNul(c, withBody);
      SplitCons("\n" + Record(c, withBody), REC, Rest(cs[1..], withBody));
      RecordParses(c, withBody, "\n");
      RestParses(cs[1..], withBody);
      ParseCons("\n" + Record(c, withBody), Split(Rest(cs[1..], withBody), REC), withBody);
    }
  }

  lemma {:induction false} ParseCons(r: string, records: seq<string>, withBody: bool)
    ensures ParseAll([r] + records, withBody) == ParseRecord(r, withBody) + ParseAll(records, withBody)
  {
    var all := [r] + records;
    if records != [] {
      var n := |records| - 1;
      ParseCons(r, records[..n], withBody);
      assert all[..n + 1] == [r] + records[..n] && all[n + 1] == records[n];
    } else {
      assert all[..0] == [];
    }
  }

  lemma {:induction false} BlankRecord(withBody: bool)
    ensures ParseAll([""], withBody) == []
  {
    ParseCons("", [], withBody);
    assert [""] == [""] + [];
    assert ParseRecord("", withBody) == [];
  }

  function ParsedAll(cs: seq<Commit>, withBody: bool): seq<Entry>
  {
    if cs == [] then [] else [Parsed(cs[0], withBody)] + ParsedAll(cs[1..], withBody)
  }

  lemma {:induction false} OutputParses(cs: seq<Commit>, withBody: bool)
    requires forall c :: c in cs ==> Printable(c, withBody)
    ensures ParseAll(Split(Strip(Print(cs, withBody)), REC), withBody) == ParsedAll(cs, withBody)
  {
    if cs == [] {
      BlankRecord(withBody);
    } else {
      assert cs[0] in cs;
      StripPrint(cs, withBody);
      RecordHasNoNul(cs[0], withBody);
      SplitCons(Record(cs[0], withBody), REC, Rest(cs[1..], withBody));
      RecordParses(cs[0], withBody, "");
      assert "" + Record(cs[0], withBody) == Record(cs[0], withBody);
      RestParses(cs[1..], withBody);
      ParseCons(Record(cs[0], withBody), Split(Rest(cs[1..], withBody), REC), withBody);
    }
  }

  lemma {:induction false} ParsedTranslated(cs: seq<Commit>, withBody: bool)
    ensures ParsedAll(TranslatedAll(cs), withBody) == ShownAll(cs, withBody)
  {
    if cs != [] {
      assert TranslatedAll(cs)[1..] == TranslatedAll(cs[1..]);
      ParsedTranslated(cs[1..], withBody);
    }
  }

  /**
   * Round trip: for every list of printable commits, printing, running and parsing gives
   * back the same list, entry by entry, in order; the last field may contain separators.
   */
  lemma {:induction false} LogRoundTrip(cs: seq<Commit>, withBody: bool)
    requires forall c :: c in cs ==> Printable(c, withBody)
    ensures ParseAll(Split(RunOutput(Print(cs, withBody)), REC), withBody) == ShownAll(cs, withBody)
  {
    var ts := TranslatedAll(cs);
    forall t | t in ts ensures Printable(t, withBody) {
      var i :| 0 <= i < |ts| && ts[i] == t;
      assert cs[i] in cs;
      TranslatedPrintable(cs[i], withBody);
    }
    NewlinesPrint(cs, withBody);
    OutputParses(ts, withBody);
    ParsedTranslated(cs, withBody);
  }
}
