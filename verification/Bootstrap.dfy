/** Planning system prerequisites from host facts, installing them, and reporting honestly. */
module Bootstrap {
  import opened Seqs

  datatype Kind = Capability | Binary | Device | Group | OsPackage | Service | Other

  datatype Prereq = Prereq(name: string, kind: Kind, probe: string, install: map<string, string>,
                           requiresFacts: seq<string>, hardware: bool)

  datatype Facts = Facts(pkgManager: string, binaries: set<string>, devices: set<string>, groups: set<string>,
                         flags: set<string>)

  predicate Present(p: Prereq, f: Facts)
  {
    match p.kind
    case Capability => p.probe in f.flags
    case Binary => p.probe in f.binaries
    case Device => p.probe in f.devices
    case Group => p.probe in f.groups
    case OsPackage => p.probe in f.binaries
    case Service => p.probe in f.binaries
    case Other => false
  }

  /** The first required flag the host lacks. */
  function MissingFlag(required: seq<string>, flags: set<string>): Option<string>
  {
    if required == [] then None
    else if required[0] !in flags then Some(required[0])
    else MissingFlag(required[1..], flags)
  }

  datatype Verdict = Satisfied | ToInstall(command: string) | Unsatisfiable

  /** An empty flag name or an empty command counts as absent, as Python's truth test has it. */
  function Classify(p: Prereq, f: Facts): Verdict
  {
    if Present(p, f) then Satisfied
    else
      var missing := MissingFlag(p.requiresFacts, f.flags);
      if p.hardware || (missing.Some? && missing.value != "") then Unsatisfiable
      else if f.pkgManager in p.install && p.install[f.pkgManager] != "" then ToInstall(p.install[f.pkgManager])
      else Unsatisfiable
  }

  datatype Resolution = Resolution(satisfied: seq<Prereq>, toInstall: seq<Prereq>, unsatisfiable: seq<Prereq>)
  {
    predicate Ready()
    {
      toInstall == [] && unsatisfiable == []
    }
  }

  function Where(ps: seq<Prereq>, f: Facts, keep: Verdict -> bool): seq<Prereq>
  {
    if ps == [] then []
    else
      var n := |ps| - 1;
      Where(ps[..n], f, keep) + if keep(Classify(ps[n], f)) then [ps[n]] else []
  }

  predicate IsSatisfied(v: Verdict) { v.Satisfied? }
  predicate IsToInstall(v: Verdict) { v.ToInstall? }
  predicate IsUnsatisfiable(v: Verdict) { v.Unsatisfiable? }

  /** Where each kind of prerequisite is looked up. */
  ghost predicate Found(p: Prereq, f: Facts)
  {
    || (p.kind == Capability && p.probe in f.flags)
    || (p.kind in {Binary, OsPackage, Service} && p.probe in f.binaries)
    || (p.kind == Device && p.probe in f.devices)
    || (p.kind == Group && p.probe in f.groups)
  }

  /** No hardware, a command for this package manager, and the first flag the host lacks, if any, is "". */
  ghost predicate Installable(p: Prereq, f: Facts)
  {
    && !p.hardware
    && f.pkgManager in p.install && |p.install[f.pkgManager]| > 0
    && forall i :: 0 <= i < |p.requiresFacts| && FirstLacking(p.requiresFacts, f.flags, i) ==> p.requiresFacts[i] == ""
  }

  ghost predicate FirstLacking(required: seq<string>, flags: set<string>, i: int)
    requires 0 <= i < |required|
  {
    required[i] !in flags && forall j :: 0 <= j < i ==> required[j] in flags
  }

  lemma {:induction false} MissingFlagMeaning(required: seq<string>, flags: set<string>)
    ensures var missing := MissingFlag(required, flags);
            if missing.None? then forall i :: 0 <= i < |required| ==> required[i] in flags
            else exists i :: 0 <= i < |required| && required[i] == missing.value && FirstLacking(required, flags, i)
  {
    if required != [] && required[0] in flags {
      var rest := required[1..];
      MissingFlagMeaning(rest, flags);
      var missing := MissingFlag(rest, flags);
      if missing.Some? {
        var i :| 0 <= i < |rest| && rest[i] == missing.value && FirstLacking(rest, flags, i);
        forall j | 0 <= j < i + 1 ensures required[j] in flags {
          assert j > 0 ==> required[j] == rest[j - 1];
        }
        assert FirstLacking(required, flags, i + 1);
      } else {
        forall i | 0 <= i < |required| ensures required[i] in flags {
          assert i > 0 ==> required[i] == rest[i - 1];
        }
      }
    }
  }

  lemma {:induction false} FirstLackingUnique(required: seq<string>, flags: set<string>, i: nat, j: nat)
    requires i < |required| && j < |required| && FirstLacking(required, flags, i) && FirstLacking(required, flags, j)
    ensures i == j
  {
  }

  lemma {:induction false} ClassifyMeaning(p: Prereq, f: Facts)
    ensures Present(p, f) <==> Found(p, f)
    ensures Classify(p, f).Satisfied? <==> Found(p, f)
    ensures Classify(p, f).ToInstall? <==> !Found(p, f) && Installable(p, f)
  {
    var required, missing := p.requiresFacts, MissingFlag(p.requiresFacts, f.flags);
    MissingFlagMeaning(required, f.flags);
    if missing.Some? {
      var i :| 0 <= i < |required| && required[i] == missing.value && FirstLacking(required, f.flags, i);
      forall j | 0 <= j < |required| && FirstLacking(required, f.flags, j) ensures required[j] == missing.value {
        FirstLackingUnique(required, f.flags, i, j);
      }
    }
  }

  lemma {:induction false} PartsMean(ps: seq<Prereq>, f: Facts)
    ensures forall p :: p in Where(ps, f, IsSatisfied) <==> p in ps && Found(p, f)
    ensures forall p :: p in Where(ps, f, IsToInstall) <==> p in ps && !Found(p, f) && Installable(p, f)
    ensures forall p :: p in Where(ps, f, IsUnsatisfiable) <==> p in ps && !Found(p, f) && !Installable(p, f)
  {
    WhereIn(ps, f, IsSatisfied);
    WhereIn(ps, f, IsToInstall);
    WhereIn(ps, f, IsUnsatisfiable);
    forall p
      ensures Classify(p, f).Satisfied? <==> Found(p, f)
      ensures Classify(p, f).ToInstall? <==> !Found(p, f) && Installable(p, f)
    {
      ClassifyMeaning(p, f);
    }
  }

  method Resolve(ps: seq<Prereq>, f: Facts) returns (r: Resolution)
    ensures r.satisfied == Where(ps, f, IsSatisfied)
    ensures r.toInstall == Where(ps, f, IsToInstall)
    ensures r.unsatisfiable == Where(ps, f, IsUnsatisfiable)
    ensures r.Ready() <==> forall p :: p in ps ==> Present(p, f)
    ensures forall p :: p in r.satisfied <==> p in ps && Found(p, f)
    ensures forall p :: p in r.toInstall <==> p in ps && !Found(p, f) && Installable(p, f)
    ensures forall p :: p in r.unsatisfiable <==> p in ps && !Found(p, f) && !Installable(p, f)
  {
    var satisfied, toInstall, unsatisfiable := [], [], [];
    var i := 0;
    while i < |ps|
      invariant i <= |ps|
      invariant satisfied == Where(ps[..i], f, IsSatisfied)
      invariant toInstall == Where(ps[..i], f, IsToInstall)
      invariant unsatisfiable == Where(ps[..i], f, IsUnsatisfiable)
    {
      var p := ps[i];
      assert ps[..i + 1][..i] == ps[..i];
      i := i + 1;
      if Present(p, f) {
        satisfied := satisfied + [p];
        continue;
      }
      var missing := MissingFlag(p.requiresFacts, f.flags);
      if p.hardware || (missing.Some? && missing.value != "") {
        unsatisfiable := unsatisfiable + [p];
        continue;
      }
      if f.pkgManager in p.install && p.install[f.pkgManager] != "" {
        toInstall := toInstall + [p];
      } else {
        unsatisfiable := unsatisfiable + [p];
      }
    }
    assert ps[..|ps|] == ps;
    ReadyMeans(ps, f);
    PartsMean(ps, f);
    return Resolution(satisfied, toInstall, unsatisfiable);
  }

  lemma {:induction false} WhereIn(ps: seq<Prereq>, f: Facts, keep: Verdict -> bool)
    ensures forall p :: p in Where(ps, f, keep) <==> p in ps && keep(Classify(p, f))
  {
    if ps != [] {
      var n := |ps| - 1;
      WhereIn(ps[..n], f, keep);
      assert ps == ps[..n] + [ps[n]];
    }
  }

  lemma {:induction false} ReadyMeans(ps: seq<Prereq>, f: Facts)
    ensures Where(ps, f, IsToInstall) == [] && Where(ps, f, IsUnsatisfiable) == [] <==>
              forall p :: p in ps ==> Present(p, f)
  {
    WhereIn(ps, f, IsToInstall);
    WhereIn(ps, f, IsUnsatisfiable);
    forall p | p in ps ensures p in Where(ps, f, IsToInstall) || p in Where(ps, f, IsUnsatisfiable) || Present(p, f) {
    }
    HeadIn(Where(ps, f, IsToInstall));
    HeadIn(Where(ps, f, IsUnsatisfiable));
  }

  /** How often `x` is listed among `ps` is how often it is listed in the three parts together. */
  lemma {:induction false} Partition(ps: seq<Prereq>, f: Facts, x: Prereq)
    ensures Occurrences(Where(ps, f, IsSatisfied), x) + Occurrences(Where(ps, f, IsToInstall), x)
              + Occurrences(Where(ps, f, IsUnsatisfiable), x) == Occurrences(ps, x)
  {
    if ps != [] {
      var n := |ps| - 1;
      Partition(ps[..n], f, x);
      assert ps == ps[..n] + [ps[n]];
      OccurrencesConcat(ps[..n], [ps[n]], x);
      WhereSnoc(ps, f, IsSatisfied, x);
      WhereSnoc(ps, f, IsToInstall, x);
      WhereSnoc(ps, f, IsUnsatisfiable, x);
    }
  }

  lemma {:induction false} WhereSnoc(ps: seq<Prereq>, f: Facts, keep: Verdict -> bool, x: Prereq)
    requires ps != []
    ensures Occurrences(Where(ps, f, keep), x) == Occurrences(Where(ps[..|ps| - 1], f, keep), x)
              + if keep(Classify(ps[|ps| - 1], f)) then Occurrences([ps[|ps| - 1]], x) else 0
  {
    var before := Where(ps[..|ps| - 1], f, keep);
    assert before + [] == before;
    OccurrencesConcat(before, [ps[|ps| - 1]], x);
  }

  // ---- Merging built-in and declared prerequisites -------------------------------------------

  /** Assignment in an insertion-ordered dictionary keyed by name. */
  function Put(merged: seq<Prereq>, p: Prereq): seq<Prereq>
  {
    if merged == [] then [p]
    else if merged[0].name == p.name then [p] + merged[1..]
    else [merged[0]] + Put(merged[1..], p)
  }

  function PutAll(ps: seq<Prereq>): seq<Prereq>
  {
    if ps == [] then [] else Put(PutAll(ps[..|ps| - 1]), ps[|ps| - 1])
  }

  function Names(ps: seq<Prereq>): (ns: seq<string>)
    ensures |ns| == |ps|
    ensures forall i :: 0 <= i < |ps| ==> ns[i] == ps[i].name
  {
    if ps == [] then [] else [ps[0].name] + Names(ps[1..])
  }

  /** `p` is listed in `ps`, and nothing of its name is listed after it. */
  ghost predicate LastOfName(ps: seq<Prereq>, p: Prereq)
  {
    exists i :: 0 <= i < |ps| && ps[i] == p && forall j :: i < j < |ps| ==> ps[j].name != p.name
  }

  lemma {:induction false} NamesTail(ps: seq<Prereq>)
    requires ps != [] && NoDup(Names(ps))
    ensures Names(ps) == [ps[0].name] + Names(ps[1..])
    ensures NoDup(Names(ps[1..])) && ps[0].name !in Names(ps[1..])
    ensures forall q :: q in ps[1..] ==> q.name in Names(ps[1..])
  {
    var rest := ps[1..];
    forall i | 0 <= i < |rest| ensures Names(rest)[i] == Names(ps)[i + 1] {
    }
    forall q | q in rest ensures q.name in Names(rest) {
      var i :| 0 <= i < |rest| && rest[i] == q;
      assert Names(rest)[i] == q.name;
    }
  }

  lemma {:induction false} PutKeeps(merged: seq<Prereq>, p: Prereq)
    requires NoDup(Names(merged))
    ensures NoDup(Names(Put(merged, p)))
    ensures forall q :: q in Put(merged, p) <==> q == p || (q in merged && q.name != p.name)
    ensures forall n :: n in Names(Put(merged, p)) <==> n in Names(merged) || n == p.name
  {
    if merged != [] {
      var rest := merged[1..];
      assert merged == [merged[0]] + rest;
      NamesTail(merged);
      if merged[0].name == p.name {
        NamesCons(p, rest);
      } else {
        PutKeeps(rest, p);
        NamesCons(merged[0], Put(rest, p));
      }
    } else {
      NamesCons(p, []);
    }
  }

  lemma {:induction false} NamesCons(p: Prereq, ps: seq<Prereq>)
    ensures Names([p] + ps) == [p.name] + Names(ps)
  {
    assert ([p] + ps)[1..] == ps;
  }

  lemma {:induction false} LastOfNameSnoc(init: seq<Prereq>, last: Prereq, p: Prereq)
    ensures LastOfName(init + [last], p) <==> p == last || (LastOfName(init, p) && p.name != last.name)
  {
    var ps := init + [last];
    if LastOfName(ps, p) && p != last {
      var i :| 0 <= i < |ps| && ps[i] == p && forall j :: i < j < |ps| ==> ps[j].name != p.name;
      assert i < |init| && init[i] == p && ps[|init|] == last;
      forall j | i < j < |init| ensures init[j].name != p.name {
        assert ps[j] == init[j];
      }
    }
    if p == last {
      assert ps[|init|] == p;
    }
    if LastOfName(init, p) && p.name != last.name {
      var i :| 0 <= i < |init| && init[i] == p && forall j :: i < j < |init| ==> init[j].name != p.name;
      assert ps[i] == p;
      forall j | i < j < |ps| ensures ps[j].name != p.name {
        assert ps[j] == if j < |init| then init[j] else last;
      }
    }
  }

  /** Names keep the place of their first mention, whichever prerequisite owns them later. */
  lemma {:induction false} MergeOrder(ps: seq<Prereq>, p: Prereq)
    ensures Names(PutAll([])) == []
    ensures Names(PutAll(ps + [p]))
         == if p.name in Names(PutAll(ps)) then Names(PutAll(ps)) else Names(PutAll(ps)) + [p.name]
  {
    assert (ps + [p])[..|ps|] == ps;
    PutNames(PutAll(ps), p);
  }

  lemma {:induction false} PutNames(merged: seq<Prereq>, p: Prereq)
    ensures Names(Put(merged, p)) == if p.name in Names(merged) then Names(merged) else Names(merged) + [p.name]
  {
    if merged == [] {
      NamesCons(p, []);
    } else {
      var rest := merged[1..];
      assert merged == [merged[0]] + rest;
      NamesCons(merged[0], rest);
      if merged[0].name == p.name {
        NamesCons(p, rest);
        assert Names(merged)[0] == p.name;
      } else {
        PutNames(rest, p);
        NamesCons(merged[0], Put(rest, p));
        assert p.name in Names(merged) <==> p.name in Names(rest);
      }
    }
  }

  /** The merge keeps exactly the last prerequisite of each name, and so one of each name. */
  lemma {:induction false} LastDeclarationOwns(ps: seq<Prereq>)
    ensures NoDup(Names(PutAll(ps)))
    ensures forall p :: p in PutAll(ps) <==> LastOfName(ps, p)
  {
    if ps != [] {
      var init, last := ps[..|ps| - 1], ps[|ps| - 1];
      assert ps == init + [last];
      LastDeclarationOwns(init);
      PutKeeps(PutAll(init), last);
      forall p ensures p in PutAll(ps) <==> LastOfName(ps, p) {
        LastOfNameSnoc(init, last, p);
      }
    }
  }

  // ---- Install tiers -----------------------------------------------------------------------------

  const TIERS := ["node", "containment", "assurance"]

  /** What `listing` lists under the given tiers, tier after tier. */
  function Listed(tiers: seq<string>, listing: map<string, seq<Prereq>>): seq<Prereq>
  {
    if tiers == [] then []
    else
      var n := |tiers| - 1;
      Listed(tiers[..n], listing) + if tiers[n] in listing then listing[tiers[n]] else []
  }

  /** Everything a tier asks for: built-in prerequisites first, declared ones after. */
  function TierListing(level: nat, builtIn: map<string, seq<Prereq>>, declared: map<string, seq<Prereq>>): seq<Prereq>
    requires level < |TIERS|
  {
    Listed(TIERS[..level + 1], builtIn) + Listed(TIERS[..level + 1], declared)
  }

  method MergeOne(merged: seq<Prereq>, ps: seq<Prereq>, ghost before: seq<Prereq>) returns (r: seq<Prereq>)
    requires merged == PutAll(before)
    ensures r == PutAll(before + ps)
  {
    r := merged;
    assert before + ps[..0] == before;
    for i := 0 to |ps|
      invariant r == PutAll(before + ps[..i])
    {
      ghost var longer := before + ps[..i + 1];
      assert longer[..|longer| - 1] == before + ps[..i];
      r := Put(r, ps[i]);
    }
    assert ps[..|ps|] == ps;
  }

  lemma {:induction false} ListedSnoc(before: seq<Prereq>, tiers: seq<string>, t: nat,
                                      listing: map<string, seq<Prereq>>)
    requires t < |tiers|
    ensures before + Listed(tiers[..t + 1], listing)
         == before + Listed(tiers[..t], listing) + if tiers[t] in listing then listing[tiers[t]] else []
  {
    assert tiers[..t + 1][..t] == tiers[..t];
  }

  method Merge(merged: seq<Prereq>, tiers: seq<string>, listing: map<string, seq<Prereq>>, ghost before: seq<Prereq>)
    returns (r: seq<Prereq>)
    requires merged == PutAll(before)
    ensures r == PutAll(before + Listed(tiers, listing))
  {
    r := merged;
    assert before + [] == before;
    for t := 0 to |tiers|
      invariant r == PutAll(before + Listed(tiers[..t], listing))
    {
      var ps := if tiers[t] in listing then listing[tiers[t]] else [];
      ListedSnoc(before, tiers, t, listing);
      r := MergeOne(r, ps, before + Listed(tiers[..t], listing));
    }
    assert tiers[..|tiers|] == tiers;
  }

  method TierPrereqs(tier: string, builtIn: map<string, seq<Prereq>>, declared: map<string, seq<Prereq>>)
    returns (r: Option<seq<Prereq>>)
    ensures r.None? <==> tier !in TIERS
    ensures forall level :: 0 <= level < |TIERS| && TIERS[level] == tier ==>
                              r == Some(PutAll(TierListing(level, builtIn, declared)))
  {
    var level := 0;
    while level < |TIERS| && TIERS[level] != tier
      invariant level <= |TIERS| && tier !in TIERS[..level]
    {
      level := level + 1;
    }
    if level == |TIERS| {
      return None;
    }
    LevelsDiffer(level);
    var merged := Merge([], TIERS[..level + 1], builtIn, []);
    assert [] + Listed(TIERS[..level + 1], builtIn) == Listed(TIERS[..level + 1], builtIn);
    merged := Merge(merged, TIERS[..level + 1], declared, Listed(TIERS[..level + 1], builtIn));
    r := Some(merged);
  }

  lemma {:induction false} LevelsDiffer(level: nat)
    requires level < |TIERS|
    ensures forall l :: 0 <= l < |TIERS| && TIERS[l] == TIERS[level] ==> l == level
  {
    assert TIERS[0][0] == 'n' && TIERS[1][0] == 'c' && TIERS[2][0] == 'a';
  }

  lemma {:induction false} ListedIn(tiers: seq<string>, listing: map<string, seq<Prereq>>)
    ensures forall p :: p in Listed(tiers, listing) <==>
                exists l :: 0 <= l < |tiers| && tiers[l] in listing && p in listing[tiers[l]]
  {
    if tiers != [] {
      var n := |tiers| - 1;
      ListedIn(tiers[..n], listing);
      forall p ensures p in Listed(tiers, listing) <==>
                       exists l :: 0 <= l < |tiers| && tiers[l] in listing && p in listing[tiers[l]]
      {
        if p in Listed(tiers[..n], listing) {
          var l :| 0 <= l < n && tiers[..n][l] in listing && p in listing[tiers[..n][l]];
          assert tiers[l] in listing && p in listing[tiers[l]];
        }
        if l :| 0 <= l < |tiers| && tiers[l] in listing && p in listing[tiers[l]] {
          assert l < n ==> tiers[..n][l] == tiers[l];
        }
      }
    }
  }

  /** A tier asks for nothing that is not listed, built in or declared, for it or a lower tier. */
  lemma {:induction false} TierAsksFor(level: nat, builtIn: map<string, seq<Prereq>>,
                                       declared: map<string, seq<Prereq>>, p: Prereq)
    requires level < |TIERS|
    ensures p in TierListing(level, builtIn, declared) <==>
            exists l :: 0 <= l <= level
                        && ((TIERS[l] in builtIn && p in builtIn[TIERS[l]])
                            || (TIERS[l] in declared && p in declared[TIERS[l]]))
  {
    var tiers := TIERS[..level + 1];
    ListedIn(tiers, builtIn);
    ListedIn(tiers, declared);
    assert forall l :: 0 <= l <= level ==> tiers[l] == TIERS[l];
  }

  lemma {:induction false} ListedMore(tiers: seq<string>, more: seq<string>, listing: map<string, seq<Prereq>>)
    ensures Listed(tiers, listing) <= Listed(tiers + more, listing)
  {
    if more == [] {
      assert tiers + more == tiers;
    } else {
      var n := |more| - 1;
      ListedMore(tiers, more[..n], listing);
      assert (tiers + more)[..|tiers| + n] == tiers + more[..n];
    }
  }

  lemma {:induction false} SomeOfName(ps: seq<Prereq>, p: Prereq)
    requires p in ps
    ensures exists q :: q in PutAll(ps) && q.name == p.name
  {
    var n := |ps| - 1;
    var init, last := ps[..n], ps[n];
    assert ps == init + [last];
    LastDeclarationOwns(init);
    PutKeeps(PutAll(init), last);
    if p.name == last.name {
      assert last in PutAll(ps);
    } else {
      SomeOfName(init, p);
      var q :| q in PutAll(init) && q.name == p.name;
      assert q in PutAll(ps);
    }
  }

  lemma {:induction false} LastOfConcat(first: seq<Prereq>, second: seq<Prereq>, p: Prereq, d: Prereq)
    requires LastOfName(first + second, p)
    requires d in second && d.name == p.name
    ensures p in second
  {
    var ps := first + second;
    var i :| 0 <= i < |ps| && ps[i] == p && forall j :: i < j < |ps| ==> ps[j].name != p.name;
    var k :| 0 <= k < |second| && second[k] == d;
    assert ps[|first| + k] == d;
    assert second[i - |first|] == p;
  }

  /** A declared prerequisite owns its name: a built-in one is kept only where none is declared. */
  lemma {:induction false} DeclaredOverBuiltIn(level: nat, builtIn: map<string, seq<Prereq>>,
                                               declared: map<string, seq<Prereq>>, p: Prereq, d: Prereq)
    requires level < |TIERS|
    requires p in PutAll(TierListing(level, builtIn, declared))
    requires d in Listed(TIERS[..level + 1], declared) && d.name == p.name
    ensures p in Listed(TIERS[..level + 1], declared)
  {
    LastDeclarationOwns(TierListing(level, builtIn, declared));
    LastOfConcat(Listed(TIERS[..level + 1], builtIn), Listed(TIERS[..level + 1], declared), p, d);
  }

  /** Tiers are cumulative: a name a tier asks for is asked for, exactly once, by every higher tier. */
  lemma {:induction false} TiersAreCumulative(low: nat, high: nat, builtIn: map<string, seq<Prereq>>,
                                              declared: map<string, seq<Prereq>>, p: Prereq)
    requires low <= high < |TIERS|
    requires p in PutAll(TierListing(low, builtIn, declared))
    ensures exists q :: q in PutAll(TierListing(high, builtIn, declared)) && q.name == p.name
    ensures NoDup(Names(PutAll(TierListing(high, builtIn, declared))))
  {
    var lower, higher := TierListing(low, builtIn, declared), TierListing(high, builtIn, declared);
    LastDeclarationOwns(lower);
    assert p in lower;
    assert TIERS[..high + 1] == TIERS[..low + 1] + TIERS[low + 1..high + 1];
    ListedMore(TIERS[..low + 1], TIERS[low + 1..high + 1], builtIn);
    ListedMore(TIERS[..low + 1], TIERS[low + 1..high + 1], declared);
    assert p in higher;
    SomeOfName(higher, p);
    LastDeclarationOwns(higher);
  }

  // ---- Executing the plan ------------------------------------------------------------------------

  datatype Outcome = Planned | NothingToDo | Ok | Failed | Partial

  function DecideOutcome(dryRun: bool, planned: seq<Prereq>, stepOks: seq<bool>, stillMissing: seq<Prereq>): Outcome
  {
    if dryRun then Planned
    else if planned == [] then NothingToDo
    else if stillMissing == [] then Ok
    else if stepOks != [] && true !in stepOks then Failed
    else Partial
  }

  /** The outcome of executing a plan, by the first and the second detection. */
  function OutcomeOf(ps: seq<Prereq>, facts: Facts, detected: Facts, stepOks: seq<bool>): Outcome
  {
    DecideOutcome(false, Where(ps, facts, IsToInstall), stepOks, Where(ps, detected, IsToInstall))
  }

  /**
   * Plan, run one step per planned prerequisite, detect again, decide.  `install` tells
   * whether a step exits with 0; `detected` is what the second detection finds.
   */
  method Execute(ps: seq<Prereq>, facts: Facts, dryRun: bool, install: Prereq -> bool, detected: Facts)
    returns (planned: seq<Prereq>, stepOks: seq<bool>, stillMissing: seq<Prereq>, outcome: Outcome)
    ensures planned == Where(ps, facts, IsToInstall)
    ensures |stepOks| == if dryRun then 0 else |planned|
    ensures forall i :: 0 <= i < |stepOks| ==> stepOks[i] == install(planned[i])
    ensures stillMissing == Where(ps, if stepOks != [] then detected else facts, IsToInstall)
    ensures outcome == DecideOutcome(dryRun, planned, stepOks, stillMissing)
    ensures outcome == Planned <==> dryRun
    ensures outcome == NothingToDo <==> !dryRun && |planned| == 0
    ensures outcome == Ok <==> !dryRun && |planned| > 0 && |stillMissing| == 0
    ensures outcome == Failed <==>
              !dryRun && |planned| > 0 && |stillMissing| > 0 && forall i :: 0 <= i < |planned| ==> !install(planned[i])
    ensures outcome == Partial <==>
              !dryRun && |planned| > 0 && |stillMissing| > 0 && exists i :: 0 <= i < |planned| && install(planned[i])
    ensures !dryRun ==> outcome == OutcomeOf(ps, facts, detected, stepOks)
  {
    var r := Resolve(ps, facts);
    planned := r.toInstall;
    stepOks := [];
    if !dryRun {
      for i := 0 to |planned|
        invariant |stepOks| == i && forall j :: 0 <= j < i ==> stepOks[j] == install(planned[j])
      {
        stepOks := stepOks + [install(planned[i])];
      }
    }
    var after := if stepOks != [] then detected else facts;
    var r' := Resolve(ps, after);
    stillMissing := r'.toInstall;
    outcome := DecideOutcome(dryRun, planned, stepOks, stillMissing);
    assert true in stepOks <==> exists i :: 0 <= i < |stepOks| && stepOks[i];
  }

  // ---- When "ok" can be trusted --------------------------------------------------------------------

  /** The plan still has a step for it on a host with this manager and these flags. */
  predicate Recipe(p: Prereq, manager: string, flags: set<string>)
  {
    var missing := MissingFlag(p.requiresFacts, flags);
    && !p.hardware && (missing.None? || missing.value == "")
    && manager in p.install && p.install[manager] != ""
  }

  predicate CapabilityHeld(p: Prereq, flags: set<string>)
  {
    p.kind.Capability? && p.probe in flags
  }

  /** What "ok" promises of one prerequisite: not planned again means present, whatever else is detected. */
  ghost predicate TrustedFor(p: Prereq, manager: string, flags: set<string>)
  {
    forall d: Facts :: d.pkgManager == manager && d.flags == flags && !Classify(p, d).ToInstall? ==> Present(p, d)
  }

  /** Not planned again means present if and only if the manager and flags still give it a recipe. */
  lemma {:induction false} TrustedIff(p: Prereq, manager: string, flags: set<string>)
    ensures TrustedFor(p, manager, flags) <==> Recipe(p, manager, flags) || CapabilityHeld(p, flags)
  {
    if !Recipe(p, manager, flags) && !CapabilityHeld(p, flags) {
      var bare := Facts(manager, {}, {}, {}, flags);
      assert !Present(p, bare) && !Classify(p, bare).ToInstall?;
    }
  }

  /** What "ok" promises of a plan, over every second detection with this manager and these flags. */
  ghost predicate OkTrusted(ps: seq<Prereq>, facts: Facts, manager: string, flags: set<string>)
  {
    forall d: Facts, oks :: d.pkgManager == manager && d.flags == flags && OutcomeOf(ps, facts, d, oks) == Ok ==>
      forall p :: p in Where(ps, facts, IsToInstall) ==> Present(p, d)
  }

  predicate LooksInBinaries(k: Kind)
  {
    k.Binary? || k.OsPackage? || k.Service?
  }

  /** The two are found, or not, by one and the same look at the host. */
  predicate SameLook(p: Prereq, q: Prereq)
  {
    p.probe == q.probe && (p.kind == q.kind || (LooksInBinaries(p.kind) && LooksInBinaries(q.kind)))
  }

  /** No detection with these flags finds it, and its recipe is planned every time. */
  predicate NeverDone(q: Prereq, manager: string, flags: set<string>)
  {
    Recipe(q, manager, flags) && (q.kind.Other? || (q.kind.Capability? && q.probe !in flags))
  }

  /** Something with a recipe is found by the same look, or the capability is held. */
  ghost predicate Covered(ps: seq<Prereq>, p: Prereq, manager: string, flags: set<string>)
  {
    CapabilityHeld(p, flags) || exists q :: q in ps && SameLook(p, q) && Recipe(q, manager, flags)
  }

  /** A host on which everything is found, except what is found by looking for `p`. */
  function AllBut(ps: seq<Prereq>, p: Prereq, manager: string, flags: set<string>): Facts
  {
    Facts(manager,
          set q | q in ps && LooksInBinaries(q.kind) && !SameLook(p, q) :: q.probe,
          set q | q in ps && q.kind.Device? && !SameLook(p, q) :: q.probe,
          set q | q in ps && q.kind.Group? && !SameLook(p, q) :: q.probe,
          flags)
  }

  lemma {:induction false} AllButFinds(ps: seq<Prereq>, p: Prereq, manager: string, flags: set<string>, q: Prereq)
    requires q in ps && !NeverDone(q, manager, flags) && !(SameLook(p, q) && Recipe(q, manager, flags))
    ensures !Classify(q, AllBut(ps, p, manager, flags)).ToInstall?
  {
    if Recipe(q, manager, flags) {
      assert Present(q, AllBut(ps, p, manager, flags));
    }
  }

  lemma {:induction false} AllButMisses(ps: seq<Prereq>, p: Prereq, manager: string, flags: set<string>)
    requires !CapabilityHeld(p, flags)
    ensures !Present(p, AllBut(ps, p, manager, flags))
  {
  }

  lemma {:induction false} NothingPlanned(ps: seq<Prereq>, d: Facts)
    requires forall q :: q in ps ==> !Classify(q, d).ToInstall?
    ensures Where(ps, d, IsToInstall) == []
  {
    WhereIn(ps, d, IsToInstall);
    HeadIn(Where(ps, d, IsToInstall));
  }

  /** A planned prerequisite that nothing covers can be missing on a host that is reported "ok". */
  lemma {:induction false} UncoveredBreaksTrust(ps: seq<Prereq>, facts: Facts, manager: string, flags: set<string>,
                                                p: Prereq)
    requires p in Where(ps, facts, IsToInstall) && !Covered(ps, p, manager, flags)
    requires forall q :: q in ps ==> !NeverDone(q, manager, flags)
    ensures !OkTrusted(ps, facts, manager, flags)
  {
    var d := AllBut(ps, p, manager, flags);
    forall q | q in ps ensures !Classify(q, d).ToInstall? {
      AllButFinds(ps, p, manager, flags, q);
    }
    NothingPlanned(ps, d);
    AllButMisses(ps, p, manager, flags);
    assert OutcomeOf(ps, facts, d, [true]) == Ok;
  }

  lemma {:induction false} SameLookPresent(p: Prereq, q: Prereq, d: Facts)
    requires SameLook(p, q)
    ensures Present(p, d) <==> Present(q, d)
  {
  }

  lemma {:induction false} CoveredIsPresent(ps: seq<Prereq>, facts: Facts, manager: string, flags: set<string>,
                                            p: Prereq, d: Facts, oks: seq<bool>)
    requires p in Where(ps, facts, IsToInstall) && Covered(ps, p, manager, flags)
    requires d.pkgManager == manager && d.flags == flags && OutcomeOf(ps, facts, d, oks) == Ok
    ensures Present(p, d)
  {
    WhereIn(ps, d, IsToInstall);
    if !CapabilityHeld(p, flags) {
      var q :| q in ps && SameLook(p, q) && Recipe(q, manager, flags);
      assert q !in Where(ps, d, IsToInstall);
      SameLookPresent(p, q, d);
    }
  }

  lemma {:induction false} NeverOk(ps: seq<Prereq>, facts: Facts, manager: string, flags: set<string>, q: Prereq,
                                   d: Facts, oks: seq<bool>)
    requires q in ps && NeverDone(q, manager, flags) && d.pkgManager == manager && d.flags == flags
    ensures OutcomeOf(ps, facts, d, oks) != Ok
  {
    WhereIn(ps, d, IsToInstall);
    assert q in Where(ps, d, IsToInstall);
  }

  /**
   * "ok" can be trusted on every host with this manager and these flags if and only if each
   * planned prerequisite is covered by one that the manager still has a recipe for, or some
   * prerequisite is planned for ever, so that "ok" is never reported at all.
   */
  lemma {:induction false} OkTrustedIff(ps: seq<Prereq>, facts: Facts, manager: string, flags: set<string>)
    ensures OkTrusted(ps, facts, manager, flags) <==>
            (exists q :: q in ps && NeverDone(q, manager, flags))
            || forall p :: p in Where(ps, facts, IsToInstall) ==> Covered(ps, p, manager, flags)
  {
    if q :| q in ps && NeverDone(q, manager, flags) {
      forall d: Facts, oks | d.pkgManager == manager && d.flags == flags ensures OutcomeOf(ps, facts, d, oks) != Ok {
        NeverOk(ps, facts, manager, flags, q, d, oks);
      }
    } else if p :| p in Where(ps, facts, IsToInstall) && !Covered(ps, p, manager, flags) {
      UncoveredBreaksTrust(ps, facts, manager, flags, p);
    } else {
      AllCoveredTrusted(ps, facts, manager, flags);
    }
  }

  lemma {:induction false} AllCoveredTrusted(ps: seq<Prereq>, facts: Facts, manager: string, flags: set<string>)
    requires forall p :: p in Where(ps, facts, IsToInstall) ==> Covered(ps, p, manager, flags)
    ensures OkTrusted(ps, facts, manager, flags)
  {
    forall d: Facts, oks, p | d.pkgManager == manager && d.flags == flags && OutcomeOf(ps, facts, d, oks) == Ok
                              && p in Where(ps, facts, IsToInstall)
      ensures Present(p, d)
    {
      CoveredIsPresent(ps, facts, manager, flags, p, d, oks);
    }
  }

  /** A package manager and flags that stay what they were keep every recipe, so "ok" means what it says. */
  lemma {:induction false} OkMeansPresent(ps: seq<Prereq>, facts: Facts, detected: Facts, stepOks: seq<bool>, p: Prereq)
    requires OutcomeOf(ps, facts, detected, stepOks) == Ok
    requires detected.pkgManager == facts.pkgManager && detected.flags == facts.flags
    requires p in Where(ps, facts, IsToInstall)
    ensures Present(p, detected)
  {
    WhereIn(ps, facts, IsToInstall);
    forall q | q in Where(ps, facts, IsToInstall) ensures Covered(ps, q, facts.pkgManager, facts.flags) {
      assert Recipe(q, facts.pkgManager, facts.flags) && SameLook(q, q);
    }
    OkTrustedIff(ps, facts, facts.pkgManager, facts.flags);
  }

  /** If the package manager goes away, "ok" is reported with nothing installed. */
  lemma {:induction false} OkWithoutManager()
    ensures exists ps, facts, detected, p ::
              OutcomeOf(ps, facts, detected, [false]) == Ok && p in Where(ps, facts, IsToInstall)
                  && !Present(p, detected)
  {
    var p := Prereq("docker", Binary, "docker", map["brew" := "brew install docker"], [], false);
    var facts, detected := Facts("brew", {}, {}, {}, {}), Facts("", {}, {}, {}, {});
    assert [p][..0] == [];
    assert Where([p], facts, IsToInstall) == [p];
    assert Where([p], detected, IsToInstall) == [];
    assert OutcomeOf([p], facts, detected, [false]) == Ok;
  }
}
