/**
  Unread fields across build configurations. Each unit and configuration yields
  the candidate fields it assigns and, among them, those it never reads; the
  accumulator keeps only totals, and reports a field when the two totals agree.
 */
module Accumulator {
  import opened Order

  datatype FieldKey = FieldKey(pkg: string, typ: string, field: string)

  datatype Position = Position(file: string, line: int, col: int)

  datatype Finding = Finding(key: FieldKey, declared: Position, assigned_: seq<Position>)

  datatype AnalysisResult = AnalysisResult(assigned_: seq<FieldKey>, findings: seq<Finding>)

  // ---------------------------------------------------------------------
  // The comparators
  // ---------------------------------------------------------------------

  predicate FieldKeyLess(a: FieldKey, b: FieldKey) {
    if a.pkg != b.pkg then StringLess(a.pkg, b.pkg)
    else if a.typ != b.typ then StringLess(a.typ, b.typ)
    else StringLess(a.field, b.field)
  }

  predicate PositionLess(a: Position, b: Position) {
    if a.file != b.file then StringLess(a.file, b.file)
    else if a.line != b.line then a.line < b.line
    else a.col < b.col
  }

  predicate FindingLess(a: Finding, b: Finding) {
    FieldKeyLess(a.key, b.key)
  }

  /** Package, type, field. */
  lemma FieldKeyLessIff(a: FieldKey, b: FieldKey)
    ensures FieldKeyLess(a, b) <==> FieldsLess([a.pkg, a.typ, a.field], [b.pkg, b.typ, b.field])
  {
    hide StringLess;
    var x, y := [a.pkg, a.typ, a.field], [b.pkg, b.typ, b.field];
    StringLessIrreflexive(a.pkg);
    StringLessIrreflexive(a.typ);
    assert FieldKeyLess(a, b) <==> (LessAtField(x, y, 0) || LessAtField(x, y, 1) || LessAtField(x, y, 2));
    forall k: nat | LessAtField(x, y, k) ensures k == 0 || k == 1 || k == 2 {
    }
  }

  /** File, then line, then column. */
  lemma PositionLessIff(a: Position, b: Position)
    ensures PositionLess(a, b) <==>
            || StringLess(a.file, b.file)
            || (a.file == b.file && a.line < b.line)
            || (a.file == b.file && a.line == b.line && a.col < b.col)
  {
    StringLessIrreflexive(a.file);
  }

  lemma FieldKeyLessIsStrictTotal()
    ensures StrictTotal(FieldKeyLess)
  {
    forall a: FieldKey ensures !FieldKeyLess(a, a) {
      StringLessIrreflexive(a.field);
    }
    forall a: FieldKey, b: FieldKey ensures FieldKeyLess(a, b) || FieldKeyLess(b, a) || a == b {
      StringLessConnected(a.pkg, b.pkg);
      StringLessConnected(a.typ, b.typ);
      StringLessConnected(a.field, b.field);
    }
    forall a: FieldKey, b: FieldKey, c: FieldKey | FieldKeyLess(a, b) && FieldKeyLess(b, c) ensures FieldKeyLess(a, c) {
      StringOrder(a.pkg, b.pkg, c.pkg);
      StringOrder(b.pkg, a.pkg, b.pkg);
      StringOrder(a.typ, b.typ, c.typ);
      StringOrder(b.typ, a.typ, b.typ);
      StringOrder(a.field, b.field, c.field);
    }
  }

  lemma PositionLessIsStrictTotal()
    ensures StrictTotal(PositionLess)
  {
    forall a: Position, b: Position ensures PositionLess(a, b) || PositionLess(b, a) || a == b {
      StringLessConnected(a.file, b.file);
    }
    forall a: Position, b: Position, c: Position | PositionLess(a, b) && PositionLess(b, c) ensures PositionLess(a, c) {
      StringOrder(a.file, b.file, c.file);
      StringOrder(b.file, a.file, b.file);
    }
  }

  // ---------------------------------------------------------------------
  // Sorting and compacting positions
  // ---------------------------------------------------------------------

  /** slices.Compact: keeps the first of each run of equal elements. */
  function Compact(s: seq<Position>): seq<Position> {
    if |s| <= 1 then s
    else if s[0] == s[1] then Compact(s[1..])
    else [s[0]] + Compact(s[1..])
  }

  lemma {:induction false} CompactIncreases(s: seq<Position>)
    requires Sorted(s, PositionLess)
    ensures Increasing(Compact(s), PositionLess)
    ensures forall x :: x in Compact(s) <==> x in s
    decreases |s|
  {
    PositionLessIsStrictTotal();
    hide PositionLess;
    if |s| > 1 {
      CompactIncreases(s[1..]);
      assert s == [s[0]] + s[1..];
      assert s[1] in s[1..];
      if s[0] != s[1] {
        var rest := Compact(s[1..]);
        forall j | 0 <= j < |rest| ensures PositionLess(s[0], rest[j]) {
          assert rest[j] in s[1..];
          var i :| 0 <= i < |s[1..]| && s[1..][i] == rest[j];
          assert !PositionLess(s[i + 1], s[0]) && !PositionLess(s[1], s[0]) && !PositionLess(s[i + 1], s[1]);
        }
      }
    }
  }

  /** Sorted and duplicate-free, with these elements. */
  ghost predicate Lists(s: seq<Position>, elements: set<Position>) {
    Increasing(s, PositionLess) && forall x :: x in s <==> x in elements
  }

  function SortCompact(s: seq<Position>): seq<Position> {
    Compact(Sort(s, PositionLess))
  }

  lemma SortCompactLists(s: seq<Position>)
    ensures Lists(SortCompact(s), set x | x in s)
  {
    PositionLessIsStrictTotal();
    TotalIsWeak(PositionLess);
    SortSorts(s, PositionLess);
    CompactIncreases(Sort(s, PositionLess));
    SameElements(Sort(s, PositionLess), s);
  }

  lemma ListsIsUnique(s: seq<Position>, t: seq<Position>, elements: set<Position>)
    requires Lists(s, elements) && Lists(t, elements)
    ensures s == t
  {
    PositionLessIsStrictTotal();
    SortedUnique(s, t, PositionLess);
  }

  // ---------------------------------------------------------------------
  // One analysis result
  // ---------------------------------------------------------------------

  function KeysOf(fs: seq<Finding>): seq<FieldKey> {
    seq(|fs|, i requires 0 <= i < |fs| => fs[i].key)
  }

  /** Findings are among the assigned fields, each with sorted, distinct positions. */
  ghost predicate ResultOk(r: AnalysisResult) {
    && multiset(KeysOf(r.findings)) <= multiset(r.assigned_)
    && forall f :: f in r.findings ==> Increasing(f.assigned_, PositionLess)
  }

  /** A candidate field after the walk. */
  datatype Candidate = Candidate(key: FieldKey, declared: Position, assignments: seq<Position>, read: bool)

  function AssignedKeys(cs: seq<Candidate>): seq<FieldKey> {
    if cs == [] then []
    else (if cs[0].assignments == [] then [] else [cs[0].key]) + AssignedKeys(cs[1..])
  }

  function Unread(cs: seq<Candidate>): seq<Finding> {
    if cs == [] then []
    else
      (if cs[0].assignments == [] || cs[0].read then []
       else [Finding(cs[0].key, cs[0].declared, SortCompact(cs[0].assignments))]) + Unread(cs[1..])
  }

  /** The fields that some literal sets. */
  lemma {:induction false} AssignedKeysAre(cs: seq<Candidate>, k: FieldKey)
    ensures k in AssignedKeys(cs) <==> exists c :: c in cs && c.key == k && c.assignments != []
    decreases |cs|
  {
    if cs != [] {
      AssignedKeysAre(cs[1..], k);
      assert cs == [cs[0]] + cs[1..];
      assert cs[0] in cs;
    }
  }

  /** A finding is a field that is set and never read, with each place that sets it once, in order. */
  ghost predicate FindingOf(c: Candidate, f: Finding) {
    && c.assignments != [] && !c.read
    && f.key == c.key && f.declared == c.declared
    && Increasing(f.assigned_, PositionLess) && forall x :: x in f.assigned_ <==> x in c.assignments
  }

  lemma {:induction false} UnreadAre(cs: seq<Candidate>, f: Finding)
    ensures f in Unread(cs) <==> exists c :: c in cs && FindingOf(c, f)
    decreases |cs|
  {
    if cs != [] {
      UnreadAre(cs[1..], f);
      assert cs == [cs[0]] + cs[1..];
      OwnFinding(cs[0], f);
      hide FindingOf, SortCompact;
    }
  }

  lemma OwnFinding(c: Candidate, f: Finding)
    ensures FindingOf(c, f) <==>
            c.assignments != [] && !c.read && f == Finding(c.key, c.declared, SortCompact(c.assignments))
  {
    SortCompactLists(c.assignments);
    hide SortCompact, PositionLess;
    if FindingOf(c, f) {
      ListsIsUnique(f.assigned_, SortCompact(c.assignments), set x | x in c.assignments);
    }
  }

  lemma FindingsWeaklyOrdered()
    ensures StrictWeak(FindingLess)
  {
    FieldKeyLessIsStrictTotal();
    hide FieldKeyLess;
  }

  lemma {:induction false} UnreadIsAssigned(cs: seq<Candidate>)
    ensures multiset(KeysOf(Unread(cs))) <= multiset(AssignedKeys(cs))
    ensures forall f :: f in Unread(cs) ==> Increasing(f.assigned_, PositionLess)
    decreases |cs|
  {
    hide SortCompact, KeysOf;
    KeysOfNone();
    if cs != [] {
      var c := cs[0];
      UnreadIsAssigned(cs[1..]);
      if c.assignments != [] && !c.read {
        SortCompactLists(c.assignments);
        KeysOfCons(Finding(c.key, c.declared, SortCompact(c.assignments)), Unread(cs[1..]));
      } else {
        assert Unread(cs) == Unread(cs[1..]);
      }
    }
  }

  lemma KeysOfNone()
    ensures KeysOf([]) == []
  {
  }

  lemma KeysOfCons(f: Finding, fs: seq<Finding>)
    ensures KeysOf([f] + fs) == [f.key] + KeysOf(fs)
  {
  }

  lemma KeysOfSnoc(fs: seq<Finding>, f: Finding)
    ensures KeysOf(fs + [f]) == KeysOf(fs) + [f.key]
  {
  }

  lemma TakeOut<T>(s: seq<T>, i: nat)
    requires i < |s|
    ensures multiset(s) == multiset{s[i]} + multiset(s[..i] + s[i + 1..])
  {
    assert s == s[..i] + [s[i]] + s[i + 1..];
  }

  lemma {:induction false} SameKeys(a: seq<Finding>, b: seq<Finding>)
    requires multiset(a) == multiset(b)
    ensures multiset(KeysOf(a)) == multiset(KeysOf(b))
    decreases |a|
  {
    hide KeysOf;
    KeysOfNone();
    SameElements(a, b);
    if a != [] {
      assert a[0] in b;
      var i :| 0 <= i < |b| && b[i] == a[0];
      var rest := b[..i] + b[i + 1..];
      TakeOut(b, i);
      TakeOut(a, 0);
      assert a[..0] + a[1..] == a[1..];
      Cancel(a[0], multiset(a[1..]), multiset(rest));
      SameKeys(a[1..], rest);
      KeysTakeOut(b, i);
      KeysTakeOut(a, 0);
    }
  }

  lemma Cancel<T>(x: T, a: multiset<T>, b: multiset<T>)
    requires multiset{x} + a == multiset{x} + b
    ensures a == b
  {
    assert a == (multiset{x} + a) - multiset{x};
    assert b == (multiset{x} + b) - multiset{x};
  }

  lemma KeysTakeOut(s: seq<Finding>, i: nat)
    requires i < |s|
    ensures multiset(KeysOf(s)) == multiset{s[i].key} + multiset(KeysOf(s[..i] + s[i + 1..]))
  {
    TakeOut(KeysOf(s), i);
    assert KeysOf(s)[..i] + KeysOf(s)[i + 1..] == KeysOf(s[..i] + s[i + 1..]);
  }

  /** analysis.result, over the candidates in whatever order the map yields them. */
  method BuildResult(cs: seq<Candidate>) returns (r: AnalysisResult)
    ensures ResultOk(r)
    ensures multiset(r.assigned_) == multiset(AssignedKeys(cs))
    ensures multiset(r.findings) == multiset(Unread(cs))
    ensures Sorted(r.assigned_, FieldKeyLess) && Sorted(r.findings, FindingLess)
  {
    hide AssignedKeys, Unread, FieldKeyLess, FindingLess, KeysOf, PositionLess, Sort;
    var keys, found := CollectResult(cs);
    r := AnalysisResult(Sort(keys, FieldKeyLess), Sort(found, FindingLess));
    FieldKeyLessIsStrictTotal();
    TotalIsWeak(FieldKeyLess);
    SortSorts(keys, FieldKeyLess);
    FindingsWeaklyOrdered();
    SortSorts(found, FindingLess);
    UnreadIsAssigned(cs);
    SameKeys(r.findings, found);
    SameElements(r.findings, found);
  }

  method CollectResult(cs: seq<Candidate>) returns (keys: seq<FieldKey>, found: seq<Finding>)
    ensures keys == AssignedKeys(cs) && found == Unread(cs)
  {
    hide SortCompact, AssignedKeys, Unread;
    keys, found := [], [];
    assert cs[0..] == cs;
    for i := 0 to |cs|
      invariant keys + AssignedKeys(cs[i..]) == AssignedKeys(cs)
      invariant found + Unread(cs[i..]) == Unread(cs)
    {
      CollectStep(cs, i);
      var c := cs[i];
      if c.assignments == [] {
        continue;
      }
      keys := keys + [c.key];
      if c.read {
        continue;
      }
      found := found + [Finding(c.key, c.declared, SortCompact(c.assignments))];
    }
    NothingCollected(cs[|cs|..]);
  }

  lemma CollectStep(cs: seq<Candidate>, i: nat)
    requires i < |cs|
    ensures AssignedKeys(cs[i..]) == (if cs[i].assignments == [] then [] else [cs[i].key]) + AssignedKeys(cs[i + 1..])
    ensures Unread(cs[i..]) ==
            (if cs[i].assignments == [] || cs[i].read then []
             else [Finding(cs[i].key, cs[i].declared, SortCompact(cs[i].assignments))]) + Unread(cs[i + 1..])
  {
    assert cs[i..][1..] == cs[i + 1..];
  }

  lemma NothingCollected(cs: seq<Candidate>)
    requires cs == []
    ensures AssignedKeys(cs) == [] && Unread(cs) == []
  {
  }

  // ---------------------------------------------------------------------
  // All results together
  // ---------------------------------------------------------------------

  function AllAssigned(rs: seq<AnalysisResult>): seq<FieldKey> {
    if rs == [] then [] else AllAssigned(rs[..|rs| - 1]) + rs[|rs| - 1].assigned_
  }

  function AllFindings(rs: seq<AnalysisResult>): seq<Finding> {
    if rs == [] then [] else AllFindings(rs[..|rs| - 1]) + rs[|rs| - 1].findings
  }

  function AssignedIn(r: AnalysisResult, k: FieldKey): nat {
    multiset(r.assigned_)[k]
  }

  function FoundIn(r: AnalysisResult, k: FieldKey): nat {
    multiset(KeysOf(r.findings))[k]
  }

  function TotalAssigned(rs: seq<AnalysisResult>, k: FieldKey): nat {
    multiset(AllAssigned(rs))[k]
  }

  function TotalFound(rs: seq<AnalysisResult>, k: FieldKey): nat {
    multiset(KeysOf(AllFindings(rs)))[k]
  }

  lemma KeysOfConcat(a: seq<Finding>, b: seq<Finding>)
    ensures KeysOf(a + b) == KeysOf(a) + KeysOf(b)
  {
  }

  /** Equal totals force equality in every result, because no result finds more than it assigns. */
  lemma {:induction false} EqualTotalsIffPointwise(rs: seq<AnalysisResult>, k: FieldKey)
    requires forall r :: r in rs ==> ResultOk(r)
    ensures TotalFound(rs, k) <= TotalAssigned(rs, k)
    ensures TotalFound(rs, k) == TotalAssigned(rs, k) <==> forall r :: r in rs ==> FoundIn(r, k) == AssignedIn(r, k)
    ensures TotalFound(rs, k) > 0 <==> exists r :: r in rs && FoundIn(r, k) > 0
    decreases |rs|
  {
    if rs != [] {
      var init, last := rs[..|rs| - 1], rs[|rs| - 1];
      assert rs == init + [last];
      assert last in rs && ResultOk(last);
      EqualTotalsIffPointwise(init, k);
      KeysOfConcat(AllFindings(init), last.findings);
      assert TotalFound(rs, k) == TotalFound(init, k) + FoundIn(last, k);
      assert TotalAssigned(rs, k) == TotalAssigned(init, k) + AssignedIn(last, k);
      assert FoundIn(last, k) <= AssignedIn(last, k);
      hide TotalFound, TotalAssigned, FoundIn, AssignedIn, ResultOk;
      assert forall r :: r in rs <==> r in init || r == last;
    }
  }

  /** The field is found in some result, and in every result that assigns it, as often as assigned. */
  ghost predicate Unused(rs: seq<AnalysisResult>, k: FieldKey) {
    && (exists r :: r in rs && FoundIn(r, k) > 0)
    && (forall r :: r in rs ==> FoundIn(r, k) == AssignedIn(r, k))
  }

  /** When no result lists a field twice: a finding in every configuration that assigns it. */
  lemma UnusedIffFoundWhereverAssigned(rs: seq<AnalysisResult>, k: FieldKey)
    requires forall r :: r in rs ==> ResultOk(r) && Distinct(r.assigned_)
    ensures Unused(rs, k) <==>
            && (exists r :: r in rs && k in KeysOf(r.findings))
            && (forall r :: r in rs && k in r.assigned_ ==> k in KeysOf(r.findings))
  {
    forall r | r in rs
      ensures FoundIn(r, k) <= AssignedIn(r, k) <= 1
      ensures k in KeysOf(r.findings) <==> FoundIn(r, k) > 0
      ensures k in r.assigned_ <==> AssignedIn(r, k) > 0
    {
      DistinctMultiset(r.assigned_);
    }
    hide FoundIn, AssignedIn, KeysOf;
  }

  function PositionsIn(fs: seq<Finding>, k: FieldKey): set<Position> {
    set f, x | f in fs && f.key == k && x in f.assigned_ :: x
  }

  /** The first finding for the key. */
  ghost predicate FirstFinding(fs: seq<Finding>, k: FieldKey, declared: Position) {
    exists i :: 0 <= i < |fs| && fs[i].key == k && fs[i].declared == declared &&
                forall j :: 0 <= j < i ==> fs[j].key != k
  }

  // ---------------------------------------------------------------------
  // The accumulator
  // ---------------------------------------------------------------------

  ghost predicate Counts(m: map<FieldKey, nat>, keys: seq<FieldKey>) {
    forall k :: (k in m <==> k in keys) && (k in m ==> m[k] == multiset(keys)[k])
  }

  /** The merged finding of each key. */
  ghost predicate Merged(m: map<FieldKey, Finding>, fs: seq<Finding>) {
    && (forall f :: f in fs ==> f.key in m)
    && (forall k :: k in m ==> MergedEntry(m[k], fs, k))
  }

  ghost predicate MergedEntry(entry: Finding, fs: seq<Finding>, k: FieldKey) {
    entry.key == k && Lists(entry.assigned_, PositionsIn(fs, k)) && FirstFinding(fs, k, entry.declared)
  }

  function Increment(m: map<FieldKey, nat>, k: FieldKey): map<FieldKey, nat> {
    m[k := if k in m then m[k] + 1 else 1]
  }

  lemma CountStep(m: map<FieldKey, nat>, keys: seq<FieldKey>, k: FieldKey)
    requires Counts(m, keys)
    ensures Counts(Increment(m, k), keys + [k])
  {
    assert k !in keys ==> multiset(keys)[k] == 0;
    forall j ensures j in Increment(m, k) <==> j in keys + [k] {
    }
  }

  /** One more finding merged. */
  function MergeOne(m: map<FieldKey, Finding>, f: Finding): map<FieldKey, Finding> {
    m[f.key := if f.key !in m then f
               else m[f.key].(assigned_ := SortCompact(m[f.key].assigned_ + f.assigned_))]
  }

  lemma PositionsStep(fs: seq<Finding>, f: Finding, k: FieldKey)
    ensures PositionsIn(fs + [f], k) ==
            if f.key == k then PositionsIn(fs, k) + (set x | x in f.assigned_) else PositionsIn(fs, k)
  {
    assert forall g :: g in fs + [f] <==> g in fs || g == f;
  }

  lemma FirstFindingStep(fs: seq<Finding>, f: Finding, k: FieldKey, declared: Position)
    ensures FirstFinding(fs, k, declared) ==> FirstFinding(fs + [f], k, declared)
    ensures f.key == k && (forall g :: g in fs ==> g.key != k) ==> FirstFinding(fs + [f], k, f.declared)
  {
    var all := fs + [f];
    if FirstFinding(fs, k, declared) {
      var i :| 0 <= i < |fs| && fs[i].key == k && fs[i].declared == declared
               && forall j :: 0 <= j < i ==> fs[j].key != k;
      assert all[i] == fs[i];
      assert forall j :: 0 <= j < i ==> all[j] == fs[j];
    }
    if f.key == k && forall g :: g in fs ==> g.key != k {
      assert all[|fs|] == f;
    }
  }

  lemma MergeStep(m: map<FieldKey, Finding>, fs: seq<Finding>, f: Finding)
    requires Merged(m, fs) && Increasing(f.assigned_, PositionLess)
    ensures Merged(MergeOne(m, f), fs + [f])
  {
    hide SortCompact, PositionLess, PositionsIn, FirstFinding, Lists;
    var next := MergeOne(m, f);
    forall k | k in next ensures MergedEntry(next[k], fs + [f], k) {
      PositionsStep(fs, f, k);
      FirstFindingStep(fs, f, k, next[k].declared);
      if k == f.key {
        if k in m {
          ListsBoth(m[k].assigned_, PositionsIn(fs, k), f.assigned_);
        } else {
          NoPositions(fs, k);
          ListsNew(f.assigned_);
        }
      }
    }
  }

  lemma ListsNew(s: seq<Position>)
    requires Increasing(s, PositionLess)
    ensures Lists(s, {} + (set x | x in s))
  {
  }

  lemma NoPositions(fs: seq<Finding>, k: FieldKey)
    requires forall f :: f in fs ==> f.key != k
    ensures PositionsIn(fs, k) == {}
  {
  }

  lemma ListsBoth(s: seq<Position>, elements: set<Position>, t: seq<Position>)
    requires Lists(s, elements)
    ensures Lists(SortCompact(s + t), elements + (set x | x in t))
  {
    SortCompactLists(s + t);
    hide SortCompact;
    assert (set x | x in s + t) == elements + (set x | x in t);
  }

  class Accumulator {
    var assignedIn: map<FieldKey, nat>
    var findingIn: map<FieldKey, nat>
    var findings: map<FieldKey, Finding>
    var packages: set<string>

    ghost predicate Holds(rs: seq<AnalysisResult>)
      reads this
    {
      && Counts(assignedIn, AllAssigned(rs)) && Counts(findingIn, KeysOf(AllFindings(rs)))
      && Merged(findings, AllFindings(rs))
    }

    constructor ()
      ensures Holds([]) && packages == {}
    {
      assignedIn, findingIn, findings, packages := map[], map[], map[], {};
    }

    /** Folds one more result in. */
    method Add(unit: string, res: AnalysisResult, ghost rs: seq<AnalysisResult>)
      requires Holds(rs) && ResultOk(res)
      modifies this
      ensures Holds(rs + [res]) && packages == old(packages) + {unit}
    {
      hide Counts, Merged, KeysOf, SortCompact, Increment, MergeOne;
      assert (rs + [res])[..|rs|] == rs;
      packages := packages + {unit};
      ghost var keys, fs := AllAssigned(rs), AllFindings(rs);
      assert keys + res.assigned_[..0] == keys;
      for i := 0 to |res.assigned_|
        invariant Counts(assignedIn, keys + res.assigned_[..i])
        invariant Counts(findingIn, KeysOf(fs)) && Merged(findings, fs) && packages == old(packages) + {unit}
      {
        assert keys + res.assigned_[..i + 1] == (keys + res.assigned_[..i]) + [res.assigned_[i]];
        CountStep(assignedIn, keys + res.assigned_[..i], res.assigned_[i]);
        assignedIn := Increment(assignedIn, res.assigned_[i]);
      }
      assert res.assigned_[..|res.assigned_|] == res.assigned_;
      assert fs + res.findings[..0] == fs;
      for i := 0 to |res.findings|
        invariant Counts(assignedIn, keys + res.assigned_) && packages == old(packages) + {unit}
        invariant Counts(findingIn, KeysOf(fs + res.findings[..i])) && Merged(findings, fs + res.findings[..i])
      {
        var f := res.findings[i];
        ghost var done := fs + res.findings[..i];
        assert fs + res.findings[..i + 1] == done + [f];
        KeysOfSnoc(done, f);
        CountStep(findingIn, KeysOf(done), f.key);
        MergeStep(findings, done, f);
        findingIn := Increment(findingIn, f.key);
        findings := MergeOne(findings, f);
      }
      assert res.findings[..|res.findings|] == res.findings;
    }

    /** The findings whose two totals agree, in key order. */
    method Report(ghost rs: seq<AnalysisResult>) returns (report: seq<Finding>)
      requires Holds(rs) && forall r :: r in rs ==> ResultOk(r)
      ensures ReportOf(rs, report)
    {
      hide Counts, Merged, ResultOk;
      var keys := Enumerate(findings.Keys);
      report := [];
      for i := 0 to |keys|
        invariant Selected(findings, findingIn, assignedIn, keys[..i], report)
      {
        var k := keys[i];
        assert k in keys && keys[..i + 1] == keys[..i] + [k];
        HoldsCount(rs, findings, findingIn, assignedIn, k);
        SelectStep(findings, findingIn, assignedIn, keys, i, report);
        if findingIn[k] == assignedIn[k] {
          report := report + [findings[k]];
        }
      }
      assert keys[..|keys|] == keys;
      SelectedIsReport(rs, findings, findingIn, assignedIn, keys, report);
      report := Sort(report, FindingLess);
    }
  }

  /** Exactly the unused fields, in key order, each with all its positions and its first declaration. */
  ghost predicate ReportOf(rs: seq<AnalysisResult>, report: seq<Finding>) {
    && Increasing(KeysOf(report), FieldKeyLess)
    && (forall k :: k in KeysOf(report) <==> Unused(rs, k))
    && (forall f :: f in report ==> MergedEntry(f, AllFindings(rs), f.key))
  }

  ghost predicate Selected(findings: map<FieldKey, Finding>, findingIn: map<FieldKey, nat>,
                           assignedIn: map<FieldKey, nat>, keys: seq<FieldKey>, report: seq<Finding>)
  {
    && Distinct(KeysOf(report))
    && (forall f :: f in report ==> f.key in keys && f.key in findings && f == findings[f.key])
    && (forall k :: k in keys && k in findings && k in findingIn && k in assignedIn ==>
          (findingIn[k] == assignedIn[k] <==> findings[k] in report))
  }

  lemma SelectStep(findings: map<FieldKey, Finding>, findingIn: map<FieldKey, nat>, assignedIn: map<FieldKey, nat>,
                   keys: seq<FieldKey>, i: nat, report: seq<Finding>)
    requires Distinct(keys) && i < |keys|
    requires keys[i] in findings && keys[i] in findingIn && keys[i] in assignedIn
    requires forall k :: k in findings ==> findings[k].key == k
    requires Selected(findings, findingIn, assignedIn, keys[..i], report)
    ensures Selected(findings, findingIn, assignedIn, keys[..i + 1],
                     if findingIn[keys[i]] == assignedIn[keys[i]] then report + [findings[keys[i]]] else report)
  {
    var k := keys[i];
    assert keys[..i + 1] == keys[..i] + [k] && k !in keys[..i];
    if findingIn[k] == assignedIn[k] {
      var more := report + [findings[k]];
      forall f ensures f in more <==> f in report || f == findings[k] {
      }
      NewKeyStaysDistinct(report, findings[k]);
      hide KeysOf;
    } else {
      hide KeysOf;
    }
  }

  lemma NewKeyStaysDistinct(fs: seq<Finding>, f: Finding)
    requires Distinct(KeysOf(fs)) && forall g :: g in fs ==> g.key != f.key
    ensures Distinct(KeysOf(fs + [f]))
  {
    KeysOfSnoc(fs, f);
    assert forall j :: 0 <= j < |fs| ==> KeysOf(fs)[j] == fs[j].key && fs[j] in fs;
  }

  lemma HoldsCount(rs: seq<AnalysisResult>, findings: map<FieldKey, Finding>, findingIn: map<FieldKey, nat>,
                   assignedIn: map<FieldKey, nat>, k: FieldKey)
    requires Counts(assignedIn, AllAssigned(rs)) && Counts(findingIn, KeysOf(AllFindings(rs)))
    requires Merged(findings, AllFindings(rs)) && forall r :: r in rs ==> ResultOk(r)
    requires k in findings
    ensures k in findingIn && k in assignedIn
    ensures findingIn[k] == assignedIn[k] <==> Unused(rs, k)
    ensures forall j :: j in findings ==> findings[j].key == j
  {
    var fs := AllFindings(rs);
    assert MergedEntry(findings[k], fs, k);
    FoundMeansCounted(fs, k, findings[k].declared);
    EqualTotalsIffPointwise(rs, k);
    assert TotalFound(rs, k) > 0 && TotalAssigned(rs, k) > 0;
  }

  lemma FoundMeansCounted(fs: seq<Finding>, k: FieldKey, declared: Position)
    requires FirstFinding(fs, k, declared)
    ensures k in KeysOf(fs) && multiset(KeysOf(fs))[k] > 0
  {
    var i :| 0 <= i < |fs| && fs[i].key == k;
    assert KeysOf(fs)[i] == k;
    assert k in multiset(KeysOf(fs));
  }

  lemma UnusedIsFound(rs: seq<AnalysisResult>, findings: map<FieldKey, Finding>, k: FieldKey)
    requires Merged(findings, AllFindings(rs)) && Unused(rs, k) && forall r :: r in rs ==> ResultOk(r)
    ensures k in findings
  {
    EqualTotalsIffPointwise(rs, k);
    var fs := AllFindings(rs);
    assert k in multiset(KeysOf(fs));
    var i :| 0 <= i < |fs| && KeysOf(fs)[i] == k;
    assert fs[i] in fs;
  }

  lemma SelectedIsReport(rs: seq<AnalysisResult>, findings: map<FieldKey, Finding>, findingIn: map<FieldKey, nat>,
                         assignedIn: map<FieldKey, nat>, keys: seq<FieldKey>, report: seq<Finding>)
    requires Counts(assignedIn, AllAssigned(rs)) && Counts(findingIn, KeysOf(AllFindings(rs)))
    requires Merged(findings, AllFindings(rs)) && forall r :: r in rs ==> ResultOk(r)
    requires forall k :: k in keys <==> k in findings
    requires Selected(findings, findingIn, assignedIn, keys, report)
    ensures ReportOf(rs, Sort(report, FindingLess))
  {
    var sorted := Sort(report, FindingLess);
    SameElements(sorted, report);
    SortedByKey(report);
    hide Sort, FieldKeyLess, FindingLess, Counts, ResultOk, KeysOf, Unused, MergedEntry, AllFindings, Selected;
    forall k ensures k in KeysOf(sorted) <==> Unused(rs, k) {
      KeyIsReported(sorted, k);
      KeyIsReported(report, k);
      ReportedIffUnused(rs, findings, findingIn, assignedIn, keys, report, k);
    }
    forall f | f in sorted ensures MergedEntry(f, AllFindings(rs), f.key) {
      SelectedEntry(findings, findingIn, assignedIn, keys, report, f);
    }
  }

  lemma SelectedEntry(findings: map<FieldKey, Finding>, findingIn: map<FieldKey, nat>,
                      assignedIn: map<FieldKey, nat>, keys: seq<FieldKey>, report: seq<Finding>, f: Finding)
    requires Selected(findings, findingIn, assignedIn, keys, report) && f in report
    ensures f.key in findings && f == findings[f.key]
  {
  }

  lemma ReportedIffUnused(rs: seq<AnalysisResult>, findings: map<FieldKey, Finding>, findingIn: map<FieldKey, nat>,
                          assignedIn: map<FieldKey, nat>, keys: seq<FieldKey>, report: seq<Finding>, k: FieldKey)
    requires Counts(assignedIn, AllAssigned(rs)) && Counts(findingIn, KeysOf(AllFindings(rs)))
    requires Merged(findings, AllFindings(rs)) && forall r :: r in rs ==> ResultOk(r)
    requires forall k :: k in keys <==> k in findings
    requires Selected(findings, findingIn, assignedIn, keys, report)
    ensures (exists f :: f in report && f.key == k) <==> Unused(rs, k)
  {
    hide Counts, ResultOk, KeysOf, Unused, MergedEntry, AllFindings, Merged;
    if k in findings {
      HoldsCount(rs, findings, findingIn, assignedIn, k);
    } else if Unused(rs, k) {
      UnusedIsFound(rs, findings, k);
    }
  }

  lemma KeyIsReported(fs: seq<Finding>, k: FieldKey)
    ensures k in KeysOf(fs) <==> exists f :: f in fs && f.key == k
  {
    if k in KeysOf(fs) {
      var i :| 0 <= i < |fs| && KeysOf(fs)[i] == k;
      assert fs[i] in fs;
    }
    if f :| f in fs && f.key == k {
      var i :| 0 <= i < |fs| && fs[i] == f;
      assert KeysOf(fs)[i] == k;
    }
  }

  /** Sorting findings with distinct keys leaves their keys strictly increasing. */
  lemma {:induction false} SortedByKey(fs: seq<Finding>)
    requires Distinct(KeysOf(fs))
    ensures Increasing(KeysOf(Sort(fs, FindingLess)), FieldKeyLess)
    decreases |fs|
  {
    if fs != [] {
      assert KeysOf(fs[1..]) == KeysOf(fs)[1..];
      SortedByKey(fs[1..]);
      var tail := Sort(fs[1..], FindingLess);
      SameElements(tail, fs[1..]);
      forall f | f in tail ensures f.key != fs[0].key {
        assert f in fs[1..];
        var i :| 0 <= i < |fs[1..]| && fs[1..][i] == f;
        assert KeysOf(fs)[i + 1] == f.key && KeysOf(fs)[0] == fs[0].key;
      }
      hide Sort;
      InsertByKey(fs[0], tail);
    }
  }

  lemma {:induction false} InsertByKey(x: Finding, s: seq<Finding>)
    requires Increasing(KeysOf(s), FieldKeyLess) && forall f :: f in s ==> f.key != x.key
    ensures Increasing(KeysOf(Insert(x, s, FindingLess)), FieldKeyLess)
    decreases |s|
  {
    FieldKeyLessIsStrictTotal();
    hide FieldKeyLess;
    if s == [] {
    } else if FindingLess(s[0], x) {
      assert KeysOf(s[1..]) == KeysOf(s)[1..];
      InsertByKey(x, s[1..]);
      var tail := Insert(x, s[1..], FindingLess);
      SameElements(tail, s[1..] + [x]);
      hide Insert;
      forall j | 0 <= j < |tail| ensures FieldKeyLess(s[0].key, tail[j].key) {
        assert tail[j] in s[1..] + [x];
        if tail[j] != x {
          var i :| 0 <= i < |s[1..]| && s[1..][i] == tail[j];
          assert FieldKeyLess(KeysOf(s)[0], KeysOf(s)[i + 1]);
        }
      }
      ConsIncreases(s[0], tail);
    } else {
      forall j | 0 <= j < |s| ensures FieldKeyLess(x.key, s[j].key) {
        assert s[0] in s;
        if j > 0 {
          assert FieldKeyLess(KeysOf(s)[0], KeysOf(s)[j]);
        }
      }
      ConsIncreases(x, s);
    }
  }

  lemma ConsIncreases(x: Finding, s: seq<Finding>)
    requires Increasing(KeysOf(s), FieldKeyLess) && forall j :: 0 <= j < |s| ==> FieldKeyLess(x.key, s[j].key)
    ensures Increasing(KeysOf([x] + s), FieldKeyLess)
  {
    hide FieldKeyLess;
    assert KeysOf([x] + s) == [x.key] + KeysOf(s);
  }

  // ---------------------------------------------------------------------
  // Order of configurations
  // ---------------------------------------------------------------------

  lemma {:induction false} AllFindingsMembers(rs: seq<AnalysisResult>, f: Finding)
    ensures f in AllFindings(rs) <==> exists r :: r in rs && f in r.findings
    decreases |rs|
  {
    if rs != [] {
      var init, last := rs[..|rs| - 1], rs[|rs| - 1];
      assert rs == init + [last];
      AllFindingsMembers(init, f);
    }
  }

  /** Reporting on the same results in another order gives the same fields and positions. */
  lemma OrderIsIrrelevant(rs: seq<AnalysisResult>, ss: seq<AnalysisResult>, a: seq<Finding>, b: seq<Finding>)
    requires forall r :: r in rs <==> r in ss
    requires ReportOf(rs, a) && ReportOf(ss, b)
    ensures KeysOf(a) == KeysOf(b)
    ensures forall i :: 0 <= i < |a| ==> a[i].assigned_ == b[i].assigned_
  {
    hide FoundIn, AssignedIn, Lists, FieldKeyLess;
    FieldKeyLessIsStrictTotal();
    SortedUnique(KeysOf(a), KeysOf(b), FieldKeyLess);
    forall i | 0 <= i < |a| ensures a[i].assigned_ == b[i].assigned_ {
      var k := a[i].key;
      assert KeysOf(a)[i] == KeysOf(b)[i];
      assert a[i] in a && b[i] in b;
      SamePositions(rs, ss, k);
      ListsIsUnique(a[i].assigned_, b[i].assigned_, PositionsIn(AllFindings(rs), k));
    }
  }

  lemma SamePositions(rs: seq<AnalysisResult>, ss: seq<AnalysisResult>, k: FieldKey)
    requires forall r :: r in rs <==> r in ss
    ensures PositionsIn(AllFindings(rs), k) == PositionsIn(AllFindings(ss), k)
  {
    forall f ensures f in AllFindings(rs) <==> f in AllFindings(ss) {
      AllFindingsMembers(rs, f);
      AllFindingsMembers(ss, f);
    }
    hide AllFindings;
  }
}
