/**
  The reviewed baseline of the public surface: each feature's signature with the
  configurations and the profiles it is present in. Presence is stored as a
  product of the two, so a pattern that does not factorise cannot be recorded.
  The order and wording of drift messages are not modelled.
 */
module SurfaceBaseline {
  import opened Base
  import opened Order
  import opened Surface

  /** Either "all" or an explicit sorted list. */
  datatype PresenceSet = PresenceSet(all: bool, values: seq<string>)

  datatype BaselineFeature = BaselineFeature(
    id: string, signature: string, configs: PresenceSet, profiles: PresenceSet)

  datatype Package = Package(path: string, features: seq<BaselineFeature>)

  datatype Baseline = Baseline(version: int, packages: seq<Package>)

  const SCHEMA_VERSION := 2

  /** The run's configuration names, profile names and public packages. */
  datatype Policy = Policy(configs: seq<string>, profiles: seq<string>, packages: seq<string>)

  ghost predicate PolicyOk(p: Policy) {
    Distinct(p.configs) && Distinct(p.profiles) && Distinct(p.packages)
  }

  function Row(config: string, profiles: seq<string>): seq<Combo> {
    seq(|profiles|, i requires 0 <= i < |profiles| => Combo(config, profiles[i]))
  }

  /** The full matrix, in canonical order. */
  function Matrix(configs: seq<string>, profiles: seq<string>): seq<Combo> {
    if configs == [] then [] else Row(configs[0], profiles) + Matrix(configs[1..], profiles)
  }

  function Universe(p: Policy): seq<Combo> {
    Matrix(p.configs, p.profiles)
  }

  lemma {:induction false} MatrixIsProduct(configs: seq<string>, profiles: seq<string>, c: Combo)
    ensures c in Matrix(configs, profiles) <==> c.config in configs && c.profile in profiles
    decreases |configs|
  {
    if configs != [] {
      MatrixIsProduct(configs[1..], profiles, c);
      assert configs == [configs[0]] + configs[1..];
      var row := Row(configs[0], profiles);
      if c.config == configs[0] && c.profile in profiles {
        var i :| 0 <= i < |profiles| && profiles[i] == c.profile;
        assert row[i] == c;
      }
    }
  }

  /** Configurations outside, profiles inside. */
  lemma {:induction false} MatrixAt(configs: seq<string>, profiles: seq<string>, i: nat, j: nat)
    requires i < |configs| && j < |profiles|
    ensures i * |profiles| + j < |Matrix(configs, profiles)| == |configs| * |profiles|
    ensures Matrix(configs, profiles)[i * |profiles| + j] == Combo(configs[i], profiles[j])
    decreases |configs|
  {
    MatrixSize(configs, profiles);
    InBounds(i, j, |configs|, |profiles|);
    if i > 0 {
      InBounds(i - 1, j, |configs| - 1, |profiles|);
      MatrixAt(configs[1..], profiles, i - 1, j);
      assert i * |profiles| + j == |profiles| + ((i - 1) * |profiles| + j);
    }
  }

  lemma {:induction false} MatrixSize(configs: seq<string>, profiles: seq<string>)
    ensures |Matrix(configs, profiles)| == |configs| * |profiles|
    decreases |configs|
  {
    if configs != [] {
      MatrixSize(configs[1..], profiles);
      assert |configs| * |profiles| == |profiles| + (|configs| - 1) * |profiles|;
    }
  }

  lemma InBounds(i: nat, j: nat, rows: nat, columns: nat)
    requires i < rows && j < columns
    ensures i * columns + j < rows * columns
  {
    assert (i + 1) * columns <= rows * columns;
  }

  // ---------------------------------------------------------------------
  // Presence sets
  // ---------------------------------------------------------------------

  predicate Contains(s: PresenceSet, member: string) {
    s.all || member in s.values
  }

  predicate PresenceValid(s: PresenceSet, universe: seq<string>) {
    if s.all then s.values == []
    else
      && s.values != [] && |s.values| != |universe|
      && forall i :: 0 <= i < |s.values| ==>
           s.values[i] in universe && (i > 0 ==> StringLess(s.values[i - 1], s.values[i]))
  }

  /** The members a set stands for. */
  function Denotes(s: PresenceSet, universe: seq<string>): set<string> {
    if s.all then set x | x in universe else set x | x in s.values
  }

  /** newPresenceSet. */
  ghost function CanonicalSet(members: set<string>, universe: seq<string>): PresenceSet {
    if |members| == |universe| then PresenceSet(true, []) else PresenceSet(false, Ascending(members))
  }

  method NewPresenceSet(members: set<string>, universe: seq<string>) returns (s: PresenceSet)
    ensures s == CanonicalSet(members, universe)
  {
    if |members| == |universe| {
      return PresenceSet(true, []);
    }
    var values := SortedKeys(members);
    s := PresenceSet(false, values);
  }

  lemma {:induction false} DistinctCount(s: seq<string>)
    requires Distinct(s)
    ensures |set x | x in s| == |s|
    decreases |s|
  {
    if s != [] {
      DistinctCount(s[1..]);
      assert s[0] !in s[1..];
      assert (set x | x in s) == {s[0]} + (set x | x in s[1..]);
    }
  }

  lemma SubsetOfSameSize<T>(a: set<T>, b: set<T>)
    requires a <= b && |a| == |b|
    ensures a == b
  {
    assert b == a + (b - a);
  }

  lemma {:induction false} NeighboursIncrease(s: seq<string>)
    requires forall i :: 0 < i < |s| ==> StringLess(s[i - 1], s[i])
    ensures Increasing(s, StringLess) && Distinct(s)
  {
    hide StringLess;
    forall i, j | 0 <= i < j < |s| ensures StringLess(s[i], s[j]) && s[i] != s[j] {
      NeighboursBelow(s, i, j);
      StringLessIrreflexive(s[i]);
    }
  }

  lemma {:induction false} NeighboursBelow(s: seq<string>, i: nat, j: nat)
    requires i < j < |s| && forall k :: 0 < k < |s| ==> StringLess(s[k - 1], s[k])
    ensures StringLess(s[i], s[j])
    decreases j
  {
    hide StringLess;
    if i + 1 < j {
      NeighboursBelow(s, i, j - 1);
      StringLessTransitive(s[i], s[j - 1], s[j]);
    }
  }

  /** A canonical set stands for its members, and is valid unless empty. */
  lemma CanonicalSetDenotes(members: set<string>, universe: seq<string>)
    requires Distinct(universe) && forall m :: m in members ==> m in universe
    ensures Denotes(CanonicalSet(members, universe), universe) == members
    ensures members != {} ==> PresenceValid(CanonicalSet(members, universe), universe)
  {
    DistinctCount(universe);
    if |members| == |universe| {
      SubsetOfSameSize(members, set x | x in universe);
    } else {
      AscendingLists(members);
      if members != {} {
        AscendingIsValid(members, universe);
      }
      hide Ascending, PresenceValid, Increasing, Distinct;
    }
  }

  lemma AscendingLists(members: set<string>)
    ensures (set x | x in Ascending(members)) == members && |Ascending(members)| == |members|
  {
    var values := Ascending(members);
    hide Ascending;
    DistinctCount(values);
    assert (set x | x in values) == members;
  }

  lemma AscendingIsValid(members: set<string>, universe: seq<string>)
    requires members != {} && |members| != |universe| && forall m :: m in members ==> m in universe
    ensures PresenceValid(PresenceSet(false, Ascending(members)), universe)
  {
    AscendingLists(members);
    var values := Ascending(members);
    hide Ascending, StringLess;
  }

  /** Two valid sets never spell the same members differently. */
  lemma ValidSetIsCanonical(s: PresenceSet, universe: seq<string>)
    requires Distinct(universe) && PresenceValid(s, universe)
    ensures s == CanonicalSet(Denotes(s, universe), universe)
    ensures forall m :: m in Denotes(s, universe) ==> m in universe
  {
    DistinctCount(universe);
    if !s.all {
      NeighboursIncrease(s.values);
      DistinctCount(s.values);
      StringLessIsStrictTotal();
      var members := Denotes(s, universe);
      var sorted := Ascending(members);
      hide Ascending;
      assert forall x :: x in s.values <==> x in members;
      SortedUnique(s.values, sorted, StringLess);
    }
  }

  // ---------------------------------------------------------------------
  // Recorded presence
  // ---------------------------------------------------------------------

  /** The combinations a recorded feature is expected in. */
  function Combinations(f: BaselineFeature, universe: seq<Combo>): set<Combo> {
    set c | c in universe && Contains(f.configs, c.config) && Contains(f.profiles, c.profile)
  }

  /** A set of combinations that is a product of configurations and profiles. */
  ghost predicate IsProduct(s: set<Combo>, cs: set<string>, ps: set<string>) {
    forall c :: c in s <==> c.config in cs && c.profile in ps
  }

  predicate PresenceFactorises(observed: set<Combo>, f: BaselineFeature, universe: seq<Combo>) {
    var expected := Combinations(f, universe);
    |expected| == |observed| && expected <= observed
  }

  function ConfigsOf(present: set<Combo>): set<string> {
    set c | c in present :: c.config
  }

  function ProfilesOf(present: set<Combo>): set<string> {
    set c | c in present :: c.profile
  }

  ghost function RecordedFeature(o: Observation, p: Policy): BaselineFeature {
    BaselineFeature(o.feature.id, o.feature.signature,
                    CanonicalSet(ConfigsOf(o.present), p.configs), CanonicalSet(ProfilesOf(o.present), p.profiles))
  }

  /** Only combinations of the run's matrix are ever scanned. */
  ghost predicate InMatrix(present: set<Combo>, p: Policy) {
    forall c :: c in present ==> c.config in p.configs && c.profile in p.profiles
  }

  lemma CombinationsAreProduct(f: BaselineFeature, p: Policy)
    requires forall m :: m in Denotes(f.configs, p.configs) ==> m in p.configs
    requires forall m :: m in Denotes(f.profiles, p.profiles) ==> m in p.profiles
    ensures IsProduct(Combinations(f, Universe(p)), Denotes(f.configs, p.configs), Denotes(f.profiles, p.profiles))
  {
    forall c: Combo
      ensures c in Combinations(f, Universe(p)) <==>
              c.config in Denotes(f.configs, p.configs) && c.profile in Denotes(f.profiles, p.profiles)
    {
      MatrixIsProduct(p.configs, p.profiles, c);
    }
  }

  /** What the product encoding of an observation expands to. */
  lemma RecordedCombinations(o: Observation, p: Policy)
    requires PolicyOk(p) && InMatrix(o.present, p)
    ensures IsProduct(Combinations(RecordedFeature(o, p), Universe(p)), ConfigsOf(o.present), ProfilesOf(o.present))
    ensures o.present <= Combinations(RecordedFeature(o, p), Universe(p))
  {
    CanonicalSetDenotes(ConfigsOf(o.present), p.configs);
    CanonicalSetDenotes(ProfilesOf(o.present), p.profiles);
    hide CanonicalSet, Combinations, Universe;
    CombinationsAreProduct(RecordedFeature(o, p), p);
  }

  /** Factorisation is accepted exactly when the observed presence is a product. */
  lemma FactorisesIffProduct(o: Observation, p: Policy)
    requires PolicyOk(p) && InMatrix(o.present, p)
    ensures PresenceFactorises(o.present, RecordedFeature(o, p), Universe(p)) <==>
            exists cs, ps :: IsProduct(o.present, cs, ps)
    ensures PresenceFactorises(o.present, RecordedFeature(o, p), Universe(p)) <==>
            Combinations(RecordedFeature(o, p), Universe(p)) == o.present
  {
    RecordedCombinations(o, p);
    var expected := Combinations(RecordedFeature(o, p), Universe(p));
    hide Combinations, RecordedFeature, Universe;
    if PresenceFactorises(o.present, RecordedFeature(o, p), Universe(p)) {
      SubsetOfSameSize(expected, o.present);
      assert IsProduct(o.present, ConfigsOf(o.present), ProfilesOf(o.present));
    }
    if cs, ps :| IsProduct(o.present, cs, ps) {
      forall c | c in expected ensures c in o.present {
        var a :| a in o.present && a.config == c.config;
        var b :| b in o.present && b.profile == c.profile;
      }
      assert expected == o.present;
    }
  }

  // ---------------------------------------------------------------------
  // Validation
  // ---------------------------------------------------------------------

  predicate FeatureValid(f: BaselineFeature, p: Policy) {
    f.id != "" && f.signature != "" && PresenceValid(f.configs, p.configs) && PresenceValid(f.profiles, p.profiles)
  }

  predicate FeaturesValid(fs: seq<BaselineFeature>, p: Policy) {
    forall j :: 0 <= j < |fs| ==> FeatureValid(fs[j], p) && (j > 0 ==> StringLess(fs[j - 1].id, fs[j].id))
  }

  predicate BaselineValid(b: Baseline, p: Policy) {
    && b.version == SCHEMA_VERSION && |b.packages| == |p.packages|
    && forall i :: 0 <= i < |b.packages| ==>
         b.packages[i].path == p.packages[i] && FeaturesValid(b.packages[i].features, p)
  }

  /** Some of the universe, in the one way to write it. */
  ghost predicate Spells(s: PresenceSet, universe: seq<string>) {
    exists members: set<string> ::
      members != {} && (forall m :: m in members ==> m in universe) && s == CanonicalSet(members, universe)
  }

  lemma PresenceValidIff(s: PresenceSet, universe: seq<string>)
    requires Distinct(universe) && universe != []
    ensures PresenceValid(s, universe) <==> Spells(s, universe)
  {
    if PresenceValid(s, universe) {
      ValidSetIsCanonical(s, universe);
      var members := Denotes(s, universe);
      assert universe[0] in universe;
      assert s.values != [] ==> s.values[0] in s.values;
      assert members != {};
    }
    if members: set<string> :|
      members != {} && (forall m :: m in members ==> m in universe) && s == CanonicalSet(members, universe)
    {
      CanonicalSetDenotes(members, universe);
    }
  }

  /** A package's features: complete, spelled the one way, in strictly increasing order of their ids. */
  lemma FeaturesValidIff(fs: seq<BaselineFeature>, p: Policy)
    requires PolicyOk(p) && p.configs != [] && p.profiles != []
    ensures FeaturesValid(fs, p) <==>
            && (forall i, j :: 0 <= i < j < |fs| ==> StringLess(fs[i].id, fs[j].id))
            && forall f :: f in fs ==>
                 f.id != "" && f.signature != "" && Spells(f.configs, p.configs) && Spells(f.profiles, p.profiles)
  {
    forall f | f in fs
      ensures FeatureValid(f, p) <==>
              f.id != "" && f.signature != "" && Spells(f.configs, p.configs) && Spells(f.profiles, p.profiles)
    {
      PresenceValidIff(f.configs, p.configs);
      PresenceValidIff(f.profiles, p.profiles);
    }
    hide FeatureValid, Spells, StringLess;
    if FeaturesValid(fs, p) {
      FeaturesIncrease(fs, p);
      forall i, j | 0 <= i < j < |fs| ensures StringLess(fs[i].id, fs[j].id) {
        assert StringLess(Ids(fs)[i], Ids(fs)[j]);
      }
    }
  }

  function Ids(fs: seq<BaselineFeature>): seq<string> {
    seq(|fs|, i requires 0 <= i < |fs| => fs[i].id)
  }

  lemma FeaturesIncrease(fs: seq<BaselineFeature>, p: Policy)
    requires FeaturesValid(fs, p)
    ensures Increasing(Ids(fs), StringLess) && Distinct(Ids(fs))
  {
    hide FeatureValid;
    NeighboursIncrease(Ids(fs));
  }

  /** The baseline records this feature of a package. */
  ghost predicate Records(b: Baseline, path: string, f: BaselineFeature) {
    exists i :: 0 <= i < |b.packages| && b.packages[i].path == path && f in b.packages[i].features
  }

  ghost predicate UniqueKeys(b: Baseline) {
    forall path, f, g :: Records(b, path, f) && Records(b, path, g) && f.id == g.id ==> f == g
  }

  lemma ValidHasUniqueKeys(b: Baseline, p: Policy)
    requires BaselineValid(b, p) && PolicyOk(p)
    ensures UniqueKeys(b)
  {
    hide FeaturesValid;
    forall path, f, g | Records(b, path, f) && Records(b, path, g) && f.id == g.id ensures f == g {
      var i :| 0 <= i < |b.packages| && b.packages[i].path == path && f in b.packages[i].features;
      var j :| 0 <= j < |b.packages| && b.packages[j].path == path && g in b.packages[j].features;
      assert p.packages[i] == p.packages[j];
      SameId(b.packages[i].features, f, g, p);
    }
  }

  lemma SameId(fs: seq<BaselineFeature>, f: BaselineFeature, g: BaselineFeature, p: Policy)
    requires FeaturesValid(fs, p) && f in fs && g in fs && f.id == g.id
    ensures f == g
  {
    FeaturesIncrease(fs, p);
    hide FeaturesValid;
    var i :| 0 <= i < |fs| && fs[i] == f;
    var j :| 0 <= j < |fs| && fs[j] == g;
    assert Ids(fs)[i] == Ids(fs)[j];
  }

  // ---------------------------------------------------------------------
  // Generation
  // ---------------------------------------------------------------------

  ghost function FeaturesFor(inv: seq<Observation>, path: string, p: Policy): seq<BaselineFeature> {
    if inv == [] then []
    else (if inv[0].feature.pkg == path then [RecordedFeature(inv[0], p)] else []) + FeaturesFor(inv[1..], path, p)
  }

  ghost function Generated(inv: seq<Observation>, p: Policy): Baseline {
    Baseline(SCHEMA_VERSION,
             seq(|p.packages|, i requires 0 <= i < |p.packages| =>
               Package(p.packages[i], FeaturesFor(inv, p.packages[i], p))))
  }

  ghost predicate AllFactorise(inv: seq<Observation>, p: Policy) {
    forall o :: o in inv ==> PresenceFactorises(o.present, RecordedFeature(o, p), Universe(p))
  }

  /** What a scan of the policy's packages over its matrix yields. */
  ghost predicate InventoryOk(inv: seq<Observation>, p: Policy) {
    && Increasing(InventoryKeys(inv), KeyLess)
    && forall o :: o in inv ==> ObservationOk(o, p)
  }

  ghost predicate ObservationOk(o: Observation, p: Policy) {
    && o.present != {} && InMatrix(o.present, p)
    && o.feature.pkg in p.packages && o.feature.id != "" && o.feature.signature != ""
  }

  lemma {:induction false} FeaturesForMembers(inv: seq<Observation>, path: string, p: Policy, f: BaselineFeature)
    ensures f in FeaturesFor(inv, path, p) <==>
            exists o :: o in inv && o.feature.pkg == path && f == RecordedFeature(o, p)
    decreases |inv|
  {
    hide RecordedFeature;
    if inv != [] {
      FeaturesForMembers(inv[1..], path, p, f);
      assert inv == [inv[0]] + inv[1..];
      if o :| o in inv && o.feature.pkg == path && f == RecordedFeature(o, p) {
        if o != inv[0] {
          assert o in inv[1..];
        }
      }
    }
  }

  lemma IncreasingTail(inv: seq<Observation>)
    requires inv != [] && Increasing(InventoryKeys(inv), KeyLess)
    ensures Increasing(InventoryKeys(inv[1..]), KeyLess)
    ensures forall o :: o in inv[1..] ==> KeyLess(KeyOf(inv[0].feature), KeyOf(o.feature))
  {
    hide KeyLess;
    var keys := InventoryKeys(inv);
    assert InventoryKeys(inv[1..]) == keys[1..];
    forall o | o in inv[1..] ensures KeyLess(KeyOf(inv[0].feature), KeyOf(o.feature)) {
      var i :| 0 <= i < |inv[1..]| && inv[1..][i] == o;
      assert KeyLess(keys[0], keys[i + 1]);
    }
  }

  /** The generated features of a package are valid: sorted, unique and canonical. */
  lemma {:induction false} FeaturesForValid(inv: seq<Observation>, path: string, p: Policy)
    requires PolicyOk(p) && InventoryOk(inv, p)
    ensures FeaturesValid(FeaturesFor(inv, path, p), p)
    decreases |inv|
  {
    hide FeatureValid, RecordedFeature, ObservationOk;
    if inv != [] {
      IncreasingTail(inv);
      var rest := FeaturesFor(inv[1..], path, p);
      FeaturesForValid(inv[1..], path, p);
      if inv[0].feature.pkg == path {
        RecordedIsValid(inv[0], p);
        if rest != [] {
          FeaturesForMembers(inv[1..], path, p, rest[0]);
          var o :| o in inv[1..] && o.feature.pkg == path && rest[0] == RecordedFeature(o, p);
          RecordedId(o, p);
          RecordedId(inv[0], p);
          assert KeyLess(KeyOf(inv[0].feature), KeyOf(o.feature));
        }
        var all := [RecordedFeature(inv[0], p)] + rest;
        assert forall j :: 1 <= j < |all| ==> all[j] == rest[j - 1];
      }
    }
  }

  lemma RecordedId(o: Observation, p: Policy)
    ensures RecordedFeature(o, p).id == o.feature.id
  {
  }

  lemma RecordedIsValid(o: Observation, p: Policy)
    requires PolicyOk(p) && ObservationOk(o, p)
    ensures FeatureValid(RecordedFeature(o, p), p)
  {
    var c :| c in o.present;
    assert c.config in ConfigsOf(o.present) && c.profile in ProfilesOf(o.present);
    CanonicalSetDenotes(ConfigsOf(o.present), p.configs);
    CanonicalSetDenotes(ProfilesOf(o.present), p.profiles);
    hide PresenceValid, CanonicalSet;
  }

  lemma GeneratedIsValid(inv: seq<Observation>, p: Policy)
    requires PolicyOk(p) && InventoryOk(inv, p)
    ensures BaselineValid(Generated(inv, p), p)
    ensures Generated(inv, p).version == 2
  {
    forall i | 0 <= i < |p.packages| ensures FeaturesValid(FeaturesFor(inv, p.packages[i], p), p) {
      FeaturesForValid(inv, p.packages[i], p);
    }
    hide FeaturesValid, FeaturesFor;
  }

  /** The generated baseline records exactly the listed observations. */
  lemma GeneratedRecords(inv: seq<Observation>, p: Policy, path: string, f: BaselineFeature)
    ensures Records(Generated(inv, p), path, f) <==>
            path in p.packages && exists o :: o in inv && o.feature.pkg == path && f == RecordedFeature(o, p)
  {
    FeaturesForMembers(inv, path, p, f);
    hide FeaturesFor, RecordedFeature;
    if path in p.packages && f in FeaturesFor(inv, path, p) {
      var i :| 0 <= i < |p.packages| && p.packages[i] == path;
      assert Generated(inv, p).packages[i] == Package(path, FeaturesFor(inv, path, p));
    }
  }

  // ---------------------------------------------------------------------
  // Drift
  // ---------------------------------------------------------------------

  datatype Drift =
    | Added(key: Key, signature: string)
    | Missing(key: Key, signature: string)
    | SignatureChanged(key: Key, expected: string, actual: string)
    | PresenceChanged(key: Key, combo: Combo, wanted: bool)

  /** c is the first combination on which the two presences disagree. */
  ghost predicate FirstDisagreement(universe: seq<Combo>, expected: set<Combo>, present: set<Combo>, c: Combo) {
    exists i ::
      && 0 <= i < |universe| && universe[i] == c && (c in expected) != (c in present)
      && forall j :: 0 <= j < i ==> (universe[j] in expected) == (universe[j] in present)
  }

  /** The drift of a live feature that the baseline records as f. */
  ghost predicate DriftAgainst(d: Drift, o: Observation, f: BaselineFeature, universe: seq<Combo>) {
    d.key == KeyOf(o.feature) &&
    match d
    case SignatureChanged(_, expected, actual) =>
      expected == f.signature && actual == o.feature.signature && expected != actual
    case PresenceChanged(_, combo, wanted) =>
      FirstDisagreement(universe, Combinations(f, universe), o.present, combo) &&
      wanted == (combo in Combinations(f, universe))
    case _ => false
  }

  ghost predicate LiveDrift(d: Drift, o: Observation, base: Baseline, universe: seq<Combo>) {
    if exists f :: Records(base, o.feature.pkg, f) && f.id == o.feature.id
    then exists f :: Records(base, o.feature.pkg, f) && f.id == o.feature.id && DriftAgainst(d, o, f, universe)
    else d == Added(KeyOf(o.feature), o.feature.signature)
  }

  ghost predicate MissingDrift(d: Drift, live: seq<Observation>, base: Baseline) {
    && d.Missing? && d.key !in InventoryKeys(live)
    && exists f :: Records(base, d.key.pkg, f) && f.id == d.key.id && f.signature == d.signature
  }

  /** Everything that drifted. */
  ghost predicate IsDrift(d: Drift, live: seq<Observation>, base: Baseline, universe: seq<Combo>) {
    || (exists o :: o in live && LiveDrift(d, o, base, universe))
    || MissingDrift(d, live, base)
  }

  ghost predicate NoDrift(live: seq<Observation>, base: Baseline, universe: seq<Combo>) {
    forall d :: !IsDrift(d, live, base, universe)
  }

  /** Same keys, signatures and presence. */
  ghost predicate Agrees(live: seq<Observation>, base: Baseline, universe: seq<Combo>) {
    && (forall o :: o in live ==> exists f :: RecordsExactly(base, o, f, universe))
    && (forall path, f :: Records(base, path, f) ==> Key(path, f.id) in InventoryKeys(live))
  }

  ghost predicate RecordsExactly(base: Baseline, o: Observation, f: BaselineFeature, universe: seq<Combo>) {
    && Records(base, o.feature.pkg, f) && f.id == o.feature.id && f.signature == o.feature.signature
    && Combinations(f, universe) == o.present
  }

  lemma {:induction false} SomeFirstDisagreement(
    universe: seq<Combo>, expected: set<Combo>, present: set<Combo>, n: nat)
    requires n < |universe| && (universe[n] in expected) != (universe[n] in present)
    ensures exists c :: FirstDisagreement(universe, expected, present, c)
  {
    if j :| 0 <= j < n && (universe[j] in expected) != (universe[j] in present) {
      SomeFirstDisagreement(universe, expected, present, j);
    } else {
      assert FirstDisagreement(universe, expected, present, universe[n]);
    }
  }

  /** No drift against a recorded feature means it is recorded exactly. */
  lemma NoDriftAgainst(o: Observation, f: BaselineFeature, universe: seq<Combo>)
    requires forall c :: c in o.present ==> c in universe
    ensures (forall d :: !DriftAgainst(d, o, f, universe)) <==>
            f.signature == o.feature.signature && Combinations(f, universe) == o.present
  {
    var expected := Combinations(f, universe);
    assert forall c :: c in expected ==> c in universe;
    hide Combinations;
    if f.signature != o.feature.signature {
      assert DriftAgainst(SignatureChanged(KeyOf(o.feature), f.signature, o.feature.signature), o, f, universe);
    } else if expected != o.present {
      var c :| (c in expected) != (c in o.present);
      var n :| 0 <= n < |universe| && universe[n] == c;
      SomeFirstDisagreement(universe, expected, o.present, n);
      var b :| FirstDisagreement(universe, expected, o.present, b);
      assert DriftAgainst(PresenceChanged(KeyOf(o.feature), b, b in expected), o, f, universe);
    }
  }

  lemma NoLiveDriftIff(o: Observation, base: Baseline, universe: seq<Combo>)
    requires UniqueKeys(base) && forall c :: c in o.present ==> c in universe
    ensures (forall d :: !LiveDrift(d, o, base, universe)) <==> exists f :: RecordsExactly(base, o, f, universe)
  {
    hide DriftAgainst, Combinations, Records;
    if f :| Records(base, o.feature.pkg, f) && f.id == o.feature.id {
      NoDriftAgainst(o, f, universe);
      if forall d :: !LiveDrift(d, o, base, universe) {
        forall d ensures !DriftAgainst(d, o, f, universe) {
          assert !LiveDrift(d, o, base, universe);
        }
        assert RecordsExactly(base, o, f, universe);
      }
      if g :| RecordsExactly(base, o, g, universe) {
        assert g == f;
      }
    } else {
      assert LiveDrift(Added(KeyOf(o.feature), o.feature.signature), o, base, universe);
    }
  }

  /** No drift against a valid baseline means keys, signatures and presence are equal. */
  lemma NoDriftIffAgrees(live: seq<Observation>, base: Baseline, p: Policy)
    requires PolicyOk(p) && BaselineValid(base, p)
    requires forall o :: o in live ==> InMatrix(o.present, p)
    ensures NoDrift(live, base, Universe(p)) <==> Agrees(live, base, Universe(p))
  {
    var universe := Universe(p);
    ValidHasUniqueKeys(base, p);
    forall o | o in live ensures forall c :: c in o.present ==> c in universe {
      forall c | c in o.present ensures c in universe {
        MatrixIsProduct(p.configs, p.profiles, c);
      }
    }
    hide Universe, LiveDrift, BaselineValid, RecordsExactly, Records;
    forall o | o in live
      ensures (forall d :: !LiveDrift(d, o, base, universe)) <==> exists f :: RecordsExactly(base, o, f, universe)
    {
      NoLiveDriftIff(o, base, universe);
    }
    if NoDrift(live, base, universe) {
      forall o | o in live ensures exists f :: RecordsExactly(base, o, f, universe) {
        forall d ensures !LiveDrift(d, o, base, universe) {
          assert !IsDrift(d, live, base, universe);
        }
      }
      forall path, f | Records(base, path, f) ensures Key(path, f.id) in InventoryKeys(live) {
        assert !IsDrift(Missing(Key(path, f.id), f.signature), live, base, universe);
      }
    }
  }

  // ---------------------------------------------------------------------
  // Regenerate, then check
  // ---------------------------------------------------------------------

  /** Regenerating and then checking passes. */
  lemma RegenerateThenCheck(inv: seq<Observation>, p: Policy)
    requires PolicyOk(p) && InventoryOk(inv, p) && AllFactorise(inv, p)
    ensures BaselineValid(Generated(inv, p), p)
    ensures NoDrift(inv, Generated(inv, p), Universe(p))
  {
    var base := Generated(inv, p);
    GeneratedIsValid(inv, p);
    NoDriftIffAgrees(inv, base, p);
    hide BaselineValid, NoDrift, Generated, Universe, RecordedFeature, PresenceFactorises, Combinations;
    forall o | o in inv ensures exists f :: RecordsExactly(base, o, f, Universe(p)) {
      GeneratedRecords(inv, p, o.feature.pkg, RecordedFeature(o, p));
      FactorisesIffProduct(o, p);
      RecordedSignature(o, p);
      assert RecordsExactly(base, o, RecordedFeature(o, p), Universe(p));
    }
    forall path, f | Records(base, path, f) ensures Key(path, f.id) in InventoryKeys(inv) {
      GeneratedRecords(inv, p, path, f);
      var o :| o in inv && o.feature.pkg == path && f == RecordedFeature(o, p);
      RecordedSignature(o, p);
      ObservedKey(inv, o);
    }
  }

  lemma RecordedSignature(o: Observation, p: Policy)
    ensures RecordedFeature(o, p).id == o.feature.id && RecordedFeature(o, p).signature == o.feature.signature
  {
  }

  lemma ObservedKey(inv: seq<Observation>, o: Observation)
    requires o in inv
    ensures KeyOf(o.feature) in InventoryKeys(inv)
  {
    var i :| 0 <= i < |inv| && inv[i] == o;
    assert InventoryKeys(inv)[i] == KeyOf(o.feature);
  }

  /** A valid feature that expands to an observation's presence is its canonical record. */
  lemma ExactRecordIsCanonical(o: Observation, f: BaselineFeature, p: Policy)
    requires PolicyOk(p) && FeatureValid(f, p) && o.present != {}
    requires f.id == o.feature.id && f.signature == o.feature.signature
    requires Combinations(f, Universe(p)) == o.present
    ensures f == RecordedFeature(o, p)
    ensures PresenceFactorises(o.present, f, Universe(p))
  {
    ValidSetIsCanonical(f.configs, p.configs);
    ValidSetIsCanonical(f.profiles, p.profiles);
    CombinationsAreProduct(f, p);
    ProductSides(o.present, Denotes(f.configs, p.configs), Denotes(f.profiles, p.profiles));
    hide CanonicalSet, Denotes, Combinations, Universe;
  }

  lemma ProductSides(s: set<Combo>, cs: set<string>, ps: set<string>)
    requires IsProduct(s, cs, ps) && s != {}
    ensures ConfigsOf(s) == cs && ProfilesOf(s) == ps
  {
    var x :| x in s;
    forall c | c in cs ensures c in ConfigsOf(s) {
      assert Combo(c, x.profile) in s;
    }
    forall q | q in ps ensures q in ProfilesOf(s) {
      assert Combo(x.config, q) in s;
    }
  }

  lemma RecordsAreValid(base: Baseline, p: Policy, path: string, f: BaselineFeature)
    requires BaselineValid(base, p) && Records(base, path, f)
    ensures FeatureValid(f, p) && path in p.packages
  {
    hide FeatureValid;
    var i :| 0 <= i < |base.packages| && base.packages[i].path == path && f in base.packages[i].features;
    assert p.packages[i] == path;
  }

  /** A valid baseline that agrees records each observation canonically and nothing else. */
  lemma AgreementIsCanonical(inv: seq<Observation>, base: Baseline, p: Policy, path: string, f: BaselineFeature)
    requires PolicyOk(p) && InventoryOk(inv, p) && BaselineValid(base, p) && Agrees(inv, base, Universe(p))
    ensures Records(base, path, f) <==> Records(Generated(inv, p), path, f)
    ensures AllFactorise(inv, p)
  {
    forall o | o in inv
      ensures Records(base, o.feature.pkg, RecordedFeature(o, p))
      ensures PresenceFactorises(o.present, RecordedFeature(o, p), Universe(p))
    {
      AgreedRecord(inv, base, p, o);
    }
    GeneratedRecords(inv, p, path, f);
    hide Universe, RecordedFeature, BaselineValid, Records, PresenceFactorises, Generated, InventoryOk, Agrees;
    if Records(base, path, f) {
      AgreedSource(inv, base, p, path, f);
      RecordsAreValid(base, p, path, f);
    }
  }

  /** An observation is recorded by its canonical record. */
  lemma AgreedRecord(inv: seq<Observation>, base: Baseline, p: Policy, o: Observation)
    requires PolicyOk(p) && InventoryOk(inv, p) && BaselineValid(base, p) && Agrees(inv, base, Universe(p)) && o in inv
    ensures Records(base, o.feature.pkg, RecordedFeature(o, p))
    ensures PresenceFactorises(o.present, RecordedFeature(o, p), Universe(p))
  {
    hide Universe, RecordedFeature, BaselineValid, Records, PresenceFactorises, InventoryOk;
    var g :| RecordsExactly(base, o, g, Universe(p));
    RecordsAreValid(base, p, o.feature.pkg, g);
    ObservationHolds(inv, p, o);
    ExactRecordIsCanonical(o, g, p);
  }

  /** A record comes from an observation. */
  lemma AgreedSource(inv: seq<Observation>, base: Baseline, p: Policy, path: string, f: BaselineFeature)
    requires PolicyOk(p) && InventoryOk(inv, p) && BaselineValid(base, p) && Agrees(inv, base, Universe(p))
    requires Records(base, path, f)
    ensures exists o :: o in inv && o.feature.pkg == path && f == RecordedFeature(o, p)
  {
    ValidHasUniqueKeys(base, p);
    hide Universe, RecordedFeature, BaselineValid, Records, InventoryOk;
    assert Key(path, f.id) in InventoryKeys(inv);
    var i :| 0 <= i < |inv| && InventoryKeys(inv)[i] == Key(path, f.id);
    var o := inv[i];
    RecordedSignature(o, p);
    AgreedRecord(inv, base, p, o);
  }

  lemma ObservationHolds(inv: seq<Observation>, p: Policy, o: Observation)
    requires InventoryOk(inv, p) && o in inv
    ensures o.present != {}
  {
  }

  /** A valid baseline is determined by what it records. */
  lemma ValidBaselinesAreEqual(a: Baseline, b: Baseline, p: Policy)
    requires PolicyOk(p) && BaselineValid(a, p) && BaselineValid(b, p)
    requires forall path, f :: Records(a, path, f) <==> Records(b, path, f)
    ensures a == b
  {
    hide FeaturesValid;
    forall i | 0 <= i < |p.packages| ensures a.packages[i] == b.packages[i] {
      var fs, gs := a.packages[i].features, b.packages[i].features;
      forall f ensures f in fs <==> f in gs {
        PackageRecords(a, p, i, f);
        PackageRecords(b, p, i, f);
      }
      FeaturesAreEqual(fs, gs, p);
    }
    assert a.packages == b.packages;
  }

  lemma PackageRecords(b: Baseline, p: Policy, i: nat, f: BaselineFeature)
    requires PolicyOk(p) && BaselineValid(b, p) && i < |p.packages|
    ensures f in b.packages[i].features <==> Records(b, p.packages[i], f)
  {
    hide FeaturesValid;
    if Records(b, p.packages[i], f) {
      var j :| 0 <= j < |b.packages| && b.packages[j].path == p.packages[i] && f in b.packages[j].features;
      assert p.packages[j] == p.packages[i];
    }
  }

  lemma FeaturesAreEqual(fs: seq<BaselineFeature>, gs: seq<BaselineFeature>, p: Policy)
    requires FeaturesValid(fs, p) && FeaturesValid(gs, p) && forall f :: f in fs <==> f in gs
    ensures fs == gs
  {
    FeaturesIncrease(fs, p);
    FeaturesIncrease(gs, p);
    StringLessIsStrictTotal();
    hide FeaturesValid;
    IdsSubset(fs, gs);
    IdsSubset(gs, fs);
    SortedUnique(Ids(fs), Ids(gs), StringLess);
    forall i | 0 <= i < |fs| ensures fs[i] == gs[i] {
      assert Ids(fs)[i] == Ids(gs)[i];
      assert fs[i] in gs;
      SameId(gs, fs[i], gs[i], p);
    }
  }

  lemma IdsSubset(fs: seq<BaselineFeature>, gs: seq<BaselineFeature>)
    requires forall f :: f in fs ==> f in gs
    ensures forall x :: x in Ids(fs) ==> x in Ids(gs)
  {
    forall x | x in Ids(fs) ensures x in Ids(gs) {
      var i :| 0 <= i < |fs| && Ids(fs)[i] == x;
      assert fs[i] in gs;
      var j :| 0 <= j < |gs| && gs[j] == fs[i];
      assert Ids(gs)[j] == x;
    }
  }

  /**
    The check accepts exactly one valid baseline, the regenerated one, and none
    when some presence does not factorise.
   */
  lemma CheckPassesIffRegenerated(inv: seq<Observation>, base: Baseline, p: Policy)
    requires PolicyOk(p) && InventoryOk(inv, p)
    ensures BaselineValid(base, p) && NoDrift(inv, base, Universe(p)) <==>
            AllFactorise(inv, p) && base == Generated(inv, p)
  {
    hide BaselineValid, NoDrift, Agrees, AllFactorise, Generated, Records, Universe;
    if BaselineValid(base, p) && NoDrift(inv, base, Universe(p)) {
      NoDriftIffAgrees(inv, base, p);
      AgreementIsCanonical(inv, base, p, "", BaselineFeature("", "", PresenceSet(true, []), PresenceSet(true, [])));
      forall path, f ensures Records(base, path, f) <==> Records(Generated(inv, p), path, f) {
        AgreementIsCanonical(inv, base, p, path, f);
      }
      GeneratedIsValid(inv, p);
      ValidBaselinesAreEqual(base, Generated(inv, p), p);
    }
    if AllFactorise(inv, p) {
      RegenerateThenCheck(inv, p);
    }
  }

  /** A reconciled scan of the policy's packages over its matrix is such an inventory. */
  lemma ReconciledIsInventory(sightings: seq<Sighting>, inv: seq<Observation>, p: Policy)
    requires InventoryOf(sightings, inv)
    requires forall s :: s in sightings ==>
               && s.combo.config in p.configs && s.combo.profile in p.profiles
               && s.feature.pkg in p.packages && s.feature.id != "" && s.feature.signature != ""
    ensures InventoryOk(inv, p)
  {
    forall o | o in inv ensures ObservationOk(o, p) {
      forall c | c in o.present ensures Sighting(c, o.feature) in sightings {
      }
      var c :| c in o.present;
      assert Sighting(c, o.feature) in sightings;
    }
  }

  // ---------------------------------------------------------------------
  // The gate's loops
  // ---------------------------------------------------------------------

  /** DefaultCombinations. */
  method DefaultCombinations(configs: seq<string>, profiles: seq<string>) returns (combos: seq<Combo>)
    ensures combos == Matrix(configs, profiles)
  {
    hide Matrix, Row;
    combos := [];
    assert configs[0..] == configs;
    for i := 0 to |configs|
      invariant Matrix(configs, profiles) == combos + Matrix(configs[i..], profiles)
    {
      MatrixStep(configs, profiles, i);
      var row := RowOf(configs[i], profiles);
      combos := combos + row;
    }
    NoMatrix(configs[|configs|..], profiles);
  }

  method RowOf(config: string, profiles: seq<string>) returns (row: seq<Combo>)
    ensures row == Row(config, profiles)
  {
    row := [];
    for j := 0 to |profiles|
      invariant row == Row(config, profiles)[..j]
    {
      row := row + [Combo(config, profiles[j])];
    }
  }

  lemma MatrixStep(configs: seq<string>, profiles: seq<string>, i: nat)
    requires i < |configs|
    ensures Matrix(configs[i..], profiles) == Row(configs[i], profiles) + Matrix(configs[i + 1..], profiles)
  {
    assert configs[i..][1..] == configs[i + 1..];
  }

  lemma NoMatrix(configs: seq<string>, profiles: seq<string>)
    requires configs == []
    ensures Matrix(configs, profiles) == []
  {
  }

  /** The features of each package recorded so far. */
  ghost predicate Grouped(byPackage: map<string, seq<BaselineFeature>>, done: seq<Observation>, p: Policy) {
    forall path ::
      (if path in byPackage then byPackage[path] else []) == FeaturesFor(done, path, p)
  }

  lemma {:induction false} FeaturesForSnoc(inv: seq<Observation>, o: Observation, path: string, p: Policy)
    ensures FeaturesFor(inv + [o], path, p) ==
            FeaturesFor(inv, path, p) + (if o.feature.pkg == path then [RecordedFeature(o, p)] else [])
    decreases |inv|
  {
    hide RecordedFeature;
    if inv == [] {
      assert (inv + [o])[1..] == [];
    } else {
      assert (inv + [o])[1..] == inv[1..] + [o];
      FeaturesForSnoc(inv[1..], o, path, p);
    }
  }

  lemma GroupStep(byPackage: map<string, seq<BaselineFeature>>, done: seq<Observation>, o: Observation, p: Policy)
    requires Grouped(byPackage, done, p)
    ensures var pkg := o.feature.pkg;
            var before := if pkg in byPackage then byPackage[pkg] else [];
            Grouped(byPackage[pkg := before + [RecordedFeature(o, p)]], done + [o], p)
  {
    hide FeaturesFor, RecordedFeature;
    forall path ensures FeaturesFor(done + [o], path, p) ==
                        FeaturesFor(done, path, p) + (if o.feature.pkg == path then [RecordedFeature(o, p)] else [])
    {
      FeaturesForSnoc(done, o, path, p);
    }
  }

  /**
    baselineFromInventory: the generated baseline exactly when every presence
    factorises, otherwise the features whose presence does not.
   */
  method BaselineFromInventory(inv: seq<Observation>, p: Policy, universe: seq<Combo>)
    returns (r: Result<Baseline, seq<Key>>)
    requires universe == Universe(p)
    ensures r.Ok? <==> AllFactorise(inv, p)
    ensures r.Ok? ==> r.value == Generated(inv, p)
    ensures r.Err? ==> forall k :: k in r.error <==>
              exists o :: o in inv && KeyOf(o.feature) == k &&
                          !PresenceFactorises(o.present, RecordedFeature(o, p), universe)
  {
    hide RecordedFeature, PresenceFactorises, Grouped, FeaturesFor, Universe;
    var byPackage: map<string, seq<BaselineFeature>> := map[];
    var drift: seq<Key> := [];
    NothingGrouped(inv[..0], p);
    for i := 0 to |inv|
      invariant drift == [] <==> AllFactorise(inv[..i], p)
      invariant drift == [] ==> Grouped(byPackage, inv[..i], p)
      invariant forall k :: k in drift ==>
                  exists o :: o in inv && KeyOf(o.feature) == k &&
                              !PresenceFactorises(o.present, RecordedFeature(o, p), universe)
      invariant forall o :: o in inv[..i] && !PresenceFactorises(o.present, RecordedFeature(o, p), universe) ==>
                  KeyOf(o.feature) in drift
    {
      var o := inv[i];
      assert inv[..i + 1] == inv[..i] + [o];
      var configs := NewPresenceSet(ConfigsOf(o.present), p.configs);
      var profiles := NewPresenceSet(ProfilesOf(o.present), p.profiles);
      var feature := BaselineFeature(o.feature.id, o.feature.signature, configs, profiles);
      RecordedIs(o, p, feature);
      if !PresenceFactorises(o.present, feature, universe) {
        assert o in inv && o in inv[..i + 1];
        drift := drift + [KeyOf(o.feature)];
        continue;
      }
      ghost var was := byPackage;
      var before := if o.feature.pkg in byPackage then byPackage[o.feature.pkg] else [];
      byPackage := byPackage[o.feature.pkg := before + [feature]];
      if drift == [] {
        GroupStep(was, inv[..i], o, p);
      }
    }
    assert inv[..|inv|] == inv;
    if drift != [] {
      return Err(drift);
    }
    var packages := CollectPackages(byPackage, inv, p);
    r := Ok(Baseline(SCHEMA_VERSION, packages));
  }

  lemma NothingGrouped(inv: seq<Observation>, p: Policy)
    requires inv == []
    ensures Grouped(map[], inv, p)
  {
  }

  lemma RecordedIs(o: Observation, p: Policy, f: BaselineFeature)
    requires f == BaselineFeature(o.feature.id, o.feature.signature,
                                  CanonicalSet(ConfigsOf(o.present), p.configs),
                                  CanonicalSet(ProfilesOf(o.present), p.profiles))
    ensures f == RecordedFeature(o, p)
  {
  }

  method CollectPackages(byPackage: map<string, seq<BaselineFeature>>, ghost inv: seq<Observation>, p: Policy)
    returns (packages: seq<Package>)
    requires Grouped(byPackage, inv, p)
    ensures packages == Generated(inv, p).packages
  {
    hide FeaturesFor;
    packages := [];
    for i := 0 to |p.packages|
      invariant packages == Generated(inv, p).packages[..i]
    {
      var path := p.packages[i];
      var features := if path in byPackage then byPackage[path] else [];
      packages := packages + [Package(path, features)];
    }
  }

  /** presenceDrift: the first combination on which the record and the scan disagree. */
  method PresenceDrift(o: Observation, f: BaselineFeature, universe: seq<Combo>) returns (drift: seq<Drift>)
    ensures |drift| <= 1
    ensures forall d :: d in drift <==> d.PresenceChanged? && DriftAgainst(d, o, f, universe)
  {
    var expected := Combinations(f, universe);
    hide Combinations;
    drift := [];
    for i := 0 to |universe|
      invariant drift == []
      invariant forall j :: 0 <= j < i ==> (universe[j] in expected) == (universe[j] in o.present)
    {
      var combo := universe[i];
      var want, got := combo in expected, combo in o.present;
      if want == got {
        continue;
      }
      drift := [PresenceChanged(KeyOf(o.feature), combo, want)];
      assert FirstDisagreement(universe, expected, o.present, combo);
      forall c | FirstDisagreement(universe, expected, o.present, c) ensures c == combo {
        var k :| 0 <= k < |universe| && universe[k] == c && (c in expected) != (c in o.present)
                 && forall j :: 0 <= j < k ==> (universe[j] in expected) == (universe[j] in o.present);
        assert k == i || universe[k] == combo;
      }
      return;
    }
  }

  /** The map diffBaseline builds over the recorded features. */
  ghost predicate MapsBaseline(b: Baseline, m: map<Key, BaselineFeature>) {
    && (forall k :: k in m ==> Records(b, k.pkg, m[k]) && m[k].id == k.id)
    && (forall path, f :: Records(b, path, f) ==> Key(path, f.id) in m)
  }

  method MapBaseline(base: Baseline) returns (m: map<Key, BaselineFeature>)
    ensures MapsBaseline(base, m)
  {
    m := map[];
    for i := 0 to |base.packages|
      invariant forall k :: k in m ==> Records(base, k.pkg, m[k]) && m[k].id == k.id
      invariant forall a, f :: 0 <= a < i && f in base.packages[a].features ==> Key(base.packages[a].path, f.id) in m
    {
      var pkg := base.packages[i];
      for j := 0 to |pkg.features|
        invariant forall k :: k in m ==> Records(base, k.pkg, m[k]) && m[k].id == k.id
        invariant forall a, f :: 0 <= a < i && f in base.packages[a].features ==> Key(base.packages[a].path, f.id) in m
        invariant forall a :: 0 <= a < j ==> Key(pkg.path, pkg.features[a].id) in m
      {
        assert Records(base, pkg.path, pkg.features[j]);
        m := m[Key(pkg.path, pkg.features[j].id) := pkg.features[j]];
      }
    }
  }

  /** The drift of one live feature. */
  method DiffFeature(o: Observation, base: Baseline, m: map<Key, BaselineFeature>, universe: seq<Combo>)
    returns (drift: seq<Drift>)
    requires MapsBaseline(base, m) && UniqueKeys(base)
    ensures forall d :: d in drift <==> LiveDrift(d, o, base, universe)
  {
    hide Records, Combinations, FirstDisagreement;
    var key := KeyOf(o.feature);
    if key !in m {
      return [Added(key, o.feature.signature)];
    }
    var recorded := m[key];
    assert Records(base, o.feature.pkg, recorded) && recorded.id == o.feature.id;
    drift := [];
    if recorded.signature != o.feature.signature {
      drift := drift + [SignatureChanged(key, recorded.signature, o.feature.signature)];
    }
    ghost var signatures := drift;
    var presence := PresenceDrift(o, recorded, universe);
    drift := drift + presence;
    forall d ensures d in drift <==> DriftAgainst(d, o, recorded, universe) {
      assert d in drift <==> d in signatures || d in presence;
    }
  }

  /** diffBaseline: reports exactly what drifted. */
  method DiffBaseline(live: seq<Observation>, base: Baseline, universe: seq<Combo>) returns (drift: seq<Drift>)
    requires UniqueKeys(base)
    ensures forall d :: d in drift <==> IsDrift(d, live, base, universe)
    ensures drift == [] <==> NoDrift(live, base, universe)
  {
    hide LiveDrift, Records, UniqueKeys, MapsBaseline;
    var m := MapBaseline(base);
    drift := [];
    for i := 0 to |live|
      invariant forall d :: d in drift <==> exists j :: 0 <= j < i && LiveDrift(d, live[j], base, universe)
    {
      var more := DiffFeature(live[i], base, m, universe);
      drift := drift + more;
    }
    ghost var changed := drift;
    var missing := MissingFeatures(live, base, m);
    drift := drift + missing;
    forall d ensures d in drift <==> IsDrift(d, live, base, universe) {
      assert d in drift <==> d in changed || d in missing;
      InSomeObservation(d, live, base, universe);
    }
    assert drift != [] ==> drift[0] in drift;
  }

  lemma InSomeObservation(d: Drift, live: seq<Observation>, base: Baseline, universe: seq<Combo>)
    ensures (exists j :: 0 <= j < |live| && LiveDrift(d, live[j], base, universe)) <==>
            (exists o :: o in live && LiveDrift(d, o, base, universe))
  {
    hide LiveDrift;
    if j :| 0 <= j < |live| && LiveDrift(d, live[j], base, universe) {
      assert live[j] in live;
    }
  }

  /** The recorded features that were not scanned. */
  method MissingFeatures(live: seq<Observation>, base: Baseline, m: map<Key, BaselineFeature>)
    returns (drift: seq<Drift>)
    requires MapsBaseline(base, m) && UniqueKeys(base)
    ensures forall d :: d in drift <==> MissingDrift(d, live, base)
  {
    hide Records;
    var keys := Enumerate(m.Keys);
    var liveKeys := InventoryKeys(live);
    drift := [];
    for i := 0 to |keys|
      invariant forall d :: d in drift <==>
                  exists j :: 0 <= j < i && keys[j] !in liveKeys && d == Missing(keys[j], m[keys[j]].signature)
    {
      assert keys[i] in keys;
      if keys[i] !in liveKeys {
        drift := drift + [Missing(keys[i], m[keys[i]].signature)];
      }
    }
    forall d ensures d in drift <==> MissingDrift(d, live, base) {
      if d in drift {
        assert Records(base, d.key.pkg, m[d.key]);
      }
      if MissingDrift(d, live, base) {
        var f :| Records(base, d.key.pkg, f) && f.id == d.key.id && f.signature == d.signature;
        assert d.key in m && m[d.key] == f;
        assert d.key in keys;
        var j :| 0 <= j < |keys| && keys[j] == d.key;
      }
    }
  }
}
