/**
  The public-surface inventory: per-combination scans are folded into one
  observation per feature, recording where each was seen. A feature with two
  signatures has no canonical form, so it refuses the whole inventory.
 */
module Surface {
  import opened Base
  import opened Order

  /** A build configuration on a target profile. */
  datatype Combo = Combo(config: string, profile: string)

  datatype Feature = Feature(pkg: string, id: string, signature: string)

  datatype Key = Key(pkg: string, id: string)

  datatype Scan = Scan(combo: Combo, features: seq<Feature>)

  /** One sighting of a feature. */
  datatype Sighting = Sighting(combo: Combo, feature: Feature)

  datatype Observation = Observation(feature: Feature, present: set<Combo>)

  /** A feature seen with a second signature, and where each was seen. */
  datatype Divergence = Divergence(key: Key, expected: string, first: Combo, actual: string, at: Combo)

  function KeyOf(f: Feature): Key {
    Key(f.pkg, f.id)
  }

  predicate KeyLess(a: Key, b: Key) {
    if a.pkg != b.pkg then StringLess(a.pkg, b.pkg) else StringLess(a.id, b.id)
  }

  /** Package first, then id. */
  lemma KeyLessIff(a: Key, b: Key)
    ensures KeyLess(a, b) <==> FieldsLess([a.pkg, a.id], [b.pkg, b.id])
  {
    hide StringLess;
    var x, y := [a.pkg, a.id], [b.pkg, b.id];
    StringLessIrreflexive(a.pkg);
    assert KeyLess(a, b) <==> (LessAtField(x, y, 0) || LessAtField(x, y, 1));
    forall k: nat | LessAtField(x, y, k) ensures k == 0 || k == 1 {
    }
  }

  lemma KeyLessIsStrictTotal()
    ensures StrictTotal(KeyLess)
  {
    forall x: Key ensures !KeyLess(x, x) {
      StringLessIrreflexive(x.id);
    }
    forall x: Key, y: Key ensures KeyLess(x, y) || KeyLess(y, x) || x == y {
      StringLessConnected(x.pkg, y.pkg);
      StringLessConnected(x.id, y.id);
    }
    forall x: Key, y: Key, z: Key | KeyLess(x, y) && KeyLess(y, z) ensures KeyLess(x, z) {
      StringOrder(x.pkg, y.pkg, z.pkg);
      StringOrder(y.pkg, x.pkg, y.pkg);
      StringOrder(x.id, y.id, z.id);
    }
  }

  // ---------------------------------------------------------------------
  // What the scans say
  // ---------------------------------------------------------------------

  function SightingsOf(scan: Scan): seq<Sighting> {
    seq(|scan.features|, i requires 0 <= i < |scan.features| => Sighting(scan.combo, scan.features[i]))
  }

  function Sightings(scans: seq<Scan>): seq<Sighting> {
    if scans == [] then [] else SightingsOf(scans[0]) + Sightings(scans[1..])
  }

  /** Each scan sights its features in its own combination. */
  lemma {:induction false} SightingsAre(scans: seq<Scan>, s: Sighting)
    ensures s in Sightings(scans) <==>
            exists i :: 0 <= i < |scans| && scans[i].combo == s.combo && s.feature in scans[i].features
    decreases |scans|
  {
    if scans != [] {
      SightingsAre(scans[1..], s);
      assert scans == [scans[0]] + scans[1..];
      if s.combo == scans[0].combo && s.feature in scans[0].features {
        var i :| 0 <= i < |scans[0].features| && scans[0].features[i] == s.feature;
        assert SightingsOf(scans[0])[i] == s;
      }
      if i :| 0 <= i < |scans| && scans[i].combo == s.combo && s.feature in scans[i].features {
        assert i > 0 ==> scans[1..][i - 1] == scans[i];
      }
      if i :| 0 <= i < |scans[1..]| && scans[1..][i].combo == s.combo && s.feature in scans[1..][i].features {
        assert scans[i + 1] == scans[1..][i];
      }
    }
  }

  /** Every sighting of a feature agrees on its signature. */
  ghost predicate OneSignature(sightings: seq<Sighting>) {
    forall a, b :: a in sightings && b in sightings && KeyOf(a.feature) == KeyOf(b.feature) ==>
      a.feature.signature == b.feature.signature
  }

  /** The combinations a key was seen in with this signature. */
  function SeenIn(sightings: seq<Sighting>, f: Feature): set<Combo> {
    set s | s in sightings && s.feature == f :: s.combo
  }

  function InventoryKeys(inv: seq<Observation>): seq<Key> {
    seq(|inv|, i requires 0 <= i < |inv| => KeyOf(inv[i].feature))
  }

  /** The inventory of the sightings: every seen feature once, in key order, with where it was seen. */
  ghost predicate InventoryOf(sightings: seq<Sighting>, inv: seq<Observation>) {
    && Increasing(InventoryKeys(inv), KeyLess)
    && (forall s :: s in sightings ==> KeyOf(s.feature) in InventoryKeys(inv))
    && (forall o :: o in inv ==> o.present == SeenIn(sightings, o.feature) && o.present != {})
  }

  /** There is at most one inventory. */
  lemma InventoryIsUnique(sightings: seq<Sighting>, a: seq<Observation>, b: seq<Observation>)
    requires OneSignature(sightings) && InventoryOf(sightings, a) && InventoryOf(sightings, b)
    ensures a == b
  {
    KeyLessIsStrictTotal();
    InventoryKeysAreSeen(sightings, a);
    InventoryKeysAreSeen(sightings, b);
    hide KeyLess;
    SortedUnique(InventoryKeys(a), InventoryKeys(b), KeyLess);
    forall i | 0 <= i < |a| ensures a[i] == b[i] {
      assert InventoryKeys(a)[i] == InventoryKeys(b)[i];
      assert a[i] in a && b[i] in b;
      var c :| c in a[i].present;
      var d :| d in b[i].present;
      assert Sighting(c, a[i].feature) in sightings && Sighting(d, b[i].feature) in sightings;
    }
  }

  lemma InventoryKeysAreSeen(sightings: seq<Sighting>, inv: seq<Observation>)
    requires InventoryOf(sightings, inv)
    ensures forall k :: k in InventoryKeys(inv) <==> exists s :: s in sightings && KeyOf(s.feature) == k
  {
    forall k | k in InventoryKeys(inv) ensures exists s :: s in sightings && KeyOf(s.feature) == k {
      var i :| 0 <= i < |inv| && InventoryKeys(inv)[i] == k;
      assert inv[i] in inv;
      var c :| c in inv[i].present;
      assert Sighting(c, inv[i].feature) in sightings;
    }
  }

  // ---------------------------------------------------------------------
  // reconcile
  // ---------------------------------------------------------------------

  datatype Record = Record(feature: Feature, present: set<Combo>, first: Combo)

  /** The fold's state after the sightings done. */
  ghost predicate Folded(done: seq<Sighting>, byKey: map<Key, Record>, order: seq<Key>, drift: seq<Divergence>) {
    && Distinct(order) && (forall k :: k in order <==> k in byKey)
    && (forall s :: s in done ==> KeyOf(s.feature) in byKey)
    && (forall k :: k in byKey ==> RecordOk(done, k, byKey[k]))
    && (drift == [] <==>
        forall s :: s in done && KeyOf(s.feature) in byKey ==> s.feature == byKey[KeyOf(s.feature)].feature)
    && (forall d :: d in drift <==> Diverges(done, d))
  }

  /** Nobody saw the feature before. */
  ghost predicate FirstSighting(done: seq<Sighting>, s: Sighting) {
    exists i :: 0 <= i < |done| && done[i] == s
                && forall j :: 0 <= j < i ==> KeyOf(done[j].feature) != KeyOf(s.feature)
  }

  /** A sighting that disagrees with the first one of its feature. */
  ghost predicate Diverges(done: seq<Sighting>, d: Divergence) {
    && d.expected != d.actual
    && FirstSighting(done, Sighting(d.first, Feature(d.key.pkg, d.key.id, d.expected)))
    && Sighting(d.at, Feature(d.key.pkg, d.key.id, d.actual)) in done
  }

  ghost predicate RecordOk(done: seq<Sighting>, k: Key, r: Record) {
    KeyOf(r.feature) == k && FirstSighting(done, Sighting(r.first, r.feature)) && r.present == SeenIn(done, r.feature)
  }

  lemma FirstIsSighted(done: seq<Sighting>, s: Sighting)
    requires FirstSighting(done, s)
    ensures s in done
  {
  }

  lemma OneFirst(done: seq<Sighting>, s: Sighting, t: Sighting)
    requires FirstSighting(done, s) && FirstSighting(done, t) && KeyOf(s.feature) == KeyOf(t.feature)
    ensures s == t
  {
  }

  /** One more sighting is a first one only if its key is new. */
  lemma FirstStep(done: seq<Sighting>, s: Sighting, t: Sighting)
    ensures FirstSighting(done + [s], t) <==>
            FirstSighting(done, t) ||
            (s == t && forall j :: 0 <= j < |done| ==> KeyOf(done[j].feature) != KeyOf(s.feature))
  {
    if i :| 0 <= i < |done| && done[i] == t && forall j :: 0 <= j < i ==> KeyOf(done[j].feature) != KeyOf(t.feature) {
      assert (done + [s])[i] == t;
    }
    if s == t && forall j :: 0 <= j < |done| ==> KeyOf(done[j].feature) != KeyOf(s.feature) {
      assert (done + [s])[|done|] == t;
    }
    if i :| 0 <= i <= |done| && (done + [s])[i] == t
            && forall j :: 0 <= j < i ==> KeyOf((done + [s])[j].feature) != KeyOf(t.feature) {
      assert forall j :: 0 <= j < i ==> (done + [s])[j] == done[j];
    }
  }

  /** What a further sighting of a recorded feature diverges from. */
  lemma DivergesStep(done: seq<Sighting>, k: Key, r: Record, s: Sighting, d: Divergence)
    requires RecordOk(done, k, r) && KeyOf(s.feature) == k
    ensures Diverges(done + [s], d) <==>
            || Diverges(done, d)
            || (r.feature != s.feature
                && d == Divergence(k, r.feature.signature, r.first, s.feature.signature, s.combo))
  {
    var first := Sighting(d.first, Feature(d.key.pkg, d.key.id, d.expected));
    var recorded := Sighting(r.first, r.feature);
    FirstIsSighted(done, recorded);
    FirstStep(done, s, first);
    hide FirstSighting;
    if FirstSighting(done, first) && d.key == k {
      OneFirst(done, first, recorded);
    }
  }

  /** A first sighting of a feature diverges from nothing. */
  lemma DivergesNew(done: seq<Sighting>, s: Sighting, d: Divergence)
    requires forall t :: t in done ==> KeyOf(t.feature) != KeyOf(s.feature)
    ensures Diverges(done + [s], d) <==> Diverges(done, d)
  {
    var first := Sighting(d.first, Feature(d.key.pkg, d.key.id, d.expected));
    FirstStep(done, s, first);
    if FirstSighting(done, first) {
      FirstIsSighted(done, first);
    }
    hide FirstSighting;
  }

  lemma SeenInStep(done: seq<Sighting>, s: Sighting, f: Feature)
    ensures SeenIn(done + [s], f) == if s.feature == f then SeenIn(done, f) + {s.combo} else SeenIn(done, f)
  {
    forall c ensures c in SeenIn(done + [s], f) <==> c in SeenIn(done, f) || (s.feature == f && c == s.combo) {
      if c in SeenIn(done, f) {
        assert Sighting(c, f) in done + [s];
      }
      if s.feature == f {
        assert s in done + [s];
      }
    }
  }

  /** A feature seen for the first time. */
  lemma FoldNew(done: seq<Sighting>, byKey: map<Key, Record>, order: seq<Key>, drift: seq<Divergence>, s: Sighting)
    requires Folded(done, byKey, order, drift) && KeyOf(s.feature) !in byKey
    ensures var k := KeyOf(s.feature);
            Folded(done + [s], byKey[k := Record(s.feature, {s.combo}, s.combo)], order + [k], drift)
  {
    var k := KeyOf(s.feature);
    var next := byKey[k := Record(s.feature, {s.combo}, s.combo)];
    assert s in done + [s];
    assert SeenIn(done, s.feature) == {};
    forall j | j in next ensures RecordOk(done + [s], j, next[j]) {
      SeenInStep(done, s, next[j].feature);
      FirstStep(done, s, Sighting(next[j].first, next[j].feature));
    }
    forall d ensures Diverges(done + [s], d) <==> d in drift {
      DivergesNew(done, s, d);
    }
    hide RecordOk, Diverges;
    assert k !in order;
    if drift != [] {
      var bad :| bad in done && KeyOf(bad.feature) in byKey && bad.feature != byKey[KeyOf(bad.feature)].feature;
      assert bad in done + [s] && bad.feature != next[KeyOf(bad.feature)].feature;
    }
  }

  /** A record with one more sighting, of its own feature or of another key. */
  lemma RecordAgain(done: seq<Sighting>, k: Key, r: Record, s: Sighting)
    requires RecordOk(done, k, r) && (KeyOf(s.feature) == k ==> r.feature == s.feature)
    ensures RecordOk(done + [s], k, if KeyOf(s.feature) == k then r.(present := r.present + {s.combo}) else r)
  {
    SeenInStep(done, s, r.feature);
    FirstStep(done, s, Sighting(r.first, r.feature));
    hide FirstSighting, SeenIn;
  }

  lemma NothingNewDiverges(done: seq<Sighting>, k: Key, r: Record, s: Sighting)
    requires RecordOk(done, k, r) && KeyOf(s.feature) == k && r.feature == s.feature
    ensures forall d :: Diverges(done + [s], d) <==> Diverges(done, d)
  {
    hide RecordOk, Diverges;
    forall d ensures Diverges(done + [s], d) <==> Diverges(done, d) {
      DivergesStep(done, k, r, s, d);
    }
  }

  lemma AgreesAgain(done: seq<Sighting>, byKey: map<Key, Record>, next: map<Key, Record>, s: Sighting)
    requires next.Keys == byKey.Keys && forall j :: j in byKey ==> next[j].feature == byKey[j].feature
    requires KeyOf(s.feature) in byKey && byKey[KeyOf(s.feature)].feature == s.feature
    ensures (forall t :: t in done + [s] && KeyOf(t.feature) in next ==>
               t.feature == next[KeyOf(t.feature)].feature) <==>
            (forall t :: t in done && KeyOf(t.feature) in byKey ==> t.feature == byKey[KeyOf(t.feature)].feature)
  {
    if t :| t in done && KeyOf(t.feature) in byKey && t.feature != byKey[KeyOf(t.feature)].feature {
      assert t in done + [s];
    }
  }

  /** A feature seen again with the recorded signature. */
  lemma FoldAgain(done: seq<Sighting>, byKey: map<Key, Record>, order: seq<Key>, drift: seq<Divergence>, s: Sighting)
    requires Folded(done, byKey, order, drift) && KeyOf(s.feature) in byKey
    requires byKey[KeyOf(s.feature)].feature == s.feature
    ensures var k := KeyOf(s.feature);
            Folded(done + [s], byKey[k := byKey[k].(present := byKey[k].present + {s.combo})], order, drift)
  {
    var k := KeyOf(s.feature);
    var next := byKey[k := byKey[k].(present := byKey[k].present + {s.combo})];
    hide RecordOk, Diverges, OneSignature;
    FoldedKey(done, byKey, order, drift, k);
    forall j | j in byKey ensures RecordOk(done + [s], j, next[j]) {
      RecordAgain(done, j, byKey[j], s);
    }
    NothingNewDiverges(done, k, byKey[k], s);
    assert next.Keys == byKey.Keys && forall j :: j in byKey ==> next[j].feature == byKey[j].feature;
    AgreesAgain(done, byKey, next, s);
  }

  /** A feature seen with another signature. */
  lemma FoldDiverged(done: seq<Sighting>, byKey: map<Key, Record>, order: seq<Key>, drift: seq<Divergence>,
                     s: Sighting, d: Divergence)
    requires Folded(done, byKey, order, drift) && KeyOf(s.feature) in byKey
    requires byKey[KeyOf(s.feature)].feature != s.feature
    requires var rec := byKey[KeyOf(s.feature)];
             d == Divergence(KeyOf(s.feature), rec.feature.signature, rec.first, s.feature.signature, s.combo)
    ensures Folded(done + [s], byKey, order, drift + [d])
  {
    assert RecordOk(done, KeyOf(s.feature), byKey[KeyOf(s.feature)]);
    forall j | j in byKey ensures RecordOk(done + [s], j, byKey[j]) {
      SeenInStep(done, s, byKey[j].feature);
      assert RecordOk(done, j, byKey[j]);
      KeysDiffer(byKey, j, s);
      FirstStep(done, s, Sighting(byKey[j].first, byKey[j].feature));
    }
    var k := KeyOf(s.feature);
    forall e ensures Diverges(done + [s], e) <==> e in drift + [d] {
      DivergesStep(done, k, byKey[k], s, e);
    }
    hide RecordOk, Diverges;
    assert s in done + [s];
  }

  lemma KeysDiffer(byKey: map<Key, Record>, j: Key, s: Sighting)
    requires j in byKey && KeyOf(s.feature) in byKey && byKey[KeyOf(s.feature)].feature != s.feature
    requires KeyOf(byKey[j].feature) == j
    ensures byKey[j].feature != s.feature
  {
  }

  method FoldScan(scan: Scan, ghost done: seq<Sighting>, byKey0: map<Key, Record>, order0: seq<Key>,
                  drift0: seq<Divergence>)
    returns (byKey: map<Key, Record>, order: seq<Key>, drift: seq<Divergence>)
    requires Folded(done, byKey0, order0, drift0)
    ensures Folded(done + SightingsOf(scan), byKey, order, drift)
  {
    hide Folded;
    byKey, order, drift := byKey0, order0, drift0;
    assert done + SightingsOf(scan)[..0] == done;
    for i := 0 to |scan.features|
      invariant Folded(done + SightingsOf(scan)[..i], byKey, order, drift)
    {
      var f := scan.features[i];
      var key := KeyOf(f);
      ghost var before := done + SightingsOf(scan)[..i];
      ghost var s := Sighting(scan.combo, f);
      assert done + SightingsOf(scan)[..i + 1] == before + [s];
      if key !in byKey {
        FoldNew(before, byKey, order, drift, s);
        byKey := byKey[key := Record(f, {scan.combo}, scan.combo)];
        order := order + [key];
        continue;
      }
      var rec := byKey[key];
      FoldedKey(before, byKey, order, drift, key);
      if f.signature != rec.feature.signature {
        var d := Divergence(key, rec.feature.signature, rec.first, f.signature, scan.combo);
        FoldDiverged(before, byKey, order, drift, s, d);
        drift := drift + [d];
        continue;
      }
      FoldAgain(before, byKey, order, drift, s);
      byKey := byKey[key := rec.(present := rec.present + {scan.combo})];
    }
    assert SightingsOf(scan)[..|scan.features|] == SightingsOf(scan);
  }

  lemma FoldedKey(done: seq<Sighting>, byKey: map<Key, Record>, order: seq<Key>, drift: seq<Divergence>, k: Key)
    requires Folded(done, byKey, order, drift) && k in byKey
    ensures KeyOf(byKey[k].feature) == k
  {
  }

  lemma NothingFolded()
    ensures Folded([], map[], [], [])
  {
  }

  lemma {:induction false} SightingsStep(scans: seq<Scan>, i: nat)
    requires i < |scans|
    ensures Sightings(scans[..i + 1]) == Sightings(scans[..i]) + SightingsOf(scans[i])
    decreases i
  {
    if i == 0 {
      assert scans[..1][1..] == [];
      assert Sightings(scans[..1]) == SightingsOf(scans[0]) + [];
    } else {
      assert scans[..i + 1][1..] == scans[1..][..i];
      assert scans[..i][1..] == scans[1..][..i - 1];
      SightingsStep(scans[1..], i - 1);
    }
  }

  /**
    Succeeds exactly when every feature has one signature, and then gives the
    inventory of everything that was scanned.
   */
  method Reconcile(scans: seq<Scan>) returns (r: Result<seq<Observation>, seq<Divergence>>)
    ensures r.Ok? <==> OneSignature(Sightings(scans))
    ensures r.Ok? ==> InventoryOf(Sightings(scans), r.value)
    ensures r.Err? ==> r.error != [] && forall d :: d in r.error <==> Diverges(Sightings(scans), d)
  {
    hide Folded, Sightings, OneSignature, InventoryOf, Diverges;
    var byKey: map<Key, Record> := map[];
    var order: seq<Key> := [];
    var drift: seq<Divergence> := [];
    NothingFolded();
    NoSightings(scans[..0]);
    for i := 0 to |scans|
      invariant Folded(Sightings(scans[..i]), byKey, order, drift)
    {
      SightingsStep(scans, i);
      byKey, order, drift := FoldScan(scans[i], Sightings(scans[..i]), byKey, order, drift);
    }
    assert scans[..|scans|] == scans;
    FoldedVerdict(Sightings(scans), byKey, order, drift);
    if drift != [] {
      return Err(drift);
    }
    var observations := CollectObservations(byKey, order);
    FoldedInventory(Sightings(scans), byKey, order, observations);
    r := Ok(observations);
  }

  lemma NoSightings(scans: seq<Scan>)
    requires scans == []
    ensures Sightings(scans) == []
  {
  }

  /** The recorded features, in sorted key order. */
  method CollectObservations(byKey: map<Key, Record>, order: seq<Key>) returns (observations: seq<Observation>)
    requires forall k :: k in order ==> k in byKey
    ensures |observations| == |Sort(order, KeyLess)|
    ensures forall i :: 0 <= i < |observations| ==>
              var k := Sort(order, KeyLess)[i];
              k in byKey && observations[i] == Observation(byKey[k].feature, byKey[k].present)
  {
    var sorted := Sort(order, KeyLess);
    SameElements(sorted, order);
    hide Sort;
    observations := [];
    for i := 0 to |sorted|
      invariant |observations| == i
      invariant forall j :: 0 <= j < i ==>
                  && sorted[j] in byKey
                  && observations[j] == Observation(byKey[sorted[j]].feature, byKey[sorted[j]].present)
    {
      assert sorted[i] in order;
      var rec := byKey[sorted[i]];
      observations := observations + [Observation(rec.feature, rec.present)];
    }
  }

  /** No drift was recorded exactly when the signatures agree. */
  lemma FoldedVerdict(done: seq<Sighting>, byKey: map<Key, Record>, order: seq<Key>, drift: seq<Divergence>)
    requires Folded(done, byKey, order, drift)
    ensures drift == [] <==> OneSignature(done)
    ensures forall d :: d in drift <==> Diverges(done, d)
    ensures forall k :: k in order ==> k in byKey
  {
    if drift != [] {
      var bad :| bad in done && KeyOf(bad.feature) in byKey && bad.feature != byKey[KeyOf(bad.feature)].feature;
      var r := byKey[KeyOf(bad.feature)];
      assert RecordOk(done, KeyOf(bad.feature), r);
      FirstIsSighted(done, Sighting(r.first, r.feature));
    }
  }

  lemma FoldedInventory(done: seq<Sighting>, byKey: map<Key, Record>, order: seq<Key>, inv: seq<Observation>)
    requires Folded(done, byKey, order, [])
    requires |inv| == |Sort(order, KeyLess)|
    requires forall i :: 0 <= i < |inv| ==>
               var k := Sort(order, KeyLess)[i];
               k in byKey && inv[i] == Observation(byKey[k].feature, byKey[k].present)
    ensures InventoryOf(done, inv)
  {
    KeyLessIsStrictTotal();
    SortIncreases(order, KeyLess);
    hide Sort, KeyLess;
    var sorted := Sort(order, KeyLess);
    forall i | 0 <= i < |inv| ensures KeyOf(inv[i].feature) == sorted[i] {
      assert RecordOk(done, sorted[i], byKey[sorted[i]]);
    }
    assert InventoryKeys(inv) == sorted;
    forall o | o in inv ensures o.present == SeenIn(done, o.feature) && o.present != {} {
      var i :| 0 <= i < |inv| && inv[i] == o;
      var r := byKey[sorted[i]];
      assert RecordOk(done, sorted[i], r);
      FirstIsSighted(done, Sighting(r.first, r.feature));
      assert r.first in SeenIn(done, r.feature);
    }
  }
}
