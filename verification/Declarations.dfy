/**
  Prompt and resource declarations stored on a command tree, and the two walks
  that project them: the ax-native schema, which reflects the tree and converts
  it with a threaded Deduper, and CollectDeclarations, which the MCP adapter and
  server use. Decoding an annotation inverts encoding it; which declarations are
  valid is a parameter.
 */
module Declarations {
  import opened Base
  import opened Order

  /** A prompt keyed by name, or a resource keyed by URI. */
  datatype Declaration = Declaration(key: string, payload: string)

  datatype Kind = Prompts | Resources

  /** The raw value under an annotation key. */
  datatype Annotation = Absent | Undecodable | Stored(entries: seq<Declaration>)

  datatype Command = Command(
    path: string, hidden: bool, prompts: Annotation, resources: Annotation, children: seq<Command>)

  type Validator = Declaration -> bool

  // ---------------------------------------------------------------------
  // Reading annotations
  // ---------------------------------------------------------------------

  function KeepValid(ds: seq<Declaration>, valid: Validator): (kept: seq<Declaration>)
    ensures |kept| <= |ds|
    ensures |kept| == |ds| ==> kept == ds
    ensures |kept| == |ds| <==> forall d :: d in ds ==> valid(d)
    ensures forall d :: d in kept <==> d in ds && valid(d)
  {
    if ds == [] then []
    else
      assert ds == [ds[0]] + ds[1..];
      (if valid(ds[0]) then [ds[0]] else []) + KeepValid(ds[1..], valid)
  }

  /** These positions of ds, in increasing order, hold what was kept. */
  ghost predicate Picks(ds: seq<Declaration>, kept: seq<Declaration>, at: seq<nat>) {
    && |at| == |kept|
    && (forall i, j :: 0 <= i < j < |at| ==> at[i] < at[j])
    && forall i :: 0 <= i < |at| ==> at[i] < |ds| && kept[i] == ds[at[i]]
  }

  ghost function Later(at: seq<nat>): seq<nat> {
    seq(|at|, i requires 0 <= i < |at| => at[i] + 1)
  }

  lemma LaterHolds(at: seq<nat>, k: nat)
    ensures k in Later(at) <==> k > 0 && k - 1 in at
  {
    if k > 0 && k - 1 in at {
      var i :| 0 <= i < |at| && at[i] == k - 1;
      assert Later(at)[i] == k;
    }
  }

  lemma PicksLater(ds: seq<Declaration>, kept: seq<Declaration>, at: seq<nat>)
    requires ds != [] && Picks(ds[1..], kept, at)
    ensures Picks(ds, kept, Later(at))
  {
    var later := Later(at);
    forall i | 0 <= i < |later| ensures later[i] < |ds| && kept[i] == ds[later[i]] {
      assert at[i] < |ds[1..]| && ds[1..][at[i]] == ds[at[i] + 1];
    }
  }

  lemma PicksFirst(ds: seq<Declaration>, kept: seq<Declaration>, at: seq<nat>)
    requires ds != [] && Picks(ds, kept, Later(at))
    ensures Picks(ds, [ds[0]] + kept, [0] + Later(at))
  {
    var later := Later(at);
    var all, more := [0] + later, [ds[0]] + kept;
    forall i, j | 0 <= i < j < |all| ensures all[i] < all[j] {
      assert all[j] == later[j - 1] > 0;
      assert i > 0 ==> all[i] == later[i - 1];
    }
    forall i | 0 <= i < |all| ensures all[i] < |ds| && more[i] == ds[all[i]] {
      assert i > 0 ==> all[i] == later[i - 1] && more[i] == kept[i - 1];
    }
  }

  predicate ValidAt(ds: seq<Declaration>, valid: Validator, k: nat) {
    k < |ds| && valid(ds[k])
  }

  /** Exactly the valid entries are kept, each where it stands among them. */
  lemma {:induction false} KeepValidPicks(ds: seq<Declaration>, valid: Validator) returns (at: seq<nat>)
    ensures Picks(ds, KeepValid(ds, valid), at)
    ensures forall k: nat :: k in at <==> ValidAt(ds, valid, k)
    decreases |ds|
  {
    if ds == [] {
      at := [];
    } else {
      var rest := KeepValidPicks(ds[1..], valid);
      PicksLater(ds, KeepValid(ds[1..], valid), rest);
      PicksFirst(ds, KeepValid(ds[1..], valid), rest);
      assert [] + KeepValid(ds[1..], valid) == KeepValid(ds[1..], valid);
      at := if valid(ds[0]) then [0] + Later(rest) else Later(rest);
      assert forall k: nat :: k > 0 ==> (ValidAt(ds, valid, k) <==> ValidAt(ds[1..], valid, k - 1));
      assert ValidAt(ds, valid, 0) <==> valid(ds[0]);
      hide Picks, ValidAt, Later, KeepValid;
      forall k: nat ensures k in at <==> ValidAt(ds, valid, k) {
        LaterHolds(rest, k);
      }
    }
  }

  /** The declarations an annotation projects, failing closed. */
  function Decoded(a: Annotation, valid: Validator): (ds: seq<Declaration>)
    ensures !a.Stored? ==> ds == []
    ensures a.Stored? ==> forall d :: d in ds <==> d in a.entries && valid(d)
  {
    if a.Stored? then KeepValid(a.entries, valid) else []
  }

  predicate IsClean(a: Annotation, valid: Validator): (clean: bool)
    ensures clean <==> !a.Undecodable? && (a.Stored? ==> forall d :: d in a.entries ==> valid(d))
  {
    match a
    case Absent => true
    case Undecodable => false
    case Stored(es) => |KeepValid(es, valid)| == |es|
  }

  function DeclaredBy(c: Command, kind: Kind, valid: Validator): seq<Declaration> {
    Decoded(if kind == Prompts then c.prompts else c.resources, valid)
  }

  // ---------------------------------------------------------------------
  // First-wins deduplication
  // ---------------------------------------------------------------------

  /** What keepFirst returns and the keys it has seen afterwards. */
  datatype Firsts = Firsts(kept: seq<Declaration>, seen: set<string>)

  function KeepFirst(seen: set<string>, ds: seq<Declaration>): Firsts
    decreases |ds|
  {
    if ds == [] then Firsts([], seen)
    else if ds[0].key in seen then KeepFirst(seen, ds[1..])
    else
      var rest := KeepFirst(seen + {ds[0].key}, ds[1..]);
      Firsts([ds[0]] + rest.kept, rest.seen)
  }

  /** The first declaration of a key that was not seen before. */
  predicate FirstOfKey(seen: set<string>, ds: seq<Declaration>, k: nat) {
    k < |ds| && ds[k].key !in seen && forall j :: 0 <= j < k ==> ds[j].key != ds[k].key
  }

  lemma FirstLater(seen: set<string>, ds: seq<Declaration>, k: nat)
    requires ds != []
    ensures FirstOfKey(seen, ds, 0) <==> ds[0].key !in seen
    ensures k > 0 ==> (FirstOfKey(seen, ds, k) <==> FirstOfKey(seen + {ds[0].key}, ds[1..], k - 1))
  {
    if 0 < k < |ds| {
      assert forall j :: 0 <= j < k - 1 ==> ds[1..][j] == ds[j + 1];
      if FirstOfKey(seen + {ds[0].key}, ds[1..], k - 1) {
        forall j | 0 <= j < k ensures ds[j].key != ds[k].key {
          assert j > 0 ==> ds[1..][j - 1] == ds[j];
        }
      }
    }
  }

  lemma SeenBefore(seen: set<string>, ds: seq<Declaration>)
    requires ds != [] && ds[0].key in seen
    ensures seen + {ds[0].key} == seen
  {
  }

  /** Exactly the first declaration of each unseen key is kept, in order. */
  lemma {:induction false} KeepFirstPicks(seen: set<string>, ds: seq<Declaration>) returns (at: seq<nat>)
    ensures Picks(ds, KeepFirst(seen, ds).kept, at)
    ensures forall k: nat :: k in at <==> FirstOfKey(seen, ds, k)
    decreases |ds|
  {
    if ds == [] {
      at := [];
    } else {
      if ds[0].key in seen {
        SeenBefore(seen, ds);
      }
      var now := seen + {ds[0].key};
      var rest := KeepFirstPicks(now, ds[1..]);
      PicksLater(ds, KeepFirst(now, ds[1..]).kept, rest);
      PicksFirst(ds, KeepFirst(now, ds[1..]).kept, rest);
      at := if ds[0].key !in seen then [0] + Later(rest) else Later(rest);
      hide Picks, FirstOfKey, Later;
      forall k: nat ensures k in at <==> FirstOfKey(seen, ds, k) {
        FirstLater(seen, ds, k);
        LaterHolds(rest, k);
      }
    }
  }

  function Keys(ds: seq<Declaration>): seq<string> {
    seq(|ds|, i requires 0 <= i < |ds| => ds[i].key)
  }

  lemma {:induction false} KeepFirstConcat(seen: set<string>, xs: seq<Declaration>, ys: seq<Declaration>)
    ensures var a := KeepFirst(seen, xs);
            var b := KeepFirst(a.seen, ys);
            KeepFirst(seen, xs + ys) == Firsts(a.kept + b.kept, b.seen)
    decreases |xs|
  {
    if xs == [] {
      assert xs + ys == ys;
    } else {
      assert (xs + ys)[1..] == xs[1..] + ys;
      KeepFirstConcat(if xs[0].key in seen then seen else seen + {xs[0].key}, xs[1..], ys);
    }
  }

  /** Keeps each unseen key once, and drops nothing exactly when all keys are new and distinct. */
  lemma {:induction false} KeepFirstDrops(seen: set<string>, ds: seq<Declaration>)
    ensures var r := KeepFirst(seen, ds);
            && Distinct(Keys(r.kept))
            && (forall k :: k in Keys(r.kept) ==> k !in seen)
            && r.seen == seen + (set k | k in Keys(ds))
            && (r.kept == ds <==> Distinct(Keys(ds)) && forall k :: k in Keys(ds) ==> k !in seen)
            && |r.kept| <= |ds|
    decreases |ds|
  {
    if ds != [] {
      var d := ds[0];
      var now := if d.key in seen then seen else seen + {d.key};
      KeepFirstDrops(now, ds[1..]);
      var r, rest := KeepFirst(seen, ds), KeepFirst(now, ds[1..]);
      assert Keys(ds) == [d.key] + Keys(ds[1..]);
      assert ds == [d] + ds[1..];
      if d.key in seen {
        assert Keys(ds)[0] in seen;
        assert |r.kept| < |ds|;
      } else {
        assert r.kept == [d] + rest.kept;
        assert Keys(r.kept) == [d.key] + Keys(rest.kept);
        if r.kept == ds {
          assert r.kept[1..] == ds[1..];
        }
        DistinctCons(d.key, Keys(ds[1..]));
        DistinctCons(d.key, Keys(rest.kept));
      }
    }
  }

  lemma DistinctCons(k: string, ks: seq<string>)
    ensures Distinct([k] + ks) <==> Distinct(ks) && k !in ks
  {
    var all := [k] + ks;
    if Distinct(all) {
      forall i | 0 <= i < |ks| ensures ks[i] != k {
        assert all[0] != all[i + 1];
      }
      forall i, j | 0 <= i < j < |ks| ensures ks[i] != ks[j] {
        assert all[i + 1] != all[j + 1];
      }
    }
  }

  // ---------------------------------------------------------------------
  // The two walks
  // ---------------------------------------------------------------------

  /** WalkDeclarationCommands: pre-order, never under a hidden child. */
  function Walk(c: Command): seq<Command> {
    [c] + WalkAll(c.children)
  }

  function WalkAll(cs: seq<Command>): seq<Command> {
    if cs == [] then []
    else (if cs[0].hidden then [] else Walk(cs[0])) + WalkAll(cs[1..])
  }

  /** The command itself, and what is visible from a child that is not hidden. */
  ghost predicate Visible(c: Command, d: Command) {
    d == c || exists i :: 0 <= i < |c.children| && !c.children[i].hidden && Visible(c.children[i], d)
  }

  ghost predicate VisibleIn(cs: seq<Command>, d: Command, i: nat)
    requires i < |cs|
  {
    !cs[i].hidden && Visible(cs[i], d)
  }

  /** The walk visits the root, hidden or not, first, and below it exactly what no hidden command stands above. */
  lemma {:induction false} WalkVisitsVisible(c: Command, d: Command)
    ensures Walk(c)[0] == c && (d in Walk(c) <==> Visible(c, d))
    decreases c, 1
  {
    WalkAllVisitsVisible(c.children, d);
    assert d in Walk(c) <==> d == c || d in WalkAll(c.children);
    hide Walk, WalkAll;
    if i :| 0 <= i < |c.children| && !c.children[i].hidden && Visible(c.children[i], d) {
      assert VisibleIn(c.children, d, i);
    }
  }

  lemma {:induction false} WalkAllVisitsVisible(cs: seq<Command>, d: Command)
    ensures d in WalkAll(cs) <==> exists i :: 0 <= i < |cs| && VisibleIn(cs, d, i)
    decreases cs, 0
  {
    if cs != [] {
      if !cs[0].hidden {
        WalkVisitsVisible(cs[0], d);
      }
      WalkAllVisitsVisible(cs[1..], d);
      assert d in WalkAll(cs) <==> VisibleIn(cs, d, 0) || d in WalkAll(cs[1..]);
      hide Walk, WalkAll, Visible;
      if i :| 0 <= i < |cs[1..]| && VisibleIn(cs[1..], d, i) {
        assert cs[1..][i] == cs[i + 1];
        assert VisibleIn(cs, d, i + 1);
      }
      if i :| 0 <= i < |cs| && VisibleIn(cs, d, i) {
        if i > 0 {
          assert cs[1..][i - 1] == cs[i];
          assert VisibleIn(cs[1..], d, i - 1);
        }
      }
    }
  }

  /** The raw declarations of the visited commands, in walk order. */
  function Concatenated(cs: seq<Command>, kind: Kind, valid: Validator): seq<Declaration> {
    if cs == [] then [] else DeclaredBy(cs[0], kind, valid) + Concatenated(cs[1..], kind, valid)
  }

  /** The reflected tree: hidden children are pruned, the root never is. */
  datatype Reflected = Reflected(prompts: Annotation, resources: Annotation, children: seq<Reflected>)

  function BuildCommand(c: Command): Reflected {
    Reflected(c.prompts, c.resources, BuildAll(c.children))
  }

  function BuildAll(cs: seq<Command>): seq<Reflected> {
    if cs == [] then []
    else (if cs[0].hidden then [] else [BuildCommand(cs[0])]) + BuildAll(cs[1..])
  }

  /** The ax-native schema tree. */
  datatype Schema = Schema(prompts: seq<Declaration>, resources: seq<Declaration>, children: seq<Schema>)

  function Of(s: Schema, kind: Kind): seq<Declaration> {
    if kind == Prompts then s.prompts else s.resources
  }

  /** A pre-order reading of one kind of declaration in the schema. */
  function Preorder(s: Schema, kind: Kind): seq<Declaration> {
    Of(s, kind) + PreorderAll(s.children, kind)
  }

  function PreorderAll(ss: seq<Schema>, kind: Kind): seq<Declaration> {
    if ss == [] then [] else Preorder(ss[0], kind) + PreorderAll(ss[1..], kind)
  }

  /** The Deduper's state. */
  datatype Seen = Seen(prompts: set<string>, resources: set<string>)

  function SeenOf(s: Seen, kind: Kind): set<string> {
    if kind == Prompts then s.prompts else s.resources
  }

  /** convertCommandSchema with the Deduper it threads. */
  function Convert(r: Reflected, pv: Validator, rv: Validator, seen: Seen): (Schema, Seen) {
    var p := KeepFirst(seen.prompts, Decoded(r.prompts, pv));
    var q := KeepFirst(seen.resources, Decoded(r.resources, rv));
    var (children, after) := ConvertAll(r.children, pv, rv, Seen(p.seen, q.seen));
    (Schema(p.kept, q.kept, children), after)
  }

  function ConvertAll(rs: seq<Reflected>, pv: Validator, rv: Validator, seen: Seen): (seq<Schema>, Seen) {
    if rs == [] then ([], seen) else
    var (s, mid) := Convert(rs[0], pv, rv, seen);
    var (ss, after) := ConvertAll(rs[1..], pv, rv, mid);
    ([s] + ss, after)
  }

  function ValidatorOf(kind: Kind, pv: Validator, rv: Validator): Validator {
    if kind == Prompts then pv else rv
  }

  lemma {:induction false} ConcatenatedConcat(xs: seq<Command>, ys: seq<Command>, kind: Kind, valid: Validator)
    ensures Concatenated(xs + ys, kind, valid) == Concatenated(xs, kind, valid) + Concatenated(ys, kind, valid)
    decreases |xs|
  {
    if xs == [] {
      assert xs + ys == ys;
    } else {
      assert (xs + ys)[1..] == xs[1..] + ys;
      ConcatenatedConcat(xs[1..], ys, kind, valid);
    }
  }

  /**
    Converting the reflected tree and walking the command tree see the same
    declarations in the same order, so they keep the same first of each key.
   */
  lemma {:induction false} ConvertMatchesWalk(c: Command, kind: Kind, pv: Validator, rv: Validator, seen: Seen)
    ensures var (s, after) := Convert(BuildCommand(c), pv, rv, seen);
            KeepFirst(SeenOf(seen, kind), Concatenated(Walk(c), kind, ValidatorOf(kind, pv, rv))) ==
            Firsts(Preorder(s, kind), SeenOf(after, kind))
    decreases c, 1
  {
    var valid := ValidatorOf(kind, pv, rv);
    var own := DeclaredBy(c, kind, valid);
    var rest := Concatenated(WalkAll(c.children), kind, valid);
    assert Walk(c)[1..] == WalkAll(c.children);
    KeepFirstConcat(SeenOf(seen, kind), own, rest);
    var p := KeepFirst(seen.prompts, Decoded(c.prompts, pv));
    var q := KeepFirst(seen.resources, Decoded(c.resources, rv));
    ConvertAllMatchesWalk(c.children, kind, pv, rv, Seen(p.seen, q.seen));
  }

  lemma {:induction false} ConvertAllMatchesWalk(cs: seq<Command>, kind: Kind, pv: Validator, rv: Validator, seen: Seen)
    ensures var (ss, after) := ConvertAll(BuildAll(cs), pv, rv, seen);
            KeepFirst(SeenOf(seen, kind), Concatenated(WalkAll(cs), kind, ValidatorOf(kind, pv, rv))) ==
            Firsts(PreorderAll(ss, kind), SeenOf(after, kind))
    decreases cs, 0
  {
    if cs != [] {
      var valid := ValidatorOf(kind, pv, rv);
      if cs[0].hidden {
        assert WalkAll(cs) == WalkAll(cs[1..]) && BuildAll(cs) == BuildAll(cs[1..]);
        ConvertAllMatchesWalk(cs[1..], kind, pv, rv, seen);
      } else {
        var (s, mid) := Convert(BuildCommand(cs[0]), pv, rv, seen);
        ConvertMatchesWalk(cs[0], kind, pv, rv, seen);
        ConvertAllMatchesWalk(cs[1..], kind, pv, rv, mid);
        ConcatenatedConcat(Walk(cs[0]), WalkAll(cs[1..]), kind, valid);
        KeepFirstConcat(SeenOf(seen, kind), Concatenated(Walk(cs[0]), kind, valid),
                        Concatenated(WalkAll(cs[1..]), kind, valid));
        assert BuildAll(cs) == [BuildCommand(cs[0])] + BuildAll(cs[1..]);
        assert BuildAll(cs)[1..] == BuildAll(cs[1..]);
        var (ss, after) := ConvertAll(BuildAll(cs[1..]), pv, rv, mid);
        assert ([s] + ss)[1..] == ss;
      }
    }
  }

  /** CollectDeclarations, for one kind. */
  function Collected(root: Command, kind: Kind, valid: Validator): seq<Declaration> {
    KeepFirst({}, Concatenated(Walk(root), kind, valid)).kept
  }

  /** Both projections of a tree carry exactly the same declarations. */
  lemma SchemaEqualsCollection(root: Command, kind: Kind, pv: Validator, rv: Validator)
    ensures Preorder(Convert(BuildCommand(root), pv, rv, Seen({}, {})).0, kind) ==
            Collected(root, kind, ValidatorOf(kind, pv, rv))
  {
    ConvertMatchesWalk(root, kind, pv, rv, Seen({}, {}));
  }

  /** The schema has the shape of the visible tree, and a node carries only what its own command declares. */
  ghost predicate Mirrors(c: Command, s: Schema, pv: Validator, rv: Validator)
    decreases c, 1
  {
    && (forall d :: d in s.prompts ==> d in DeclaredBy(c, Prompts, pv))
    && (forall d :: d in s.resources ==> d in DeclaredBy(c, Resources, rv))
    && MirrorsAll(c.children, s.children, pv, rv)
  }

  ghost predicate MirrorsAll(cs: seq<Command>, ss: seq<Schema>, pv: Validator, rv: Validator)
    decreases cs, 0
  {
    if cs == [] then ss == []
    else if cs[0].hidden then MirrorsAll(cs[1..], ss, pv, rv)
    else ss != [] && Mirrors(cs[0], ss[0], pv, rv) && MirrorsAll(cs[1..], ss[1..], pv, rv)
  }

  lemma {:induction false} SchemaMirrorsTree(c: Command, pv: Validator, rv: Validator, seen: Seen)
    ensures Mirrors(c, Convert(BuildCommand(c), pv, rv, seen).0, pv, rv)
    decreases c, 1
  {
    var ps := KeepFirstPicks(seen.prompts, DeclaredBy(c, Prompts, pv));
    var rs := KeepFirstPicks(seen.resources, DeclaredBy(c, Resources, rv));
    var p := KeepFirst(seen.prompts, Decoded(c.prompts, pv));
    var q := KeepFirst(seen.resources, Decoded(c.resources, rv));
    SchemaMirrorsAll(c.children, pv, rv, Seen(p.seen, q.seen));
    hide KeepFirst, Decoded, MirrorsAll, ConvertAll;
  }

  lemma {:induction false} SchemaMirrorsAll(cs: seq<Command>, pv: Validator, rv: Validator, seen: Seen)
    ensures MirrorsAll(cs, ConvertAll(BuildAll(cs), pv, rv, seen).0, pv, rv)
    decreases cs, 0
  {
    if cs != [] {
      if cs[0].hidden {
        assert BuildAll(cs) == BuildAll(cs[1..]);
        SchemaMirrorsAll(cs[1..], pv, rv, seen);
      } else {
        var (s, mid) := Convert(BuildCommand(cs[0]), pv, rv, seen);
        SchemaMirrorsTree(cs[0], pv, rv, seen);
        SchemaMirrorsAll(cs[1..], pv, rv, mid);
        assert BuildAll(cs) == [BuildCommand(cs[0])] + BuildAll(cs[1..]);
        assert BuildAll(cs)[1..] == BuildAll(cs[1..]);
        var (ss, after) := ConvertAll(BuildAll(cs[1..]), pv, rv, mid);
        assert ([s] + ss)[1..] == ss;
        hide Mirrors, Convert;
      }
    }
  }

  /** Deduplication drops nothing exactly when no key repeats. */
  lemma NothingDroppedIffUnique(root: Command, kind: Kind, valid: Validator)
    ensures Collected(root, kind, valid) == Concatenated(Walk(root), kind, valid) <==>
            Distinct(Keys(Concatenated(Walk(root), kind, valid)))
    ensures Distinct(Keys(Collected(root, kind, valid)))
  {
    KeepFirstDrops({}, Concatenated(Walk(root), kind, valid));
  }

  // ---------------------------------------------------------------------
  // The Deduper and the walks that thread it
  // ---------------------------------------------------------------------

  class Deduper {
    var prompts: set<string>
    var resources: set<string>

    ghost function State(): Seen
      reads this
    {
      Seen(prompts, resources)
    }

    constructor ()
      ensures State() == Seen({}, {})
    {
      prompts, resources := {}, {};
    }

    method FirstPrompts(ds: seq<Declaration>) returns (kept: seq<Declaration>)
      modifies this`prompts
      ensures Firsts(kept, prompts) == KeepFirst(old(prompts), ds)
    {
      kept, prompts := KeepFirstLoop(prompts, ds);
    }

    method FirstResources(ds: seq<Declaration>) returns (kept: seq<Declaration>)
      modifies this`resources
      ensures Firsts(kept, resources) == KeepFirst(old(resources), ds)
    {
      kept, resources := KeepFirstLoop(resources, ds);
    }
  }

  method KeepFirstLoop(start: set<string>, ds: seq<Declaration>) returns (kept: seq<Declaration>, seen: set<string>)
    ensures Firsts(kept, seen) == KeepFirst(start, ds)
  {
    kept, seen := [], start;
    for i := 0 to |ds|
      invariant KeepFirst(start, ds) ==
                Firsts(kept + KeepFirst(seen, ds[i..]).kept, KeepFirst(seen, ds[i..]).seen)
    {
      assert ds[i..][1..] == ds[i + 1..];
      if ds[i].key in seen {
        continue;
      }
      seen := seen + {ds[i].key};
      kept := kept + [ds[i]];
    }
  }

  method CollectDeclarations(root: Command, pv: Validator, rv: Validator)
    returns (prompts: seq<Declaration>, resources: seq<Declaration>)
    ensures prompts == Collected(root, Prompts, pv)
    ensures resources == Collected(root, Resources, rv)
  {
    var dedup := new Deduper();
    var commands := Walk(root);
    prompts, resources := [], [];
    for i := 0 to |commands|
      invariant Firsts(prompts, dedup.prompts) == KeepFirst({}, Concatenated(commands[..i], Prompts, pv))
      invariant Firsts(resources, dedup.resources) == KeepFirst({}, Concatenated(commands[..i], Resources, rv))
    {
      OneMoreCommand(commands, i, Prompts, pv);
      OneMoreCommand(commands, i, Resources, rv);
      var ps := dedup.FirstPrompts(Decoded(commands[i].prompts, pv));
      var rs := dedup.FirstResources(Decoded(commands[i].resources, rv));
      prompts, resources := prompts + ps, resources + rs;
    }
    assert commands[..|commands|] == commands;
  }

  lemma OneMoreCommand(cs: seq<Command>, i: nat, kind: Kind, valid: Validator)
    requires i < |cs|
    ensures var before := KeepFirst({}, Concatenated(cs[..i], kind, valid));
            var own := KeepFirst(before.seen, DeclaredBy(cs[i], kind, valid));
            KeepFirst({}, Concatenated(cs[..i + 1], kind, valid)) == Firsts(before.kept + own.kept, own.seen)
  {
    assert cs[..i + 1] == cs[..i] + [cs[i]];
    ConcatenatedConcat(cs[..i], [cs[i]], kind, valid);
    assert Concatenated([cs[i]], kind, valid) == DeclaredBy(cs[i], kind, valid);
    KeepFirstConcat({}, Concatenated(cs[..i], kind, valid), DeclaredBy(cs[i], kind, valid));
  }

  /** convertCommandSchema: structural recursion over one shared Deduper. */
  method ConvertCommandSchema(r: Reflected, pv: Validator, rv: Validator, dedup: Deduper) returns (s: Schema)
    modifies dedup
    ensures (s, dedup.State()) == Convert(r, pv, rv, old(dedup.State()))
    decreases r
  {
    hide KeepFirst, Decoded, ConvertAll;
    var ps := dedup.FirstPrompts(Decoded(r.prompts, pv));
    var rs := dedup.FirstResources(Decoded(r.resources, rv));
    ghost var all := ConvertAll(r.children, pv, rv, dedup.State());
    var children: seq<Schema> := [];
    assert r.children[0..] == r.children && [] + all.0 == all.0;
    for i := 0 to |r.children|
      invariant Pending(all, children, ConvertAll(r.children[i..], pv, rv, dedup.State()))
    {
      ConvertAllStep(r.children, i, pv, rv, dedup.State());
      ghost var rest := ConvertAll(r.children[i..], pv, rv, dedup.State());
      var child := ConvertCommandSchema(r.children[i], pv, rv, dedup);
      PendingStep(all, children, child, ConvertAll(r.children[i + 1..], pv, rv, dedup.State()));
      children := children + [child];
    }
    ConvertNone(r.children[|r.children|..], pv, rv, dedup.State());
    assert all == (children + [], dedup.State()) && children + [] == children;
    s := Schema(ps, rs, children);
  }

  /** The conversion of all children is what is done followed by what is left. */
  ghost predicate Pending(all: (seq<Schema>, Seen), done: seq<Schema>, left: (seq<Schema>, Seen)) {
    all == (done + left.0, left.1)
  }

  lemma PendingStep(all: (seq<Schema>, Seen), done: seq<Schema>, child: Schema, left: (seq<Schema>, Seen))
    requires Pending(all, done, ([child] + left.0, left.1))
    ensures Pending(all, done + [child], left)
  {
    assert done + ([child] + left.0) == (done + [child]) + left.0;
  }

  lemma ConvertAllStep(rs: seq<Reflected>, i: nat, pv: Validator, rv: Validator, seen: Seen)
    requires i < |rs|
    ensures var (s, mid) := Convert(rs[i], pv, rv, seen);
            var left := ConvertAll(rs[i + 1..], pv, rv, mid);
            ConvertAll(rs[i..], pv, rv, seen) == ([s] + left.0, left.1)
  {
    assert rs[i..][1..] == rs[i + 1..];
  }

  lemma ConvertNone(rs: seq<Reflected>, pv: Validator, rv: Validator, seen: Seen)
    requires rs == []
    ensures ConvertAll(rs, pv, rv, seen) == ([], seen)
  {
  }

  // ---------------------------------------------------------------------
  // FindDuplicate
  // ---------------------------------------------------------------------

  /** A declared key with the path of the command that declares it. */
  datatype Site = Site(key: string, path: string)

  function SitesOf(ds: seq<Declaration>, path: string): (sites: seq<Site>)
    ensures |sites| == |ds| && forall i :: 0 <= i < |ds| ==> sites[i].key == ds[i].key && sites[i].path == path
  {
    seq(|ds|, i requires 0 <= i < |ds| => Site(ds[i].key, path))
  }

  function Sites(cs: seq<Command>, kind: Kind, valid: Validator): seq<Site> {
    if cs == [] then [] else SitesOf(DeclaredBy(cs[0], kind, valid), cs[0].path) + Sites(cs[1..], kind, valid)
  }

  lemma {:induction false} SitesAreKeys(cs: seq<Command>, kind: Kind, valid: Validator)
    ensures |Sites(cs, kind, valid)| == |Concatenated(cs, kind, valid)|
    ensures forall i :: 0 <= i < |Sites(cs, kind, valid)| ==>
              Sites(cs, kind, valid)[i].key == Keys(Concatenated(cs, kind, valid))[i]
    decreases |cs|
  {
    if cs != [] {
      SitesAreKeys(cs[1..], kind, valid);
    }
  }

  datatype Conflict = Conflict(key: string, first: string, second: string)

  /** site j repeats the key of site i, no earlier site repeats any key, and i is its first site. */
  predicate FirstRepeat(sites: seq<Site>, i: nat, j: nat) {
    && i < j < |sites| && sites[i].key == sites[j].key
    && forall a, b :: 0 <= a < b < j ==> sites[a].key != sites[b].key
  }

  /**
    findDuplicate over the walk: nil exactly when every key is unique, otherwise
    the first repeat in walk order with the two declaring paths.
   */
  method FindDuplicate(root: Command, kind: Kind, valid: Validator) returns (found: Option<Conflict>)
    ensures found.None? <==> Distinct(Keys(Concatenated(Walk(root), kind, valid)))
    ensures found.Some? ==>
              exists i: nat, j: nat ::
                var sites := Sites(Walk(root), kind, valid);
                && FirstRepeat(sites, i, j)
                && found.value == Conflict(sites[j].key, sites[i].path, sites[j].path)
  {
    var commands := Walk(root);
    ghost var sites := Sites(commands, kind, valid);
    SitesAreKeys(commands, kind, valid);
    hide Sites, SitesOf, Walk, Concatenated, DeclaredBy, Recorded, FirstRepeat;
    var firstPath: map<string, string> := map[];
    ghost var done := 0;
    assert commands[0..] == commands;
    NothingRecorded();
    assert sites[..0] == [] && sites[0..] == sites;
    for k := 0 to |commands|
      invariant 0 <= done <= |sites| && sites[done..] == Sites(commands[k..], kind, valid)
      invariant Recorded(sites[..done], firstPath)
    {
      SitesStep(commands, k, kind, valid);
      var ds := DeclaredBy(commands[k], kind, valid);
      assert sites[done..][..|ds|] == SitesOf(ds, commands[k].path);
      assert sites[done..][|ds|..] == sites[done + |ds|..];
      ghost var i: nat, j: nat;
      found, firstPath, i, j := RecordAll(sites, done, ds, commands[k].path, firstPath);
      if found.Some? {
        RepeatIsNotDistinct(sites, i, j, Keys(Concatenated(commands, kind, valid)));
        return;
      }
      done := done + |ds|;
    }
    NoSites(commands[|commands|..], kind, valid);
    assert sites[..done] == sites;
    RecordedIsDistinct(sites, firstPath, Keys(Concatenated(commands, kind, valid)));
    found := None;
  }

  /** One command's declarations, checked against the paths recorded so far. */
  method RecordAll(ghost sites: seq<Site>, ghost done: nat, ds: seq<Declaration>, path: string,
                   before: map<string, string>)
    returns (found: Option<Conflict>, firstPath: map<string, string>, ghost i: nat, ghost j: nat)
    requires done + |ds| <= |sites| && sites[done..][..|ds|] == SitesOf(ds, path)
    requires Recorded(sites[..done], before)
    ensures found.None? ==> Recorded(sites[..done + |ds|], firstPath)
    ensures found.Some? ==>
              FirstRepeat(sites, i, j) && found.value == Conflict(sites[j].key, sites[i].path, sites[j].path)
  {
    hide Recorded;
    firstPath, i, j := before, 0, 0;
    for m := 0 to |ds|
      invariant Recorded(sites[..done + m], firstPath)
    {
      assert sites[done + m] == sites[done..][..|ds|][m] == Site(ds[m].key, path);
      RecordStep(sites, done + m, firstPath);
      if ds[m].key in firstPath {
        i :| i < done + m && sites[i] == Site(ds[m].key, firstPath[ds[m].key]);
        j := done + m;
        return Some(Conflict(ds[m].key, firstPath[ds[m].key], path)), firstPath, i, j;
      }
      firstPath := firstPath[ds[m].key := path];
    }
    found := None;
  }

  lemma SitesStep(cs: seq<Command>, k: nat, kind: Kind, valid: Validator)
    requires k < |cs|
    ensures var own := SitesOf(DeclaredBy(cs[k], kind, valid), cs[k].path);
            && |own| == |DeclaredBy(cs[k], kind, valid)|
            && Sites(cs[k..], kind, valid) == own + Sites(cs[k + 1..], kind, valid)
  {
    assert cs[k..][1..] == cs[k + 1..];
  }

  lemma NoSites(cs: seq<Command>, kind: Kind, valid: Validator)
    requires cs == []
    ensures Sites(cs, kind, valid) == []
  {
  }

  lemma NothingRecorded()
    ensures Recorded([], map[])
  {
  }

  lemma RecordedIsDistinct(sites: seq<Site>, firstPath: map<string, string>, keys: seq<string>)
    requires Recorded(sites, firstPath)
    requires |keys| == |sites| && forall a :: 0 <= a < |sites| ==> sites[a].key == keys[a]
    ensures Distinct(keys)
  {
  }

  lemma RepeatIsNotDistinct(sites: seq<Site>, i: nat, j: nat, keys: seq<string>)
    requires FirstRepeat(sites, i, j)
    requires |keys| == |sites| && forall a :: 0 <= a < |sites| ==> sites[a].key == keys[a]
    ensures !Distinct(keys)
  {
    assert keys[i] == keys[j];
  }

  /** firstPath holds the path of every site so far, and no key has repeated. */
  ghost predicate Recorded(sites: seq<Site>, firstPath: map<string, string>) {
    && (forall a, b :: 0 <= a < b < |sites| ==> sites[a].key != sites[b].key)
    && (forall a :: 0 <= a < |sites| ==> sites[a].key in firstPath && firstPath[sites[a].key] == sites[a].path)
    && (forall k :: k in firstPath ==> exists a :: 0 <= a < |sites| && sites[a] == Site(k, firstPath[k]))
  }

  lemma RecordStep(sites: seq<Site>, n: nat, firstPath: map<string, string>)
    requires n < |sites| && Recorded(sites[..n], firstPath)
    ensures sites[n].key in firstPath ==>
              exists i: nat :: i < n && sites[i] == Site(sites[n].key, firstPath[sites[n].key])
    ensures sites[n].key !in firstPath ==> Recorded(sites[..n + 1], firstPath[sites[n].key := sites[n].path])
    ensures forall a, b :: 0 <= a < b < n ==> sites[a].key != sites[b].key
  {
    var before, after := sites[..n], sites[..n + 1];
    assert forall a :: 0 <= a < n ==> before[a] == sites[a] == after[a];
    if sites[n].key in firstPath {
      var a :| 0 <= a < |before| && before[a] == Site(sites[n].key, firstPath[sites[n].key]);
    } else {
      var next := firstPath[sites[n].key := sites[n].path];
      forall k | k in next ensures exists a :: 0 <= a < |after| && after[a] == Site(k, next[k]) {
        if k == sites[n].key {
          assert after[n] == Site(k, next[k]);
        } else {
          var a :| 0 <= a < |before| && before[a] == Site(k, firstPath[k]);
          assert after[a] == Site(k, next[k]);
        }
      }
    }
  }

  // ---------------------------------------------------------------------
  // Adding declarations
  // ---------------------------------------------------------------------

  datatype Violation = NilCommand | Invalid | CorruptAnnotation | Duplicate

  predicate Allows(valid: Validator, d: Declaration) {
    valid(d)
  }

  /** addDeclaration: the annotation it leaves, and why it refused. */
  function Added(a: Annotation, d: Declaration, valid: Validator): (Annotation, Option<Violation>) {
    if !Allows(valid, d) then (a, Some(Invalid))
    else if !IsClean(a, valid) then (a, Some(CorruptAnnotation))
    else if d.key in Keys(Decoded(a, valid)) then (a, Some(Duplicate))
    else (Stored(Decoded(a, valid) + [d]), None)
  }

  function AddedAll(a: Annotation, ds: seq<Declaration>, valid: Validator): Annotation
    decreases |ds|
  {
    if ds == [] then a else AddedAll(Added(a, ds[0], valid).0, ds[1..], valid)
  }

  /**
    From no annotation, any sequence of additions, accepted or refused, leaves a
    clean annotation that projects the valid declarations with the first of each
    key, in order: addition refuses exactly what a first-wins walk would drop.
   */
  lemma {:induction false} AdditionsKeepFirst(a: Annotation, ds: seq<Declaration>, valid: Validator)
    requires IsClean(a, valid)
    ensures IsClean(AddedAll(a, ds, valid), valid)
    ensures Decoded(AddedAll(a, ds, valid), valid) ==
            Decoded(a, valid) + KeepFirst(KeySet(Decoded(a, valid)), KeepValid(ds, valid)).kept
    decreases |ds|
  {
    hide KeepFirst, Decoded, IsClean, KeepValid, KeySet, Added, Allows;
    if ds == [] {
      NothingKept(KeySet(Decoded(a, valid)), ds, valid);
    } else {
      var d, rest := ds[0], KeepValid(ds[1..], valid);
      var had := Decoded(a, valid);
      AdditionStep(a, d, valid);
      KeepValidStep(ds, valid);
      KeepFirstOne(KeySet(had), d, rest);
      AdditionsKeepFirst(Added(a, d, valid).0, ds[1..], valid);
      if Allows(valid, d) && d.key !in KeySet(had) {
        KeySetGrows(had, d);
        var kept := KeepFirst(KeySet(had + [d]), rest).kept;
        assert (had + [d]) + kept == had + ([d] + kept);
      }
    }
  }

  lemma NothingKept(seen: set<string>, ds: seq<Declaration>, valid: Validator)
    requires ds == []
    ensures KeepFirst(seen, KeepValid(ds, valid)).kept == []
  {
  }

  lemma KeepValidStep(ds: seq<Declaration>, valid: Validator)
    requires ds != []
    ensures KeepValid(ds, valid) ==
            if Allows(valid, ds[0]) then [ds[0]] + KeepValid(ds[1..], valid) else KeepValid(ds[1..], valid)
  {
  }

  /** One addition is refused exactly when the declaration is invalid or its key is taken. */
  lemma AdditionStep(a: Annotation, d: Declaration, valid: Validator)
    requires IsClean(a, valid)
    ensures IsClean(Added(a, d, valid).0, valid)
    ensures if Allows(valid, d) && d.key !in KeySet(Decoded(a, valid))
            then Decoded(Added(a, d, valid).0, valid) == Decoded(a, valid) + [d]
            else Added(a, d, valid).0 == a
  {
    AdditionIsClean(a, d, valid);
    hide Decoded, IsClean, KeepValid;
  }

  function KeySet(ds: seq<Declaration>): set<string> {
    set k | k in Keys(ds)
  }

  lemma KeySetGrows(ds: seq<Declaration>, d: Declaration)
    ensures KeySet(ds + [d]) == KeySet(ds) + {d.key}
  {
    assert Keys(ds + [d]) == Keys(ds) + [d.key];
  }

  lemma KeepFirstOne(seen: set<string>, d: Declaration, rest: seq<Declaration>)
    ensures KeepFirst(seen, [d] + rest).kept ==
            if d.key in seen then KeepFirst(seen, rest).kept else [d] + KeepFirst(seen + {d.key}, rest).kept
  {
    assert ([d] + rest)[1..] == rest;
  }

  /**
    The first check that fails refuses: an invalid declaration, an annotation that
    does not decode or holds an invalid entry, a key it holds already. Otherwise
    the declaration goes behind what the annotation held.
   */
  lemma AddedIs(a: Annotation, d: Declaration, valid: Validator)
    ensures !valid(d) ==> Added(a, d, valid) == (a, Some(Invalid))
    ensures valid(d) && a.Absent? ==> Added(a, d, valid) == (Stored([d]), None)
    ensures valid(d) && (a.Undecodable? || (a.Stored? && exists e :: e in a.entries && !valid(e))) ==>
              Added(a, d, valid) == (a, Some(CorruptAnnotation))
    ensures valid(d) && a.Stored? && (forall e :: e in a.entries ==> valid(e)) ==>
              Added(a, d, valid) ==
              if exists e :: e in a.entries && e.key == d.key then (a, Some(Duplicate))
              else (Stored(a.entries + [d]), None)
  {
    assert [] + [d] == [d];
    if a.Stored? {
      var ds := Decoded(a, valid);
      KeyTaken(ds, d.key);
      hide KeepValid;
      if forall e :: e in a.entries ==> valid(e) {
        assert ds == a.entries by {
          assert IsClean(a, valid);
        }
      }
    }
  }

  lemma KeyTaken(ds: seq<Declaration>, key: string)
    ensures key in Keys(ds) <==> exists d :: d in ds && d.key == key
  {
    if d :| d in ds && d.key == key {
      var i :| 0 <= i < |ds| && ds[i] == d;
      assert Keys(ds)[i] == key;
    }
    if key in Keys(ds) {
      var i :| 0 <= i < |ds| && Keys(ds)[i] == key;
      assert ds[i] in ds && ds[i].key == key;
    }
  }

  lemma AdditionIsClean(a: Annotation, d: Declaration, valid: Validator)
    requires IsClean(a, valid)
    ensures IsClean(Added(a, d, valid).0, valid)
    ensures Added(a, d, valid).1.None? ==> Decoded(Added(a, d, valid).0, valid) == Decoded(a, valid) + [d]
    ensures Added(a, d, valid).1.Some? ==> Added(a, d, valid).0 == a
  {
    var longer := Decoded(a, valid) + [d];
    if Added(a, d, valid).1.None? {
      assert forall x :: x in longer ==> valid(x);
      assert |KeepValid(longer, valid)| == |longer|;
    }
  }

  class AnnotatedCommand {
    var prompts: Annotation
    var resources: Annotation

    constructor ()
      ensures prompts == Absent && resources == Absent
    {
      prompts, resources := Absent, Absent;
    }

    function Slot(kind: Kind): Annotation
      reads this
    {
      if kind == Prompts then prompts else resources
    }
  }

  /** addDeclaration: a refusal leaves both annotations as they were. */
  method AddDeclaration(cmd: AnnotatedCommand?, kind: Kind, d: Declaration, valid: Validator)
    returns (violation: Option<Violation>)
    modifies if cmd == null then {} else {cmd}
    ensures cmd == null ==> violation == Some(NilCommand)
    ensures cmd != null ==>
              && (cmd.Slot(kind), violation) == Added(old(cmd.Slot(kind)), d, valid)
              && forall other :: other != kind ==> cmd.Slot(other) == old(cmd.Slot(other))
  {
    hide Decoded, IsClean;
    if cmd == null {
      return Some(NilCommand);
    }
    if !Allows(valid, d) {
      return Some(Invalid);
    }
    var existing, clean := Decoded(cmd.Slot(kind), valid), IsClean(cmd.Slot(kind), valid);
    if !clean {
      return Some(CorruptAnnotation);
    }
    for i := 0 to |existing|
      invariant forall j :: 0 <= j < i ==> existing[j].key != d.key
    {
      if existing[i].key == d.key {
        assert Keys(existing)[i] == d.key;
        return Some(Duplicate);
      }
    }
    if kind == Prompts {
      cmd.prompts := Stored(existing + [d]);
    } else {
      cmd.resources := Stored(existing + [d]);
    }
    violation := None;
  }
}
