/**
  Walks over Go types. Types form a finite graph that may be cyclic; visitType
  and expose walk it depth first under two edge rules, guarded by a seen set.
  References are taken after alias resolution.
 */
module TypeGraph {
  import opened Base

  type TypeId = nat

  /** A field object, identified by its origin. */
  type FieldId = nat

  datatype Field = Field(origin: FieldId, exported: bool, embedded: bool, typ: TypeId)

  datatype Method = Method(exported: bool, signature: TypeId)

  datatype Node =
    | Named(args: seq<TypeId>, local: bool, methods: seq<Method>, underlying: TypeId)
    | Pointer(elem: TypeId) | Slice(elem: TypeId) | Array(elem: TypeId) | Chan(elem: TypeId)
    | Map(key: TypeId, elem: TypeId)
    | Signature(params: TypeId, results: TypeId)
    | Tuple(vars: seq<TypeId>)
    | Interface(methods: seq<Method>, embedded: seq<TypeId>)
    | Struct(fields: seq<Field>)
    | Opaque

  type Graph = map<TypeId, Node>

  /** visitType follows what a value carries, expose what other packages can name. */
  datatype Rule = Visiting | Exposing

  /** One action of the walk at a node. */
  datatype Step = Mark(field: FieldId) | Enter(typ: TypeId)

  function Enters(ts: seq<TypeId>): seq<Step> {
    seq(|ts|, i requires 0 <= i < |ts| => Enter(ts[i]))
  }

  function ExposedMethods(ms: seq<Method>): seq<Step> {
    if ms == [] then []
    else (if ms[0].exported then [Enter(ms[0].signature)] else []) + ExposedMethods(ms[1..])
  }

  function FieldSteps(rule: Rule, fs: seq<Field>): seq<Step> {
    if fs == [] then []
    else
      (if rule == Visiting || fs[0].exported || fs[0].embedded then [Mark(fs[0].origin), Enter(fs[0].typ)] else [])
      + FieldSteps(rule, fs[1..])
  }

  /** A struct's fields are followed all, or only those another package can name or promote through. */
  lemma {:induction false} FieldStepsIff(rule: Rule, fs: seq<Field>, s: Step)
    ensures s in FieldSteps(rule, fs) <==>
            exists v :: v in fs && (rule == Visiting || v.exported || v.embedded) &&
                        (s == Mark(v.origin) || s == Enter(v.typ))
    decreases |fs|
  {
    if fs != [] {
      FieldStepsIff(rule, fs[1..], s);
      assert fs == [fs[0]] + fs[1..];
      assert fs[0] in fs;
    }
  }

  /** What the walk does at a node, in order. */
  function Steps(rule: Rule, n: Node): seq<Step> {
    match n
    case Named(args, local, methods, underlying) =>
      Enters(args) +
      (if !local then [] else (if rule == Exposing then ExposedMethods(methods) else []) + [Enter(underlying)])
    case Pointer(elem) => [Enter(elem)]
    case Slice(elem) => [Enter(elem)]
    case Array(elem) => [Enter(elem)]
    case Chan(elem) => [Enter(elem)]
    case Map(key, elem) => [Enter(key), Enter(elem)]
    case Signature(params, results) => [Enter(params), Enter(results)]
    case Tuple(vars) => Enters(vars)
    case Interface(methods, embedded) =>
      if rule == Visiting then [] else ExposedMethods(methods) + Enters(embedded)
    case Struct(fields) => FieldSteps(rule, fields)
    case Opaque => []
  }

  predicate Edge(g: Graph, rule: Rule, a: TypeId, b: TypeId) {
    a in g && Enter(b) in Steps(rule, g[a])
  }

  predicate Marks(g: Graph, rule: Rule, t: TypeId, f: FieldId) {
    t in g && Mark(f) in Steps(rule, g[t])
  }

  /** Every type a walk can enter is in the graph. */
  ghost predicate Complete(g: Graph) {
    forall rule, a, b :: Edge(g, rule, a, b) ==> b in g
  }

  // ---------------------------------------------------------------------
  // Reachability
  // ---------------------------------------------------------------------

  ghost predicate IsPath(g: Graph, rule: Rule, path: seq<TypeId>) {
    path != [] && path[0] in g && forall i :: 0 <= i < |path| - 1 ==> Edge(g, rule, path[i], path[i + 1])
  }

  ghost predicate Connects(g: Graph, rule: Rule, path: seq<TypeId>, a: TypeId, b: TypeId) {
    IsPath(g, rule, path) && path[0] == a && path[|path| - 1] == b
  }

  ghost predicate Reaches(g: Graph, rule: Rule, a: TypeId, b: TypeId) {
    exists path :: Connects(g, rule, path, a, b)
  }

  /** The field is reachable from the type; nothing is reachable from nil. */
  ghost predicate FieldReachable(g: Graph, rule: Rule, t: Option<TypeId>, f: FieldId) {
    t.Some? && exists u :: Reaches(g, rule, t.value, u) && Marks(g, rule, u, f)
  }

  lemma ReachesSelf(g: Graph, rule: Rule, a: TypeId)
    requires a in g
    ensures Reaches(g, rule, a, a)
  {
    assert Connects(g, rule, [a], a, a);
  }

  lemma ReachesTransitively(g: Graph, rule: Rule, a: TypeId, b: TypeId, c: TypeId)
    requires Reaches(g, rule, a, b) && Reaches(g, rule, b, c)
    ensures Reaches(g, rule, a, c)
  {
    hide Edge;
    var p :| Connects(g, rule, p, a, b);
    var q :| Connects(g, rule, q, b, c);
    var r := p + q[1..];
    forall i | 0 <= i < |r| - 1 ensures Edge(g, rule, r[i], r[i + 1]) {
      if i >= |p| - 1 {
        assert r[i] == q[i - |p| + 1] && r[i + 1] == q[i - |p| + 2];
      }
    }
    assert Connects(g, rule, r, a, c);
  }

  lemma ReachesThroughEdge(g: Graph, rule: Rule, a: TypeId, b: TypeId, c: TypeId)
    requires Edge(g, rule, a, b) && Reaches(g, rule, b, c)
    ensures Reaches(g, rule, a, c)
  {
    hide Edge;
    assert Connects(g, rule, [a, b], a, b) by {
      EdgeFromGraph(g, rule, a, b);
    }
    ReachesTransitively(g, rule, a, b, c);
  }

  lemma EdgeFromGraph(g: Graph, rule: Rule, a: TypeId, b: TypeId)
    requires Edge(g, rule, a, b)
    ensures a in g
  {
  }

  /** Every step out of these types stays among them. */
  ghost predicate ClosedSet(g: Graph, rule: Rule, s: set<TypeId>) {
    forall a, b :: a in s && Edge(g, rule, a, b) ==> b in s
  }

  lemma {:induction false} ClosedSetHoldsPath(g: Graph, rule: Rule, s: set<TypeId>, path: seq<TypeId>)
    requires ClosedSet(g, rule, s) && IsPath(g, rule, path) && path[0] in s
    ensures path[|path| - 1] in s
    decreases |path|
  {
    hide Edge;
    if |path| > 1 {
      var shorter := path[..|path| - 1];
      ClosedSetHoldsPath(g, rule, s, shorter);
      assert Edge(g, rule, path[|path| - 2], path[|path| - 1]);
    }
  }

  lemma ClosedReach(g: Graph, rule: Rule, s: set<TypeId>, a: TypeId, b: TypeId)
    requires ClosedSet(g, rule, s) && a in s && Reaches(g, rule, a, b)
    ensures b in s
  {
    hide Edge;
    var path :| Connects(g, rule, path, a, b);
    ClosedSetHoldsPath(g, rule, s, path);
  }

  // ---------------------------------------------------------------------
  // What each kind of type carries
  // ---------------------------------------------------------------------

  /**
    A type of this kind carries the field, given which types do: what a value can
    be followed into, or what another package can name. An element behind a pointer,
    slice, array or channel, a map's key or element, a signature's parameters or
    results, a tuple's variables, a type argument; behind a type of this package also
    its underlying type. An interface carries nothing, but exposes its exported
    methods and embedded types; a named type of this package its exported methods.
   */
  ghost predicate CarriedBy(rule: Rule, n: Node, f: FieldId, carriers: set<TypeId>) {
    match n
    case Pointer(elem) => elem in carriers
    case Slice(elem) => elem in carriers
    case Array(elem) => elem in carriers
    case Chan(elem) => elem in carriers
    case Map(key, elem) => key in carriers || elem in carriers
    case Signature(params, results) => params in carriers || results in carriers
    case Tuple(vars) => exists v :: v in vars && v in carriers
    case Named(args, local, methods, underlying) =>
      || (exists a :: a in args && a in carriers)
      || (local && underlying in carriers)
      || (local && rule == Exposing && exists m :: m in methods && m.exported && m.signature in carriers)
    case Interface(methods, embedded) =>
      rule == Exposing && ((exists m :: m in methods && m.exported && m.signature in carriers)
                           || exists e :: e in embedded && e in carriers)
    case Struct(fields) =>
      exists v :: v in fields && (rule == Visiting || v.exported || v.embedded) && (v.origin == f || v.typ in carriers)
    case Opaque => false
  }

  ghost function Carriers(g: Graph, rule: Rule, f: FieldId): set<TypeId> {
    set t | t in g && FieldReachable(g, rule, Some(t), f)
  }

  lemma {:induction false} ExposedMethodsIff(ms: seq<Method>, s: Step)
    ensures s in ExposedMethods(ms) <==> exists m :: m in ms && m.exported && s == Enter(m.signature)
    decreases |ms|
  {
    if ms != [] {
      ExposedMethodsIff(ms[1..], s);
      assert ms == [ms[0]] + ms[1..];
      assert ms[0] in ms;
    }
  }

  lemma EntersIff(ts: seq<TypeId>, s: Step)
    ensures s in Enters(ts) <==> s.Enter? && s.typ in ts
  {
    if s.Enter? && s.typ in ts {
      var i :| 0 <= i < |ts| && ts[i] == s.typ;
      assert Enters(ts)[i] == s;
    }
  }

  /** One step from a node: it marks the field, or enters a carrier. */
  lemma CarriedByStep(rule: Rule, n: Node, f: FieldId, carriers: set<TypeId>)
    ensures CarriedBy(rule, n, f, carriers) <==>
            Mark(f) in Steps(rule, n) || exists u :: u in carriers && Enter(u) in Steps(rule, n)
  {
    match n
    case Struct(fields) =>
      StructCarries(rule, fields, f, carriers);
    case Named(args, _, methods, _) =>
      MembersAre(args, methods);
      hide Enters, ExposedMethods;
    case Tuple(vars) =>
      MembersAre(vars, []);
      hide Enters;
    case Interface(methods, embedded) =>
      MembersAre(embedded, methods);
      hide Enters, ExposedMethods;
    case _ =>
  }

  lemma StructCarries(rule: Rule, fields: seq<Field>, f: FieldId, carriers: set<TypeId>)
    ensures CarriedBy(rule, Struct(fields), f, carriers) <==>
            Mark(f) in FieldSteps(rule, fields) || exists u :: u in carriers && Enter(u) in FieldSteps(rule, fields)
  {
    forall s ensures s in FieldSteps(rule, fields) <==>
                     exists v :: v in fields && (rule == Visiting || v.exported || v.embedded) &&
                                 (s == Mark(v.origin) || s == Enter(v.typ))
    {
      FieldStepsIff(rule, fields, s);
    }
    hide FieldSteps;
  }

  lemma MembersAre(ts: seq<TypeId>, ms: seq<Method>)
    ensures forall s :: s in Enters(ts) <==> s.Enter? && s.typ in ts
    ensures forall s :: s in ExposedMethods(ms) <==> exists m :: m in ms && m.exported && s == Enter(m.signature)
  {
    forall s ensures s in Enters(ts) <==> s.Enter? && s.typ in ts {
      EntersIff(ts, s);
    }
    forall s ensures s in ExposedMethods(ms) <==> exists m :: m in ms && m.exported && s == Enter(m.signature) {
      ExposedMethodsIff(ms, s);
    }
  }

  lemma ReachableByStep(g: Graph, rule: Rule, t: TypeId, f: FieldId)
    requires t in g
    ensures FieldReachable(g, rule, Some(t), f) <==>
            Marks(g, rule, t, f) || exists u :: u in Carriers(g, rule, f) && Edge(g, rule, t, u)
  {
    hide Edge, Marks;
    if u :| Reaches(g, rule, t, u) && Marks(g, rule, u, f) {
      var path :| Connects(g, rule, path, t, u);
      if |path| > 1 {
        assert Edge(g, rule, path[0], path[1]);
        RestConnects(g, rule, path, f, u);
      }
    }
    if u :| u in Carriers(g, rule, f) && Edge(g, rule, t, u) {
      var v :| Reaches(g, rule, u, v) && Marks(g, rule, v, f);
      ReachesThroughEdge(g, rule, t, u, v);
    }
    if Marks(g, rule, t, f) {
      ReachesSelf(g, rule, t);
    }
  }

  lemma RestConnects(g: Graph, rule: Rule, path: seq<TypeId>, f: FieldId, u: TypeId)
    requires |path| > 1 && IsPath(g, rule, path) && path[|path| - 1] == u && Marks(g, rule, u, f)
    ensures path[1] in Carriers(g, rule, f)
  {
    assert path[1] in g by {
      assert |path| > 2 ==> Edge(g, rule, path[1], path[2]);
    }
    hide Edge, Marks, IsPath;
    RestIsPath(g, rule, path);
    assert Connects(g, rule, path[1..], path[1], u);
  }

  lemma RestIsPath(g: Graph, rule: Rule, path: seq<TypeId>)
    requires |path| > 1 && IsPath(g, rule, path) && path[1] in g
    ensures IsPath(g, rule, path[1..])
  {
    hide Edge;
    var rest := path[1..];
    forall i | 0 <= i < |rest| - 1 ensures Edge(g, rule, rest[i], rest[i + 1]) {
      assert Edge(g, rule, path[i + 1], path[i + 2]);
    }
  }

  /** The types from which a field is reachable are those that each kind's rule says, and no more than it forces. */
  lemma CarriersAreLeast(g: Graph, rule: Rule, f: FieldId)
    ensures var carriers := Carriers(g, rule, f);
            && (forall t :: t in g ==> (t in carriers <==> CarriedBy(rule, g[t], f, carriers)))
            && forall other: set<TypeId> ::
                 (forall t :: t in g && CarriedBy(rule, g[t], f, other) ==> t in other) ==> carriers <= other
  {
    var carriers := Carriers(g, rule, f);
    forall t | t in g ensures t in carriers <==> CarriedBy(rule, g[t], f, carriers) {
      ReachableByStep(g, rule, t, f);
      CarriedByStep(rule, g[t], f, carriers);
    }
    forall other: set<TypeId> | forall t :: t in g && CarriedBy(rule, g[t], f, other) ==> t in other
      ensures carriers <= other
    {
      NoMoreThanForced(g, rule, f, other);
    }
  }

  lemma NoMoreThanForced(g: Graph, rule: Rule, f: FieldId, other: set<TypeId>)
    requires forall t :: t in g && CarriedBy(rule, g[t], f, other) ==> t in other
    ensures Carriers(g, rule, f) <= other
  {
    forall t | t in g && FieldReachable(g, rule, Some(t), f) ensures t in other {
      var u :| Reaches(g, rule, t, u) && Marks(g, rule, u, f);
      var path :| Connects(g, rule, path, t, u);
      BackAlong(g, rule, f, other, path);
    }
  }

  lemma {:induction false} BackAlong(g: Graph, rule: Rule, f: FieldId, other: set<TypeId>, path: seq<TypeId>)
    requires forall t :: t in g && CarriedBy(rule, g[t], f, other) ==> t in other
    requires IsPath(g, rule, path) && Marks(g, rule, path[|path| - 1], f)
    ensures path[0] in other
    decreases |path|
  {
    CarriedByStep(rule, g[path[0]], f, other);
    if |path| > 1 {
      assert Edge(g, rule, path[0], path[1]);
      assert path[1] in g by {
        assert |path| > 2 ==> Edge(g, rule, path[1], path[2]);
      }
      RestIsPath(g, rule, path);
      hide CarriedBy, Steps, IsPath;
      BackAlong(g, rule, f, other, path[1..]);
    }
  }

  // ---------------------------------------------------------------------
  // The walk
  // ---------------------------------------------------------------------

  /** What a walk has done: the types entered and the fields it called back for. */
  class Walk {
    const g: Graph
    const rule: Rule
    var seen: set<TypeId>
    var fields: set<FieldId>

    constructor (g: Graph, rule: Rule)
      ensures this.g == g && this.rule == rule && seen == {} && fields == {}
    {
      this.g, this.rule, this.seen, this.fields := g, rule, {}, {};
    }

    /**
      Enters everything reachable from t that was not seen before. Types seen
      but not finished lie on the recursion stack, so closure is only promised
      for the types this call enters.
     */
    method Visit(t: TypeId)
      requires Complete(g) && t in g && seen <= g.Keys
      modifies this
      ensures old(seen) <= seen <= g.Keys && t in seen
      ensures Entered(g, rule, {t}, old(seen), seen)
      ensures FieldsOf(g, rule, old(fields), old(seen), seen, fields)
      decreases g.Keys - seen
    {
      hide Edge, Marks, Steps, Reaches, Complete, Entered, FieldsOf;
      if t in seen {
        NothingEntered(g, rule, {t}, seen, fields);
        return;
      }
      ghost var seen0, fields0 := seen, fields;
      seen := seen + {t};
      var steps := Steps(rule, g[t]);
      StartEntering(g, rule, t, seen0, fields0);
      for i := 0 to |steps|
        invariant seen0 + {t} <= seen <= g.Keys
        invariant Underway(g, rule, t, steps[..i], seen0, seen, fields0, fields)
      {
        assert steps[..i + 1] == steps[..i] + [steps[i]];
        match steps[i]
        case Mark(f) =>
          MarkStep(g, rule, t, i, seen0, seen, fields0, fields);
          fields := fields + {f};
        case Enter(u) =>
          ghost var seen1, fields1 := seen, fields;
          EnterTarget(g, rule, t, i);
          Visit(u);
          EnterStep(g, rule, t, i, seen0, seen1, seen, fields0, fields1, fields);
      }
      assert steps[..|steps|] == steps;
      FinishEntering(g, rule, t, seen0, seen, fields0, fields);
    }
  }

  /** The new types are reachable from the roots, and every step out of them was taken. */
  ghost predicate Entered(g: Graph, rule: Rule, roots: set<TypeId>, before: set<TypeId>, after: set<TypeId>) {
    && (forall u :: u in after - before ==> exists r :: r in roots && Reaches(g, rule, r, u))
    && (forall a, b :: a in after - before && Edge(g, rule, a, b) ==> b in after)
  }

  /** The fields called back for are those of the new types. */
  ghost predicate FieldsOf(g: Graph, rule: Rule, fields0: set<FieldId>, before: set<TypeId>, after: set<TypeId>,
                           fields: set<FieldId>)
  {
    forall f :: f in fields <==> f in fields0 || exists u :: u in after - before && Marks(g, rule, u, f)
  }

  /** Visit has entered t and taken the first steps out of it. */
  ghost predicate Underway(g: Graph, rule: Rule, t: TypeId, taken: seq<Step>, seen0: set<TypeId>, seen: set<TypeId>,
                           fields0: set<FieldId>, fields: set<FieldId>)
  {
    && t in g && t !in seen0 && t in seen
    && (forall u :: u in seen - seen0 ==> Reaches(g, rule, t, u))
    && (forall a, b :: a in seen - seen0 && a != t && Edge(g, rule, a, b) ==> b in seen)
    && (forall b :: Enter(b) in taken ==> b in seen)
    && (forall f :: f in fields <==>
          || f in fields0 || Mark(f) in taken
          || exists u :: u in seen - seen0 && u != t && Marks(g, rule, u, f))
  }

  lemma NothingEntered(g: Graph, rule: Rule, roots: set<TypeId>, seen: set<TypeId>, fields: set<FieldId>)
    ensures Entered(g, rule, roots, seen, seen) && FieldsOf(g, rule, fields, seen, seen, fields)
  {
  }

  lemma StartEntering(g: Graph, rule: Rule, t: TypeId, seen0: set<TypeId>, fields0: set<FieldId>)
    requires t in g && t !in seen0
    ensures Underway(g, rule, t, [], seen0, seen0 + {t}, fields0, fields0)
    ensures Steps(rule, g[t])[..0] == []
  {
    ReachesSelf(g, rule, t);
  }

  lemma MarkStep(g: Graph, rule: Rule, t: TypeId, i: nat, seen0: set<TypeId>, seen: set<TypeId>,
                 fields0: set<FieldId>, fields: set<FieldId>)
    requires t in g && i < |Steps(rule, g[t])| && Steps(rule, g[t])[i].Mark?
    requires Underway(g, rule, t, Steps(rule, g[t])[..i], seen0, seen, fields0, fields)
    ensures var steps := Steps(rule, g[t]);
            Underway(g, rule, t, steps[..i] + [steps[i]], seen0, seen, fields0, fields + {steps[i].field})
  {
    hide Steps, Edge, Marks, Reaches;
  }

  lemma EnterTarget(g: Graph, rule: Rule, t: TypeId, i: nat)
    requires Complete(g) && t in g && i < |Steps(rule, g[t])| && Steps(rule, g[t])[i].Enter?
    ensures Edge(g, rule, t, Steps(rule, g[t])[i].typ) && Steps(rule, g[t])[i].typ in g
  {
    hide Steps;
    assert Steps(rule, g[t])[i] in Steps(rule, g[t]);
    assert Edge(g, rule, t, Steps(rule, g[t])[i].typ);
  }

  lemma EnterStep(g: Graph, rule: Rule, t: TypeId, i: nat, seen0: set<TypeId>, seen1: set<TypeId>, seen: set<TypeId>,
                  fields0: set<FieldId>, fields1: set<FieldId>, fields: set<FieldId>)
    requires Complete(g) && t in g && i < |Steps(rule, g[t])| && Steps(rule, g[t])[i].Enter?
    requires seen0 + {t} <= seen1 <= seen
    requires Underway(g, rule, t, Steps(rule, g[t])[..i], seen0, seen1, fields0, fields1)
    requires var u := Steps(rule, g[t])[i].typ;
             u in seen && Entered(g, rule, {u}, seen1, seen) && FieldsOf(g, rule, fields1, seen1, seen, fields)
    ensures var steps := Steps(rule, g[t]);
            Underway(g, rule, t, steps[..i] + [steps[i]], seen0, seen, fields0, fields)
  {
    var steps := Steps(rule, g[t]);
    var u := steps[i].typ;
    EnterTarget(g, rule, t, i);
    hide Steps, Edge, Marks, Reaches, Complete;
    forall v | v in seen - seen0 ensures Reaches(g, rule, t, v) {
      if v !in seen1 {
        assert v in seen - seen1;
        var root :| root in {u} && Reaches(g, rule, root, v);
        ReachesThroughEdge(g, rule, t, u, v);
      } else {
        assert v in seen1 - seen0;
      }
    }
    forall f ensures f in fields <==>
                     || f in fields0 || Mark(f) in steps[..i] + [steps[i]]
                     || exists v :: v in seen - seen0 && v != t && Marks(g, rule, v, f)
    {
      EnterFields(g, rule, t, steps[..i], seen0, seen1, seen, fields0, fields1, fields, f);
      assert Mark(f) in steps[..i] + [steps[i]] <==> Mark(f) in steps[..i];
    }
  }

  lemma EnterFields(g: Graph, rule: Rule, t: TypeId, taken: seq<Step>, seen0: set<TypeId>, seen1: set<TypeId>,
                    seen: set<TypeId>, fields0: set<FieldId>, fields1: set<FieldId>, fields: set<FieldId>, f: FieldId)
    requires seen0 + {t} <= seen1 <= seen
    requires Underway(g, rule, t, taken, seen0, seen1, fields0, fields1)
    requires FieldsOf(g, rule, fields1, seen1, seen, fields)
    ensures f in fields <==>
            f in fields0 || Mark(f) in taken || exists v :: v in seen - seen0 && v != t && Marks(g, rule, v, f)
  {
    hide Edge, Marks, Reaches;
    if v :| v in seen - seen0 && v != t && Marks(g, rule, v, f) {
      if v in seen1 {
        assert v in seen1 - seen0;
      } else {
        assert v in seen - seen1;
      }
    }
  }

  lemma FinishEntering(g: Graph, rule: Rule, t: TypeId, seen0: set<TypeId>, seen: set<TypeId>,
                       fields0: set<FieldId>, fields: set<FieldId>)
    requires t in g && Underway(g, rule, t, Steps(rule, g[t]), seen0, seen, fields0, fields)
    ensures Entered(g, rule, {t}, seen0, seen) && FieldsOf(g, rule, fields0, seen0, seen, fields)
  {
    hide Steps, Reaches;
    forall f ensures f in fields <==> f in fields0 || exists u :: u in seen - seen0 && Marks(g, rule, u, f) {
      if Mark(f) in Steps(rule, g[t]) {
        assert t in seen - seen0 && Marks(g, rule, t, f);
      }
    }
  }

  /** A finished walk from some roots has found exactly the fields they reach. */
  lemma FinishedWalk(g: Graph, rule: Rule, roots: set<TypeId>, seen: set<TypeId>, fields: set<FieldId>)
    requires roots <= seen && Entered(g, rule, roots, {}, seen) && FieldsOf(g, rule, {}, {}, seen, fields)
    ensures forall f :: f in fields <==> exists r :: r in roots && FieldReachable(g, rule, Some(r), f)
  {
    forall f ensures f in fields <==> exists r :: r in roots && FieldReachable(g, rule, Some(r), f) {
      if f in fields {
        FoundIsReachable(g, rule, roots, seen, fields, f);
      }
      if r :| r in roots && FieldReachable(g, rule, Some(r), f) {
        ReachableIsFound(g, rule, roots, seen, fields, f, r);
      }
    }
  }

  lemma FoundIsReachable(g: Graph, rule: Rule, roots: set<TypeId>, seen: set<TypeId>, fields: set<FieldId>, f: FieldId)
    requires Entered(g, rule, roots, {}, seen) && FieldsOf(g, rule, {}, {}, seen, fields) && f in fields
    ensures exists r :: r in roots && FieldReachable(g, rule, Some(r), f)
  {
    hide Edge, Marks, Reaches;
    var u :| u in seen - {} && Marks(g, rule, u, f);
    var r :| r in roots && Reaches(g, rule, r, u);
    assert FieldReachable(g, rule, Some(r), f);
  }

  lemma ReachableIsFound(g: Graph, rule: Rule, roots: set<TypeId>, seen: set<TypeId>, fields: set<FieldId>, f: FieldId,
                         r: TypeId)
    requires roots <= seen && Entered(g, rule, roots, {}, seen) && FieldsOf(g, rule, {}, {}, seen, fields)
    requires r in roots && FieldReachable(g, rule, Some(r), f)
    ensures f in fields
  {
    hide Edge, Marks, Reaches;
    var u :| Reaches(g, rule, r, u) && Marks(g, rule, u, f);
    assert ClosedSet(g, rule, seen) by {
      forall a, b | a in seen && Edge(g, rule, a, b) ensures b in seen {
        assert a in seen - {};
      }
    }
    ClosedReach(g, rule, seen, r, u);
    assert u in seen - {};
  }

  /** visitType with a fresh seen set: exactly the fields reachable from t. */
  method VisitedFields(g: Graph, t: Option<TypeId>) returns (fields: set<FieldId>)
    requires Complete(g) && (t.Some? ==> t.value in g)
    ensures forall f :: f in fields <==> FieldReachable(g, Visiting, t, f)
  {
    hide Complete, Entered, FieldsOf, Reaches, Edge, Marks;
    if t.None? {
      return {};
    }
    var walk := new Walk(g, Visiting);
    walk.Visit(t.value);
    FinishedWalk(g, Visiting, {t.value}, walk.seen, walk.fields);
    fields := walk.fields;
  }

  /** exposedFields: one seen set shared by all exported objects loses nothing. */
  method ExposedFields(g: Graph, roots: seq<TypeId>) returns (exposed: set<FieldId>)
    requires Complete(g) && forall r :: r in roots ==> r in g
    ensures forall f :: f in exposed <==> exists r :: r in roots && FieldReachable(g, Exposing, Some(r), f)
  {
    hide Complete, Entered, FieldsOf, Reaches, Edge, Marks, FieldReachable;
    var walk := new Walk(g, Exposing);
    NothingEntered(g, Exposing, {}, {}, {});
    ghost var done: set<TypeId> := {};
    for i := 0 to |roots|
      invariant done <= walk.seen <= g.Keys && walk.g == g && walk.rule == Exposing
      invariant forall r :: r in done <==> r in roots[..i]
      invariant Entered(g, Exposing, done, {}, walk.seen) && FieldsOf(g, Exposing, {}, {}, walk.seen, walk.fields)
    {
      ghost var seen0, fields0 := walk.seen, walk.fields;
      assert roots[i] in roots;
      assert roots[..i + 1] == roots[..i] + [roots[i]];
      walk.Visit(roots[i]);
      NextRoot(g, Exposing, done, roots[i], seen0, walk.seen, fields0, walk.fields);
      done := done + {roots[i]};
    }
    assert roots[..|roots|] == roots;
    FinishedWalk(g, Exposing, done, walk.seen, walk.fields);
    exposed := walk.fields;
  }

  lemma NextRoot(g: Graph, rule: Rule, done: set<TypeId>, t: TypeId, seen0: set<TypeId>, seen: set<TypeId>,
                 fields0: set<FieldId>, fields: set<FieldId>)
    requires seen0 <= seen
    requires Entered(g, rule, done, {}, seen0) && FieldsOf(g, rule, {}, {}, seen0, fields0)
    requires Entered(g, rule, {t}, seen0, seen) && FieldsOf(g, rule, fields0, seen0, seen, fields)
    ensures Entered(g, rule, done + {t}, {}, seen) && FieldsOf(g, rule, {}, {}, seen, fields)
  {
    hide Edge, Marks, Reaches;
    forall u | u in seen - {} ensures exists r :: r in done + {t} && Reaches(g, rule, r, u) {
      if u in seen0 {
        assert u in seen0 - {};
        var r :| r in done && Reaches(g, rule, r, u);
        assert r in done + {t};
      } else {
        assert u in seen - seen0;
        var r :| r in {t} && Reaches(g, rule, r, u);
        assert r in done + {t};
      }
    }
    forall a, b | a in seen - {} && Edge(g, rule, a, b) ensures b in seen {
      assert a in seen0 - {} || a in seen - seen0;
    }
    forall f ensures f in fields <==> f in {} || exists u :: u in seen - {} && Marks(g, rule, u, f) {
      if u :| u in seen - {} && Marks(g, rule, u, f) {
        assert u in seen0 - {} || u in seen - seen0;
      }
    }
  }

  // ---------------------------------------------------------------------
  // Harmless copies
  // ---------------------------------------------------------------------

  /** Every candidate field src carries stays reachable through dst. */
  ghost predicate KeepsCandidates(g: Graph, candidates: set<FieldId>, src: Option<TypeId>, dst: Option<TypeId>) {
    forall f :: f in candidates && FieldReachable(g, Visiting, src, f) ==> FieldReachable(g, Visiting, dst, f)
  }

  method CopyHarmless(g: Graph, candidates: set<FieldId>, src: Option<TypeId>, dst: Option<TypeId>)
    returns (harmless: bool)
    requires Complete(g) && (src.Some? ==> src.value in g) && (dst.Some? ==> dst.value in g)
    ensures harmless <==> KeepsCandidates(g, candidates, src, dst)
  {
    hide FieldReachable, Complete;
    var reach := VisitedFields(g, dst);
    var carried := VisitedFields(g, src);
    harmless := forall f :: f in carried ==> f !in candidates || f in reach;
  }

  /** carries: some candidate field is reachable. */
  method Carries(g: Graph, candidates: set<FieldId>, t: Option<TypeId>) returns (found: bool)
    requires Complete(g) && (t.Some? ==> t.value in g)
    ensures found <==> exists f :: f in candidates && FieldReachable(g, Visiting, t, f)
  {
    hide FieldReachable, Complete;
    var fields := VisitedFields(g, t);
    found := exists f :: f in fields && f in candidates;
  }

  /** Harmless copies compose, so a chain of them keeps every candidate reachable. */
  lemma {:induction false} HarmlessChain(g: Graph, candidates: set<FieldId>, chain: seq<Option<TypeId>>)
    requires chain != []
    requires forall i :: 0 <= i < |chain| - 1 ==> KeepsCandidates(g, candidates, chain[i], chain[i + 1])
    ensures KeepsCandidates(g, candidates, chain[0], chain[|chain| - 1])
    decreases |chain|
  {
    hide FieldReachable;
    if |chain| > 1 {
      HarmlessChain(g, candidates, chain[1..]);
    }
  }

  /** A node from which nothing can be followed. */
  predicate Barren(n: Node) {
    match n
    case Opaque => true
    case Interface(_, _) => true
    case Named(args, local, _, _) => args == [] && !local
    case Tuple(vars) => vars == []
    case Struct(fields) => fields == []
    case _ => false
  }

  /** A copy that reaches no field (nil, an interface) is harmless exactly when nothing is carried. */
  lemma NowhereIsHarmlessIffNothingCarried(g: Graph, candidates: set<FieldId>, src: Option<TypeId>, dst: Option<TypeId>)
    requires dst.Some? ==> dst.value in g && Barren(g[dst.value])
    ensures KeepsCandidates(g, candidates, src, dst) <==>
            !exists f :: f in candidates && FieldReachable(g, Visiting, src, f)
  {
    forall f ensures !FieldReachable(g, Visiting, dst, f) {
      if dst.Some? {
        DeadEnd(g, dst.value, f);
      }
    }
    hide FieldReachable, Barren;
  }

  lemma DeadEnd(g: Graph, t: TypeId, f: FieldId)
    requires t in g && Barren(g[t])
    ensures !FieldReachable(g, Visiting, Some(t), f)
  {
    CarriersAreLeast(g, Visiting, f);
    hide FieldReachable;
  }

  /** Storing a value inside a type that carries its type is harmless, at any depth. */
  lemma StoringInsideIsHarmless(g: Graph, candidates: set<FieldId>, src: TypeId, dst: TypeId)
    requires Reaches(g, Visiting, dst, src)
    ensures KeepsCandidates(g, candidates, Some(src), Some(dst))
  {
    hide Reaches, Marks;
    forall f | FieldReachable(g, Visiting, Some(src), f) ensures FieldReachable(g, Visiting, Some(dst), f) {
      var u :| Reaches(g, Visiting, src, u) && Marks(g, Visiting, u, f);
      ReachesTransitively(g, Visiting, dst, src, u);
    }
  }

  /** Two struct literals of the same shape are different destinations. */
  lemma IdenticalStructsAreNotInterchangeable(f: FieldId, h: FieldId)
    requires f != h
    ensures var g: Graph := map[0 := Struct([Field(f, false, false, 2)]),
                                1 := Struct([Field(h, false, false, 2)]), 2 := Opaque];
            Complete(g) && !KeepsCandidates(g, {f}, Some(0), Some(1))
  {
    var g: Graph := map[0 := Struct([Field(f, false, false, 2)]),
                        1 := Struct([Field(h, false, false, 2)]), 2 := Opaque];
    StructSteps(f);
    StructSteps(h);
    hide FieldSteps, IsPath, Reaches;
    ReachesSelf(g, Visiting, 0);
    assert Marks(g, Visiting, 0, f);
    assert FieldReachable(g, Visiting, Some(0), f);
    forall u | Reaches(g, Visiting, 1, u) ensures !Marks(g, Visiting, u, f) {
      ClosedReach(g, Visiting, {1, 2}, 1, u);
    }
  }

  lemma StructSteps(f: FieldId)
    ensures forall rule :: FieldSteps(rule, [Field(f, false, false, 2)]) ==
                           if rule == Visiting then [Mark(f), Enter(2)] else []
  {
    assert [Field(f, false, false, 2)][1..] == [];
  }
}
