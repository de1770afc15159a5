/**
  How Execute installs its agent-safety setup ahead of the persistent pre-run
  hooks of a long-lived command tree. Commands are numbered so that a parent
  precedes its children; Cobra runs only the nearest ancestor's hook.
 */
module ExecuteHooks {

  /** A persistent hook: absent, the adopter's, or the one Execute installs. */
  datatype Hook = NoHook | Adopter(id: nat) | Wrapped(previousE: Hook, previous: Hook)

  /** preE and pre are PersistentPreRunE and PersistentPreRun; marked is the annotation. */
  datatype Node = Node(parent: int, preE: Hook, pre: Hook, marked: bool)

  /** Command 0 is the root. */
  ghost predicate IsTree(nodes: seq<Node>) {
    && nodes != [] && nodes[0].parent == -1
    && forall i :: 0 < i < |nodes| ==> 0 <= nodes[i].parent < i
  }

  predicate HasHook(n: Node) {
    n.preE != NoHook || n.pre != NoHook
  }

  // ---------------------------------------------------------------------
  // Wrapping
  // ---------------------------------------------------------------------

  function WrapNode(n: Node): Node {
    if n.marked then n else n.(preE := Wrapped(n.preE, n.pre), marked := true)
  }

  /** The root always, every other command only when it declares a hook. */
  function WrapAt(nodes: seq<Node>, i: nat): Node
    requires i < |nodes|
  {
    if i == 0 || HasHook(nodes[i]) then WrapNode(nodes[i]) else nodes[i]
  }

  function WrapTree(nodes: seq<Node>): seq<Node> {
    seq(|nodes|, i requires 0 <= i < |nodes| => WrapAt(nodes, i))
  }

  /** The hook E the adopter declared, seen through a wrapping. */
  function OwnE(n: Node): Hook {
    if n.preE.Wrapped? then n.preE.previousE else n.preE
  }

  predicate DeclaresHook(n: Node) {
    OwnE(n) != NoHook || n.pre != NoHook
  }

  /** Wrapped at most once, around the adopter's own hooks, and marked exactly then. */
  predicate WrappedOnce(n: Node) {
    && !n.pre.Wrapped? && !OwnE(n).Wrapped?
    && (n.marked <==> n.preE.Wrapped?)
    && (n.preE.Wrapped? ==> n.preE.previous == n.pre)
  }

  ghost predicate Inv(nodes: seq<Node>) {
    && IsTree(nodes)
    && (forall i :: 0 <= i < |nodes| ==> WrappedOnce(nodes[i]))
    && (forall i :: 0 < i < |nodes| && nodes[i].preE.Wrapped? ==> DeclaresHook(nodes[i]))
  }

  // ---------------------------------------------------------------------
  // Cobra's choice and what a hook does
  // ---------------------------------------------------------------------

  /** The nearest command, from i up to the root, that has a hook; -1 if none has. */
  ghost function Nearest(nodes: seq<Node>, i: nat): (j: int)
    requires IsTree(nodes) && i < |nodes|
    ensures -1 <= j < |nodes|
  {
    if HasHook(nodes[i]) then i
    else if i == 0 then -1
    else Nearest(nodes, nodes[i].parent)
  }

  datatype Act = Setup | SetupRejected | Ran(id: nat)

  /** What running a hook does, and whether it returned nil. */
  datatype Effect = Effect(trace: seq<Act>, ok: bool)

  /** modeOk: the output mode resolves; failing: the adopter hooks that return an error. */
  function RunHook(h: Hook, modeOk: bool, failing: set<nat>): Effect {
    match h
    case NoHook => Effect([], true)
    case Adopter(id) => Effect([Ran(id)], id !in failing)
    case Wrapped(previousE, previous) =>
      if !modeOk then Effect([SetupRejected], false) else
      var e := RunHook(previousE, modeOk, failing);
      if !e.ok then Effect([Setup] + e.trace, false) else
      Effect([Setup] + e.trace + RunHook(previous, modeOk, {}).trace, true)
  }

  /** Cobra prefers the E variant of the nearest hooked command. */
  ghost function Dispatched(nodes: seq<Node>, invoked: nat): Hook
    requires IsTree(nodes) && invoked < |nodes|
  {
    var j := Nearest(nodes, invoked);
    if j == -1 then NoHook
    else if nodes[j].preE != NoHook then nodes[j].preE else nodes[j].pre
  }

  /** The nearest command whose adopter declared a hook, else the root. */
  ghost function Owner(nodes: seq<Node>, i: nat): (j: nat)
    requires IsTree(nodes) && i < |nodes|
    ensures j < |nodes|
  {
    if i == 0 || DeclaresHook(nodes[i]) then i else Owner(nodes, nodes[i].parent)
  }

  /** The way up from i, past commands that declare no hook, to the first that does or to the root. */
  ghost predicate LeadsTo(nodes: seq<Node>, path: seq<nat>, i: nat, j: nat) {
    && path != [] && path[0] == i && path[|path| - 1] == j
    && (forall k :: 0 <= k < |path| ==> path[k] < |nodes|)
    && (forall k :: 0 <= k < |path| - 1 ==>
          path[k] > 0 && !DeclaresHook(nodes[path[k]]) && nodes[path[k]].parent == path[k + 1])
    && (j == 0 || DeclaresHook(nodes[j]))
  }

  ghost predicate NearestDeclaring(nodes: seq<Node>, i: nat, j: nat) {
    exists path :: LeadsTo(nodes, path, i, j)
  }

  lemma {:induction false} OwnerIsNearest(nodes: seq<Node>, i: nat)
    requires IsTree(nodes) && i < |nodes|
    ensures NearestDeclaring(nodes, i, Owner(nodes, i))
    decreases i
  {
    hide DeclaresHook;
    if i == 0 || DeclaresHook(nodes[i]) {
      assert LeadsTo(nodes, [i], i, i);
    } else {
      var up: nat, j := nodes[i].parent, Owner(nodes, i);
      OwnerIsNearest(nodes, up);
      var path :| LeadsTo(nodes, path, up, j);
      var longer := [i] + path;
      forall k | 0 <= k < |longer| - 1
        ensures longer[k] > 0 && !DeclaresHook(nodes[longer[k]]) && nodes[longer[k]].parent == longer[k + 1]
      {
        if k > 0 {
          assert longer[k] == path[k - 1] && longer[k + 1] == path[k];
        }
      }
      assert LeadsTo(nodes, longer, i, j);
    }
  }

  /**
    The setup, then the adopter's E hook, then its plain hook unless E failed; with
    a mode that does not resolve, only the refusal.
   */
  function Expected(ownE: Hook, pre: Hook, modeOk: bool, failing: set<nat>): Effect
    requires !ownE.Wrapped? && !pre.Wrapped?
  {
    if !modeOk then Effect([SetupRejected], false) else
    match (ownE, pre)
    case (NoHook, NoHook) => Effect([Setup], true)
    case (NoHook, Adopter(b)) => Effect([Setup, Ran(b)], true)
    case (Adopter(a), NoHook) => Effect([Setup, Ran(a)], a !in failing)
    case (Adopter(a), Adopter(b)) =>
      if a in failing then Effect([Setup, Ran(a)], false) else Effect([Setup, Ran(a), Ran(b)], true)
  }

  // ---------------------------------------------------------------------
  // What every Execute establishes
  // ---------------------------------------------------------------------

  lemma WrapKeepsInv(nodes: seq<Node>)
    requires Inv(nodes)
    ensures Inv(WrapTree(nodes))
    ensures |WrapTree(nodes)| == |nodes|
    ensures forall i :: 0 <= i < |nodes| ==>
              && OwnE(WrapTree(nodes)[i]) == OwnE(nodes[i]) && WrapTree(nodes)[i].pre == nodes[i].pre
              && WrapTree(nodes)[i].parent == nodes[i].parent
  {
    forall i | 0 <= i < |nodes|
      ensures WrappedOnce(WrapAt(nodes, i)) && OwnE(WrapAt(nodes, i)) == OwnE(nodes[i])
      ensures WrapAt(nodes, i).pre == nodes[i].pre && WrapAt(nodes, i).parent == nodes[i].parent
    {
      assert WrappedOnce(nodes[i]);
    }
  }

  /** Wrapping again changes nothing. */
  lemma WrapIsIdempotent(nodes: seq<Node>)
    requires Inv(nodes)
    ensures WrapTree(WrapTree(nodes)) == WrapTree(nodes)
  {
    var once := WrapTree(nodes);
    WrapKeepsInv(nodes);
    forall i | 0 <= i < |nodes| ensures WrapAt(once, i) == once[i] {
      assert WrappedOnce(nodes[i]);
    }
  }

  /** After wrapping, Cobra stops exactly where the adopter's own rule would, or at the root. */
  lemma {:induction false} NearestIsOwner(nodes: seq<Node>, i: nat)
    requires Inv(nodes) && i < |nodes|
    ensures Inv(WrapTree(nodes)) && |WrapTree(nodes)| == |nodes|
    ensures Nearest(WrapTree(nodes), i) == Owner(nodes, i)
    ensures WrapTree(nodes)[Owner(nodes, i)].preE.Wrapped?
    decreases i
  {
    WrapKeepsInv(nodes);
    assert WrappedOnce(nodes[i]);
    if i != 0 && !DeclaresHook(nodes[i]) {
      NearestIsOwner(nodes, nodes[i].parent);
    }
  }

  /**
    Whichever command is invoked after an Execute prepared the tree, the hook
    Cobra chooses runs the setup exactly once, first, and then exactly the hooks
    the adopter declared on the nearest hooked ancestor; a rejected mode runs
    none of them.
   */
  lemma SetupRunsOnceBeforeAdopterHooks(nodes: seq<Node>, invoked: nat, modeOk: bool, failing: set<nat>)
    requires Inv(nodes) && invoked < |nodes|
    ensures Inv(WrapTree(nodes)) && |WrapTree(nodes)| == |nodes|
    ensures exists j: nat ::
              && NearestDeclaring(nodes, invoked, j) && j < |nodes| && WrappedOnce(nodes[j])
              && RunHook(Dispatched(WrapTree(nodes), invoked), modeOk, failing) ==
                 Expected(OwnE(nodes[j]), nodes[j].pre, modeOk, failing)
  {
    NearestIsOwner(nodes, invoked);
    OwnerIsNearest(nodes, invoked);
    WrapKeepsInv(nodes);
    var j := Owner(nodes, invoked);
    assert WrappedOnce(nodes[j]);
    assert Dispatched(WrapTree(nodes), invoked) == Wrapped(OwnE(nodes[j]), nodes[j].pre);
    RunWrapped(OwnE(nodes[j]), nodes[j].pre, modeOk, failing);
    hide RunHook, Expected, NearestDeclaring, WrappedOnce, OwnE;
  }

  lemma RunWrapped(ownE: Hook, pre: Hook, modeOk: bool, failing: set<nat>)
    requires !ownE.Wrapped? && !pre.Wrapped?
    ensures RunHook(Wrapped(ownE, pre), modeOk, failing) == Expected(ownE, pre, modeOk, failing)
  {
  }

  /** What happens to a tree between program start and one invocation. */
  datatype Change = Add(parent: nat, preE: Hook, pre: Hook) | Prepare

  predicate Admissible(size: nat, ch: Change) {
    ch.Add? ==> ch.parent < size && !ch.preE.Wrapped? && !ch.pre.Wrapped?
  }

  function Apply(nodes: seq<Node>, ch: Change): seq<Node> {
    match ch
    case Add(parent, preE, pre) => nodes + [Node(parent, preE, pre, false)]
    case Prepare => WrapTree(nodes)
  }

  ghost predicate Reached(nodes: seq<Node>, changes: seq<Change>)
    decreases |changes|
  {
    if changes == [] then
      |nodes| == 1 && nodes[0].parent == -1 && !nodes[0].marked
      && !nodes[0].preE.Wrapped? && !nodes[0].pre.Wrapped?
    else
      var last := |changes| - 1;
      exists before :: Reached(before, changes[..last]) && Admissible(|before|, changes[last])
                       && nodes == Apply(before, changes[last])
  }

  lemma {:induction false} HistoryKeepsInv(nodes: seq<Node>, changes: seq<Change>)
    requires Reached(nodes, changes)
    ensures Inv(nodes)
    decreases |changes|
  {
    if changes != [] {
      var last := |changes| - 1;
      var before :| Reached(before, changes[..last]) && Admissible(|before|, changes[last])
                    && nodes == Apply(before, changes[last]);
      HistoryKeepsInv(before, changes[..last]);
      if changes[last].Prepare? {
        WrapKeepsInv(before);
      }
    }
  }

  /** Over every history of added commands and Executes, the next Execute meets the guarantee. */
  lemma EveryExecuteSetsUpOnce(
    nodes: seq<Node>, changes: seq<Change>, invoked: nat, modeOk: bool, failing: set<nat>)
    requires Reached(nodes, changes) && invoked < |nodes|
    ensures IsTree(nodes) && IsTree(WrapTree(nodes))
    ensures exists j: nat ::
              && NearestDeclaring(nodes, invoked, j) && j < |nodes| && WrappedOnce(nodes[j])
              && RunHook(Dispatched(WrapTree(nodes), invoked), modeOk, failing) ==
                 Expected(OwnE(nodes[j]), nodes[j].pre, modeOk, failing)
    ensures WrapTree(WrapTree(nodes)) == WrapTree(nodes)
  {
    HistoryKeepsInv(nodes, changes);
    SetupRunsOnceBeforeAdopterHooks(nodes, invoked, modeOk, failing);
    WrapIsIdempotent(nodes);
  }

  // ---------------------------------------------------------------------
  // The tree as an object
  // ---------------------------------------------------------------------

  class CommandTree {
    var nodes: seq<Node>

    constructor (preE: Hook, pre: Hook)
      requires !preE.Wrapped? && !pre.Wrapped?
      ensures Inv(nodes) && nodes == [Node(-1, preE, pre, false)]
    {
      nodes := [Node(-1, preE, pre, false)];
    }

    /** Adopters may add commands, with their own hooks, between two Executes. */
    method AddCommand(parent: nat, preE: Hook, pre: Hook)
      requires Inv(nodes) && parent < |nodes| && !preE.Wrapped? && !pre.Wrapped?
      modifies this
      ensures Inv(nodes) && nodes == old(nodes) + [Node(parent, preE, pre, false)]
    {
      nodes := nodes + [Node(parent, preE, pre, false)];
    }

    /** wrapPersistentPreRun: the root, then every hooked descendant, each at most once. */
    method WrapPersistentPreRun()
      requires Inv(nodes)
      modifies this
      ensures Inv(nodes) && nodes == WrapTree(old(nodes))
    {
      WrapKeepsInv(nodes);
      WrapCommand(0);
      var i := 1;
      while i < |nodes|
        invariant 1 <= i <= |nodes| == |old(nodes)|
        invariant forall k :: 0 <= k < i ==> nodes[k] == WrapAt(old(nodes), k)
        invariant forall k :: i <= k < |nodes| ==> nodes[k] == old(nodes[k])
      {
        if nodes[i].pre != NoHook || nodes[i].preE != NoHook {
          WrapCommand(i);
        }
        i := i + 1;
      }
      assert nodes == WrapTree(old(nodes));
    }

    method WrapCommand(i: nat)
      requires i < |nodes|
      modifies this
      ensures nodes == old(nodes)[i := WrapNode(old(nodes)[i])]
    {
      if nodes[i].marked {
        return;
      }
      var previousE, previous := nodes[i].preE, nodes[i].pre;
      nodes := nodes[i := Node(nodes[i].parent, Wrapped(previousE, previous), previous, true)];
    }
  }
}
