/**
  What tool calls leave of the flags. The dispatcher's reset gives a scalar its
  default only when its changed bit is set, drops the error when that Set fails,
  and clears the bit all the same. So isolation rests on one invariant: every
  flag is one that the reset brings back to its default. A Set that writes before
  it fails breaks it, and so does an accepted value from which Set cannot return;
  the theorems say exactly when.
 */
module Isolation {
  import opened Dispatch

  /** The commands whose contexts the reset rebinds. */
  function Commands(tree: Tree): set<CommandId> {
    set step | step in WalkSteps(tree.root) && step.Bind? :: step.command
  }

  predicate OfKind(flag: Flag, v: Value) {
    if flag.ScalarFlag? then v.Scalar? else v.List?
  }

  /** The state covers the flags and commands of the tree. */
  ghost predicate Fits(tree: Tree, s: TreeState) {
    && s.value.Keys == tree.flags.Keys
    && s.changed <= tree.flags.Keys
    && (forall f :: f in tree.flags ==> OfKind(tree.flags[f], s.value[f]))
    && (forall id :: id in s.context ==> id in Commands(tree))
  }

  /** Setting a scalar that holds this text to its default leaves it at its default. */
  predicate ScalarReturns(flag: Flag, text: string)
    requires flag.ScalarFlag?
  {
    match flag.set_(text, flag.def)
    case Accepts(t) => t == flag.def
    case Rejects(left) => (if left.Some? then left.value else text) == flag.def
    case SetPanics(_) => false
  }

  /** Replacing a slice that holds these items by its defaults leaves it at its defaults. */
  predicate SliceReturns(flag: Flag, items: seq<string>)
    requires flag.SliceFlag?
  {
    match flag.replace(flag.defaults)
    case Replaced => true
    case Refused(left) => (if left.Some? then left.value else items) == flag.defaults
    case ReplacePanics(_) => false
  }

  /** The reset brings a flag in this state back to its default. */
  predicate CleanFlag(flag: Flag, v: Value, changed: bool)
    requires OfKind(flag, v)
  {
    match flag
    case SliceFlag(_, _, _, _, _) => SliceReturns(flag, v.items)
    case ScalarFlag(_, _, def, _) => if changed then ScalarReturns(flag, v.text) else v.text == def
  }

  ghost predicate CleanAt(tree: Tree, s: TreeState, f: FlagId)
    requires Fits(tree, s) && f in tree.flags
  {
    CleanFlag(tree.flags[f], s.value[f], f in s.changed)
  }

  ghost predicate Clean(tree: Tree, s: TreeState)
    requires Fits(tree, s)
  {
    forall f :: f in tree.flags ==> CleanAt(tree, s, f)
  }

  /** Every flag at its default, nothing changed, every command in this call's context; the rest as in s. */
  ghost function Pristine(tree: Tree, s: TreeState, ctx: Context): TreeState {
    TreeState(map f | f in tree.flags :: DefaultOf(tree.flags[f]), {}, map id | id in Commands(tree) :: ctx,
              s.diverted, s.ran)
  }

  // ---------------------------------------------------------------------
  // The reset
  // ---------------------------------------------------------------------

  /** What the reset makes of flag f alone. */
  ghost function After(tree: Tree, s: TreeState, f: FlagId): Restored
    requires f in tree.flags
  {
    RestoreFlag(tree.flags[f], Held(tree, s, f), f in s.changed)
  }

  /** Visiting a flag twice, as the walk may, is visiting it once. */
  lemma RestoreTwice(flag: Flag, v: Value, changed: bool)
    requires !RestoreFlag(flag, v, changed).panics
    ensures !RestoreFlag(flag, v, changed).changed
    ensures RestoreFlag(flag, RestoreFlag(flag, v, changed).value, false) == RestoreFlag(flag, v, changed)
  {
  }

  lemma RestoreCleans(flag: Flag, v: Value, changed: bool)
    requires OfKind(flag, v)
    ensures OfKind(flag, RestoreFlag(flag, v, changed).value)
    ensures CleanFlag(flag, v, changed) <==> RestoreFlag(flag, v, changed) == Restored(DefaultOf(flag), false, false)
  {
  }

  /** Still not clean after a visit that did not panic. */
  lemma RestoreKeepsTaint(flag: Flag, v: Value, changed: bool)
    requires OfKind(flag, v) && !CleanFlag(flag, v, changed) && !RestoreFlag(flag, v, changed).panics
    ensures var r := RestoreFlag(flag, v, changed);
            OfKind(flag, r.value) && !CleanFlag(flag, r.value, r.changed) && r.value != DefaultOf(flag) && !r.changed
  {
  }

  /** The flags named in the steps are those to restore. */
  ghost predicate StepsOk(tree: Tree, steps: seq<ResetStep>) {
    && (forall f :: Restore(f) in steps ==> f in tree.flags)
    && (forall id :: Bind(id) in steps ==> id in Commands(tree))
  }

  /** After the steps, each flag has been restored on its own and each command rebound. */
  ghost predicate ResetTo(tree: Tree, s: TreeState, steps: seq<ResetStep>, ctx: Context, t: TreeState)
    requires Fits(tree, s)
  {
    && Fits(tree, t)
    && (forall f :: f in tree.flags ==>
          if Restore(f) in steps
          then t.value[f] == After(tree, s, f).value && f !in t.changed
          else t.value[f] == s.value[f] && (f in t.changed <==> f in s.changed))
    && (forall id :: Bind(id) in steps ==> id in t.context && t.context[id] == ctx)
    && (forall id :: Bind(id) !in steps && id in s.context ==> id in t.context && t.context[id] == s.context[id])
  }

  /** Where a panic stopped the reset, each flag is as it was or as its own visit left it. */
  ghost predicate PartlyReset(tree: Tree, s: TreeState, t: TreeState)
    requires Fits(tree, s)
  {
    && Fits(tree, t)
    && forall f :: f in tree.flags ==>
         || (t.value[f] == s.value[f] && (f in t.changed <==> f in s.changed))
         || (t.value[f] == After(tree, s, f).value && (f in t.changed <==> After(tree, s, f).changed))
  }

  lemma WithFlagFits(tree: Tree, s: TreeState, f: FlagId)
    requires Fits(tree, s) && f in tree.flags
    ensures var t := WithFlag(s, f, After(tree, s, f));
            && Fits(tree, t) && t.context == s.context
            && t.value[f] == After(tree, s, f).value && (f in t.changed <==> After(tree, s, f).changed)
            && (forall g :: g in tree.flags && g != f ==>
                  t.value[g] == s.value[g] && (g in t.changed <==> g in s.changed)
                  && After(tree, t, g) == After(tree, s, g))
            && (!After(tree, s, f).panics ==> After(tree, t, f) == After(tree, s, f))
  {
    var r := After(tree, s, f);
    var t := WithFlag(s, f, r);
    RestoreCleans(tree.flags[f], s.value[f], f in s.changed);
    if !r.panics {
      RestoreTwice(tree.flags[f], s.value[f], f in s.changed);
    }
    hide RestoreFlag, Commands;
    assert t.value.Keys == s.value.Keys;
  }

  /** The reset completes unless some flag's own restoring panics, and restores flag by flag. */
  lemma {:induction false} ResetAllEffect(tree: Tree, s: TreeState, steps: seq<ResetStep>, ctx: Context)
    requires Fits(tree, s) && StepsOk(tree, steps)
    ensures var p := ResetAll(tree, s, steps, ctx);
            && (p.Done? <==> forall f :: Restore(f) in steps ==> !After(tree, s, f).panics)
            && (p.Done? ==> ResetTo(tree, s, steps, ctx, p.state))
            && (p.Stopped? ==> PartlyReset(tree, s, p.state))
    decreases |steps|
  {
    hide After, Commands, RestoreFlag;
    if steps != [] {
      assert steps == [steps[0]] + steps[1..];
      match steps[0]
      case Bind(id) =>
        BindStep(tree, s, steps, ctx);
      case Restore(f) =>
        RestoreStep(tree, s, steps, ctx);
    }
  }

  lemma {:induction false} BindStep(tree: Tree, s: TreeState, steps: seq<ResetStep>, ctx: Context)
    requires Fits(tree, s) && StepsOk(tree, steps) && steps != [] && steps[0].Bind?
    ensures var p := ResetAll(tree, s, steps, ctx);
            && (p.Done? <==> forall f :: Restore(f) in steps ==> !After(tree, s, f).panics)
            && (p.Done? ==> ResetTo(tree, s, steps, ctx, p.state))
            && (p.Stopped? ==> PartlyReset(tree, s, p.state))
    decreases |steps|, 0
  {
    assert steps == [steps[0]] + steps[1..];
    var t := s.(context := s.context[steps[0].command := ctx]);
    assert forall f :: f in tree.flags ==> After(tree, t, f) == After(tree, s, f);
    var p := ResetAll(tree, t, steps[1..], ctx);
    assert ResetAll(tree, s, steps, ctx) == p;
    hide After, Commands, RestoreFlag, ResetAll;
    ResetAllEffect(tree, t, steps[1..], ctx);
    hide ResetTo, PartlyReset;
    if p.Done? {
      BindThenRest(tree, s, steps, ctx, t, p.state);
    } else {
      PartlyRebound(tree, s, t, p.state);
    }
  }

  lemma BindThenRest(tree: Tree, s: TreeState, steps: seq<ResetStep>, ctx: Context, t: TreeState, u: TreeState)
    requires Fits(tree, s) && Fits(tree, t) && steps != [] && steps[0].Bind?
    requires t == s.(context := s.context[steps[0].command := ctx])
    requires ResetTo(tree, t, steps[1..], ctx, u)
    ensures ResetTo(tree, s, steps, ctx, u)
  {
    assert steps == [steps[0]] + steps[1..];
    assert forall f :: f in tree.flags ==> After(tree, t, f) == After(tree, s, f);
    hide After, Commands, RestoreFlag, Fits;
  }

  lemma PartlyRebound(tree: Tree, s: TreeState, t: TreeState, u: TreeState)
    requires Fits(tree, s) && Fits(tree, t) && t.value == s.value && t.changed == s.changed
    requires PartlyReset(tree, t, u)
    ensures PartlyReset(tree, s, u)
  {
    assert forall f :: f in tree.flags ==> After(tree, t, f) == After(tree, s, f);
    hide After, Commands, RestoreFlag;
  }

  lemma {:induction false} RestoreStep(tree: Tree, s: TreeState, steps: seq<ResetStep>, ctx: Context)
    requires Fits(tree, s) && StepsOk(tree, steps) && steps != [] && steps[0].Restore?
    ensures var p := ResetAll(tree, s, steps, ctx);
            && (p.Done? <==> forall f :: Restore(f) in steps ==> !After(tree, s, f).panics)
            && (p.Done? ==> ResetTo(tree, s, steps, ctx, p.state))
            && (p.Stopped? ==> PartlyReset(tree, s, p.state))
    decreases |steps|, 0
  {
    assert steps == [steps[0]] + steps[1..];
    var f := steps[0].flag;
    WithFlagFits(tree, s, f);
    var t := WithFlag(s, f, After(tree, s, f));
    assert ResetAll(tree, s, steps, ctx) ==
           if After(tree, s, f).panics then Stopped(t, RecoveredPanic) else ResetAll(tree, t, steps[1..], ctx);
    hide After, Commands, RestoreFlag, ResetAll, WithFlag;
    if !After(tree, s, f).panics {
      var p := ResetAll(tree, t, steps[1..], ctx);
      ResetAllEffect(tree, t, steps[1..], ctx);
      hide ResetTo, PartlyReset;
      if p.Done? {
        RestoreThenRest(tree, s, steps, ctx, p.state);
      } else {
        PartlyRestored(tree, s, f, p.state);
      }
    }
  }

  lemma RestoreThenRest(tree: Tree, s: TreeState, steps: seq<ResetStep>, ctx: Context, u: TreeState)
    requires Fits(tree, s) && steps != [] && steps[0].Restore? && steps[0].flag in tree.flags
    requires !After(tree, s, steps[0].flag).panics
    requires var t := WithFlag(s, steps[0].flag, After(tree, s, steps[0].flag));
             Fits(tree, t) && ResetTo(tree, t, steps[1..], ctx, u)
    ensures ResetTo(tree, s, steps, ctx, u)
  {
    assert steps == [steps[0]] + steps[1..];
    var f := steps[0].flag;
    WithFlagFits(tree, s, f);
    RestoredIsUnchanged(tree.flags[f], s.value[f], f in s.changed);
    hide RestoreFlag, Commands, WithFlag;
  }

  lemma PartlyRestored(tree: Tree, s: TreeState, f: FlagId, u: TreeState)
    requires Fits(tree, s) && f in tree.flags && !After(tree, s, f).panics
    requires var t := WithFlag(s, f, After(tree, s, f)); Fits(tree, t) && PartlyReset(tree, t, u)
    ensures PartlyReset(tree, s, u)
  {
    WithFlagFits(tree, s, f);
    hide RestoreFlag, Commands, WithFlag, After;
  }

  /** A changed bit survives the visit exactly when the flag's own Set or Replace panics on its default. */
  lemma RestoredIsUnchanged(flag: Flag, v: Value, changed: bool)
    ensures RestoreFlag(flag, v, changed).changed <==> changed && RestoreFlag(flag, v, changed).panics
    ensures flag.SliceFlag? ==>
              (RestoreFlag(flag, v, changed).panics <==> flag.replace(flag.defaults).ReplacePanics?)
    ensures flag.ScalarFlag? ==>
              (RestoreFlag(flag, v, changed).panics <==> changed && flag.set_(Text(v), flag.def).SetPanics?)
  {
  }

  lemma WalkIsOk(tree: Tree)
    requires WellFormed(tree)
    ensures StepsOk(tree, WalkSteps(tree.root))
    ensures forall f :: f in tree.flags ==> Restore(f) in WalkSteps(tree.root)
    ensures forall id :: id in Commands(tree) <==> Bind(id) in WalkSteps(tree.root)
  {
    hide WalkSteps, ToolWellFormed;
    forall id | Bind(id) in WalkSteps(tree.root) ensures id in Commands(tree) {
      assert Bind(id).command == id;
    }
  }

  /** The whole reset. */
  lemma ResetEffect(tree: Tree, s: TreeState, ctx: Context)
    requires WellFormed(tree) && Fits(tree, s)
    ensures var p := ResetTree(tree, s, ctx);
            && (p.Done? <==> forall f :: f in tree.flags ==> !After(tree, s, f).panics)
            && (p.Done? ==>
                  && Fits(tree, p.state) && p.state.changed == {}
                  && p.state.context == Pristine(tree, s, ctx).context
                  && forall f :: f in tree.flags ==> p.state.value[f] == After(tree, s, f).value)
            && (p.Stopped? ==> PartlyReset(tree, s, p.state))
  {
    WalkIsOk(tree);
    ResetAllEffect(tree, s, WalkSteps(tree.root), ctx);
    hide After, RestoreFlag, WalkSteps, ToolWellFormed, Commands;
  }

  /** A call starts from the defaults exactly when the reset brings every flag back to its default. */
  lemma ResetRestoresIffClean(tree: Tree, s: TreeState, ctx: Context)
    requires WellFormed(tree) && Fits(tree, s)
    ensures ResetTree(tree, s, ctx) == Done(Pristine(tree, s, ctx)) <==> Clean(tree, s)
  {
    ResetEffect(tree, s, ctx);
    forall f | f in tree.flags
      ensures CleanAt(tree, s, f) <==> After(tree, s, f) == Restored(DefaultOf(tree.flags[f]), false, false)
      ensures !After(tree, s, f).panics ==> !After(tree, s, f).changed
    {
      RestoreCleans(tree.flags[f], s.value[f], f in s.changed);
      RestoredIsUnchanged(tree.flags[f], s.value[f], f in s.changed);
    }
    hide After, RestoreFlag, WellFormed, Commands, CleanAt, ResetTree, DefaultOf;
    if Clean(tree, s) {
      assert ResetTree(tree, s, ctx).state.value == Pristine(tree, s, ctx).value;
    } else {
      var f :| f in tree.flags && !CleanAt(tree, s, f);
      if ResetTree(tree, s, ctx).Done? {
        assert ResetTree(tree, s, ctx).state.value[f] != Pristine(tree, s, ctx).value[f];
      }
    }
  }

  /**
    The dispatcher's first state is clean exactly when every slice takes its
    defaults back, and every scalar that a command line already set its default.
   */
  lemma StartIsCleanIff(tree: Tree, parsed: map<FlagId, string>, diverted: set<CommandId>, ran: set<CommandId>)
    requires forall f :: f in parsed ==> f in tree.flags && tree.flags[f].ScalarFlag?
    ensures var s := Started(tree, parsed, diverted, ran);
            && Fits(tree, s)
            && (Clean(tree, s) <==>
                && (forall f :: f in tree.flags && tree.flags[f].SliceFlag? ==>
                      SliceReturns(tree.flags[f], tree.flags[f].defaults))
                && (forall f :: f in parsed ==> ScalarReturns(tree.flags[f], parsed[f])))
  {
    var s := Started(tree, parsed, diverted, ran);
    assert s.value.Keys == tree.flags.Keys;
    if Clean(tree, s) {
      forall f | f in tree.flags && tree.flags[f].SliceFlag?
        ensures SliceReturns(tree.flags[f], tree.flags[f].defaults)
      {
        assert CleanAt(tree, s, f);
      }
      forall f | f in parsed ensures ScalarReturns(tree.flags[f], parsed[f]) {
        assert CleanAt(tree, s, f);
      }
    }
  }

  // ---------------------------------------------------------------------
  // What a call leaves behind
  // ---------------------------------------------------------------------

  /** Given its default's flag, the value leaves it where a later reset brings it back. */
  predicate SafeValue(flag: Flag, value: string)
    requires flag.ScalarFlag?
  {
    match flag.set_(flag.def, value)
    case Accepts(text) => ScalarReturns(flag, text)
    case Rejects(left) => left.None? || left.value == flag.def
    case SetPanics(left) => left.None? || left.value == flag.def
  }

  predicate SafeItems(flag: Flag, values: seq<string>)
    requires flag.SliceFlag?
  {
    match flag.replace(values)
    case Replaced => SliceReturns(flag, values)
    case Refused(left) => left.None? || SliceReturns(flag, left.value)
    case ReplacePanics(left) => left.None? || SliceReturns(flag, left.value)
  }

  predicate AllReplaced(tree: Tree, assigns: seq<Assignment>)
    requires AssignsOk(tree, assigns)
  {
    forall a :: a in assigns ==> tree.flags[a.flag].replace(a.values) == Replaced
  }

  /** One of the assignments reached is unsafe. */
  predicate PoisonedAssigns(tree: Tree, assigns: seq<Assignment>)
    requires AssignsOk(tree, assigns)
    decreases |assigns|
  {
    assigns != [] &&
    (assert assigns[0] in assigns;
     var flag := tree.flags[assigns[0].flag];
     || !SafeItems(flag, assigns[0].values)
     || (flag.replace(assigns[0].values).Replaced? && PoisonedAssigns(tree, assigns[1..])))
  }

  /** One of the tokens reached is unsafe. */
  predicate PoisonedParse(tree: Tree, tool: Tool, argv: seq<FlagArg>)
    requires Parsable(tree, tool, argv)
    decreases |argv|
  {
    argv != [] &&
    (assert argv[0] in argv;
     var flag := tree.flags[tool.accepted[argv[0].name]];
     || !SafeValue(flag, argv[0].value)
     || (flag.set_(flag.def, argv[0].value).Accepts? && PoisonedParse(tree, tool, argv[1..])))
  }

  predicate Names(tool: Tool, argv: seq<FlagArg>, f: FlagId) {
    exists a :: a in argv && a.name in tool.accepted && tool.accepted[a.name] == f
  }

  predicate Assigns(assigns: seq<Assignment>, f: FlagId) {
    exists a :: a in assigns && a.flag == f
  }

  /** t differs from s at most in flag f. */
  ghost predicate OnlyAt(tree: Tree, s: TreeState, t: TreeState, f: FlagId)
    requires Fits(tree, s) && Fits(tree, t)
  {
    && t.context == s.context
    && forall g :: g in tree.flags && g != f ==> t.value[g] == s.value[g] && (g in t.changed <==> g in s.changed)
  }

  lemma PutFits(tree: Tree, s: TreeState, f: FlagId, v: Value, changed: bool)
    requires Fits(tree, s) && f in tree.flags && OfKind(tree.flags[f], v)
    ensures var t := s.(value := s.value[f := v], changed := if changed then s.changed + {f} else s.changed);
            && Fits(tree, t) && OnlyAt(tree, s, t, f)
            && t.value[f] == v && (f in t.changed <==> changed || f in s.changed)
  {
    assert s.value[f := v].Keys == s.value.Keys;
    hide Commands;
  }

  /** Every flag outside the assignments is clean. */
  ghost predicate CleanApart(tree: Tree, s: TreeState, assigns: seq<Assignment>)
    requires Fits(tree, s)
  {
    forall g :: g in tree.flags && !Assigns(assigns, g) ==> CleanAt(tree, s, g)
  }

  lemma AssignsCons(assigns: seq<Assignment>, f: FlagId)
    requires assigns != []
    ensures Assigns(assigns, f) <==> f == assigns[0].flag || Assigns(assigns[1..], f)
  {
    assert assigns == [assigns[0]] + assigns[1..];
    assert assigns[0] in assigns;
  }

  lemma AssignsTail(tree: Tree, assigns: seq<Assignment>)
    requires AssignsOk(tree, assigns) && assigns != []
    ensures assigns[0].flag in tree.flags && tree.flags[assigns[0].flag].SliceFlag?
    ensures AssignsOk(tree, assigns[1..]) && !Assigns(assigns[1..], assigns[0].flag)
    ensures AllReplaced(tree, assigns) <==>
            tree.flags[assigns[0].flag].replace(assigns[0].values) == Replaced && AllReplaced(tree, assigns[1..])
  {
    assert assigns[0] in assigns && assigns == [assigns[0]] + assigns[1..];
  }

  /** The state after one assignment. */
  ghost function AssignedOne(tree: Tree, s: TreeState, a: Assignment): TreeState
    requires a.flag in tree.flags && tree.flags[a.flag].SliceFlag?
  {
    match tree.flags[a.flag].replace(a.values)
    case Replaced => s.(value := s.value[a.flag := List(a.values)], changed := s.changed + {a.flag})
    case Refused(left) => s.(value := s.value[a.flag := LeftList(Held(tree, s, a.flag), left)])
    case ReplacePanics(left) => s.(value := s.value[a.flag := LeftList(Held(tree, s, a.flag), left)])
  }

  lemma AssignAllStep(tree: Tree, s: TreeState, assigns: seq<Assignment>)
    requires AssignsOk(tree, assigns) && assigns != []
    ensures AssignsOk(tree, assigns[1..]) && assigns[0] in assigns
    ensures var t, p := AssignedOne(tree, s, assigns[0]), AssignAll(tree, s, assigns);
            if tree.flags[assigns[0].flag].replace(assigns[0].values).Replaced?
            then p == AssignAll(tree, t, assigns[1..])
            else p.Stopped? && p.state == t
  {
    AssignsTail(tree, assigns);
  }

  lemma AssignOne(tree: Tree, s: TreeState, a: Assignment)
    requires a.flag in tree.flags && tree.flags[a.flag].SliceFlag? && Fits(tree, s)
    ensures var t := AssignedOne(tree, s, a);
            && Fits(tree, t) && OnlyAt(tree, s, t, a.flag)
            && (CleanAt(tree, s, a.flag) ==>
                  (CleanAt(tree, t, a.flag) <==> SafeItems(tree.flags[a.flag], a.values)))
            && forall g :: g in tree.flags && g != a.flag ==> (CleanAt(tree, t, g) <==> CleanAt(tree, s, g))
  {
    var outcome := tree.flags[a.flag].replace(a.values);
    var v := if outcome.Replaced? then List(a.values) else LeftList(s.value[a.flag], outcome.left);
    PutFits(tree, s, a.flag, v, outcome.Replaced?);
  }

  /** Assignments disturb only their own slices, and complete when every one is taken. */
  lemma {:induction false} AssignFrame(tree: Tree, s: TreeState, assigns: seq<Assignment>)
    requires AssignsOk(tree, assigns) && Fits(tree, s)
    ensures var p := AssignAll(tree, s, assigns);
            && Fits(tree, p.state) && p.state.context == s.context
            && (p.Done? <==> AllReplaced(tree, assigns))
            && (forall f :: f in tree.flags && !Assigns(assigns, f) ==>
                  p.state.value[f] == s.value[f] && (f in p.state.changed <==> f in s.changed))
    decreases |assigns|
  {
    if assigns != [] {
      AssignsTail(tree, assigns);
      AssignAllStep(tree, s, assigns);
      AssignOne(tree, s, assigns[0]);
      forall f ensures Assigns(assigns, f) <==> f == assigns[0].flag || Assigns(assigns[1..], f) {
        AssignsCons(assigns, f);
      }
      hide Assigns, Fits, CleanAt, AssignAll, AssignedOne, AssignsOk, AllReplaced, SafeItems;
      if tree.flags[assigns[0].flag].replace(assigns[0].values).Replaced? {
        AssignFrame(tree, AssignedOne(tree, s, assigns[0]), assigns[1..]);
      }
    }
  }

  /** And they leave the state clean unless one that is reached is unsafe. */
  lemma {:induction false} AssignEffect(tree: Tree, s: TreeState, assigns: seq<Assignment>)
    requires AssignsOk(tree, assigns) && Fits(tree, s)
    requires forall f :: Assigns(assigns, f) && f in tree.flags ==> CleanAt(tree, s, f)
    ensures var p := AssignAll(tree, s, assigns);
            && Fits(tree, p.state)
            && (Clean(tree, p.state) <==> !PoisonedAssigns(tree, assigns) && CleanApart(tree, s, assigns))
    decreases |assigns|
  {
    if assigns == [] {
      hide CleanAt;
    } else {
      AssignsTail(tree, assigns);
      AssignAllStep(tree, s, assigns);
      AssignOne(tree, s, assigns[0]);
      forall f ensures Assigns(assigns, f) <==> f == assigns[0].flag || Assigns(assigns[1..], f) {
        AssignsCons(assigns, f);
      }
      hide Assigns, Fits, CleanAt, AssignAll, AssignedOne, AssignsOk, SafeItems, AllReplaced;
      if tree.flags[assigns[0].flag].replace(assigns[0].values).Replaced? {
        AssignEffect(tree, AssignedOne(tree, s, assigns[0]), assigns[1..]);
      }
    }
  }

  predicate NamesApart(tool: Tool, argv: seq<FlagArg>) {
    forall i, j :: 0 <= i < j < |argv| && argv[i].name in tool.accepted && argv[j].name in tool.accepted ==>
      tool.accepted[argv[i].name] != tool.accepted[argv[j].name]
  }

  lemma ApartByName(tree: Tree, tool: Tool, argv: seq<FlagArg>)
    requires ToolWellFormed(tree, tool) && DistinctNames(argv)
    ensures NamesApart(tool, argv)
  {
  }

  lemma NamesCons(tool: Tool, argv: seq<FlagArg>, f: FlagId)
    requires argv != [] && argv[0].name in tool.accepted
    ensures Names(tool, argv, f) <==> f == tool.accepted[argv[0].name] || Names(tool, argv[1..], f)
  {
    assert argv == [argv[0]] + argv[1..];
    assert argv[0] in argv;
  }

  lemma ApartFromRest(tool: Tool, argv: seq<FlagArg>)
    requires NamesApart(tool, argv) && argv != [] && argv[0].name in tool.accepted
    ensures NamesApart(tool, argv[1..]) && !Names(tool, argv[1..], tool.accepted[argv[0].name])
  {
  }

  /** Every flag outside the tokens is clean. */
  ghost predicate CleanUnnamed(tree: Tree, tool: Tool, s: TreeState, argv: seq<FlagArg>)
    requires Fits(tree, s)
  {
    forall g :: g in tree.flags && !Names(tool, argv, g) ==> CleanAt(tree, s, g)
  }

  /** The state after one token. */
  ghost function ParsedOne(tree: Tree, s: TreeState, f: FlagId, value: string): TreeState
    requires f in tree.flags && tree.flags[f].ScalarFlag?
  {
    var v := Held(tree, s, f);
    match tree.flags[f].set_(Text(v), value)
    case Accepts(text) => s.(value := s.value[f := Scalar(text)], changed := s.changed + {f})
    case Rejects(left) => s.(value := s.value[f := Left(v, left)])
    case SetPanics(left) => s.(value := s.value[f := Left(v, left)])
  }

  ghost predicate AtDefault(tree: Tree, s: TreeState, f: FlagId)
    requires Fits(tree, s) && f in tree.flags
  {
    s.value[f] == DefaultOf(tree.flags[f]) && f !in s.changed
  }

  lemma ParseOne(tree: Tree, s: TreeState, f: FlagId, value: string)
    requires f in tree.flags && tree.flags[f].ScalarFlag? && Fits(tree, s)
    ensures var t := ParsedOne(tree, s, f, value);
            && Fits(tree, t) && OnlyAt(tree, s, t, f)
            && (AtDefault(tree, s, f) ==> (CleanAt(tree, t, f) <==> SafeValue(tree.flags[f], value)))
            && forall g :: g in tree.flags && g != f ==> (CleanAt(tree, t, g) <==> CleanAt(tree, s, g))
  {
    var outcome := tree.flags[f].set_(Text(s.value[f]), value);
    var v := if outcome.Accepts? then Scalar(outcome.text) else Left(s.value[f], outcome.left);
    PutFits(tree, s, f, v, outcome.Accepts?);
  }

  lemma ParseAllStep(tree: Tree, tool: Tool, s: TreeState, argv: seq<FlagArg>)
    requires Parsable(tree, tool, argv) && argv != []
    ensures argv[0] in argv && Parsable(tree, tool, argv[1..])
    ensures var f := tool.accepted[argv[0].name];
            var t, p := ParsedOne(tree, s, f, argv[0].value), ParseAll(tree, tool, s, argv);
            if tree.flags[f].set_(Text(Held(tree, s, f)), argv[0].value).Accepts?
            then p == ParseAll(tree, tool, t, argv[1..])
            else p.Stopped? && p.state == t
  {
    assert argv == [argv[0]] + argv[1..];
  }

  /** Tokens disturb only their own flags. */
  lemma {:induction false} ParseFrame(tree: Tree, tool: Tool, s: TreeState, argv: seq<FlagArg>)
    requires Parsable(tree, tool, argv) && Fits(tree, s)
    ensures var p := ParseAll(tree, tool, s, argv);
            && Fits(tree, p.state) && p.state.context == s.context
            && (forall f :: f in tree.flags && !Names(tool, argv, f) ==>
                  p.state.value[f] == s.value[f] && (f in p.state.changed <==> f in s.changed))
    decreases |argv|
  {
    if argv != [] {
      ParseAllStep(tree, tool, s, argv);
      var f := tool.accepted[argv[0].name];
      ParseOne(tree, s, f, argv[0].value);
      forall g ensures Names(tool, argv, g) <==> g == f || Names(tool, argv[1..], g) {
        NamesCons(tool, argv, g);
      }
      hide Names, Fits, CleanAt, ParseAll, ParsedOne, AtDefault, SafeValue;
      if tree.flags[f].set_(Text(Held(tree, s, f)), argv[0].value).Accepts? {
        ParseFrame(tree, tool, ParsedOne(tree, s, f, argv[0].value), argv[1..]);
      }
    }
  }

  /** And they leave the state clean unless one that is reached is unsafe. */
  lemma {:induction false} ParseEffect(tree: Tree, tool: Tool, s: TreeState, argv: seq<FlagArg>)
    requires Parsable(tree, tool, argv) && NamesApart(tool, argv) && Fits(tree, s)
    requires forall a :: a in argv ==> AtDefault(tree, s, tool.accepted[a.name])
    ensures var p := ParseAll(tree, tool, s, argv);
            && Fits(tree, p.state) && p.state.context == s.context
            && (Clean(tree, p.state) <==> !PoisonedParse(tree, tool, argv) && CleanUnnamed(tree, tool, s, argv))
    decreases |argv|
  {
    if argv == [] {
      hide CleanAt;
    } else {
      var a := argv[0];
      assert a in argv && argv == [a] + argv[1..];
      var f := tool.accepted[a.name];
      forall g ensures Names(tool, argv, g) <==> g == f || Names(tool, argv[1..], g) {
        NamesCons(tool, argv, g);
      }
      ApartFromRest(tool, argv);
      ParseOne(tree, s, f, a.value);
      var t := ParsedOne(tree, s, f, a.value);
      var taken := tree.flags[f].set_(tree.flags[f].def, a.value).Accepts?;
      assert if taken then ParseAll(tree, tool, s, argv) == ParseAll(tree, tool, t, argv[1..])
             else ParseAll(tree, tool, s, argv).Stopped? && ParseAll(tree, tool, s, argv).state == t;
      forall b | b in argv[1..] ensures tool.accepted[b.name] != f && AtDefault(tree, t, tool.accepted[b.name]) {
        assert b in argv;
      }
      hide SafeValue, Names, NamesApart, Fits, CleanAt, ParseAll, ParsedOne, AtDefault;
      if taken {
        ParseEffect(tree, tool, t, argv[1..]);
      }
    }
  }

  /**
    A call with an argument that, when it is reached, leaves a flag the next reset
    cannot bring back. ran: the tool's command was executed before.
   */
  ghost predicate Poisons(tree: Tree, c: Call, ran: bool)
    requires WellFormed(tree)
  {
    && c.tool in tree.tools && BuiltIf(tree, c, ran).Ok?
    && PoisonsWhenRun(tree, tree.tools[c.tool], BuiltIf(tree, c, ran).value)
  }

  ghost predicate PoisonsWhenRun(tree: Tree, tool: Tool, b: Built)
    requires Runnable(tree, tool, b)
  {
    PoisonedAssigns(tree, b.assigns) || (AllReplaced(tree, b.assigns) && PoisonedParse(tree, tool, b.argv))
  }

  lemma PristineFits(tree: Tree, s: TreeState, ctx: Context)
    ensures Fits(tree, Pristine(tree, s, ctx))
    ensures forall f :: f in tree.flags ==> AtDefault(tree, Pristine(tree, s, ctx), f)
  {
    assert Pristine(tree, s, ctx).value.Keys == tree.flags.Keys;
    hide Commands;
  }

  /** The defaults are clean when some state is. */
  lemma PristineIsClean(tree: Tree, s: TreeState, u: TreeState, ctx: Context)
    requires Fits(tree, s) && Clean(tree, s)
    ensures Fits(tree, Pristine(tree, u, ctx)) && Clean(tree, Pristine(tree, u, ctx))
  {
    PristineFits(tree, u, ctx);
    hide Fits, Commands;
    forall f | f in tree.flags ensures CleanAt(tree, Pristine(tree, u, ctx), f) {
      assert CleanAt(tree, s, f);
    }
  }

  lemma ExecuteLeaves(tree: Tree, s: TreeState, tool: Tool, b: Built, c: Call)
    requires WellFormed(tree) && Fits(tree, s) && Clean(tree, s) && ToolWellFormed(tree, tool)
    requires Runnable(tree, tool, b)
    ensures var t := Execute(tree, s, tool, b, c).0;
            Fits(tree, t) && (Clean(tree, t) <==> !PoisonsWhenRun(tree, tool, b))
  {
    var ctx := Context(c.request, b.config);
    ResetRestoresIffClean(tree, s, ctx);
    var start := Pristine(tree, s, ctx);
    PristineIsClean(tree, s, s, ctx);
    RunLeaves(tree, tool, b, s, ctx);
    var p := AssignAll(tree, start, b.assigns);
    if p.Done? {
      var q := ParseAll(tree, tool, p.state, b.argv);
      SameFlags(tree, q.state, Begin(tool, q.state));
      if q.Done? {
        BodyKeepsFlags(tree, tool, Begin(tool, q.state), ctx, c);
      }
    }
    hide ResetTree, AssignAll, ParseAll, Fits, Clean, PoisonsWhenRun, WellFormed, ToolWellFormed, RunBody;
  }

  /** Fit and cleanness are about flags and contexts alone. */
  lemma SameFlags(tree: Tree, s: TreeState, t: TreeState)
    requires Fits(tree, s) && t.value == s.value && t.changed == s.changed
    requires forall id :: id in t.context ==> id in Commands(tree)
    ensures Fits(tree, t) && (Clean(tree, t) <==> Clean(tree, s))
  {
    hide Commands;
    forall f | f in tree.flags ensures CleanAt(tree, t, f) <==> CleanAt(tree, s, f) {
    }
    hide CleanAt;
  }

  lemma BodyKeepsFlags(tree: Tree, tool: Tool, s: TreeState, ctx: Context, c: Call)
    requires Fits(tree, s) && ToolWellFormed(tree, tool)
    ensures var t := RunBody(tool, s, ctx, c).0;
            && Fits(tree, t) && (Clean(tree, t) <==> Clean(tree, s))
            && t.value == s.value && t.changed == s.changed
  {
    CommandIsWalked(tree, tool);
    hide Commands, ToolWellFormed, Clean, Holds, Audible;
    SameFlags(tree, s, RunBody(tool, s, ctx, c).0);
  }

  lemma CommandIsWalked(tree: Tree, tool: Tool)
    requires ToolWellFormed(tree, tool)
    ensures tool.command in Commands(tree)
  {
    hide WalkSteps;
    assert Bind(tool.command).command == tool.command;
  }

  /** From the defaults: what the assignments and the tokens leave. */
  lemma RunLeaves(tree: Tree, tool: Tool, b: Built, s: TreeState, ctx: Context)
    requires ToolWellFormed(tree, tool) && Runnable(tree, tool, b)
    requires Fits(tree, Pristine(tree, s, ctx)) && Clean(tree, Pristine(tree, s, ctx))
    ensures var p := AssignAll(tree, Pristine(tree, s, ctx), b.assigns);
            if p.Stopped? then Fits(tree, p.state) && (Clean(tree, p.state) <==> !PoisonsWhenRun(tree, tool, b))
            else var q := ParseAll(tree, tool, p.state, b.argv).state;
                 Fits(tree, q) && (Clean(tree, q) <==> !PoisonsWhenRun(tree, tool, b))
  {
    var start := Pristine(tree, s, ctx);
    PristineFits(tree, s, ctx);
    AssignFrame(tree, start, b.assigns);
    AssignEffect(tree, start, b.assigns);
    ApartByName(tree, tool, b.argv);
    var p := AssignAll(tree, start, b.assigns);
    hide AssignAll, ParseAll, Fits, WalkSteps, Commands, Pristine, PoisonedParse, PoisonedAssigns, SafeItems;
    hide DistinctNames, NamesApart, ToolWellFormed;
    if p.Done? {
      ScalarsAndSlices(tree, tool, b);
      forall a | a in b.argv ensures AtDefault(tree, p.state, tool.accepted[a.name]) {
        assert Names(tool, b.argv, tool.accepted[a.name]);
      }
      ParseEffect(tree, tool, p.state, b.argv);
      NamedAreClean(tree, tool, p.state, b.argv);
    }
  }

  /** Scalar tokens and slice assignments never meet on one flag. */
  lemma ScalarsAndSlices(tree: Tree, tool: Tool, b: Built)
    requires Parsable(tree, tool, b.argv) && AssignsOk(tree, b.assigns)
    ensures forall f :: !(Names(tool, b.argv, f) && Assigns(b.assigns, f))
  {
  }

  lemma NamedAreClean(tree: Tree, tool: Tool, s: TreeState, argv: seq<FlagArg>)
    requires Fits(tree, s) && Parsable(tree, tool, argv)
    requires forall a :: a in argv ==> AtDefault(tree, s, tool.accepted[a.name])
    ensures CleanUnnamed(tree, tool, s, argv) <==> Clean(tree, s)
  {
    forall g | g in tree.flags && Names(tool, argv, g) ensures CleanAt(tree, s, g) {
    }
    hide CleanAt;
  }

  /** The call is let through: its tool exists and its arguments build. */
  ghost predicate LetThrough(tree: Tree, s: TreeState, c: Call)
    requires WellFormed(tree)
  {
    c.tool in tree.tools && BuiltIf(tree, c, RanBefore(tree, s, c)).Ok?
  }

  /** The one path of dispatch that touches the tree. */
  lemma CallExecutes(tree: Tree, s: TreeState, c: Call)
    requires WellFormed(tree)
    ensures if LetThrough(tree, s, c)
            then var tool, b := tree.tools[c.tool], BuiltIf(tree, c, RanBefore(tree, s, c)).value;
                 && ToolWellFormed(tree, tool) && BuiltOk(tree, tool, c, b)
                 && RunCall(tree, s, c) == Execute(tree, s, tool, b, c)
            else RunCall(tree, s, c).0 == s &&
                 RunCall(tree, s, c).1 ==
                 if c.tool !in tree.tools then UnknownTool
                 else Invalid(BuiltIf(tree, c, RanBefore(tree, s, c)).error)
  {
    hide BuiltIf, Execute, PoisonsWhenRun;
  }

  /**
    After any call from a clean state, the state is clean again unless that
    call's own arguments, in the order they are reached, hold an unsafe one; the
    next call then starts from the defaults in the one case and not in the other.
   */
  lemma CallKeepsIsolationIffNotPoisoned(tree: Tree, s: TreeState, c: Call, next: Context)
    requires WellFormed(tree) && Fits(tree, s) && Clean(tree, s)
    ensures var t := RunCall(tree, s, c).0;
            && Fits(tree, t)
            && (Clean(tree, t) <==> !Poisons(tree, c, RanBefore(tree, s, c)))
            && (ResetTree(tree, t, next) == Done(Pristine(tree, t, next)) <==> !Poisons(tree, c, RanBefore(tree, s, c)))
  {
    CallExecutes(tree, s, c);
    hide RunCall, BuiltIf;
    if LetThrough(tree, s, c) {
      ExecuteLeaves(tree, s, tree.tools[c.tool], BuiltIf(tree, c, RanBefore(tree, s, c)).value, c);
    }
    hide Execute, Clean, Fits;
    ResetRestoresIffClean(tree, RunCall(tree, s, c).0, next);
  }

  /** No argument of any flag of the tree is unsafe. */
  ghost predicate FailSafe(tree: Tree) {
    forall f :: f in tree.flags ==> SafeFlag(tree.flags[f])
  }

  ghost predicate SafeFlag(flag: Flag) {
    match flag
    case ScalarFlag(_, _, _, _) => forall v :: SafeValue(flag, v)
    case SliceFlag(_, _, _, _, _) => forall vs :: SafeItems(flag, vs)
  }

  lemma {:induction false} FailSafeParse(tree: Tree, tool: Tool, argv: seq<FlagArg>)
    requires Parsable(tree, tool, argv) && FailSafe(tree)
    ensures !PoisonedParse(tree, tool, argv)
    decreases |argv|
  {
    if argv != [] {
      assert argv[0] in argv;
      assert SafeFlag(tree.flags[tool.accepted[argv[0].name]]);
      hide SafeValue;
      FailSafeParse(tree, tool, argv[1..]);
    }
  }

  lemma {:induction false} FailSafeAssigns(tree: Tree, assigns: seq<Assignment>)
    requires AssignsOk(tree, assigns) && FailSafe(tree)
    ensures !PoisonedAssigns(tree, assigns)
    decreases |assigns|
  {
    if assigns != [] {
      assert assigns[0] in assigns;
      assert SafeFlag(tree.flags[assigns[0].flag]);
      hide SafeItems;
      FailSafeAssigns(tree, assigns[1..]);
    }
  }

  /** With fail-safe flag types no call poisons, so every history is isolated. */
  lemma FailSafeNeverPoisons(tree: Tree, c: Call, ran: bool)
    requires WellFormed(tree) && FailSafe(tree)
    ensures !Poisons(tree, c, ran)
  {
    if c.tool in tree.tools && BuiltIf(tree, c, ran).Ok? {
      var b := BuiltIf(tree, c, ran).value;
      hide BuiltIf, SafeFlag;
      FailSafeParse(tree, tree.tools[c.tool], b.argv);
      FailSafeAssigns(tree, b.assigns);
    }
  }
}
