/**
  Where isolation fails. A call that poisons a flag leaks into every later call
  until one sets that flag; every unsafe value can be reached by a call; and two
  of pflag's own types have unsafe values, as a concrete tree shows.
 */
module Leaks {
  import opened Base
  import opened Order
  import opened Dispatch
  import opened Isolation
  import opened Interference
  import FlagEnum
  import Integers

  // ---------------------------------------------------------------------
  // What a poisoned flag does to later calls
  // ---------------------------------------------------------------------

  /** The call, if it gets as far as running, sets flag f itself. */
  ghost predicate Touches(tree: Tree, c: Call, f: FlagId)
    requires WellFormed(tree)
  {
    && c.tool in tree.tools && BuiltIf(tree, c, true).Ok?
    && var b := BuiltIf(tree, c, true).value;
       Names(tree.tools[c.tool], b.argv, f) || Assigns(b.assigns, f)
  }

  /** Flag f in t is as it was in s, or as the reset makes it. */
  ghost predicate AsWasOrReset(tree: Tree, s: TreeState, t: TreeState, f: FlagId)
    requires Fits(tree, s) && Fits(tree, t) && f in tree.flags
  {
    || (t.value[f] == s.value[f] && (f in t.changed <==> f in s.changed))
    || (t.value[f] == After(tree, s, f).value && (f in t.changed <==> After(tree, s, f).changed))
  }

  /** A flag the call does not set is at the mercy of the reset alone. */
  lemma ExecuteUntouched(tree: Tree, s: TreeState, tool: Tool, b: Built, c: Call, f: FlagId)
    requires WellFormed(tree) && Fits(tree, s) && ToolWellFormed(tree, tool) && Runnable(tree, tool, b)
    requires f in tree.flags && !Names(tool, b.argv, f) && !Assigns(b.assigns, f)
    ensures var (t, reply) := Execute(tree, s, tool, b, c);
            && Fits(tree, t) && AsWasOrReset(tree, s, t, f)
            && (After(tree, s, f).panics ==> reply == RecoveredPanic)
            && (reply.Ran? ==>
                  f in reply.view.value && reply.view.value[f] == After(tree, s, f).value && f !in reply.view.changed)
  {
    var ctx := Context(c.request, b.config);
    ResetEffect(tree, s, ctx);
    var reset := ResetTree(tree, s, ctx);
    RestoredIsUnchanged(tree.flags[f], s.value[f], f in s.changed);
    if reset.Done? {
      RunUntouched(tree, reset.state, tool, b, c, f);
    }
    hide ResetTree, ExecuteFrom, WellFormed, ToolWellFormed, Commands, RestoreFlag, After, Names, Assigns, OfKind;
  }

  lemma RunUntouched(tree: Tree, s: TreeState, tool: Tool, b: Built, c: Call, f: FlagId)
    requires Fits(tree, s) && ToolWellFormed(tree, tool) && Runnable(tree, tool, b)
    requires f in tree.flags && !Names(tool, b.argv, f) && !Assigns(b.assigns, f)
    ensures var (t, reply) := ExecuteFrom(tree, s, tool, b, c);
            && Fits(tree, t) && t.value[f] == s.value[f] && (f in t.changed <==> f in s.changed)
            && (reply.Ran? ==>
                  && f in reply.view.value && reply.view.value[f] == s.value[f]
                  && (f in reply.view.changed <==> f in s.changed))
  {
    AssignFrame(tree, s, b.assigns);
    var p := AssignAll(tree, s, b.assigns);
    if p.Done? {
      ParseFrame(tree, tool, p.state, b.argv);
      var q := ParseAll(tree, tool, p.state, b.argv);
      SameFlags(tree, q.state, Begin(tool, q.state));
      if q.Done? {
        BodyKeepsFlags(tree, tool, Begin(tool, q.state), Context(c.request, b.config), c);
      }
    }
    hide AssignAll, ParseAll, ToolWellFormed, Commands, Clean, Names, Assigns, AllReplaced, OfKind, Holds, Audible;
  }

  lemma CallUntouched(tree: Tree, s: TreeState, c: Call, f: FlagId)
    requires WellFormed(tree) && Fits(tree, s) && f in tree.flags && !Touches(tree, c, f)
    ensures var (t, reply) := RunCall(tree, s, c);
            && Fits(tree, t) && AsWasOrReset(tree, s, t, f)
            && (reply.Ran? ==>
                  f in reply.view.value && reply.view.value[f] == After(tree, s, f).value && f !in reply.view.changed)
  {
    CallExecutes(tree, s, c);
    if LetThrough(tree, s, c) {
      RanOnlyAdmits(tree, c);
      ExecuteUntouched(tree, s, tree.tools[c.tool], BuiltIf(tree, c, RanBefore(tree, s, c)).value, c, f);
    }
    hide RunCall, BuiltIf, Execute, Fits, WellFormed, ToolWellFormed, After, BuiltOk, Runnable;
  }

  /** An unchanged scalar passes every reset as it stands and is seen so, whatever it holds. */
  lemma DirtyFlagIsSeen(tree: Tree, s: TreeState, c: Call, f: FlagId)
    requires WellFormed(tree) && Fits(tree, s)
    requires f in tree.flags && tree.flags[f].ScalarFlag? && f !in s.changed && !Touches(tree, c, f)
    ensures var (t, reply) := RunCall(tree, s, c);
            && Fits(tree, t) && t.value[f] == s.value[f] && f !in t.changed
            && (reply.Ran? ==> f in reply.view.value && reply.view.value[f] == s.value[f])
  {
    CallUntouched(tree, s, c, f);
    hide RunCall, Touches, WellFormed;
  }

  /** The reset neither brings f back to its default nor panics on it. */
  ghost predicate Tainted(tree: Tree, s: TreeState, f: FlagId)
    requires Fits(tree, s)
  {
    f in tree.flags && !CleanAt(tree, s, f) && !After(tree, s, f).panics
  }

  /** A taint outlives every call that does not set the flag, and each of those that runs sees it. */
  lemma TaintStays(tree: Tree, s: TreeState, c: Call, f: FlagId)
    requires WellFormed(tree) && Fits(tree, s) && Tainted(tree, s, f) && !Touches(tree, c, f)
    ensures var (t, reply) := RunCall(tree, s, c);
            && Fits(tree, t) && Tainted(tree, t, f)
            && (reply.Ran? ==> f in reply.view.value && reply.view.value[f] != DefaultOf(tree.flags[f]))
  {
    CallUntouched(tree, s, c, f);
    RestoreKeepsTaint(tree.flags[f], s.value[f], f in s.changed);
    RestoreTwice(tree.flags[f], s.value[f], f in s.changed);
    hide RunCall, Touches, WellFormed, RestoreFlag, CleanFlag, DefaultOf;
  }

  lemma {:induction false} TaintOutlives(tree: Tree, s: TreeState, between: seq<Call>, f: FlagId)
    requires WellFormed(tree) && Fits(tree, s) && Tainted(tree, s, f)
    requires forall c :: c in between ==> !Touches(tree, c, f)
    ensures var t := RunHistory(tree, s, between); Fits(tree, t) && Tainted(tree, t, f)
    decreases |between|
  {
    if between != [] {
      assert between[0] in between;
      TaintStays(tree, s, between[0], f);
      hide RunCall, Fits, Tainted, Touches;
      TaintOutlives(tree, RunCall(tree, s, between[0]).0, between[1..], f);
    }
  }

  /** Between these calls and the last none sets f. */
  ghost predicate NoneTouches(tree: Tree, between: seq<Call>, c: Call, f: FlagId)
    requires WellFormed(tree)
  {
    !Touches(tree, c, f) && forall x :: x in between ==> !Touches(tree, x, f)
  }

  /**
    A poisoning call leaks over every later history, for every tree. It leaves
    some flag such that either restoring it panics, and then the next call that
    is let through is answered with that panic, or every later call that runs
    sees it off its default, until a call sets it.
   */
  lemma PoisoningLeaks(tree: Tree, s: TreeState, first: Call) returns (f: FlagId)
    requires WellFormed(tree) && Fits(tree, s) && Clean(tree, s) && Poisons(tree, first, RanBefore(tree, s, first))
    ensures f in tree.flags
    ensures var t := RunCall(tree, s, first).0;
            if After(tree, t, f).panics
            then forall c: Call :: LetThrough(tree, t, c) ==>
                   RunCall(tree, t, c).1 == RecoveredPanic
            else forall between, c ::
                   NoneTouches(tree, between, c, f) && RunCall(tree, RunHistory(tree, t, between), c).1.Ran? ==>
                     var view := RunCall(tree, RunHistory(tree, t, between), c).1.view;
                     f in view.value && view.value[f] != DefaultOf(tree.flags[f])
  {
    CallKeepsIsolationIffNotPoisoned(tree, s, first, Context(0, Config(false, false, "")));
    var t := RunCall(tree, s, first).0;
    hide RunCall, LetThrough, Poisons, CleanAt;
    f :| f in tree.flags && !CleanAt(tree, t, f);
    if After(tree, t, f).panics {
      forall c: Call | LetThrough(tree, t, c)
        ensures RunCall(tree, t, c).1 == RecoveredPanic
      {
        PanickingRestore(tree, t, f, c);
      }
    } else {
      forall between, c | NoneTouches(tree, between, c, f) && RunCall(tree, RunHistory(tree, t, between), c).1.Ran?
        ensures var view := RunCall(tree, RunHistory(tree, t, between), c).1.view;
                f in view.value && view.value[f] != DefaultOf(tree.flags[f])
      {
        TaintOutlives(tree, t, between, f);
        TaintStays(tree, RunHistory(tree, t, between), c, f);
      }
    }
  }

  /** A flag whose restoring panics stops the call, even one that would have set it. */
  lemma PanickingRestore(tree: Tree, s: TreeState, f: FlagId, c: Call)
    requires WellFormed(tree) && Fits(tree, s) && f in tree.flags && After(tree, s, f).panics
    requires LetThrough(tree, s, c)
    ensures RunCall(tree, s, c).1 == RecoveredPanic
    ensures Fits(tree, RunCall(tree, s, c).0) && AsWasOrReset(tree, s, RunCall(tree, s, c).0, f)
  {
    CallExecutes(tree, s, c);
    var b := BuiltIf(tree, c, RanBefore(tree, s, c)).value;
    ResetEffect(tree, s, Context(c.request, b.config));
    hide RunCall, BuiltIf, ResetTree, After, WellFormed, ToolWellFormed, BuiltOk, Fits, ExecuteFrom;
  }

  /** Restoring f panics and leaves it as it was. */
  ghost predicate Stuck(tree: Tree, s: TreeState, f: FlagId)
    requires Fits(tree, s)
  {
    f in tree.flags && After(tree, s, f) == Restored(s.value[f], f in s.changed, true)
  }

  lemma StuckStays(tree: Tree, s: TreeState, f: FlagId, c: Call)
    requires WellFormed(tree) && Fits(tree, s) && Stuck(tree, s, f)
    ensures var t := RunCall(tree, s, c).0; Fits(tree, t) && Stuck(tree, t, f)
  {
    if LetThrough(tree, s, c) {
      PanickingRestore(tree, s, f, c);
    } else {
      CallExecutes(tree, s, c);
    }
    hide RunCall, LetThrough, WellFormed, RestoreFlag;
  }

  /**
    Then no later call ever gets through: every one that passes validation is
    answered with the panic.
   */
  lemma {:induction false} StuckStopsEveryCall(tree: Tree, s: TreeState, f: FlagId, calls: seq<Call>, c: Call)
    requires WellFormed(tree) && Fits(tree, s) && Stuck(tree, s, f)
    requires LetThrough(tree, RunHistory(tree, s, calls), c)
    ensures RunCall(tree, RunHistory(tree, s, calls), c).1 == RecoveredPanic
    decreases |calls|
  {
    if calls == [] {
      PanickingRestore(tree, s, f, c);
    } else {
      StuckStays(tree, s, f, calls[0]);
      hide RunCall, LetThrough, WellFormed, Fits, Stuck;
      StuckStopsEveryCall(tree, RunCall(tree, s, calls[0]).0, f, calls[1..], c);
    }
  }

  // ---------------------------------------------------------------------
  // Every unsafe value can be reached
  // ---------------------------------------------------------------------

  /** One unsafe value among accepted tokens poisons, wherever it is sorted. */
  lemma {:induction false} OneBadTokenPoisons(tree: Tree, tool: Tool, argv: seq<FlagArg>, bad: FlagArg)
    requires Parsable(tree, tool, argv) && bad in argv
    requires !SafeValue(tree.flags[tool.accepted[bad.name]], bad.value)
    requires forall a :: a in argv && a != bad ==>
               var flag := tree.flags[tool.accepted[a.name]]; flag.set_(flag.def, a.value).Accepts?
    ensures PoisonedParse(tree, tool, argv)
    decreases |argv|
  {
    assert argv == [argv[0]] + argv[1..];
    if argv[0] != bad {
      hide SafeValue;
      OneBadTokenPoisons(tree, tool, argv[1..], bad);
    }
  }

  /** The values the engine itself passes for a flag. */
  predicate EngineValue(name: string, value: string) {
    || (name == FORMAT && value == "json")
    || ((name == DRY_RUN || name == YES) && (value == "true" || value == "false"))
    || name == IDEMPOTENCY_KEY
  }

  /** The engine's own values parse on this tool, and nothing is required of the client. */
  ghost predicate Undemanding(tree: Tree, tool: Tool)
    requires ToolWellFormed(tree, tool)
  {
    && (forall n :: n in tool.accepted ==> !tree.flags[tool.accepted[n]].required)
    && (forall n, v :: n in tool.accepted && IsConfigName(n) && EngineValue(n, v) ==>
          var flag := tree.flags[tool.accepted[n]]; flag.set_(flag.def, v).Accepts?)
  }

  /** A call with the one argument name, rendered as value. */
  function OneArgument(tool: string, name: string, v: Json, body: View -> Outcome, mounted: bool): Call {
    Call(tool, map[name := v], 0, "k", body, mounted)
  }

  /** A call that reaches an unsafe value poisons, whatever else it passes. */
  lemma ReachedUnsafePoisons(tree: Tree, c: Call, ran: bool, bad: FlagArg)
    requires WellFormed(tree) && c.tool in tree.tools && BuiltIf(tree, c, ran).Ok?
    requires var tool, b := tree.tools[c.tool], BuiltIf(tree, c, ran).value;
             && AllReplaced(tree, b.assigns) && bad in b.argv
             && !SafeValue(tree.flags[tool.accepted[bad.name]], bad.value)
             && forall a :: a in b.argv && a != bad ==>
                  var flag := tree.flags[tool.accepted[a.name]]; flag.set_(flag.def, a.value).Accepts?
    ensures Poisons(tree, c, ran)
  {
    OneBadTokenPoisons(tree, tree.tools[c.tool], BuiltIf(tree, c, ran).value.argv, bad);
    hide BuiltIf, SafeValue, PoisonedParse;
  }

  /**
    The converse of FailSafeNeverPoisons, for every tool that demands nothing of
    the client: one unsafe value of a scalar flag, whether its Set writes and fails
    or accepts what it cannot return from, makes a poisoning call.
   */
  lemma UnsafeFlagCanBePoisoned(tree: Tree, c: Call, name: string, value: string, ran: bool)
    requires WellFormed(tree) && c.tool in tree.tools && Undemanding(tree, tree.tools[c.tool])
    requires c.args.Keys == {name} && StringifyArg(c.args[name]) == Rendered(value)
    requires var tool := tree.tools[c.tool];
             && name in tool.accepted && !IsConfigName(name) && (name in tool.late ==> ran)
             && tree.flags[tool.accepted[name]].ScalarFlag?
             && !SafeValue(tree.flags[tool.accepted[name]], value)
    ensures Poisons(tree, c, ran)
  {
    var tool := ToolAt(tree.tools[c.tool], ran);
    ToolAtWellFormed(tree, tree.tools[c.tool], ran);
    OneArgumentBuilds(tree, tool, c, name, value);
    assert BuiltIf(tree, c, ran) == BuildArgs(tree, tool, c);
    hide BuiltIf, BuildArgs, WellFormed, EngineValue, SafeValue, IsConfigName, ToolWellFormed;
    ReachedUnsafePoisons(tree, c, ran, FlagArg(name, value));
  }

  lemma OneArgumentBuilds(tree: Tree, tool: Tool, c: Call, name: string, value: string)
    requires ToolWellFormed(tree, tool) && Undemanding(tree, tool)
    requires c.args.Keys == {name} && StringifyArg(c.args[name]) == Rendered(value)
    requires name in tool.accepted && name !in tool.late && !IsConfigName(name)
    requires tree.flags[tool.accepted[name]].ScalarFlag?
    ensures var b := BuildArgs(tree, tool, c);
            && b.Ok? && b.value.assigns == []
            && FlagArg(name, value) in b.value.argv
            && forall a :: a in b.value.argv && a != FlagArg(name, value) ==>
                 IsConfigName(a.name) && EngineValue(a.name, a.value)
  {
    OneArgumentDraft(tree, tool, c, name, value);
    var d := Draft([FlagArg(name, value)], [], Config(false, false, ""), {name});
    var names := Ascending(tool.accepted.Keys);
    UndemandingFinishes(tree, tool, names, d, c.freshKey);
    OneArgumentTokens(d, c.freshKey, name, value);
    hide BuildFold, AllArgs, Sort, IsConfigName, EngineValue, Undemanding, Finish, ToolWellFormed;
  }

  /** A call without arguments builds to the engine's own tokens. */
  lemma NoArgumentBuilds(tree: Tree, tool: Tool, c: Call)
    requires ToolWellFormed(tree, tool) && Undemanding(tree, tool) && c.args == map[]
    ensures var b := BuildArgs(tree, tool, c);
            && b.Ok? && b.value.assigns == []
            && forall a :: a in b.value.argv ==> IsConfigName(a.name) && EngineValue(a.name, a.value)
  {
    NothingAscends(c.args.Keys);
    assert BuildArgs(tree, tool, c) == Finish(tree, tool, Ascending(tool.accepted.Keys), EMPTY_DRAFT, c.freshKey);
    hide AllArgs, Sort, IsConfigName, EngineValue, Finish, ToolWellFormed, Ascending, BuildArgs;
    UndemandingFinishes(tree, tool, Ascending(tool.accepted.Keys), EMPTY_DRAFT, c.freshKey);
    EngineOnly(c.freshKey);
    hide Undemanding;
  }

  lemma NothingAscends(s: set<string>)
    requires s == {}
    ensures Ascending(s) == []
  {
    StringLessIsStrictTotal();
    SortedUnique(Ascending(s), [], StringLess);
  }

  lemma EngineOnly(freshKey: string)
    ensures forall a :: a in Sort(AllArgs(EMPTY_DRAFT, freshKey), TokenLess) ==>
              IsConfigName(a.name) && EngineValue(a.name, a.value)
  {
    EngineTokens(EMPTY_DRAFT, freshKey);
    var all := AllArgs(EMPTY_DRAFT, freshKey);
    hide AllArgs, IsConfigName, EngineValue;
    SameElements(all, Sort(all, TokenLess));
  }

  lemma UndemandingFinishes(tree: Tree, tool: Tool, names: seq<string>, d: Draft, freshKey: string)
    requires ToolWellFormed(tree, tool) && Undemanding(tree, tool) && forall n :: n in names ==> n in tool.accepted
    ensures Finish(tree, tool, names, d, freshKey) ==
            Ok(Built(Sort(AllArgs(d, freshKey), TokenLess), d.assigns, d.config.(key := FinalKey(d, freshKey))))
  {
    NoneMissing(tree, tool, names, d.given + {FORMAT, DRY_RUN, IDEMPOTENCY_KEY});
    hide FirstMissing, AllArgs, Sort, Undemanding, ToolWellFormed, FinalKey;
  }

  lemma OneArgumentTokens(d: Draft, freshKey: string, name: string, value: string)
    requires d.argv == [FlagArg(name, value)] && !IsConfigName(name)
    ensures var argv := Sort(AllArgs(d, freshKey), TokenLess);
            && FlagArg(name, value) in argv
            && forall a :: a in argv && a != FlagArg(name, value) ==>
                 IsConfigName(a.name) && EngineValue(a.name, a.value)
  {
    var all := AllArgs(d, freshKey);
    ForcedArgs(d, freshKey);
    EngineTokens(d, freshKey);
    assert all[0] == FlagArg(name, value);
    hide AllArgs;
    SameElements(all, Sort(all, TokenLess));
  }

  lemma EngineTokens(d: Draft, freshKey: string)
    ensures forall a :: a in AllArgs(d, freshKey) && a !in d.argv ==>
              IsConfigName(a.name) && EngineValue(a.name, a.value)
  {
  }

  lemma OneArgumentDraft(tree: Tree, tool: Tool, c: Call, name: string, value: string)
    requires ToolWellFormed(tree, tool)
    requires c.args.Keys == {name} && StringifyArg(c.args[name]) == Rendered(value)
    requires name in tool.accepted && name !in tool.late && !IsConfigName(name)
    requires tree.flags[tool.accepted[name]].ScalarFlag?
    ensures BuildFold(tree, tool, c.args, Ascending(c.args.Keys), EMPTY_DRAFT) ==
            Ok(Draft([FlagArg(name, value)], [], Config(false, false, ""), {name}))
  {
    var keys := Ascending(c.args.Keys);
    assert keys == [name] by {
      StringLessIsStrictTotal();
      SortedUnique(keys, [name], StringLess);
    }
    var d := Draft([FlagArg(name, value)], [], Config(false, false, ""), {name});
    assert {} + {name} == {name} && [] + d.argv == d.argv;
    assert BuildStep(tree, tool, c.args, EMPTY_DRAFT, name) == Ok(d);
    assert BuildFold(tree, tool, c.args, [], d) == Ok(d);
  }

  lemma {:induction false} NoneMissing(tree: Tree, tool: Tool, names: seq<string>, given: set<string>)
    requires ToolWellFormed(tree, tool) && forall n :: n in names ==> n in tool.accepted
    requires forall n :: n in tool.accepted ==> !tree.flags[tool.accepted[n]].required
    ensures FirstMissing(tree, tool, names, given) == None
    decreases |names|
  {
    if names != [] {
      NoneMissing(tree, tool, names[1..], given);
    }
  }

  // ---------------------------------------------------------------------
  // What a strict call does to later output
  // ---------------------------------------------------------------------

  predicate Silent(r: Reply) {
    r.Ran? && r.result.Output? ==> r.result.text == ""
  }

  /** The body takes no writer off a command, and is not heard past one. */
  lemma BodyAndWriters(tool: Tool, s: TreeState, ctx: Context, c: Call)
    ensures s.diverted <= RunBody(tool, s, ctx, c).0.diverted
    ensures !Audible(tool, s.diverted) ==> Silent(RunBody(tool, s, ctx, c).1)
  {
    hide Holds, Audible;
  }

  lemma ExecuteAndWriters(tree: Tree, s: TreeState, tool: Tool, b: Built, c: Call)
    requires WellFormed(tree) && Runnable(tree, tool, b)
    ensures s.diverted <= Execute(tree, s, tool, b, c).0.diverted
    ensures !Audible(tool, s.diverted) ==> Silent(Execute(tree, s, tool, b, c).1)
  {
    hide AssignAll, ParseAll, ResetTree, RunBody, Audible, WellFormed;
    var reset := ResetTree(tree, s, Context(c.request, b.config));
    if reset.Done? {
      var p := AssignAll(tree, reset.state, b.assigns);
      if p.Done? {
        var q := ParseAll(tree, tool, p.state, b.argv);
        BodyAndWriters(tool, Begin(tool, q.state), Context(c.request, b.config), c);
      }
    }
  }

  /** No call takes a writer off a command. */
  lemma CallKeepsWriters(tree: Tree, s: TreeState, c: Call)
    requires WellFormed(tree)
    ensures s.diverted <= RunCall(tree, s, c).0.diverted
  {
    CallExecutes(tree, s, c);
    hide RunCall, BuiltIf, Execute, Audible;
    if LetThrough(tree, s, c) {
      ExecuteAndWriters(tree, s, tree.tools[c.tool], BuiltIf(tree, c, RanBefore(tree, s, c)).value, c);
    }
    hide WellFormed;
  }

  lemma {:induction false} HistoryKeepsWriters(tree: Tree, s: TreeState, calls: seq<Call>)
    requires WellFormed(tree)
    ensures s.diverted <= RunHistory(tree, s, calls).diverted
    decreases |calls|
  {
    if calls != [] {
      CallKeepsWriters(tree, s, calls[0]);
      hide RunCall, WellFormed;
      HistoryKeepsWriters(tree, RunCall(tree, s, calls[0]).0, calls[1..]);
    }
  }

  /** A command with a diverted one on its path, or itself, is not heard. */
  lemma DivertedIsSilent(tree: Tree, s: TreeState, c: Call)
    requires WellFormed(tree) && c.tool in tree.tools && !Audible(tree.tools[c.tool], s.diverted)
    ensures Silent(RunCall(tree, s, c).1)
  {
    CallExecutes(tree, s, c);
    hide RunCall, BuiltIf, Execute, Audible;
    if LetThrough(tree, s, c) {
      ExecuteAndWriters(tree, s, tree.tools[c.tool], BuiltIf(tree, c, RanBefore(tree, s, c)).value, c);
    }
    hide WellFormed;
  }

  /**
    A strict call under a context with warning state silences its command and
    every command below it for good: whatever calls follow, the output of each
    later call to them reaches no reply. Its own output is lost as well.
   */
  lemma StrictCallSilences(tree: Tree, s: TreeState, first: Call, between: seq<Call>, c: Call)
    requires WellFormed(tree) && Fits(tree, s) && Clean(tree, s) && Diverts(tree, s, first)
    requires c.tool in tree.tools && tree.tools[first.tool].command in tree.tools[c.tool].path
    ensures RunCall(tree, s, first).1.Ran? && Silent(RunCall(tree, s, first).1)
    ensures Silent(RunCall(tree, RunHistory(tree, RunCall(tree, s, first).0, between), c).1)
  {
    CallMarks(tree, s, first);
    StrictCallIsSilent(tree, s, first);
    hide Diverts, RunCall, WellFormed, Clean, Fits;
    HistoryKeepsWriters(tree, RunCall(tree, s, first).0, between);
    DivertedIsSilent(tree, RunHistory(tree, RunCall(tree, s, first).0, between), c);
  }

  lemma StrictCallIsSilent(tree: Tree, s: TreeState, c: Call)
    requires WellFormed(tree) && Fits(tree, s) && Clean(tree, s) && Diverts(tree, s, c)
    ensures RunCall(tree, s, c).1.Ran? && Silent(RunCall(tree, s, c).1)
  {
    var tool, b := tree.tools[c.tool], BuiltIf(tree, c, RanBefore(tree, s, c)).value;
    CallReply(tree, s, c);
    CallExecutes(tree, s, c);
    ToldSees(tree, tool, b, c);
    hide RunCall, BuiltIf, Told, Holds, Audible, WellFormed, ToolWellFormed, Clean, Fits, ViewOf;
  }

  /** A call whose assignments and tokens are all accepted from the defaults runs. */
  lemma AcceptedRuns(tree: Tree, tool: Tool, b: Built, c: Call)
    requires ToolWellFormed(tree, tool) && Runnable(tree, tool, b) && AllReplaced(tree, b.assigns)
    requires forall a :: a in b.argv ==>
               var flag := tree.flags[tool.accepted[a.name]]; flag.set_(flag.def, a.value).Accepts?
    ensures Told(tree, tool, b, c).Ran?
  {
    var start := Pristine(tree, Blank(), Context(c.request, b.config));
    PristineFits(tree, Blank(), Context(c.request, b.config));
    AssignFrame(tree, start, b.assigns);
    ApartByName(tree, tool, b.argv);
    ScalarsAndSlices(tree, tool, b);
    hide Pristine, ToolWellFormed, AssignAll, DistinctNames, NamesApart;
    var p := AssignAll(tree, start, b.assigns);
    forall a | a in b.argv
      ensures var f := tool.accepted[a.name]; Text(Held(tree, p.state, f)) == tree.flags[f].def
    {
      assert Names(tool, b.argv, tool.accepted[a.name]);
    }
    ParseOverlays(tree, tool, p.state, b.argv);
    hide ParseAll, Overlaid;
  }

  /** It is strict: --strict parses to true, and no flag makes Cobra return first. */
  lemma StrictDiverts(tree: Tree, tool: Tool, b: Built, c: Call, value: string)
    requires ToolWellFormed(tree, tool) && Runnable(tree, tool, b) && Told(tree, tool, b, c).Ran?
    requires c.mounted && tool.path != [] && STRICT in tool.accepted && FlagArg(STRICT, value) in b.argv
    requires var flag := tree.flags[tool.accepted[STRICT]];
             flag.set_(flag.def, value).Accepts? && ParseBool(flag.set_(flag.def, value).text) == Some(true)
    requires forall n :: n in tool.exits ==>
               var f := tool.accepted[n];
               && !Names(tool, b.argv, f) && !Assigns(b.assigns, f)
               && ParseBool(Text(DefaultOf(tree.flags[f]))) != Some(true)
    ensures DivertsWhenRun(tree, tool, b, c)
  {
    ToldSees(tree, tool, b, c);
    var view := Told(tree, tool, b, c).view;
    hide Told, ParseBool, Names, Assigns;
    assert IsTrue(tool, view, STRICT);
    forall n | n in tool.exits ensures !IsTrue(tool, view, n) {
      assert tool.accepted[n] in tree.flags;
    }
  }

  // ---------------------------------------------------------------------
  // Two of pflag's types
  // ---------------------------------------------------------------------

  /** pflag's bool stores what ParseBool returns, false on an error, before reporting it. */
  function BoolSet(v: string): SetOutcome {
    match ParseBool(v)
    case Some(b) => Accepts(if b then "true" else "false")
    case None => Rejects(Some("false"))
  }

  /** pflag's ip: "" is accepted without effect, and only an address is stored. */
  function AddressSet(parse: string -> Option<string>, held: string, v: string): SetOutcome {
    if v == "" then Accepts(held)
    else if parse(v).Some? then Accepts(parse(v).value)
    else Rejects(None)
  }

  /** A failed integer parse yields zero. */
  function Pflag(): FlagEnum.Library {
    FlagEnum.Library((_, _) => Rejects(None), (_, _) => "0", (_, _) => false)
  }

  const COUNT := "count"
  const ADDR := "addr"
  const HELP := "help"

  function NameOf(f: FlagId): string {
    if f == 0 then FORMAT else if f == 1 then DRY_RUN else if f == 2 then YES
    else if f == 3 then IDEMPOTENCY_KEY else if f == 4 then COUNT else if f == 5 then ADDR
    else if f == 6 then STRICT else HELP
  }

  function IdOf(name: string): FlagId {
    if name == FORMAT then 0 else if name == DRY_RUN then 1 else if name == YES then 2
    else if name == IDEMPOTENCY_KEY then 3 else if name == COUNT then 4 else if name == ADDR then 5
    else if name == STRICT then 6 else 7
  }

  /**
    The engine's own flags with their real defaults, an int flag with default 5,
    an ip flag whose nil default prints as "<nil>", ax.Execute's --strict and
    Cobra's --help.
   */
  function WitnessFlag(parse: string -> Option<string>, f: FlagId): Flag {
    var text := (_: string, v: string) => Accepts(v);
    var boolean := (_: string, v: string) => BoolSet(v);
    match f
    case 0 => ScalarFlag(NameOf(f), false, "", text)
    case 3 => ScalarFlag(NameOf(f), false, "", text)
    case 4 => ScalarFlag(NameOf(f), false, "5",
                         (_: string, v: string) => FlagEnum.PlainSet(Pflag(), FlagEnum.Signed(64), v))
    case 5 => ScalarFlag(NameOf(f), false, "<nil>", (held: string, v: string) => AddressSet(parse, held, v))
    case _ => ScalarFlag(NameOf(f), false, "false", boolean)
  }

  /** A subcommand of the root. */
  function WitnessTool(): Tool {
    Tool(1, [1], map n | n in {FORMAT, DRY_RUN, YES, IDEMPOTENCY_KEY, COUNT, ADDR, STRICT, HELP} :: IdOf(n),
         {HELP}, {HELP})
  }

  function WitnessTree(parse: string -> Option<string>): Tree {
    Tree(Command(0, [], [0, 1, 2, 3, 6], [Command(1, [4, 5, 7], [], [])]),
         map f | f in {0, 1, 2, 3, 4, 5, 6, 7} :: WitnessFlag(parse, f), map["run" := WitnessTool()])
  }

  lemma NamesDiffer()
    ensures !IsConfigName(COUNT) && !IsConfigName(ADDR) && !IsConfigName(STRICT) && !IsConfigName(HELP)
    ensures COUNT != ADDR && COUNT != STRICT && COUNT != HELP && ADDR != STRICT && ADDR != HELP && STRICT != HELP
  {
    assert FORMAT[0] == 'f' && DRY_RUN[0] == 'd' && YES[0] == 'y' && IDEMPOTENCY_KEY[0] == 'i';
    assert COUNT[0] == 'c' && ADDR[0] == 'a' && STRICT[0] == 's' && HELP[0] == 'h';
  }

  lemma WitnessSteps(parse: string -> Option<string>)
    ensures WalkSteps(WitnessTree(parse).root) ==
            [Restore(0), Restore(1), Restore(2), Restore(3), Restore(6), Bind(0),
             Restore(4), Restore(5), Restore(7), Bind(1)]
  {
    var child := Command(1, [4, 5, 7], [], []);
    assert WalkAllSteps([]) == [];
    assert WalkSteps(child) == [Restore(4), Restore(5), Restore(7), Bind(1)];
    assert [child][1..] == [];
    assert WalkAllSteps([child]) == WalkSteps(child) + [];
  }

  lemma WitnessToolIsWellFormed(parse: string -> Option<string>)
    ensures ToolWellFormed(WitnessTree(parse), WitnessTool())
    ensures forall n :: n in WitnessTool().accepted ==> !WitnessTree(parse).flags[WitnessTool().accepted[n]].required
  {
    hide WalkSteps, IdOf, NameOf, WitnessFlag;
    WitnessSteps(parse);
    WitnessNames();
    WitnessFlags(parse);
    var tree, tool := WitnessTree(parse), WitnessTool();
    assert Bind(tool.command) in WalkSteps(tree.root);
    assert forall n :: n in tool.accepted ==> tool.accepted[n] in tree.flags && tree.flags[tool.accepted[n]].name == n;
    assert tool.command == tool.path[|tool.path| - 1];
    assert tool.exits <= tool.accepted.Keys && tool.late <= tool.accepted.Keys;
  }

  lemma WitnessFlagAt(parse: string -> Option<string>, f: FlagId)
    ensures f in WitnessTree(parse).flags <==> f < 8
    ensures f < 8 ==>
              var flag := WitnessTree(parse).flags[f]; flag.ScalarFlag? && flag.name == NameOf(f) && !flag.required
  {
    hide NameOf;
    assert f < 8 ==> f == 0 || f == 1 || f == 2 || f == 3 || f == 4 || f == 5 || f == 6 || f == 7;
  }

  lemma WitnessFlags(parse: string -> Option<string>)
    ensures forall f: FlagId :: f in WitnessTree(parse).flags <==> f < 8
    ensures forall f: FlagId :: f in WitnessTree(parse).flags ==>
              var flag := WitnessTree(parse).flags[f]; flag.ScalarFlag? && flag.name == NameOf(f) && !flag.required
  {
    forall f: FlagId
      ensures f in WitnessTree(parse).flags <==> f < 8
      ensures f in WitnessTree(parse).flags ==>
                var flag := WitnessTree(parse).flags[f]; flag.ScalarFlag? && flag.name == NameOf(f) && !flag.required
    {
      WitnessFlagAt(parse, f);
    }
    hide WitnessTree, WitnessFlag, NameOf;
  }

  lemma WitnessNames()
    ensures forall n :: n in WitnessTool().accepted ==>
              WitnessTool().accepted[n] < 8 && NameOf(WitnessTool().accepted[n]) == n
    ensures WitnessTool().late !! {FORMAT, DRY_RUN, YES, IDEMPOTENCY_KEY}
  {
    NamesDiffer();
    ConfigNamesDiffer();
  }

  lemma WitnessTreeIsWellFormed(parse: string -> Option<string>)
    ensures WellFormed(WitnessTree(parse))
  {
    WitnessSteps(parse);
    WitnessToolIsWellFormed(parse);
    hide WalkSteps, ToolWellFormed, WitnessTool, WitnessFlag;
  }

  lemma WitnessIsUndemanding(parse: string -> Option<string>)
    ensures ToolWellFormed(WitnessTree(parse), WitnessTool()) && Undemanding(WitnessTree(parse), WitnessTool())
    ensures WitnessTool().accepted[COUNT] == 4 && WitnessTool().accepted[ADDR] == 5
    ensures WitnessTool().accepted[STRICT] == 6 && WitnessTool().accepted[HELP] == 7
  {
    WitnessToolIsWellFormed(parse);
    ConfigNamesDiffer();
    NamesDiffer();
    BoolsAreAccepted();
    hide ToolWellFormed, BoolSet;
  }

  lemma BoolsAreAccepted()
    ensures BoolSet("true") == Accepts("true") && BoolSet("false") == Accepts("false")
    ensures ParseBool("true") == Some(true) && ParseBool("false") == Some(false)
  {
  }

  /** "x" is no integer: Set stores zero over the five, then rejects. */
  lemma CountIsUnsafe(parse: string -> Option<string>)
    ensures !SafeValue(WitnessFlag(parse, 4), "x")
  {
    assert Integers.ParseInt("x", true, 64) == None by {
      assert "x"[0] == 'x' && "x"[1..] == [];
      assert Integers.SplitPrefix("x") == (10, "x");
    }
    assert "0"[0] != "5"[0];
  }

  /** From an address the ip flag cannot be set back to "<nil>". */
  lemma AddrIsUnsafe(parse: string -> Option<string>, address: string)
    requires address != "" && parse(address) == Some(address) && parse("<nil>") == None
    ensures !SafeValue(WitnessFlag(parse, 5), address)
    ensures RestoreFlag(WitnessFlag(parse, 5), Scalar(address), true) == Restored(Scalar(address), false, false)
  {
  }

  lemma WitnessFacts(parse: string -> Option<string>)
    ensures var tree, tool := WitnessTree(parse), WitnessTool();
            && "run" in tree.tools && tree.tools["run"] == tool && tool.late == {HELP}
            && COUNT in tool.accepted && ADDR in tool.accepted
            && 4 in tree.flags && tree.flags[4] == WitnessFlag(parse, 4) && tree.flags[4].ScalarFlag?
            && 5 in tree.flags && tree.flags[5] == WitnessFlag(parse, 5) && tree.flags[5].ScalarFlag?
  {
  }

  /** An unsafe value of either flag poisons. */
  lemma WitnessPoisons(parse: string -> Option<string>, c: Call, name: string, value: string, ran: bool)
    requires c.tool == "run" && c.args == map[name := Str(value)] && (name == COUNT || name == ADDR)
    requires !SafeValue(WitnessFlag(parse, if name == COUNT then 4 else 5), value)
    ensures WellFormed(WitnessTree(parse)) && Poisons(WitnessTree(parse), c, ran)
  {
    WitnessTreeIsWellFormed(parse);
    WitnessIsUndemanding(parse);
    WitnessFacts(parse);
    NamesDiffer();
    hide WellFormed, Undemanding, ToolWellFormed, SafeValue, WitnessFlag, IsConfigName, WitnessTree, WitnessTool;
    UnsafeFlagCanBePoisoned(WitnessTree(parse), c, name, value, ran);
    hide Poisons;
  }

  /** So isolation does fail: an argument that is rejected poisons this tree. */
  lemma RejectedIntegerLeaks(parse: string -> Option<string>, body: View -> Outcome, mounted: bool, ran: bool)
    ensures WellFormed(WitnessTree(parse))
    ensures Poisons(WitnessTree(parse), OneArgument("run", COUNT, Str("x"), body, mounted), ran)
  {
    CountIsUnsafe(parse);
    hide *;
    WitnessPoisons(parse, Call("run", map[COUNT := Str("x")], 0, "k", body, mounted), COUNT, "x", ran);
    IsOneArgument("run", COUNT, Str("x"), body, mounted);
  }

  lemma IsOneArgument(tool: string, name: string, v: Json, body: View -> Outcome, mounted: bool)
    ensures OneArgument(tool, name, v, body, mounted) == Call(tool, map[name := v], 0, "k", body, mounted)
  {
  }

  /** And so does an address that is accepted: the reset cannot bring "<nil>" back. */
  lemma AcceptedAddressLeaks(parse: string -> Option<string>, address: string, body: View -> Outcome, mounted: bool,
                             ran: bool)
    requires address != "" && parse(address) == Some(address) && parse("<nil>") == None
    ensures WellFormed(WitnessTree(parse))
    ensures Poisons(WitnessTree(parse), OneArgument("run", ADDR, Str(address), body, mounted), ran)
  {
    AddrIsUnsafe(parse, address);
    NamesDiffer();
    hide *;
    WitnessPoisons(parse, Call("run", map[ADDR := Str(address)], 0, "k", body, mounted), ADDR, address, ran);
    IsOneArgument("run", ADDR, Str(address), body, mounted);
  }

  // ---------------------------------------------------------------------
  // A strict call and a first call
  // ---------------------------------------------------------------------

  /** The plain call. */
  function Plain(body: View -> Outcome): Call {
    Call("run", map[], 0, "k", body, true)
  }

  function StrictCall(body: View -> Outcome): Call {
    OneArgument("run", STRICT, Bool(true), body, true)
  }

  /** The tree as a server that parsed nothing finds it. */
  ghost function Fresh(parse: string -> Option<string>): TreeState {
    Started(WitnessTree(parse), map[], {}, {})
  }

  lemma FreshIsClean(parse: string -> Option<string>)
    ensures Fits(WitnessTree(parse), Fresh(parse)) && Clean(WitnessTree(parse), Fresh(parse))
  {
    StartIsCleanIff(WitnessTree(parse), map[], {}, {});
    hide Fits, Clean;
  }

  lemma PlainBuilds(parse: string -> Option<string>, body: View -> Outcome, ran: bool)
    ensures WellFormed(WitnessTree(parse)) && BuiltIf(WitnessTree(parse), Plain(body), ran).Ok?
    ensures var b := BuiltIf(WitnessTree(parse), Plain(body), ran).value;
            && b.assigns == [] && Runnable(WitnessTree(parse), WitnessTool(), b)
            && forall a :: a in b.argv ==> IsConfigName(a.name) && EngineValue(a.name, a.value)
  {
    WitnessTreeIsWellFormed(parse);
    WitnessIsUndemanding(parse);
    var tree, tool, c := WitnessTree(parse), ToolAt(WitnessTool(), ran), Plain(body);
    ToolAtWellFormed(tree, WitnessTool(), ran);
    assert tree.tools["run"] == WitnessTool();
    hide WitnessTree, WellFormed, EngineValue, IsConfigName, ToolWellFormed;
    NoArgumentBuilds(tree, tool, c);
    assert BuiltIf(tree, c, ran) == BuildArgs(tree, tool, c);
    hide BuildArgs, Undemanding, WitnessTool;
  }

  /** The plain call runs, and its output is told. */
  lemma PlainIsTold(parse: string -> Option<string>, body: View -> Outcome, ran: bool)
    ensures WellFormed(WitnessTree(parse)) && BuiltIf(WitnessTree(parse), Plain(body), ran).Ok?
    ensures var b := BuiltIf(WitnessTree(parse), Plain(body), ran).value;
            var r := Told(WitnessTree(parse), WitnessTool(), b, Plain(body));
            r.Ran? && r.result == body(r.view).result
  {
    PlainBuilds(parse, body, ran);
    WitnessIsUndemanding(parse);
    var tree, c := WitnessTree(parse), Plain(body);
    var b := BuiltIf(tree, c, ran).value;
    assert tree.flags[6] == WitnessFlag(parse, 6);
    hide BuiltIf, WellFormed, EngineValue, IsConfigName, Told;
    AcceptedRuns(tree, WitnessTool(), b, c);
    ToldSees(tree, WitnessTool(), b, c);
    NotStrict(tree, WitnessTool(), b, c, Told(tree, WitnessTool(), b, c).view);
    hide WitnessTree, WitnessTool, WitnessFlag;
  }

  /** A flag that no token names keeps its default, so --strict stays off. */
  lemma NotStrict(tree: Tree, tool: Tool, b: Built, c: Call, view: View)
    requires ToolWellFormed(tree, tool) && Runnable(tree, tool, b) && b.assigns == []
    requires ViewOf(tree, tool, b, c, view) && forall a :: a in b.argv ==> IsConfigName(a.name)
    requires STRICT in tool.accepted && DefaultOf(tree.flags[tool.accepted[STRICT]]) == Scalar("false")
    ensures !Holds(tool, view, c.mounted)
  {
    NamesDiffer();
    BoolsAreAccepted();
    OnlyByName(tree, tool, b.argv, STRICT);
    hide ParseBool, IsConfigName;
  }

  /** A flag is named only by a token with its own name. */
  lemma OnlyByName(tree: Tree, tool: Tool, argv: seq<FlagArg>, name: string)
    requires ToolWellFormed(tree, tool) && name in tool.accepted
    requires forall a :: a in argv ==> a.name != name
    ensures !Names(tool, argv, tool.accepted[name])
  {
  }

  lemma StrictCallBuilds(parse: string -> Option<string>, body: View -> Outcome)
    ensures WellFormed(WitnessTree(parse)) && BuiltIf(WitnessTree(parse), StrictCall(body), false).Ok?
    ensures var b := BuiltIf(WitnessTree(parse), StrictCall(body), false).value;
            && b.assigns == [] && Runnable(WitnessTree(parse), WitnessTool(), b) && FlagArg(STRICT, "true") in b.argv
            && forall a :: a in b.argv && a != FlagArg(STRICT, "true") ==>
                 IsConfigName(a.name) && EngineValue(a.name, a.value)
  {
    WitnessTreeIsWellFormed(parse);
    WitnessIsUndemanding(parse);
    NamesDiffer();
    var tree, tool, c := WitnessTree(parse), WitnessTool(), StrictCall(body);
    assert tree.tools["run"] == tool && tool.late == {HELP} && tree.flags[6].ScalarFlag?;
    hide WitnessTree, WellFormed, EngineValue, IsConfigName, ToolWellFormed;
    OneArgumentBuilds(tree, tool, c, STRICT, "true");
    assert BuiltIf(tree, c, false) == BuildArgs(tree, tool, c);
    hide BuildArgs, Undemanding, WitnessTool;
  }

  /** All the strict call's tokens are accepted. */
  lemma StrictTokensAccepted(parse: string -> Option<string>, a: FlagArg)
    requires a == FlagArg(STRICT, "true") || (IsConfigName(a.name) && EngineValue(a.name, a.value))
    ensures a.name in WitnessTool().accepted && WitnessTool().accepted[a.name] in WitnessTree(parse).flags
    ensures var flag := WitnessTree(parse).flags[WitnessTool().accepted[a.name]];
            flag.ScalarFlag? && flag.set_(flag.def, a.value).Accepts?
  {
    WitnessIsUndemanding(parse);
    BoolsAreAccepted();
    if a == FlagArg(STRICT, "true") {
      assert WitnessTree(parse).flags[6] == WitnessFlag(parse, 6);
    }
    hide BoolSet, EngineValue, WitnessFlag;
  }

  lemma StrictCallRuns(parse: string -> Option<string>, body: View -> Outcome)
    ensures WellFormed(WitnessTree(parse)) && BuiltIf(WitnessTree(parse), StrictCall(body), false).Ok?
    ensures Told(WitnessTree(parse), WitnessTool(), BuiltIf(WitnessTree(parse), StrictCall(body), false).value,
                 StrictCall(body)).Ran?
  {
    StrictCallBuilds(parse, body);
    WitnessIsUndemanding(parse);
    var tree, tool := WitnessTree(parse), WitnessTool();
    var b := BuiltIf(tree, StrictCall(body), false).value;
    hide BuiltIf, WellFormed, WitnessTree, WitnessTool, Undemanding, ToolWellFormed, EngineValue, IsConfigName, Told;
    forall a | a in b.argv
      ensures var flag := tree.flags[tool.accepted[a.name]]; flag.set_(flag.def, a.value).Accepts?
    {
      StrictTokensAccepted(parse, a);
    }
    AcceptedRuns(tree, tool, b, StrictCall(body));
  }

  lemma StrictFacts(parse: string -> Option<string>)
    ensures var tree, tool := WitnessTree(parse), WitnessTool();
            && "run" in tree.tools && tree.tools["run"] == tool && tool.exits == {HELP} && tool.path == [1]
            && STRICT in tool.accepted && HELP in tool.accepted
            && 6 in tree.flags && tree.flags[6] == WitnessFlag(parse, 6)
            && 7 in tree.flags && tree.flags[7] == WitnessFlag(parse, 7)
    ensures var flag := WitnessFlag(parse, 6);
            && flag.ScalarFlag? && flag.set_(flag.def, "true") == Accepts("true")
            && DefaultOf(flag) == Scalar("false") && DefaultOf(WitnessFlag(parse, 7)) == Scalar("false")
  {
    BoolsAreAccepted();
    hide BoolSet;
  }

  /** The strict call diverts its command. */
  lemma StrictCallDiverts(parse: string -> Option<string>, body: View -> Outcome)
    ensures WellFormed(WitnessTree(parse)) && Diverts(WitnessTree(parse), Fresh(parse), StrictCall(body))
  {
    hide BuiltIf, WellFormed, WitnessTree, WitnessTool, WitnessFlag, Undemanding, ToolWellFormed, EngineValue;
    hide BoolSet, ParseBool, Told, IsConfigName, Fresh, RanBefore, Runnable;
    StrictCallBuilds(parse, body);
    StrictCallRuns(parse, body);
    WitnessIsUndemanding(parse);
    NamesDiffer();
    BoolsAreAccepted();
    StrictFacts(parse);
    FirstCall(parse, StrictCall(body));
    var tree, tool, c := WitnessTree(parse), WitnessTool(), StrictCall(body);
    var b := BuiltIf(tree, c, false).value;
    OnlyByName(tree, tool, b.argv, HELP);
    NoAssigns(b.assigns, tool.accepted[HELP]);
    StrictDiverts(tree, tool, b, c, "true");
    hide DivertsWhenRun;
  }

  lemma NoAssigns(assigns: seq<Assignment>, f: FlagId)
    requires assigns == []
    ensures !Assigns(assigns, f)
  {
  }

  lemma FirstCall(parse: string -> Option<string>, c: Call)
    ensures !RanBefore(WitnessTree(parse), Fresh(parse), c)
  {
  }

  /**
    So a history without any poisoning can change a reply: on this tree the plain
    call is heard first, and not after a strict call.
   */
  lemma StrictLeakWitness(parse: string -> Option<string>, body: View -> Outcome)
    requires forall view :: body(view).result.Output? && body(view).result.text != ""
    ensures WellFormed(WitnessTree(parse))
    ensures var tree, s := WitnessTree(parse), Fresh(parse);
            && RunCall(tree, s, Plain(body)).1.Ran? && !Silent(RunCall(tree, s, Plain(body)).1)
            && Silent(RunCall(tree, RunCall(tree, s, StrictCall(body)).0, Plain(body)).1)
  {
    var tree, s, c := WitnessTree(parse), Fresh(parse), Plain(body);
    FreshIsClean(parse);
    StrictCallDiverts(parse, body);
    PlainIsTold(parse, body, false);
    assert tree.tools["run"] == WitnessTool() && WitnessTool().path == [1] && s.diverted == {};
    assert !RanBefore(tree, s, c) && Audible(WitnessTool(), s.diverted);
    CallReply(tree, s, c);
    hide RunCall, BuiltIf, Told, WellFormed, Clean, Fits, Diverts, Fresh, WitnessTree;
    StrictCallSilences(tree, s, StrictCall(body), [], c);
    assert RunHistory(tree, RunCall(tree, s, StrictCall(body)).0, []) == RunCall(tree, s, StrictCall(body)).0;
  }

  /** And so can having run at all: --help is an unknown argument first, and let through after a plain call. */
  lemma LateFlagWitness(parse: string -> Option<string>, body: View -> Outcome)
    ensures WellFormed(WitnessTree(parse))
    ensures var tree, s := WitnessTree(parse), Fresh(parse);
            var help := OneArgument("run", HELP, Bool(true), body, true);
            && RunCall(tree, s, help).1 == Invalid(UnknownArgument(HELP))
            && !RunCall(tree, RunCall(tree, s, Plain(body)).0, help).1.Invalid?
  {
    var tree, s := WitnessTree(parse), Fresh(parse);
    var help := OneArgument("run", HELP, Bool(true), body, true);
    FreshIsClean(parse);
    WitnessTreeIsWellFormed(parse);
    HelpIsLate(parse, help);
    PlainIsTold(parse, body, false);
    assert tree.tools["run"] == WitnessTool() && WitnessTool().command == 1;
    assert !RanBefore(tree, s, Plain(body)) && !RanBefore(tree, s, help);
    CallReply(tree, s, help);
    CallMarks(tree, s, Plain(body));
    PlainBegins(parse, body);
    PlainIsHarmless(parse, body, false);
    CallKeepsIsolationIffNotPoisoned(tree, s, Plain(body), Context(0, Config(false, false, "")));
    hide Poisons;
    hide RunCall, BuiltIf, Told, WellFormed, Clean, Fits, Fresh, WitnessTree, Begins;
    var t := RunCall(tree, s, Plain(body)).0;
    CallReply(tree, t, help);
  }

  lemma HelpIsLate(parse: string -> Option<string>, c: Call)
    requires c.tool == "run" && c.args == map[HELP := Bool(true)]
    ensures WellFormed(WitnessTree(parse))
    ensures BuiltIf(WitnessTree(parse), c, false) == Err(UnknownArgument(HELP))
    ensures BuiltIf(WitnessTree(parse), c, true).Ok?
  {
    WitnessTreeIsWellFormed(parse);
    WitnessIsUndemanding(parse);
    NamesDiffer();
    var tree, tool := WitnessTree(parse), WitnessTool();
    ToolAtWellFormed(tree, tool, true);
    assert tree.tools["run"] == tool && HELP in tool.late;
    assert tree.flags[7] == WitnessFlag(parse, 7);
    OneArgumentBuilds(tree, ToolAt(tool, true), c, HELP, "true");
    var keys := Ascending(c.args.Keys);
    assert keys == [HELP] by {
      StringLessIsStrictTotal();
      SortedUnique(keys, [HELP], StringLess);
    }
    assert BuildStep(tree, tool, c.args, EMPTY_DRAFT, HELP) == Err(UnknownArgument(HELP));
    hide WellFormed, ToolWellFormed, BuildStep, WitnessTool, WitnessFlag;
  }

  lemma PlainBegins(parse: string -> Option<string>, body: View -> Outcome)
    ensures WellFormed(WitnessTree(parse)) && Begins(WitnessTree(parse), Fresh(parse), Plain(body))
  {
    PlainBuilds(parse, body, false);
    var tree := WitnessTree(parse);
    assert tree.tools["run"] == WitnessTool() && !RanBefore(tree, Fresh(parse), Plain(body));
    hide BuiltIf, WellFormed, WitnessTool, WitnessTree, Fresh, EngineValue, IsConfigName;
    assert LetThrough(tree, Fresh(parse), Plain(body));
  }

  lemma {:induction false} SafeTokensDoNotPoison(tree: Tree, tool: Tool, argv: seq<FlagArg>)
    requires Parsable(tree, tool, argv)
    requires forall a :: a in argv ==> SafeValue(tree.flags[tool.accepted[a.name]], a.value)
    ensures !PoisonedParse(tree, tool, argv)
    decreases |argv|
  {
    if argv != [] {
      assert argv[0] in argv;
      hide SafeValue;
      SafeTokensDoNotPoison(tree, tool, argv[1..]);
    }
  }

  /** What the engine passes for its own flags is safe on their real types. */
  lemma EngineValuesAreSafe(parse: string -> Option<string>, f: FlagId, v: string)
    requires f < 4 && EngineValue(NameOf(f), v)
    ensures SafeValue(WitnessFlag(parse, f), v)
  {
    ConfigNamesDiffer();
    BoolsAreAccepted();
    hide BoolSet;
  }

  lemma PlainIsHarmless(parse: string -> Option<string>, body: View -> Outcome, ran: bool)
    ensures WellFormed(WitnessTree(parse)) && !Poisons(WitnessTree(parse), Plain(body), ran)
  {
    PlainBuilds(parse, body, ran);
    var tree, c := WitnessTree(parse), Plain(body);
    var b := BuiltIf(tree, c, ran).value;
    assert tree.tools["run"] == WitnessTool();
    hide BuiltIf, WellFormed, EngineValue, SafeValue, WitnessFlag, IsConfigName;
    forall a | a in b.argv ensures SafeValue(tree.flags[WitnessTool().accepted[a.name]], a.value) {
      EngineTokenIsSafe(parse, a);
    }
    hide WitnessTool, WitnessTree;
    SafeTokensDoNotPoison(tree, WitnessTool(), b.argv);
    hide PoisonedParse;
  }

  lemma EngineTokenIsSafe(parse: string -> Option<string>, a: FlagArg)
    requires IsConfigName(a.name) && EngineValue(a.name, a.value)
    ensures a.name in WitnessTool().accepted && WitnessTool().accepted[a.name] in WitnessTree(parse).flags
    ensures var flag := WitnessTree(parse).flags[WitnessTool().accepted[a.name]];
            flag.ScalarFlag? && SafeValue(flag, a.value)
  {
    var f := IdOf(a.name);
    assert NameOf(f) == a.name && f < 4;
    EngineValuesAreSafe(parse, f, a.value);
    assert WitnessTree(parse).flags[f] == WitnessFlag(parse, f) && WitnessTool().accepted[a.name] == f;
    hide SafeValue, EngineValue;
  }
}
