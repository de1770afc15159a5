/**
  The dispatcher as an object: the flag values, changed bits and contexts of the
  shared tree, and the loops that reset, assign, build and parse on them. Each
  method is proved equal to the function of Dispatch that the isolation
  theorems are about.
 */
module Dispatcher {
  import opened Base
  import opened Order
  import opened Dispatch

  /** The loop of buildArgs over the sorted argument names, and its tail. */
  method BuildCallArgs(tree: Tree, tool: Tool, c: Call) returns (r: Result<Built, Reason>)
    requires ToolWellFormed(tree, tool)
    ensures r == BuildArgs(tree, tool, c)
  {
    hide BuildStep;
    hide ToolWellFormed;
    var keys := SortedKeys(c.args.Keys);
    var d := EMPTY_DRAFT;
    for i := 0 to |keys|
      invariant forall k :: k in keys[i..] ==> k in c.args
      invariant BuildFold(tree, tool, c.args, keys, EMPTY_DRAFT) == BuildFold(tree, tool, c.args, keys[i..], d)
    {
      var step := BuildStep(tree, tool, c.args, d, keys[i]);
      assert keys[i..][1..] == keys[i + 1..];
      if step.Err? {
        return Err(step.error);
      }
      d := step.value;
    }
    var names := SortedKeys(tool.accepted.Keys);
    r := Finish(tree, tool, names, d, c.freshKey);
  }

  class Dispatcher {
    const tree: Tree
    var value: map<FlagId, Value>
    var changed: set<FlagId>
    var context: map<CommandId, Context>
    var diverted: set<CommandId>
    var ran: set<CommandId>

    function State(): TreeState
      reads this
    {
      TreeState(value, changed, context, diverted, ran)
    }

    /** The server starts with what its own command line already parsed, if it is mounted. */
    constructor (tree: Tree, parsed: map<FlagId, string>, diverted: set<CommandId>, ran: set<CommandId>)
      requires WellFormed(tree)
      ensures this.tree == tree && State() == Started(tree, parsed, diverted, ran)
    {
      this.tree := tree;
      value := map f | f in tree.flags :: if f in parsed then Scalar(parsed[f]) else DefaultOf(tree.flags[f]);
      changed, context, this.diverted, this.ran := parsed.Keys, map[], diverted, ran;
    }

    /** Restores and rebinds command by command; a panicking flag ends it midway. */
    method ResetCommandTree(ctx: Context) returns (stop: Option<Reply>)
      requires WellFormed(tree)
      modifies this
      ensures ResetTree(tree, old(State()), ctx) ==
              if stop.None? then Done(State()) else Stopped(State(), stop.value)
    {
      var steps := WalkSteps(tree.root);
      assert forall f :: Restore(f) in steps ==> f in tree.flags;
      assert steps[0..] == steps;
      hide WellFormed, RestoreFlag, WalkSteps;
      for i := 0 to |steps|
        invariant forall f :: Restore(f) in steps[i..] ==> f in tree.flags
        invariant ResetAll(tree, State(), steps[i..], ctx) == ResetAll(tree, old(State()), steps, ctx)
      {
        assert steps[i..][0] == steps[i] && steps[i..][1..] == steps[i + 1..];
        match steps[i] {
          case Bind(id) =>
            context := context[id := ctx];
          case Restore(f) =>
            assert Restore(f) in steps[i..];
            var r := RestoreFlag(tree.flags[f], Held(tree, State(), f), f in changed);
            value := value[f := r.value];
            changed := if r.changed then changed + {f} else changed - {f};
            if r.panics {
              return Some(RecoveredPanic);
            }
        }
      }
      stop := None;
    }

    /** Replaces each assigned slice; None means every assignment was taken. */
    method ApplyFlagAssignments(assigns: seq<Assignment>) returns (stop: Option<Reply>)
      requires AssignsOk(tree, assigns)
      modifies this`value, this`changed
      ensures AssignAll(tree, old(State()), assigns) ==
              if stop.None? then Done(State()) else Stopped(State(), stop.value)
    {
      for i := 0 to |assigns|
        invariant AssignsOk(tree, assigns[i..])
        invariant AssignAll(tree, State(), assigns[i..]) == AssignAll(tree, old(State()), assigns)
      {
        var a := assigns[i];
        assert a in assigns[i..];
        assert assigns[i..][1..] == assigns[i + 1..];
        match tree.flags[a.flag].replace(a.values) {
          case Replaced =>
            value := value[a.flag := List(a.values)];
            changed := changed + {a.flag};
          case Refused(left) =>
            value := value[a.flag := LeftList(Held(tree, State(), a.flag), left)];
            return Some(AssignmentRefused(a.flag));
          case ReplacePanics(left) =>
            value := value[a.flag := LeftList(Held(tree, State(), a.flag), left)];
            return Some(RecoveredPanic);
        }
      }
      stop := None;
    }

    /** Cobra's walk over the argument vector. */
    method ParseFlags(tool: Tool, argv: seq<FlagArg>) returns (stop: Option<Reply>)
      requires Parsable(tree, tool, argv)
      modifies this`value, this`changed
      ensures ParseAll(tree, tool, old(State()), argv) ==
              if stop.None? then Done(State()) else Stopped(State(), stop.value)
    {
      for i := 0 to |argv|
        invariant Parsable(tree, tool, argv[i..])
        invariant ParseAll(tree, tool, State(), argv[i..]) == ParseAll(tree, tool, old(State()), argv)
      {
        assert argv[i] in argv[i..];
        assert argv[i..][1..] == argv[i + 1..];
        var f := tool.accepted[argv[i].name];
        var held := Held(tree, State(), f);
        match tree.flags[f].set_(Text(held), argv[i].value) {
          case Accepts(text) =>
            value := value[f := Scalar(text)];
            changed := changed + {f};
          case Rejects(left) =>
            value := value[f := Left(held, left)];
            return Some(FlagRejected(f));
          case SetPanics(left) =>
            value := value[f := Left(held, left)];
            return Some(RecoveredPanic);
        }
      }
      stop := None;
    }

    /** dispatch: look the tool up, build its arguments, reset, assign, parse, run. */
    method Dispatch(c: Call) returns (reply: Reply)
      requires WellFormed(tree)
      modifies this
      ensures RunCall(tree, old(State()), c) == (State(), reply)
    {
      if c.tool !in tree.tools {
        return UnknownTool;
      }
      var tool := tree.tools[c.tool];
      ToolAtWellFormed(tree, tool, tool.command in ran);
      var r := BuildCallArgs(tree, ToolAt(tool, tool.command in ran), c);
      if r.Err? {
        return Invalid(r.error);
      }
      assert r == BuiltIf(tree, c, RanBefore(tree, State(), c));
      hide BuildArgs, BuiltIf;
      hide WellFormed;
      hide ToolWellFormed;
      reply := Run(tool, r.value, c);
    }

    /** runRecovered: a failure or panic anywhere ends the call and leaves the tree as it is. */
    method Run(tool: Tool, b: Built, c: Call) returns (reply: Reply)
      requires WellFormed(tree) && Runnable(tree, tool, b)
      modifies this
      ensures Execute(tree, old(State()), tool, b, c) == (State(), reply)
    {
      var ctx := Context(c.request, b.config);
      var stop := ResetCommandTree(ctx);
      hide ResetTree;
      if stop.Some? {
        return stop.value;
      }
      stop := ApplyFlagAssignments(b.assigns);
      hide AssignAll;
      if stop.Some? {
        return stop.value;
      }
      stop := ParseFlags(tool, b.argv);
      hide ParseAll;
      ran := ran + {tool.command};
      if stop.Some? {
        return stop.value;
      }
      var view := View(value, changed, SeenContext(State(), tool.command, ctx));
      var holds := Holds(tool, view, c.mounted);
      var heard := !holds && Audible(tool, diverted);
      var out := c.body(view);
      context := context[tool.command := out.leaves];
      if holds && tool.path != [] {
        diverted := diverted + {tool.command};
      }
      reply := Ran(view, if heard then out.result else Mute(out.result));
    }
  }
}
