/**
  What a call sees, and what its reply depends on. From a clean tree a command
  sees its own arguments over the defaults. Its reply depends on nothing else that
  earlier calls leave behind but two marks: the writer a strict call puts on its
  command, and the flags Cobra adds to a command it executes.
 */
module Interference {
  import opened Base
  import opened Dispatch
  import opened Arguments
  import opened Isolation

  // ---------------------------------------------------------------------
  // What a reply depends on
  // ---------------------------------------------------------------------

  /** The same state under other writers and executed commands. */
  ghost function Marked(s: TreeState, diverted: set<CommandId>, ran: set<CommandId>): TreeState {
    s.(diverted := diverted, ran := ran)
  }

  ghost function MarkedProgress(p: Progress, diverted: set<CommandId>, ran: set<CommandId>): Progress {
    match p
    case Done(s) => Done(Marked(s, diverted, ran))
    case Stopped(s, reply) => Stopped(Marked(s, diverted, ran), reply)
  }

  lemma {:induction false} AssignIgnoresMarks(tree: Tree, s: TreeState, assigns: seq<Assignment>,
                                              diverted: set<CommandId>, ran: set<CommandId>)
    requires AssignsOk(tree, assigns)
    ensures AssignAll(tree, Marked(s, diverted, ran), assigns) ==
            MarkedProgress(AssignAll(tree, s, assigns), diverted, ran)
    decreases |assigns|
  {
    if assigns != [] {
      AssignsTail(tree, assigns);
      var a := assigns[0];
      if tree.flags[a.flag].replace(a.values).Replaced? {
        var t := s.(value := s.value[a.flag := List(a.values)], changed := s.changed + {a.flag});
        hide AssignsOk;
        AssignIgnoresMarks(tree, t, assigns[1..], diverted, ran);
      }
    }
  }

  lemma {:induction false} ParseIgnoresMarks(tree: Tree, tool: Tool, s: TreeState, argv: seq<FlagArg>,
                                             diverted: set<CommandId>, ran: set<CommandId>)
    requires Parsable(tree, tool, argv)
    ensures ParseAll(tree, tool, Marked(s, diverted, ran), argv) ==
            MarkedProgress(ParseAll(tree, tool, s, argv), diverted, ran)
    decreases |argv|
  {
    if argv != [] {
      assert argv[0] in argv && argv == [argv[0]] + argv[1..];
      var f := tool.accepted[argv[0].name];
      var outcome := tree.flags[f].set_(Text(Held(tree, s, f)), argv[0].value);
      assert Held(tree, Marked(s, diverted, ran), f) == Held(tree, s, f);
      if outcome.Accepts? {
        var t := s.(value := s.value[f := Scalar(outcome.text)], changed := s.changed + {f});
        ParseIgnoresMarks(tree, tool, t, argv[1..], diverted, ran);
      }
    }
  }

  /** A state with every flag at its default and no command diverted or run. */
  ghost function Blank(): TreeState {
    TreeState(map[], {}, map[], {}, {})
  }

  /** What this call is told when no earlier call has put a writer on its command's path. */
  ghost function Told(tree: Tree, tool: Tool, b: Built, c: Call): Reply
    requires Runnable(tree, tool, b)
  {
    ExecuteFrom(tree, Pristine(tree, Blank(), Context(c.request, b.config)), tool, b, c).1
  }

  function MuteReply(r: Reply): Reply {
    if r.Ran? then Ran(r.view, Mute(r.result)) else r
  }

  /** What is answered when the command can be heard, or not. */
  function Answered(told: Reply, audible: bool): Reply {
    if audible then told else MuteReply(told)
  }

  /** This call holds stdout, and leaves its command with a writer of its own. */
  ghost predicate DivertsWhenRun(tree: Tree, tool: Tool, b: Built, c: Call)
    requires Runnable(tree, tool, b)
  {
    var r := Told(tree, tool, b, c);
    r.Ran? && Holds(tool, r.view, c.mounted) && tool.path != []
  }

  /** It gets as far as Cobra executing the command. */
  ghost predicate BeginsWhenRun(tree: Tree, b: Built)
    requires AssignsOk(tree, b.assigns)
  {
    AllReplaced(tree, b.assigns)
  }

  /**
    From a clean state, the reply is the call's own, muted when an ancestor or the
    command itself has a writer; and the writers and executed commands grow by the
    call's own.
   */
  lemma CleanExecute(tree: Tree, s: TreeState, tool: Tool, b: Built, c: Call)
    requires WellFormed(tree) && Fits(tree, s) && Clean(tree, s) && Runnable(tree, tool, b)
    ensures var (t, reply) := Execute(tree, s, tool, b, c);
            && reply == Answered(Told(tree, tool, b, c), Audible(tool, s.diverted))
            && t.diverted == s.diverted + (if DivertsWhenRun(tree, tool, b, c) then {tool.command} else {})
            && t.ran == s.ran + (if BeginsWhenRun(tree, b) then {tool.command} else {})
  {
    var ctx := Context(c.request, b.config);
    ResetRestoresIffClean(tree, s, ctx);
    var blank := Pristine(tree, Blank(), ctx);
    var start := Pristine(tree, s, ctx);
    assert start == Marked(blank, s.diverted, s.ran);
    hide ResetTree, WellFormed, Pristine, Clean, Fits;
    MarkedExecute(tree, blank, tool, b, c, s.diverted, s.ran);
    var p := AssignAll(tree, blank, b.assigns);
    PristineFits(tree, Blank(), ctx);
    AssignFrame(tree, blank, b.assigns);
    hide ExecuteFrom, AssignAll;
  }

  lemma MarkedExecute(tree: Tree, s: TreeState, tool: Tool, b: Built, c: Call,
                      diverted: set<CommandId>, ran: set<CommandId>)
    requires Runnable(tree, tool, b) && s.diverted == {}
    ensures var (t, reply) := ExecuteFrom(tree, Marked(s, diverted, ran), tool, b, c);
            var told := ExecuteFrom(tree, s, tool, b, c).1;
            && reply == Answered(told, Audible(tool, diverted))
            && t.diverted == diverted + (if told.Ran? && Holds(tool, told.view, c.mounted) && tool.path != []
                                         then {tool.command} else {})
            && t.ran == ran + (if AssignAll(tree, s, b.assigns).Done? then {tool.command} else {})
  {
    AssignIgnoresMarks(tree, s, b.assigns, diverted, ran);
    var p := AssignAll(tree, s, b.assigns);
    if p.Done? {
      ParseIgnoresMarks(tree, tool, p.state, b.argv, diverted, ran);
    }
    hide AssignAll, ParseAll, Holds;
  }

  lemma {:induction false} RanOnlyAdmitsFold(
    tree: Tree, tool: Tool, args: map<string, Json>, keys: seq<string>, d: Draft)
    requires ToolWellFormed(tree, tool) && ToolWellFormed(tree, ToolAt(tool, true))
    requires forall k :: k in keys ==> k in args
    ensures (forall k :: k in keys ==> k !in tool.late) || BuildFold(tree, tool, args, keys, d).Ok? ==>
              BuildFold(tree, tool, args, keys, d) == BuildFold(tree, ToolAt(tool, true), args, keys, d)
    decreases |keys|
  {
    if keys != [] {
      assert keys[0] in keys;
      var step := BuildStep(tree, tool, args, d, keys[0]);
      if (forall k :: k in keys ==> k !in tool.late) || BuildFold(tree, tool, args, keys, d).Ok? {
        assert step == BuildStep(tree, ToolAt(tool, true), args, d, keys[0]);
        hide ToolWellFormed, BuildStep;
        if step.Ok? {
          RanOnlyAdmitsFold(tree, tool, args, keys[1..], step.value);
        }
      }
    }
  }

  lemma {:induction false} SameMissing(tree: Tree, tool: Tool, names: seq<string>, given: set<string>)
    requires ToolWellFormed(tree, tool) && ToolWellFormed(tree, ToolAt(tool, true))
    requires forall n :: n in names ==> n in tool.accepted
    ensures FirstMissing(tree, tool, names, given) == FirstMissing(tree, ToolAt(tool, true), names, given)
    decreases |names|
  {
    hide ToolWellFormed;
    if names != [] {
      SameMissing(tree, tool, names[1..], given);
    }
  }

  /** The call names no flag that exists only once its command has been executed. */
  predicate Timeless(tree: Tree, c: Call) {
    c.tool in tree.tools ==> forall k :: k in c.args ==> k !in tree.tools[c.tool].late
  }

  /** Having run before only lets more arguments through, and only those that name a late flag. */
  lemma RanOnlyAdmits(tree: Tree, c: Call)
    requires WellFormed(tree) && c.tool in tree.tools
    ensures Timeless(tree, c) || BuiltIf(tree, c, false).Ok? ==> BuiltIf(tree, c, true) == BuiltIf(tree, c, false)
  {
    var tool := tree.tools[c.tool];
    ToolAtWellFormed(tree, tool, true);
    assert BuiltIf(tree, c, true) == BuildArgs(tree, ToolAt(tool, true), c);
    assert BuiltIf(tree, c, false) == BuildArgs(tree, tool, c);
    var keys := Order.Ascending(c.args.Keys);
    RanOnlyAdmitsFold(tree, tool, c.args, keys, EMPTY_DRAFT);
    var d := BuildFold(tree, tool, c.args, keys, EMPTY_DRAFT);
    hide WellFormed, ToolWellFormed, BuildFold, BuiltIf;
    if d.Ok? {
      SameFinish(tree, tool, Order.Ascending(tool.accepted.Keys), d.value, c.freshKey);
    }
    hide Finish;
  }

  lemma SameFinish(tree: Tree, tool: Tool, names: seq<string>, d: Draft, freshKey: string)
    requires ToolWellFormed(tree, tool) && ToolWellFormed(tree, ToolAt(tool, true))
    requires forall n :: n in names ==> n in tool.accepted
    ensures Finish(tree, tool, names, d, freshKey) == Finish(tree, ToolAt(tool, true), names, d, freshKey)
  {
    SameMissing(tree, tool, names, d.given + {FORMAT, DRY_RUN, IDEMPOTENCY_KEY});
    hide FirstMissing, ToolWellFormed, AllArgs, Order.Sort, FinalKey;
  }

  /**
    Exactly what a reply depends on besides the call. From two clean states the
    replies agree if and only if the same arguments are let through, and either
    both can be heard, or neither, or there was nothing to hear.
   */
  lemma SameReplyIff(tree: Tree, s: TreeState, t: TreeState, c: Call)
    requires WellFormed(tree) && c.tool in tree.tools
    requires Fits(tree, s) && Clean(tree, s) && Fits(tree, t) && Clean(tree, t)
    ensures var tool := tree.tools[c.tool];
            var b := BuiltIf(tree, c, RanBefore(tree, s, c));
            RunCall(tree, s, c).1 == RunCall(tree, t, c).1 <==>
            && b == BuiltIf(tree, c, RanBefore(tree, t, c))
            && (b.Ok? ==>
                  || (Audible(tool, s.diverted) <==> Audible(tool, t.diverted))
                  || MuteReply(Told(tree, tool, b.value, c)) == Told(tree, tool, b.value, c))
  {
    CallReply(tree, s, c);
    CallReply(tree, t, c);
    RanOnlyAdmits(tree, c);
    var tool := tree.tools[c.tool];
    var b, d := BuiltIf(tree, c, RanBefore(tree, s, c)), BuiltIf(tree, c, RanBefore(tree, t, c));
    hide *;
    if b.Ok? && d.Ok? {
      AnswersAgree(Told(tree, tool, b.value, c), Audible(tool, s.diverted), Audible(tool, t.diverted));
    }
  }

  lemma AnswersAgree(told: Reply, one: bool, other: bool)
    ensures Answered(told, one) == Answered(told, other) <==> one == other || MuteReply(told) == told
  {
  }

  /** The reply from a clean state. */
  lemma CallReply(tree: Tree, s: TreeState, c: Call)
    requires WellFormed(tree) && Fits(tree, s) && Clean(tree, s) && c.tool in tree.tools
    ensures var tool := tree.tools[c.tool];
            var b := BuiltIf(tree, c, RanBefore(tree, s, c));
            RunCall(tree, s, c).1 ==
            if b.Err? then Invalid(b.error) else Answered(Told(tree, tool, b.value, c), Audible(tool, s.diverted))
    ensures BuiltIf(tree, c, RanBefore(tree, s, c)).Ok? ==> !RunCall(tree, s, c).1.Invalid?
  {
    CallExecutes(tree, s, c);
    var b := BuiltIf(tree, c, RanBefore(tree, s, c));
    hide RunCall, BuiltIf, Execute, Told, Audible, Clean, Fits, RanBefore, ToolWellFormed;
    if b.Ok? {
      CleanExecute(tree, s, tree.tools[c.tool], b.value, c);
      ToldIsNotInvalid(tree, tree.tools[c.tool], b.value, c);
    }
    hide WellFormed, BuiltOk, Runnable;
  }

  lemma ToldIsNotInvalid(tree: Tree, tool: Tool, b: Built, c: Call)
    requires Runnable(tree, tool, b)
    ensures !Told(tree, tool, b, c).Invalid?
  {
    var start := Pristine(tree, Blank(), Context(c.request, b.config));
    hide Pristine;
    AssignStops(tree, start, b.assigns);
    if AssignAll(tree, start, b.assigns).Done? {
      ParseStops(tree, tool, AssignAll(tree, start, b.assigns).state, b.argv);
    }
    hide AssignAll, ParseAll;
  }

  lemma {:induction false} AssignStops(tree: Tree, s: TreeState, assigns: seq<Assignment>)
    requires AssignsOk(tree, assigns)
    ensures var p := AssignAll(tree, s, assigns); p.Stopped? ==> p.reply.AssignmentRefused? || p.reply.RecoveredPanic?
    decreases |assigns|
  {
    if assigns != [] {
      AssignsTail(tree, assigns);
      var a := assigns[0];
      AssignStops(tree, s.(value := s.value[a.flag := List(a.values)], changed := s.changed + {a.flag}), assigns[1..]);
    }
  }

  lemma {:induction false} ParseStops(tree: Tree, tool: Tool, s: TreeState, argv: seq<FlagArg>)
    requires Parsable(tree, tool, argv)
    ensures var p := ParseAll(tree, tool, s, argv); p.Stopped? ==> p.reply.FlagRejected? || p.reply.RecoveredPanic?
    decreases |argv|
  {
    if argv != [] {
      assert argv[0] in argv && argv == [argv[0]] + argv[1..];
      var f := tool.accepted[argv[0].name];
      var outcome := tree.flags[f].set_(Text(Held(tree, s, f)), argv[0].value);
      if outcome.Accepts? {
        ParseStops(tree, tool, s.(value := s.value[f := Scalar(outcome.text)], changed := s.changed + {f}), argv[1..]);
      }
    }
  }

  // ---------------------------------------------------------------------
  // Histories
  // ---------------------------------------------------------------------

  /** No call of the history poisons. */
  ghost predicate Harmless(tree: Tree, calls: seq<Call>)
    requires WellFormed(tree)
  {
    forall c :: c in calls ==> !Poisons(tree, c, true)
  }

  lemma HarmlessCall(tree: Tree, c: Call, ran: bool)
    requires WellFormed(tree) && !Poisons(tree, c, true)
    ensures !Poisons(tree, c, ran)
  {
    if c.tool in tree.tools {
      RanOnlyAdmits(tree, c);
    }
    hide BuiltIf, PoisonsWhenRun;
  }

  lemma {:induction false} HistoryStaysClean(tree: Tree, s: TreeState, calls: seq<Call>)
    requires WellFormed(tree) && Fits(tree, s) && Clean(tree, s) && Harmless(tree, calls)
    ensures Fits(tree, RunHistory(tree, s, calls)) && Clean(tree, RunHistory(tree, s, calls))
    decreases |calls|
  {
    if calls != [] {
      assert calls[0] in calls;
      HarmlessCall(tree, calls[0], RanBefore(tree, s, calls[0]));
      CallKeepsIsolationIffNotPoisoned(tree, s, calls[0], Context(0, Config(false, false, "")));
      hide RunCall, Clean, Fits, Poisons;
      HistoryStaysClean(tree, RunCall(tree, s, calls[0]).0, calls[1..]);
    }
  }

  /** This call, let through, puts a writer on its command. */
  ghost predicate Diverts(tree: Tree, s: TreeState, c: Call)
    requires WellFormed(tree)
  {
    LetThrough(tree, s, c) &&
    DivertsWhenRun(tree, tree.tools[c.tool], BuiltIf(tree, c, RanBefore(tree, s, c)).value, c)
  }

  /** This call, let through, has Cobra execute its command. */
  ghost predicate Begins(tree: Tree, s: TreeState, c: Call)
    requires WellFormed(tree)
  {
    LetThrough(tree, s, c) && BeginsWhenRun(tree, BuiltIf(tree, c, RanBefore(tree, s, c)).value)
  }

  lemma CallMarks(tree: Tree, s: TreeState, c: Call)
    requires WellFormed(tree) && Fits(tree, s) && Clean(tree, s)
    ensures var t := RunCall(tree, s, c).0;
            && t.diverted == s.diverted + (if Diverts(tree, s, c) then {tree.tools[c.tool].command} else {})
            && t.ran == s.ran + (if Begins(tree, s, c) then {tree.tools[c.tool].command} else {})
  {
    CallExecutes(tree, s, c);
    if LetThrough(tree, s, c) {
      CleanExecute(tree, s, tree.tools[c.tool], BuiltIf(tree, c, RanBefore(tree, s, c)).value, c);
    }
    hide RunCall, BuiltIf, Execute, Told, Audible, Clean, Fits, DivertsWhenRun, BeginsWhenRun;
  }

  lemma {:induction false} HistorySnoc(tree: Tree, s: TreeState, calls: seq<Call>, n: nat)
    requires WellFormed(tree) && n < |calls|
    ensures RunHistory(tree, s, calls[..n + 1]) == RunCall(tree, RunHistory(tree, s, calls[..n]), calls[n]).0
    decreases n
  {
    hide RunCall;
    if n == 0 {
      assert calls[..1] == [calls[0]] && calls[..1][1..] == [];
      assert RunHistory(tree, s, calls[..0]) == s;
    } else {
      assert calls[..n + 1][1..] == calls[1..][..n] && calls[..n][1..] == calls[1..][..n - 1];
      HistorySnoc(tree, RunCall(tree, s, calls[0]).0, calls[1..], n - 1);
    }
  }

  /** The i-th call of the history is made where the earlier ones left the tree, and diverts this command. */
  ghost predicate DivertsAt(tree: Tree, s: TreeState, calls: seq<Call>, i: nat, id: CommandId)
    requires WellFormed(tree) && i < |calls|
  {
    Diverts(tree, RunHistory(tree, s, calls[..i]), calls[i]) && tree.tools[calls[i].tool].command == id
  }

  ghost predicate BeginsAt(tree: Tree, s: TreeState, calls: seq<Call>, i: nat, id: CommandId)
    requires WellFormed(tree) && i < |calls|
  {
    Begins(tree, RunHistory(tree, s, calls[..i]), calls[i]) && tree.tools[calls[i].tool].command == id
  }

  ghost predicate DivertedBefore(tree: Tree, s: TreeState, calls: seq<Call>, n: nat, id: CommandId)
    requires WellFormed(tree) && n <= |calls|
  {
    id in s.diverted || exists i: nat :: i < n && DivertsAt(tree, s, calls, i, id)
  }

  ghost predicate BegunBefore(tree: Tree, s: TreeState, calls: seq<Call>, n: nat, id: CommandId)
    requires WellFormed(tree) && n <= |calls|
  {
    id in s.ran || exists i: nat :: i < n && BeginsAt(tree, s, calls, i, id)
  }

  lemma OneMoreCall(tree: Tree, s: TreeState, calls: seq<Call>, n: nat, id: CommandId)
    requires WellFormed(tree) && n < |calls|
    ensures DivertedBefore(tree, s, calls, n + 1, id) <==>
            DivertedBefore(tree, s, calls, n, id) || DivertsAt(tree, s, calls, n, id)
    ensures BegunBefore(tree, s, calls, n + 1, id) <==>
            BegunBefore(tree, s, calls, n, id) || BeginsAt(tree, s, calls, n, id)
  {
    hide DivertsAt, BeginsAt, WellFormed;
  }

  /** A history leaves a command diverted, or executed, exactly when one of its calls did so. */
  lemma {:induction false} HistoryMarks(tree: Tree, s: TreeState, calls: seq<Call>, n: nat, id: CommandId)
    requires WellFormed(tree) && Fits(tree, s) && Clean(tree, s) && Harmless(tree, calls) && n <= |calls|
    ensures id in RunHistory(tree, s, calls[..n]).diverted <==> DivertedBefore(tree, s, calls, n, id)
    ensures id in RunHistory(tree, s, calls[..n]).ran <==> BegunBefore(tree, s, calls, n, id)
    decreases n
  {
    if n == 0 {
      assert calls[..0] == [];
    } else {
      HistoryMarks(tree, s, calls, n - 1, id);
      HistorySnoc(tree, s, calls, n - 1);
      assert Harmless(tree, calls[..n - 1]);
      HistoryStaysClean(tree, s, calls[..n - 1]);
      CallMarks(tree, RunHistory(tree, s, calls[..n - 1]), calls[n - 1]);
      OneMoreCall(tree, s, calls, n - 1, id);
      hide RunCall, RunHistory, Diverts, Begins, Clean, Fits, Harmless, WellFormed, DivertedBefore, BegunBefore;
    }
  }

  /** Some call of the history, or the start, left a writer on the way to c's command. */
  ghost predicate PathDiverted(tree: Tree, s: TreeState, calls: seq<Call>, c: Call)
    requires WellFormed(tree) && c.tool in tree.tools
  {
    exists id :: id in tree.tools[c.tool].path && DivertedBefore(tree, s, calls, |calls|, id)
  }

  /** Some call of the history, or of before, had Cobra execute c's command. */
  ghost predicate CommandBegun(tree: Tree, s: TreeState, calls: seq<Call>, c: Call)
    requires WellFormed(tree) && c.tool in tree.tools
  {
    BegunBefore(tree, s, calls, |calls|, tree.tools[c.tool].command)
  }

  lemma HistoryBits(tree: Tree, s: TreeState, calls: seq<Call>, c: Call)
    requires WellFormed(tree) && Fits(tree, s) && Clean(tree, s) && Harmless(tree, calls) && c.tool in tree.tools
    ensures var t := RunHistory(tree, s, calls);
            && (Audible(tree.tools[c.tool], t.diverted) <==> !PathDiverted(tree, s, calls, c))
            && (RanBefore(tree, t, c) <==> CommandBegun(tree, s, calls, c))
  {
    assert calls[..|calls|] == calls;
    forall id
      ensures id in RunHistory(tree, s, calls).diverted <==> DivertedBefore(tree, s, calls, |calls|, id)
      ensures id in RunHistory(tree, s, calls).ran <==> BegunBefore(tree, s, calls, |calls|, id)
    {
      HistoryMarks(tree, s, calls, |calls|, id);
    }
    hide RunHistory, DivertedBefore, BegunBefore, Clean, Fits, Harmless, WellFormed;
  }

  /**
    Non-interference, exactly. Over every pair of histories without a poisoning
    call, including failed parses, refused assignments, rejected arguments and
    panicking bodies, the next call gets the same reply if and only if: either its
    command has been executed in both or neither, or that decides nothing about
    its arguments; and a strict call has diverted its command's path in both or
    neither, or it had nothing to write.
   */
  lemma NonInterferenceIff(tree: Tree, s: TreeState, before: seq<Call>, instead: seq<Call>, c: Call)
    requires WellFormed(tree) && Fits(tree, s) && Clean(tree, s) && c.tool in tree.tools
    requires Harmless(tree, before) && Harmless(tree, instead)
    ensures var tool := tree.tools[c.tool];
            var b := BuiltIf(tree, c, CommandBegun(tree, s, before, c));
            RunCall(tree, RunHistory(tree, s, before), c).1 == RunCall(tree, RunHistory(tree, s, instead), c).1 <==>
            && b == BuiltIf(tree, c, CommandBegun(tree, s, instead, c))
            && (b.Ok? ==>
                  || (PathDiverted(tree, s, before, c) <==> PathDiverted(tree, s, instead, c))
                  || MuteReply(Told(tree, tool, b.value, c)) == Told(tree, tool, b.value, c))
  {
    HistoryStaysClean(tree, s, before);
    HistoryStaysClean(tree, s, instead);
    HistoryBits(tree, s, before, c);
    HistoryBits(tree, s, instead, c);
    SameReplyIff(tree, RunHistory(tree, s, before), RunHistory(tree, s, instead), c);
    hide RunCall, RunHistory, BuiltIf, Told, Audible, Fits, Clean, Harmless, PathDiverted, CommandBegun;
  }

  /**
    So a call that names no late flag, after histories that divert no command on
    its path, is told the same: the same view of every flag, changed bit and
    context, and the same result.
   */
  lemma NonInterference(tree: Tree, s: TreeState, before: seq<Call>, instead: seq<Call>, c: Call)
    requires WellFormed(tree) && Fits(tree, s) && Clean(tree, s)
    requires Harmless(tree, before) && Harmless(tree, instead) && Timeless(tree, c)
    requires c.tool in tree.tools ==>
               !PathDiverted(tree, s, before, c) && !PathDiverted(tree, s, instead, c)
    ensures RunCall(tree, RunHistory(tree, s, before), c).1 == RunCall(tree, RunHistory(tree, s, instead), c).1
  {
    if c.tool in tree.tools {
      NonInterferenceIff(tree, s, before, instead, c);
      RanOnlyAdmits(tree, c);
      hide RunHistory, BuiltIf, Told, PathDiverted, CommandBegun, Harmless, Timeless, RunCall;
    } else {
      hide RunHistory;
    }
  }

  // ---------------------------------------------------------------------
  // What a call sees
  // ---------------------------------------------------------------------

  predicate AllAccepted(tree: Tree, tool: Tool, s: TreeState, argv: seq<FlagArg>)
    requires Parsable(tree, tool, argv)
  {
    forall a :: a in argv ==>
      var f := tool.accepted[a.name];
      tree.flags[f].set_(Text(Held(tree, s, f)), a.value).Accepts?
  }

  /** t is s with the tokens' flags set and marked changed, and nothing else touched. */
  ghost predicate Overlaid(tree: Tree, tool: Tool, argv: seq<FlagArg>, s: TreeState, t: TreeState)
    requires Parsable(tree, tool, argv) && s.value.Keys == tree.flags.Keys
  {
    && t.value.Keys == tree.flags.Keys
    && t.context == s.context
    && (forall a :: a in argv ==>
          var f := tool.accepted[a.name];
          && f in t.changed && t.value[f].Scalar?
          && tree.flags[f].set_(Text(s.value[f]), a.value) == Accepts(t.value[f].text))
    && (forall f :: f in tree.flags && !Names(tool, argv, f) ==>
          t.value[f] == s.value[f] && (f in t.changed <==> f in s.changed))
  }

  /**
    Parsing overlays the named flags on the state. The description mentions the
    tokens only as a set, so the order they are sorted into cannot matter.
   */
  lemma {:induction false} ParseOverlays(tree: Tree, tool: Tool, s: TreeState, argv: seq<FlagArg>)
    requires Parsable(tree, tool, argv) && NamesApart(tool, argv)
    requires s.value.Keys == tree.flags.Keys
    ensures var p := ParseAll(tree, tool, s, argv);
            && (p.Done? <==> AllAccepted(tree, tool, s, argv))
            && (p.Done? ==> Overlaid(tree, tool, argv, s, p.state))
    decreases |argv|
  {
    if argv != [] {
      var a, f := argv[0], tool.accepted[argv[0].name];
      ParseAllStep(tree, tool, s, argv);
      assert argv == [a] + argv[1..];
      ApartFromRest(tool, argv);
      var outcome := tree.flags[f].set_(Text(s.value[f]), a.value);
      var p := ParseAll(tree, tool, s, argv);
      hide ParseAll;
      if outcome.Accepts? {
        var t := ParsedOne(tree, s, f, a.value);
        assert t == s.(value := s.value[f := Scalar(outcome.text)], changed := s.changed + {f});
        hide ParsedOne;
        assert t.value.Keys == s.value.Keys;
        ParseOverlays(tree, tool, t, argv[1..]);
        AcceptedApart(tree, tool, s, t, argv);
        hide Overlaid, AllAccepted, NamesApart;
        if p.Done? {
          OverlayStep(tree, tool, argv, s, outcome.text, p.state);
        }
      } else {
        assert !AllAccepted(tree, tool, s, argv);
      }
    }
  }

  /** Setting the first token's flag does not change what the other tokens meet. */
  lemma AcceptedApart(tree: Tree, tool: Tool, s: TreeState, t: TreeState, argv: seq<FlagArg>)
    requires Parsable(tree, tool, argv) && argv != [] && argv[0] in argv && Parsable(tree, tool, argv[1..])
    requires !Names(tool, argv[1..], tool.accepted[argv[0].name])
    requires forall g :: g != tool.accepted[argv[0].name] && g in tree.flags ==> Held(tree, t, g) == Held(tree, s, g)
    requires var f := tool.accepted[argv[0].name]; tree.flags[f].set_(Text(Held(tree, s, f)), argv[0].value).Accepts?
    ensures AllAccepted(tree, tool, s, argv) <==> AllAccepted(tree, tool, t, argv[1..])
  {
    assert argv == [argv[0]] + argv[1..];
    hide Held;
    forall a | a in argv[1..] ensures tool.accepted[a.name] != tool.accepted[argv[0].name] {
    }
  }

  /** Overlaying the first token and then the rest overlays them all. */
  lemma OverlayStep(tree: Tree, tool: Tool, argv: seq<FlagArg>, s: TreeState, text: string, u: TreeState)
    requires Parsable(tree, tool, argv) && argv != [] && argv[0] in argv
    requires !Names(tool, argv[1..], tool.accepted[argv[0].name])
    requires s.value.Keys == tree.flags.Keys
    requires Parsable(tree, tool, argv[1..])
    requires var f := tool.accepted[argv[0].name];
             tree.flags[f].set_(Text(s.value[f]), argv[0].value) == Accepts(text)
    requires var f := tool.accepted[argv[0].name];
             var t := s.(value := s.value[f := Scalar(text)], changed := s.changed + {f});
             t.value.Keys == tree.flags.Keys && Overlaid(tree, tool, argv[1..], t, u)
    ensures Overlaid(tree, tool, argv, s, u)
  {
    var f := tool.accepted[argv[0].name];
    var t := s.(value := s.value[f := Scalar(text)], changed := s.changed + {f});
    assert f in u.changed && u.value[f] == Scalar(text);
    RestNamesOthers(tree, tool, argv);
    forall g ensures Names(tool, argv, g) <==> g == f || Names(tool, argv[1..], g) {
      NamesCons(tool, argv, g);
    }
    hide Names, Text;
    forall a | a in argv ensures TokenTaken(tree, tool, a, s, u) {
      if a != argv[0] {
        assert a in argv[1..] && TokenTaken(tree, tool, a, t, u);
      }
    }
  }

  /** The token's flag holds what came of it. */
  ghost predicate TokenTaken(tree: Tree, tool: Tool, a: FlagArg, s: TreeState, t: TreeState) {
    a.name in tool.accepted &&
    var f := tool.accepted[a.name];
    && f in tree.flags && tree.flags[f].ScalarFlag? && f in s.value
    && f in t.changed && f in t.value && t.value[f].Scalar?
    && tree.flags[f].set_(Text(s.value[f]), a.value) == Accepts(t.value[f].text)
  }

  lemma RestNamesOthers(tree: Tree, tool: Tool, argv: seq<FlagArg>)
    requires Parsable(tree, tool, argv) && argv != [] && argv[0] in argv
    requires !Names(tool, argv[1..], tool.accepted[argv[0].name])
    ensures forall a :: a in argv && a != argv[0] ==>
              a in argv[1..] && tool.accepted[a.name] != tool.accepted[argv[0].name]
  {
    assert argv == [argv[0]] + argv[1..];
  }

  lemma OverlayIsDetermined(tree: Tree, tool: Tool, argv: seq<FlagArg>, other: seq<FlagArg>,
                            s: TreeState, t: TreeState, u: TreeState)
    requires Parsable(tree, tool, argv) && Parsable(tree, tool, other) && s.value.Keys == tree.flags.Keys
    requires forall a :: a in argv <==> a in other
    requires Overlaid(tree, tool, argv, s, t) && Overlaid(tree, tool, other, s, u)
    ensures t.value == u.value
    ensures forall f :: f in tree.flags ==> (f in t.changed <==> f in u.changed)
  {
    forall f | f in tree.flags ensures t.value[f] == u.value[f] && (f in t.changed <==> f in u.changed) {
      if Names(tool, argv, f) {
        var a :| a in argv && a.name in tool.accepted && tool.accepted[a.name] == f;
        assert a in other;
      } else {
        assert !Names(tool, other, f);
      }
    }
  }

  /** Sorting the argument vector cannot change what is parsed, or whether it parses. */
  lemma ArgvOrderIsIrrelevant(tree: Tree, tool: Tool, s: TreeState, argv: seq<FlagArg>, other: seq<FlagArg>)
    requires ToolWellFormed(tree, tool) && Fits(tree, s)
    requires Parsable(tree, tool, argv) && DistinctNames(argv) && multiset(argv) == multiset(other)
    ensures Parsable(tree, tool, other)
    ensures ParseAll(tree, tool, s, argv).Done? <==> ParseAll(tree, tool, s, other).Done?
    ensures var p, q := ParseAll(tree, tool, s, argv), ParseAll(tree, tool, s, other);
            p.Done? ==> p.state.value == q.state.value
                        && forall f :: f in tree.flags ==> (f in p.state.changed <==> f in q.state.changed)
  {
    PermutedNames(argv, other);
    ApartByName(tree, tool, argv);
    ApartByName(tree, tool, other);
    hide ToolWellFormed;
    hide NamesApart;
    hide DistinctNames;
    ParseOverlays(tree, tool, s, argv);
    ParseOverlays(tree, tool, s, other);
    hide ParseAll;
    hide Overlaid;
    var p, q := ParseAll(tree, tool, s, argv), ParseAll(tree, tool, s, other);
    if p.Done? {
      OverlayIsDetermined(tree, tool, argv, other, s, p.state, q.state);
    }
  }

  /** The token was not reached, or its Set accepted it. */
  predicate UntouchedOrAccepted(tree: Tree, f: FlagId, value: string, s: TreeState, t: TreeState)
    requires f in tree.flags && tree.flags[f].ScalarFlag? && f in s.value && f in t.value
  {
    || (t.value[f] == s.value[f] && (f in t.changed <==> f in s.changed))
    || (&& f in t.changed && t.value[f].Scalar?
        && tree.flags[f].set_(Text(s.value[f]), value) == Accepts(t.value[f].text))
  }

  /** The parse stopped at the token bad; of the others, some were accepted and some not reached. */
  ghost predicate PartlyOverlaid(tree: Tree, tool: Tool, argv: seq<FlagArg>, bad: FlagArg, s: TreeState, t: TreeState)
    requires Parsable(tree, tool, argv) && s.value.Keys == tree.flags.Keys && bad in argv
  {
    var stop := tool.accepted[bad.name];
    var outcome := tree.flags[stop].set_(Text(s.value[stop]), bad.value);
    && t.value.Keys == tree.flags.Keys
    && !outcome.Accepts?
    && t.value[stop] == Left(s.value[stop], outcome.left) && (stop in t.changed <==> stop in s.changed)
    && (forall a :: a in argv && a != bad ==> UntouchedOrAccepted(tree, tool.accepted[a.name], a.value, s, t))
    && (forall f :: f in tree.flags && !Names(tool, argv, f) ==>
          t.value[f] == s.value[f] && (f in t.changed <==> f in s.changed))
  }

  /**
    A parse that stops names one failing token, leaves what that token wrote, and
    otherwise differs from the start only in accepted tokens. Which failing token
    and which accepted ones is all that the order decides.
   */
  lemma {:induction false} StoppedParse(tree: Tree, tool: Tool, s: TreeState, argv: seq<FlagArg>) returns (bad: FlagArg)
    requires Parsable(tree, tool, argv) && NamesApart(tool, argv)
    requires s.value.Keys == tree.flags.Keys && ParseAll(tree, tool, s, argv).Stopped?
    ensures bad in argv && PartlyOverlaid(tree, tool, argv, bad, s, ParseAll(tree, tool, s, argv).state)
    ensures var f := tool.accepted[bad.name];
            ParseAll(tree, tool, s, argv).reply ==
            if tree.flags[f].set_(Text(s.value[f]), bad.value).Rejects? then FlagRejected(f) else RecoveredPanic
    decreases |argv|
  {
    var a := argv[0];
    assert argv == [a] + argv[1..] && a in argv;
    var f := tool.accepted[a.name];
    ApartFromRest(tool, argv);
    var outcome := tree.flags[f].set_(Text(s.value[f]), a.value);
    if outcome.Accepts? {
      var t := s.(value := s.value[f := Scalar(outcome.text)], changed := s.changed + {f});
      assert t.value.Keys == s.value.Keys;
      var p := ParseAll(tree, tool, t, argv[1..]);
      assert ParseAll(tree, tool, s, argv) == p;
      hide ParseAll, PartlyOverlaid, NamesApart;
      bad := StoppedParse(tree, tool, t, argv[1..]);
      assert tool.accepted[bad.name] != f;
      PartlyOverlayStep(tree, tool, argv, bad, s, outcome.text, p.state);
    } else {
      bad := a;
      StopsAtOnce(tree, tool, argv, s, ParseAll(tree, tool, s, argv).state);
      hide PartlyOverlaid, NamesApart;
    }
  }

  lemma PartlyOverlayStep(tree: Tree, tool: Tool, argv: seq<FlagArg>, bad: FlagArg, s: TreeState, text: string,
                          u: TreeState)
    requires Parsable(tree, tool, argv) && argv != [] && argv[0] in argv && Parsable(tree, tool, argv[1..])
    requires !Names(tool, argv[1..], tool.accepted[argv[0].name]) && bad in argv[1..] && bad in argv
    requires s.value.Keys == tree.flags.Keys
    requires var f := tool.accepted[argv[0].name];
             && tree.flags[f].set_(Text(s.value[f]), argv[0].value) == Accepts(text)
             && var t := s.(value := s.value[f := Scalar(text)], changed := s.changed + {f});
                t.value.Keys == tree.flags.Keys && PartlyOverlaid(tree, tool, argv[1..], bad, t, u)
    ensures PartlyOverlaid(tree, tool, argv, bad, s, u)
  {
    var f := tool.accepted[argv[0].name];
    assert argv == [argv[0]] + argv[1..];
    forall g ensures Names(tool, argv, g) <==> g == f || Names(tool, argv[1..], g) {
      NamesCons(tool, argv, g);
    }
    forall a | a in argv[1..] ensures tool.accepted[a.name] != f {
    }
    hide Names, Left, Text;
    var t := s.(value := s.value[f := Scalar(text)], changed := s.changed + {f});
    assert UntouchedOrAccepted(tree, f, argv[0].value, s, u);
    forall a | a in argv && a != bad ensures UntouchedOrAccepted(tree, tool.accepted[a.name], a.value, s, u) {
      if a != argv[0] {
        assert UntouchedOrAccepted(tree, tool.accepted[a.name], a.value, t, u);
      }
    }
    hide UntouchedOrAccepted;
  }

  lemma StopsAtOnce(tree: Tree, tool: Tool, argv: seq<FlagArg>, s: TreeState, u: TreeState)
    requires Parsable(tree, tool, argv) && argv != [] && argv[0] in argv && s.value.Keys == tree.flags.Keys
    requires !Names(tool, argv[1..], tool.accepted[argv[0].name])
    requires var f := tool.accepted[argv[0].name];
             var outcome := tree.flags[f].set_(Text(s.value[f]), argv[0].value);
             !outcome.Accepts? && u == s.(value := s.value[f := Left(s.value[f], outcome.left)])
    ensures PartlyOverlaid(tree, tool, argv, argv[0], s, u)
  {
    var f := tool.accepted[argv[0].name];
    assert argv == [argv[0]] + argv[1..];
    assert u.value.Keys == s.value.Keys;
    assert Names(tool, argv, f);
    forall a | a in argv && a != argv[0] ensures tool.accepted[a.name] != f {
      assert a in argv[1..];
    }
    hide Names;
  }

  ghost predicate SlicesOverlaid(tree: Tree, assigns: seq<Assignment>, s: TreeState, t: TreeState)
    requires s.value.Keys == tree.flags.Keys
  {
    && t.value.Keys == tree.flags.Keys
    && t.context == s.context
    && (forall a :: a in assigns && a.flag in tree.flags ==>
          a.flag in t.changed && t.value[a.flag] == List(a.values))
    && (forall f :: f in tree.flags && !Assigns(assigns, f) ==>
          t.value[f] == s.value[f] && (f in t.changed <==> f in s.changed))
  }

  lemma {:induction false} AssignOverlays(tree: Tree, s: TreeState, assigns: seq<Assignment>)
    requires AssignsOk(tree, assigns) && s.value.Keys == tree.flags.Keys
    requires AssignAll(tree, s, assigns).Done?
    ensures SlicesOverlaid(tree, assigns, s, AssignAll(tree, s, assigns).state)
    decreases |assigns|
  {
    if assigns != [] {
      var a := assigns[0];
      AssignsTail(tree, assigns);
      AssignAllStep(tree, s, assigns);
      var t := AssignedOne(tree, s, a);
      assert t == s.(value := s.value[a.flag := List(a.values)], changed := s.changed + {a.flag});
      assert t.value.Keys == s.value.Keys;
      hide AssignAll, AssignedOne, AssignsOk, AllReplaced;
      AssignOverlays(tree, t, assigns[1..]);
      hide SlicesOverlaid;
      SlicesOverlayStep(tree, assigns, s, AssignAll(tree, t, assigns[1..]).state);
    }
  }

  lemma SlicesOverlayStep(tree: Tree, assigns: seq<Assignment>, s: TreeState, u: TreeState)
    requires assigns != [] && !Assigns(assigns[1..], assigns[0].flag) && s.value.Keys == tree.flags.Keys
    requires var a := assigns[0];
             var t := s.(value := s.value[a.flag := List(a.values)], changed := s.changed + {a.flag});
             t.value.Keys == tree.flags.Keys && SlicesOverlaid(tree, assigns[1..], t, u)
    ensures SlicesOverlaid(tree, assigns, s, u)
  {
    assert assigns == [assigns[0]] + assigns[1..];
    forall f ensures Assigns(assigns, f) <==> f == assigns[0].flag || Assigns(assigns[1..], f) {
      AssignsCons(assigns, f);
    }
    forall a | a in assigns[1..] ensures a.flag != assigns[0].flag {
    }
    hide Assigns;
  }

  /** The view of a call that runs, written from its arguments and the defaults. */
  ghost predicate ViewOf(tree: Tree, tool: Tool, b: Built, c: Call, view: View)
    requires Parsable(tree, tool, b.argv)
  {
    && view.value.Keys == tree.flags.Keys
    && view.context == Context(c.request, b.config)
    && (forall a :: a in b.argv ==>
          var f := tool.accepted[a.name];
          && f in view.changed && view.value[f].Scalar?
          && tree.flags[f].set_(tree.flags[f].def, a.value) == Accepts(view.value[f].text))
    && (forall a :: a in b.assigns && a.flag in view.value ==>
          a.flag in view.changed && view.value[a.flag] == List(a.values))
    && (forall f :: f in tree.flags && !Names(tool, b.argv, f) && !Assigns(b.assigns, f) ==>
          f !in view.changed && view.value[f] == DefaultOf(tree.flags[f]))
  }

  /** From a clean state, what the body sees, and the result it is told unless muted. */
  lemma ToldSees(tree: Tree, tool: Tool, b: Built, c: Call)
    requires ToolWellFormed(tree, tool) && Runnable(tree, tool, b)
    ensures var r := Told(tree, tool, b, c);
            r.Ran? ==>
              && ViewOf(tree, tool, b, c, r.view)
              && r.result == if Holds(tool, r.view, c.mounted) then Mute(c.body(r.view).result)
                             else c.body(r.view).result
  {
    var ctx := Context(c.request, b.config);
    var start := Pristine(tree, Blank(), ctx);
    var p := AssignAll(tree, start, b.assigns);
    if p.Done? && ParseAll(tree, tool, p.state, b.argv).Done? {
      RunSees(tree, tool, b, c);
      assert Audible(tool, ParseAll(tree, tool, p.state, b.argv).state.diverted);
    }
    hide Pristine, ViewOf, AssignAll, ParseAll, Holds, Audible;
  }

  lemma RunSees(tree: Tree, tool: Tool, b: Built, c: Call)
    requires ToolWellFormed(tree, tool) && Runnable(tree, tool, b)
    requires var start := Pristine(tree, Blank(), Context(c.request, b.config));
             && AssignAll(tree, start, b.assigns).Done?
             && ParseAll(tree, tool, AssignAll(tree, start, b.assigns).state, b.argv).Done?
    ensures var ctx := Context(c.request, b.config);
            var t := ParseAll(tree, tool, AssignAll(tree, Pristine(tree, Blank(), ctx), b.assigns).state, b.argv).state;
            ViewOf(tree, tool, b, c, View(t.value, t.changed, SeenContext(t, tool.command, ctx)))
  {
    var ctx := Context(c.request, b.config);
    var start := Pristine(tree, Blank(), ctx);
    PristineFits(tree, Blank(), ctx);
    AssignOverlays(tree, start, b.assigns);
    var p := AssignAll(tree, start, b.assigns);
    hide AssignAll;
    ApartByName(tree, tool, b.argv);
    CommandIsWalked(tree, tool);
    assert tool.command in start.context;
    hide ToolWellFormed;
    assert p.state.value.Keys == tree.flags.Keys;
    ParseOverlays(tree, tool, p.state, b.argv);
    var q := ParseAll(tree, tool, p.state, b.argv);
    hide ParseAll;
    OverlaysGiveView(tree, tool, b, c, p.state, q.state);
    assert q.state.context == start.context;
    hide ViewOf;
    hide Overlaid;
    hide SlicesOverlaid;
  }

  lemma OverlaysGiveView(tree: Tree, tool: Tool, b: Built, c: Call, s: TreeState, t: TreeState)
    requires Runnable(tree, tool, b)
    requires Pristine(tree, Blank(), Context(c.request, b.config)).value.Keys == tree.flags.Keys == s.value.Keys
    requires SlicesOverlaid(tree, b.assigns, Pristine(tree, Blank(), Context(c.request, b.config)), s)
    requires Overlaid(tree, tool, b.argv, s, t)
    ensures ViewOf(tree, tool, b, c, View(t.value, t.changed, Context(c.request, b.config)))
  {
    ScalarsAndSlices(tree, tool, b);
    hide DistinctNames;
    forall a | a in b.assigns ensures !Names(tool, b.argv, a.flag) {
      assert Assigns(b.assigns, a.flag);
    }
  }

  /** The flag was set once, from its default, with this text, and holds what came of it. */
  ghost predicate Took(tree: Tree, view: View, f: FlagId, text: string) {
    && f in tree.flags && tree.flags[f].ScalarFlag? && f in view.changed
    && f in view.value && view.value[f].Scalar?
    && tree.flags[f].set_(tree.flags[f].def, text) == Accepts(view.value[f].text)
  }

  ghost predicate Untouched(tree: Tree, view: View, f: FlagId) {
    && f in tree.flags && f in view.value && f !in view.changed
    && match tree.flags[f]
       case ScalarFlag(_, _, def, _) => view.value[f] == Scalar(def)
       case SliceFlag(_, _, defaults, _, _) => view.value[f] == List(defaults)
  }

  /** What the body finds under a name that its tool accepts, given the call's arguments. */
  ghost predicate Shows(tree: Tree, tool: Tool, c: Call, view: View, n: string)
    requires ToolWellFormed(tree, tool) && n in tool.accepted
  {
    var f := tool.accepted[n];
    if EngineName(n) then
      match EngineText(c, n)
      case Some(text) => Took(tree, view, f, text)
      case None => Untouched(tree, view, f)
    else if n !in c.args || c.args[n] == Null then Untouched(tree, view, f)
    else if tree.flags[f].ScalarFlag? then exists text :: HasText(c.args[n], text) && Took(tree, view, f, text)
    else
      && f in view.changed && f in view.value && view.value[f].List?
      && HasItems(c.args[n], tree.flags[f].split, view.value[f].items)
  }

  /** Every accepted flag as the arguments say, every other at its default, in the call's own context. */
  ghost predicate ViewFromArguments(tree: Tree, tool: Tool, c: Call, view: View)
    requires ToolWellFormed(tree, tool)
  {
    && view.value.Keys == tree.flags.Keys
    && (forall n :: n in tool.accepted ==> Shows(tree, tool, c, view, n))
    && (forall f :: f in tree.flags && f !in tool.accepted.Values ==> Untouched(tree, view, f))
    && view.context == Context(c.request, Config(Says(c.args, "dry-run"), Says(c.args, "yes"), AskedKey(c)))
  }

  lemma TokenNames(tree: Tree, tool: Tool, b: Built, n: string)
    requires ToolWellFormed(tree, tool) && Runnable(tree, tool, b) && n in tool.accepted
    ensures Names(tool, b.argv, tool.accepted[n]) <==> exists a :: a in b.argv && a.name == n
    ensures Assigns(b.assigns, tool.accepted[n]) <==>
            exists a :: a in b.assigns && a.flag == tool.accepted[n] && FlagName(tree, a) == n
  {
  }

  /** ViewOf, for the flag of one accepted name. */
  lemma ViewAtName(tree: Tree, tool: Tool, b: Built, c: Call, view: View, n: string)
    requires ToolWellFormed(tree, tool) && Runnable(tree, tool, b) && ViewOf(tree, tool, b, c, view)
    requires n in tool.accepted
    ensures forall text :: FlagArg(n, text) in b.argv ==> Took(tree, view, tool.accepted[n], text)
    ensures forall items :: Assignment(tool.accepted[n], items) in b.assigns ==>
              tool.accepted[n] in view.changed && tool.accepted[n] in view.value
              && view.value[tool.accepted[n]] == List(items)
    ensures (forall text :: FlagArg(n, text) !in b.argv)
            && (forall items :: Assignment(tool.accepted[n], items) !in b.assigns) ==>
              Untouched(tree, view, tool.accepted[n])
  {
    TokenNames(tree, tool, b, n);
    var f := tool.accepted[n];
    assert f in tree.flags && tree.flags[f].name == n;
    hide ToolWellFormed, DistinctNames;
    if (forall text :: FlagArg(n, text) !in b.argv) && (forall items :: Assignment(f, items) !in b.assigns) {
      forall a | a in b.argv ensures a.name != n {
        assert a == FlagArg(a.name, a.value);
      }
      forall a | a in b.assigns ensures a.flag != f {
        assert a == Assignment(a.flag, a.values);
      }
    }
  }

  lemma EngineFlagShows(tree: Tree, tool: Tool, b: Built, c: Call, view: View, n: string)
    requires ToolWellFormed(tree, tool) && Runnable(tree, tool, b) && Carries(tree, tool, c, b)
    requires ViewOf(tree, tool, b, c, view) && EngineName(n) && n in tool.accepted
    ensures Shows(tree, tool, c, view, n)
  {
    ViewAtName(tree, tool, b, c, view, n);
    EngineTokensOnly(tree, tool, b, c, n);
    hide Carries, ToolWellFormed, Runnable, ViewOf, Took, Untouched, EngineText, EngineName;
    if EngineText(c, n).Some? {
      assert EngineToken(c, FlagArg(n, EngineText(c, n).value));
    }
  }

  lemma EngineTokensOnly(tree: Tree, tool: Tool, b: Built, c: Call, n: string)
    requires ToolWellFormed(tree, tool) && Runnable(tree, tool, b) && Carries(tree, tool, c, b)
    requires EngineName(n) && n in tool.accepted
    ensures forall items :: Assignment(tool.accepted[n], items) !in b.assigns
    ensures forall text :: FlagArg(n, text) in b.argv <==> EngineToken(c, FlagArg(n, text))
  {
    assert IsConfigName(n) && AcceptedOk(tree, tool, n);
    hide ToolWellFormed, EngineToken;
  }

  lemma ClientFlagShows(tree: Tree, tool: Tool, b: Built, c: Call, view: View, n: string)
    requires ToolWellFormed(tree, tool) && Runnable(tree, tool, b) && Carries(tree, tool, c, b)
    requires ViewOf(tree, tool, b, c, view) && !EngineName(n) && n in tool.accepted
    requires Blameless(tree, ToolAt(tool, true), c.args, n) && ToolWellFormed(tree, ToolAt(tool, true))
    ensures Shows(tree, tool, c, view, n)
  {
    ViewAtName(tree, tool, b, c, view, n);
    ClientTokensOnly(tree, tool, b, c, n);
    var f := tool.accepted[n];
    hide Carries, Runnable, ViewOf, Took, Untouched, HasText, HasItems, WellFormed;
    if n in c.args && c.args[n] != Null {
      assert Convertible(tree.flags[f], c.args[n]);
      hide Blameless, ToolWellFormed;
      if tree.flags[f].ScalarFlag? {
        var text :| HasText(c.args[n], text);
        assert FlagArg(n, text) in b.argv;
      } else {
        var items :| HasItems(c.args[n], tree.flags[f].split, items);
        assert Assignment(f, items) in b.assigns;
      }
    } else {
      NullHasNothing(c.args, tree.flags[f], n);
    }
  }

  lemma ClientTokensOnly(tree: Tree, tool: Tool, b: Built, c: Call, n: string)
    requires ToolWellFormed(tree, tool) && Runnable(tree, tool, b) && Carries(tree, tool, c, b)
    requires !EngineName(n) && n in tool.accepted
    ensures forall text :: FlagArg(n, text) in b.argv <==> ClientToken(tree, tool, c.args, FlagArg(n, text))
    ensures forall items :: Assignment(tool.accepted[n], items) in b.assigns <==>
                            ClientItems(tree, tool, c.args, n, Assignment(tool.accepted[n], items))
  {
    assert AcceptedOk(tree, tool, n);
    forall text ensures FlagArg(n, text) in b.argv <==> ClientToken(tree, tool, c.args, FlagArg(n, text)) {
    }
    forall items ensures FlagName(tree, Assignment(tool.accepted[n], items)) == n {
    }
    hide ToolWellFormed, ClientToken, ClientItems, FlagName;
  }

  lemma NullHasNothing(args: map<string, Json>, flag: Flag, n: string)
    requires n !in args || args[n] == Null
    ensures n in args ==> forall text :: !HasText(args[n], text)
    ensures n in args && flag.SliceFlag? ==> forall items :: !HasItems(args[n], flag.split, items)
  {
  }

  lemma OtherFlagsUntouched(tree: Tree, tool: Tool, b: Built, c: Call, view: View, f: FlagId)
    requires ToolWellFormed(tree, tool) && Runnable(tree, tool, b) && Carries(tree, tool, c, b)
    requires ViewOf(tree, tool, b, c, view) && f in tree.flags && f !in tool.accepted.Values
    ensures Untouched(tree, view, f)
  {
    assert !Names(tool, b.argv, f);
    forall a | a in b.assigns ensures a.flag in tool.accepted.Values {
      assert ClientItems(tree, tool, c.args, FlagName(tree, a), a);
    }
  }

  lemma ViewShowsTheArguments(tree: Tree, tool: Tool, b: Built, c: Call, view: View)
    requires ToolWellFormed(tree, tool) && Runnable(tree, tool, b) && Carries(tree, tool, c, b)
    requires ViewOf(tree, tool, b, c, view) && ToolWellFormed(tree, ToolAt(tool, true))
    requires forall n :: n in c.args ==> Blameless(tree, ToolAt(tool, true), c.args, n)
    ensures ViewFromArguments(tree, tool, c, view)
  {
    forall n | n in tool.accepted ensures Shows(tree, tool, c, view, n) {
      if EngineName(n) {
        EngineFlagShows(tree, tool, b, c, view, n);
      } else {
        ClientFlagShows(tree, tool, b, c, view, n);
      }
    }
    forall f | f in tree.flags && f !in tool.accepted.Values ensures Untouched(tree, view, f) {
      OtherFlagsUntouched(tree, tool, b, c, view, f);
    }
  }

  // ---------------------------------------------------------------------
  // What a running call answers and leaves
  // ---------------------------------------------------------------------

  /** The command's flag of this name holds a text that strconv.ParseBool reads as true. */
  predicate SwitchedOn(tool: Tool, view: View, n: string) {
    && n in tool.accepted && tool.accepted[n] in view.value
    && match view.value[tool.accepted[n]]
       case Scalar(text) => text in ["1", "t", "T", "TRUE", "true", "True"]
       case List(_) => false
  }

  /** A mounted strict call that Cobra does not end before the hook. */
  predicate Strict(tool: Tool, view: View, mounted: bool) {
    mounted && SwitchedOn(tool, view, "strict") && forall n :: n in tool.exits ==> !SwitchedOn(tool, view, n)
  }

  /**
    A call that ran: it answers with its body's result, or with its output lost when
    it is strict or a command on its path has a writer; and it leaves the flags as
    the body saw them, its command executed, in the context its hooks left, and with
    a writer of its own when it is strict and not the root's.
   */
  ghost predicate RanOnce(tool: Tool, c: Call, s: TreeState, t: TreeState, view: View, result: BodyResult) {
    var out := c.body(view);
    && result == (if !Strict(tool, view, c.mounted) && (forall id :: id in tool.path ==> id !in s.diverted)
                  then out.result
                  else match out.result case Output(_) => Output("") case _ => out.result)
    && t.value == view.value && t.changed == view.changed
    && t.ran == s.ran + {tool.command}
    && tool.command in t.context && t.context[tool.command] == out.leaves
    && (forall id :: id in t.diverted <==>
          id in s.diverted || (id == tool.command && Strict(tool, view, c.mounted) && tool.path != []))
  }

  lemma StrictHolds(tool: Tool, view: View, mounted: bool)
    ensures Holds(tool, view, mounted) <==> Strict(tool, view, mounted)
  {
    assert Text(List([])) == "";
    forall n ensures IsTrue(tool, view, n) <==> SwitchedOn(tool, view, n) {
    }
  }

  lemma ExecuteRanOnce(tree: Tree, s: TreeState, tool: Tool, b: Built, c: Call)
    requires WellFormed(tree) && Runnable(tree, tool, b)
    ensures var (t, r) := Execute(tree, s, tool, b, c);
            r.Ran? ==> RanOnce(tool, c, s, t, r.view, r.result)
  {
    var ctx := Context(c.request, b.config);
    var reset := ResetTree(tree, s, ctx);
    if reset.Done? {
      var p := AssignAll(tree, reset.state, b.assigns);
      if p.Done? {
        var q := ParseAll(tree, tool, p.state, b.argv);
        if q.Done? {
          var t := Begin(tool, q.state);
          StrictHolds(tool, View(t.value, t.changed, SeenContext(t, tool.command, ctx)), c.mounted);
        }
      }
    }
    hide ResetTree, AssignAll, ParseAll, WellFormed, Runnable, Holds, Strict;
  }

  /**
    Over every history without a poisoning call, a call that runs has no refused and
    no missing argument, and what its body sees is its own arguments over the
    defaults, flag by flag: approval and dry-run as the client put them, the key it
    asked for, every other argument under its own text or items.
   */
  lemma ViewIsDefaultsPlusArguments(tree: Tree, s: TreeState, history: seq<Call>, c: Call)
    requires WellFormed(tree) && Fits(tree, s) && Clean(tree, s) && Harmless(tree, history)
    ensures var t := RunHistory(tree, s, history);
            var (u, r) := RunCall(tree, t, c);
            r.Ran? ==>
              && c.tool in tree.tools
              && var tool := tree.tools[c.tool];
                 && ViewFromArguments(tree, tool, c, r.view)
                 && RanOnce(tool, c, t, u, r.view, r.result)
                 && (forall n :: n in c.args ==> n in tool.accepted && (n in tool.late ==> tool.command in t.ran))
                 && (forall n :: !Lacks(tree, tool, c.args, n))
  {
    HistoryStaysClean(tree, s, history);
    var t := RunHistory(tree, s, history);
    hide RunHistory;
    CallExecutes(tree, t, c);
    if LetThrough(tree, t, c) {
      var tool, b := tree.tools[c.tool], BuiltIf(tree, c, RanBefore(tree, t, c)).value;
      ArgumentsLetThrough(tree, tool, c, RanBefore(tree, t, c));
      hide RunCall, BuiltIf;
      CleanExecute(tree, t, tool, b, c);
      ToldSees(tree, tool, b, c);
      ExecuteRanOnce(tree, t, tool, b, c);
      hide Execute, Told, ViewFromArguments;
      var r := RunCall(tree, t, c).1;
      if r.Ran? {
        ToolAtWellFormed(tree, tool, true);
        ViewShowsTheArguments(tree, tool, b, c, r.view);
      }
      hide ViewOf, ToolWellFormed, Clean, Fits, Audible, Holds, Lacks, Blameless, Carries, RanOnce, WellFormed;
    }
  }

  /** What buildArgs let through carries the arguments, whether or not the command has run. */
  lemma ArgumentsLetThrough(tree: Tree, tool: Tool, c: Call, ran: bool)
    requires WellFormed(tree) && c.tool in tree.tools && tool == tree.tools[c.tool] && BuiltIf(tree, c, ran).Ok?
    ensures ToolWellFormed(tree, tool) && ToolWellFormed(tree, ToolAt(tool, true))
    ensures Carries(tree, tool, c, BuiltIf(tree, c, ran).value)
    ensures forall n :: n in c.args ==> Blameless(tree, ToolAt(tool, true), c.args, n)
    ensures forall n :: n in c.args ==> n in tool.accepted && (n in tool.late ==> ran)
    ensures forall n :: !Lacks(tree, tool, c.args, n)
  {
    var at := ToolAt(tool, ran);
    ToolAtWellFormed(tree, tool, ran);
    ToolAtWellFormed(tree, tool, true);
    BuildArgsCarriesTheArguments(tree, at, c);
    var b := BuiltIf(tree, c, ran).value;
    assert Carries(tree, at, c, b);
    hide WellFormed, ToolWellFormed, BuiltIf, Carries, Blameless, Lacks;
    SameCarries(tree, tool, at, c, b);
    SameArguments(tree, tool, ran, c);
  }

  lemma SameArguments(tree: Tree, tool: Tool, ran: bool, c: Call)
    requires ToolWellFormed(tree, tool) && ToolWellFormed(tree, ToolAt(tool, ran))
    requires ToolWellFormed(tree, ToolAt(tool, true))
    requires forall n :: n in c.args ==> Blameless(tree, ToolAt(tool, ran), c.args, n)
    requires forall n :: !Lacks(tree, ToolAt(tool, ran), c.args, n)
    ensures forall n :: n in c.args ==> Blameless(tree, ToolAt(tool, true), c.args, n)
    ensures forall n :: n in c.args ==> n in tool.accepted && (n in tool.late ==> ran)
    ensures forall n :: !Lacks(tree, tool, c.args, n)
  {
    hide ToolWellFormed, Convertible;
    forall n | n in c.args
      ensures Blameless(tree, ToolAt(tool, true), c.args, n) && n in tool.accepted && (n in tool.late ==> ran)
    {
      assert Blameless(tree, ToolAt(tool, ran), c.args, n);
    }
    forall n ensures !Lacks(tree, tool, c.args, n) {
      assert !Lacks(tree, ToolAt(tool, ran), c.args, n);
    }
  }

  lemma SameCarries(tree: Tree, tool: Tool, at: Tool, c: Call, b: Built)
    requires ToolWellFormed(tree, tool) && ToolWellFormed(tree, at) && tool.accepted == at.accepted
    requires Carries(tree, at, c, b)
    ensures Carries(tree, tool, c, b)
  {
    hide ToolWellFormed, HasItems, HasText, EngineToken, DistinctNames;
    forall a: FlagArg ensures ClientToken(tree, tool, c.args, a) <==> ClientToken(tree, at, c.args, a) {
    }
    forall n, a: Assignment ensures ClientItems(tree, tool, c.args, n, a) <==> ClientItems(tree, at, c.args, n, a) {
    }
    hide ClientToken, ClientItems;
  }

  lemma YesFollowsTheClient(tree: Tree, tool: Tool, b: Built, c: Call, view: View)
    requires ToolWellFormed(tree, tool) && BuiltOk(tree, tool, c, b) && ViewOf(tree, tool, b, c, view)
    ensures tool.accepted[YES] in view.changed <==> YES in c.args
  {
    var f := tool.accepted[YES];
    assert !Assigns(b.assigns, f);
    assert forall a :: a in b.argv && tool.accepted[a.name] == f ==> a.name == tree.flags[f].name;
    if YES in c.args {
      var a :| a in b.argv && a.name == YES;
    }
  }
}
