/**
  The MCP dispatcher over a shared command tree. Every tools/call resets the
  tree, assigns slice flags, parses an argument vector and runs the command; it
  may stop at any of these and leaves the tree dirty. What a flag type does in
  Set and Replace, also when the reset hands it its default, how Cobra parses "--name=value", and the command body are
  parameters of the model.
 */
module Dispatch {
  import opened Base
  import opened Order

  type FlagId = nat
  type CommandId = nat

  const FORMAT := "format"
  const DRY_RUN := "dry-run"
  const YES := "yes"
  const IDEMPOTENCY_KEY := "idempotency-key"
  const STRICT := "strict"

  // ---------------------------------------------------------------------
  // Flags and commands
  // ---------------------------------------------------------------------

  datatype Value = Scalar(text: string) | List(items: seq<string>)

  /** What Set does. Rejecting or panicking, a type may already have written what it leaves. */
  datatype SetOutcome = Accepts(text: string) | Rejects(left: Option<string>) | SetPanics(left: Option<string>)

  /** What Replace does with a list, likewise. */
  datatype ReplaceOutcome =
    | Replaced | Refused(left: Option<seq<string>>) | ReplacePanics(left: Option<seq<string>>)

  /** set_ is given the text the flag holds and the text to set. */
  datatype Flag =
    | ScalarFlag(name: string, required: bool, def: string, set_: (string, string) -> SetOutcome)
    | SliceFlag(name: string, required: bool, defaults: seq<string>,
                replace: seq<string> -> ReplaceOutcome,
                split: string -> Option<seq<string>>)

  datatype Command = Command(
    id: CommandId, flags: seq<FlagId>, persistent: seq<FlagId>, children: seq<Command>)

  /** What resetCommandTree does at a command: restore its flags, then rebind its context. */
  datatype ResetStep = Restore(flag: FlagId) | Bind(command: CommandId)

  function Restores(ids: seq<FlagId>): seq<ResetStep> {
    seq(|ids|, i requires 0 <= i < |ids| => Restore(ids[i]))
  }

  /** The walk of the reset: command by command, local flags before persistent ones. */
  function WalkSteps(c: Command): seq<ResetStep> {
    Restores(c.flags) + Restores(c.persistent) + [Bind(c.id)] + WalkAllSteps(c.children)
  }

  function WalkAllSteps(cs: seq<Command>): seq<ResetStep> {
    if cs == [] then [] else WalkSteps(cs[0]) + WalkAllSteps(cs[1..])
  }

  /** The command itself and every command under it. */
  ghost predicate Below(c: Command, d: Command) {
    d == c || exists i :: 0 <= i < |c.children| && Below(c.children[i], d)
  }

  ghost predicate Concerns(step: ResetStep, d: Command) {
    match step
    case Restore(f) => f in d.flags || f in d.persistent
    case Bind(id) => id == d.id
  }

  /** The reset reaches exactly the flags and contexts of the commands below, however deep. */
  lemma {:induction false} WalkVisits(c: Command, step: ResetStep)
    ensures step in WalkSteps(c) <==> exists d :: Below(c, d) && Concerns(step, d)
    decreases c, 0
  {
    WalkAllVisits(c.children, step);
    assert step in WalkSteps(c) <==> Concerns(step, c) || step in WalkAllSteps(c.children) by {
      RestoresAre(c.flags, step);
      RestoresAre(c.persistent, step);
    }
    hide WalkSteps, WalkAllSteps, Concerns;
    if d :| Below(c, d) && Concerns(step, d) {
      if d != c {
        var i :| 0 <= i < |c.children| && Below(c.children[i], d);
        assert InOneOf(c.children, step, i);
      }
    }
    if i :| 0 <= i < |c.children| && InOneOf(c.children, step, i) {
      var d :| Below(c.children[i], d) && Concerns(step, d);
      assert Below(c, d);
    }
    assert Below(c, c);
  }

  ghost predicate InOneOf(cs: seq<Command>, step: ResetStep, i: nat)
    requires i < |cs|
  {
    exists d :: Below(cs[i], d) && Concerns(step, d)
  }

  lemma {:induction false} WalkAllVisits(cs: seq<Command>, step: ResetStep)
    ensures step in WalkAllSteps(cs) <==> exists i :: 0 <= i < |cs| && InOneOf(cs, step, i)
    decreases cs
  {
    if cs != [] {
      WalkVisits(cs[0], step);
      WalkAllVisits(cs[1..], step);
      hide WalkSteps, Below, Concerns;
      assert InOneOf(cs, step, 0) <==> step in WalkSteps(cs[0]);
      forall i | 0 < i < |cs| ensures InOneOf(cs, step, i) <==> InOneOf(cs[1..], step, i - 1) {
        assert cs[1..][i - 1] == cs[i];
      }
      hide InOneOf;
      if i :| 0 <= i < |cs[1..]| && InOneOf(cs[1..], step, i) {
        assert InOneOf(cs, step, i + 1);
      }
    }
  }

  lemma RestoresAre(ids: seq<FlagId>, step: ResetStep)
    ensures step in Restores(ids) <==> step.Restore? && step.flag in ids
  {
    if step.Restore? && step.flag in ids {
      var i :| 0 <= i < |ids| && ids[i] == step.flag;
      assert Restores(ids)[i] == step;
    }
  }

  /**
    A tool: its command, the commands from below the root down to it, and the
    flags, by name, that it accepts. The late ones exist only once Cobra has
    executed the command (help, version); the exits make Cobra print and return
    before any hook runs.
   */
  datatype Tool = Tool(
    command: CommandId, path: seq<CommandId>, accepted: map<string, FlagId>, late: set<string>, exits: set<string>)

  /** What the tool accepts once its command has been executed, or before. */
  function ToolAt(tool: Tool, ran: bool): Tool {
    if ran then tool.(late := {}) else tool
  }

  datatype Tree = Tree(root: Command, flags: map<FlagId, Flag>, tools: map<string, Tool>)

  ghost predicate ToolWellFormed(tree: Tree, tool: Tool) {
    && Bind(tool.command) in WalkSteps(tree.root)
    && (forall n :: IsConfigName(n) ==> n in tool.accepted)
    && (forall n :: n in tool.accepted ==> AcceptedOk(tree, tool, n))
    && (forall id :: id in tool.path ==> Bind(id) in WalkSteps(tree.root))
    && tool.command == (if tool.path == [] then tree.root.id else tool.path[|tool.path| - 1])
    && tool.exits <= tool.accepted.Keys && tool.late <= tool.accepted.Keys
  }

  /**
    Accepted names are the flags' own; the engine's flags are scalars; late flags
    are not the engine's, nor required.
   */
  predicate AcceptedOk(tree: Tree, tool: Tool, n: string)
    requires n in tool.accepted
  {
    && tool.accepted[n] in tree.flags && tree.flags[tool.accepted[n]].name == n
    && (IsConfigName(n) ==> tree.flags[tool.accepted[n]].ScalarFlag? && n !in tool.late)
    && (n in tool.late ==> !tree.flags[tool.accepted[n]].required)
  }

  /** The flags of the tree are those its commands hold. */
  ghost predicate WellFormed(tree: Tree) {
    && (forall f :: f in tree.flags <==> Restore(f) in WalkSteps(tree.root))
    && (forall t :: t in tree.tools ==> ToolWellFormed(tree, tree.tools[t]))
  }

  // ---------------------------------------------------------------------
  // Calls
  // ---------------------------------------------------------------------

  datatype Json = Null | Bool(b: bool) | Str(s: string) | Num(text: string) | Arr(items: seq<Json>) | Obj

  /** The agent-safety values resolved from a call's arguments. */
  datatype Config = Config(dryRun: bool, approval: bool, key: string)

  datatype Context = Context(request: nat, config: Config)

  /**
    The mutable part of the tree. diverted: the commands with a writer of their
    own; ran: those Cobra has executed.
   */
  datatype TreeState = TreeState(
    value: map<FlagId, Value>, changed: set<FlagId>, context: map<CommandId, Context>,
    diverted: set<CommandId>, ran: set<CommandId>)

  /** What hooks and the command body can read of flags and context. */
  datatype View = View(value: map<FlagId, Value>, changed: set<FlagId>, context: Context)

  /** How the body ends, with what it wrote, and the context a hook leaves on the command. */
  datatype Outcome = Outcome(result: BodyResult, leaves: Context)

  datatype BodyResult = Output(text: string) | Fails(message: string) | Panics

  /**
    mounted: ax.Execute's hook is installed and the request's context carries the
    warning state of that Execute.
   */
  datatype Call = Call(
    tool: string, args: map<string, Json>, request: nat, freshKey: string, body: View -> Outcome, mounted: bool)

  datatype Reason =
    | UnknownArgument(name: string)
    | NotABoolean(name: string)
    | NotAString(name: string)
    | BadValue(name: string)
    | MissingRequired(name: string)

  datatype Reply =
    | UnknownTool
    | Invalid(reason: Reason)
    | AssignmentRefused(flag: FlagId)
    | FlagRejected(flag: FlagId)
    | RecoveredPanic
    | Ran(view: View, result: BodyResult)

  datatype FlagArg = FlagArg(name: string, value: string)

  datatype Assignment = Assignment(flag: FlagId, values: seq<string>)

  // ---------------------------------------------------------------------
  // buildArgs
  // ---------------------------------------------------------------------

  datatype Rendered<T> = Skipped | Rendered(value: T) | Unsupported

  function StringifyArg(v: Json): Rendered<string> {
    match v
    case Null => Skipped
    case Bool(b) => Rendered(if b then "true" else "false")
    case Str(s) => Rendered(s)
    case Num(text) => Rendered(text)
    case Arr(_) => Unsupported
    case Obj => Unsupported
  }

  function StringifyItems(items: seq<Json>): Rendered<seq<string>> {
    if items == [] then Rendered([]) else
    var head := StringifyArg(items[0]);
    var tail := StringifyItems(items[1..]);
    if head.Rendered? && tail.Rendered? then Rendered([head.value] + tail.value) else Unsupported
  }

  function StringifyArgList(v: Json, split: string -> Option<seq<string>>): Rendered<seq<string>> {
    if v.Arr? then StringifyItems(v.items) else
    match StringifyArg(v)
    case Skipped => Skipped
    case Unsupported => Unsupported
    case Rendered(s) => if split(s).Some? then Rendered(split(s).value) else Unsupported
  }

  /** The argument vector, slice assignments and configuration gathered so far. */
  datatype Draft = Draft(argv: seq<FlagArg>, assigns: seq<Assignment>, config: Config, given: set<string>)

  predicate IsConfigName(name: string) {
    name == FORMAT || name == DRY_RUN || name == YES || name == IDEMPOTENCY_KEY
  }

  function ApplyConfigArg(d: Draft, key: string, v: Json): Result<Draft, Reason>
    requires IsConfigName(key)
  {
    var marked := d.(given := d.given + {key});
    if key == FORMAT then Ok(marked)
    else if key == DRY_RUN then
      if v.Bool? then Ok(marked.(config := d.config.(dryRun := v.b))) else Err(NotABoolean(key))
    else if key == YES then
      if v.Bool? then Ok(marked.(config := d.config.(approval := v.b))) else Err(NotABoolean(key))
    else
      if v.Str? then Ok(marked.(config := d.config.(key := v.s))) else Err(NotAString(key))
  }

  function ConvertArg(flags: map<FlagId, Flag>, id: FlagId, d: Draft, key: string, v: Json): Result<Draft, Reason>
    requires id in flags
  {
    match flags[id]
    case SliceFlag(_, _, _, _, split) =>
      (match StringifyArgList(v, split)
       case Unsupported => Err(BadValue(key))
       case Skipped => Ok(d)
       case Rendered(values) => Ok(d.(assigns := d.assigns + [Assignment(id, values)], given := d.given + {key})))
    case ScalarFlag(_, _, _, _) =>
      match StringifyArg(v)
      case Unsupported => Err(BadValue(key))
      case Skipped => Ok(d)
      case Rendered(text) => Ok(d.(argv := d.argv + [FlagArg(key, text)], given := d.given + {key}))
  }

  function BuildStep(tree: Tree, tool: Tool, args: map<string, Json>, d: Draft, key: string): Result<Draft, Reason>
    requires ToolWellFormed(tree, tool) && key in args
  {
    if key !in tool.accepted || key in tool.late then Err(UnknownArgument(key))
    else if IsConfigName(key) then ApplyConfigArg(d, key, args[key])
    else ConvertArg(tree.flags, tool.accepted[key], d, key, args[key])
  }

  function BuildFold(tree: Tree, tool: Tool, args: map<string, Json>, keys: seq<string>, d: Draft)
    : Result<Draft, Reason>
    requires ToolWellFormed(tree, tool) && forall k :: k in keys ==> k in args
    decreases |keys|
  {
    if keys == [] then Ok(d) else
    var step := BuildStep(tree, tool, args, d, keys[0]);
    if step.Err? then step else BuildFold(tree, tool, args, keys[1..], step.value)
  }

  const EMPTY_DRAFT := Draft([], [], Config(false, false, ""), {})

  /** The first required name, in the given order, that no argument supplied. */
  function FirstMissing(tree: Tree, tool: Tool, names: seq<string>, given: set<string>): Option<string>
    requires ToolWellFormed(tree, tool) && forall n :: n in names ==> n in tool.accepted
  {
    if names == [] then None
    else if tree.flags[tool.accepted[names[0]]].required && names[0] !in given then Some(names[0])
    else FirstMissing(tree, tool, names[1..], given)
  }

  function Token(a: FlagArg): string {
    "--" + a.name + "=" + a.value
  }

  predicate TokenLess(a: FlagArg, b: FlagArg) {
    StringLess(Token(a), Token(b))
  }

  function FinalKey(d: Draft, freshKey: string): string {
    if d.config.key == "" then freshKey else d.config.key
  }

  /** The client's flags plus those the engine forces, before sorting. */
  function AllArgs(d: Draft, freshKey: string): seq<FlagArg> {
    d.argv
    + [FlagArg(FORMAT, "json")]
    + (if d.config.dryRun then [FlagArg(DRY_RUN, "true")] else [])
    + (if YES in d.given then [FlagArg(YES, if d.config.approval then "true" else "false")] else [])
    + [FlagArg(IDEMPOTENCY_KEY, FinalKey(d, freshKey))]
  }

  datatype Built = Built(argv: seq<FlagArg>, assigns: seq<Assignment>, config: Config)

  function Finish(tree: Tree, tool: Tool, names: seq<string>, d: Draft, freshKey: string): Result<Built, Reason>
    requires ToolWellFormed(tree, tool) && forall n :: n in names ==> n in tool.accepted
  {
    var given := d.given + {FORMAT, DRY_RUN, IDEMPOTENCY_KEY};
    var missing := FirstMissing(tree, tool, names, given);
    if missing.Some? then Err(MissingRequired(missing.value))
    else Ok(Built(Sort(AllArgs(d, freshKey), TokenLess), d.assigns, d.config.(key := FinalKey(d, freshKey))))
  }

  ghost function BuildArgs(tree: Tree, tool: Tool, c: Call): Result<Built, Reason>
    requires ToolWellFormed(tree, tool)
  {
    var d := BuildFold(tree, tool, c.args, Ascending(c.args.Keys), EMPTY_DRAFT);
    if d.Err? then Err(d.error)
    else Finish(tree, tool, Ascending(tool.accepted.Keys), d.value, c.freshKey)
  }

  // ---------------------------------------------------------------------
  // Reset, assignment, parsing
  // ---------------------------------------------------------------------

  function DefaultOf(f: Flag): Value {
    if f.ScalarFlag? then Scalar(f.def) else List(f.defaults)
  }

  /** The tree as the server finds it: defaults, and what a command line parsed before it started. */
  ghost function Started(tree: Tree, parsed: map<FlagId, string>, diverted: set<CommandId>, ran: set<CommandId>)
    : TreeState
  {
    TreeState(map f | f in tree.flags :: if f in parsed then Scalar(parsed[f]) else DefaultOf(tree.flags[f]),
              parsed.Keys, map[], diverted, ran)
  }

  function Held(tree: Tree, s: TreeState, f: FlagId): Value
    requires f in tree.flags
  {
    if f in s.value then s.value[f] else DefaultOf(tree.flags[f])
  }

  function Text(v: Value): string {
    if v.Scalar? then v.text else ""
  }

  /** The value after a Set or Replace that did not succeed. */
  function Left(v: Value, left: Option<string>): Value {
    if left.Some? then Scalar(left.value) else v
  }

  function LeftList(v: Value, left: Option<seq<string>>): Value {
    if left.Some? then List(left.value) else v
  }

  /** A flag after resetFlagSet visited it, and whether that visit panicked. */
  datatype Restored = Restored(value: Value, changed: bool, panics: bool)

  /**
    A slice is always given its defaults, a scalar its default only when it was
    changed. An error is dropped and the changed bit cleared all the same; a panic
    comes before the bit is cleared.
   */
  function RestoreFlag(flag: Flag, v: Value, changed: bool): Restored {
    match flag
    case SliceFlag(_, _, defaults, replace, _) =>
      (match replace(defaults)
       case Replaced => Restored(List(defaults), false, false)
       case Refused(left) => Restored(LeftList(v, left), false, false)
       case ReplacePanics(left) => Restored(LeftList(v, left), changed, true))
    case ScalarFlag(_, _, def, set_) =>
      if !changed then Restored(v, false, false) else
      match set_(Text(v), def)
      case Accepts(text) => Restored(Scalar(text), false, false)
      case Rejects(left) => Restored(Left(v, left), false, false)
      case SetPanics(left) => Restored(Left(v, left), true, true)
  }

  function WithFlag(s: TreeState, f: FlagId, r: Restored): TreeState {
    s.(value := s.value[f := r.value], changed := if r.changed then s.changed + {f} else s.changed - {f})
  }

  datatype Progress = Done(state: TreeState) | Stopped(state: TreeState, reply: Reply)

  function ResetAll(tree: Tree, s: TreeState, steps: seq<ResetStep>, ctx: Context): (p: Progress)
    requires forall f :: Restore(f) in steps ==> f in tree.flags
    ensures p.Stopped? ==> p.reply == RecoveredPanic
    ensures p.state.diverted == s.diverted && p.state.ran == s.ran
    decreases |steps|
  {
    if steps == [] then Done(s) else
    match steps[0]
    case Bind(id) => ResetAll(tree, s.(context := s.context[id := ctx]), steps[1..], ctx)
    case Restore(f) =>
      assert Restore(f) in steps;
      var r := RestoreFlag(tree.flags[f], Held(tree, s, f), f in s.changed);
      if r.panics then Stopped(WithFlag(s, f, r), RecoveredPanic)
      else ResetAll(tree, WithFlag(s, f, r), steps[1..], ctx)
  }

  /** resetCommandTree: every flag visited, every context rebound, unless a flag panics. */
  function ResetTree(tree: Tree, s: TreeState, ctx: Context): (p: Progress)
    requires WellFormed(tree)
    ensures p.Stopped? ==> p.reply == RecoveredPanic
    ensures p.state.diverted == s.diverted && p.state.ran == s.ran
  {
    ResetAll(tree, s, WalkSteps(tree.root), ctx)
  }

  function AssignAll(tree: Tree, s: TreeState, assigns: seq<Assignment>): (p: Progress)
    requires forall a :: a in assigns ==> a.flag in tree.flags && tree.flags[a.flag].SliceFlag?
    ensures p.Stopped? ==> !p.reply.Ran?
    ensures p.state.diverted == s.diverted && p.state.ran == s.ran
    decreases |assigns|
  {
    if assigns == [] then Done(s) else
    var a := assigns[0];
    match tree.flags[a.flag].replace(a.values)
    case Replaced =>
      AssignAll(tree, s.(value := s.value[a.flag := List(a.values)], changed := s.changed + {a.flag}), assigns[1..])
    case Refused(left) =>
      Stopped(s.(value := s.value[a.flag := LeftList(Held(tree, s, a.flag), left)]), AssignmentRefused(a.flag))
    case ReplacePanics(left) =>
      Stopped(s.(value := s.value[a.flag := LeftList(Held(tree, s, a.flag), left)]), RecoveredPanic)
  }

  predicate Parsable(tree: Tree, tool: Tool, argv: seq<FlagArg>) {
    forall a :: a in argv ==>
      && a.name in tool.accepted && tool.accepted[a.name] in tree.flags
      && tree.flags[tool.accepted[a.name]].ScalarFlag?
  }

  /** Cobra's parse: one Set per token, the changed bit only on success. */
  function ParseAll(tree: Tree, tool: Tool, s: TreeState, argv: seq<FlagArg>): (p: Progress)
    requires Parsable(tree, tool, argv)
    ensures p.Stopped? ==> !p.reply.Ran?
    ensures p.state.diverted == s.diverted && p.state.ran == s.ran
    decreases |argv|
  {
    if argv == [] then Done(s) else
    var f := tool.accepted[argv[0].name];
    var v := Held(tree, s, f);
    match tree.flags[f].set_(Text(v), argv[0].value)
    case Accepts(text) =>
      ParseAll(tree, tool, s.(value := s.value[f := Scalar(text)], changed := s.changed + {f}), argv[1..])
    case Rejects(left) => Stopped(s.(value := s.value[f := Left(v, left)]), FlagRejected(f))
    case SetPanics(left) => Stopped(s.(value := s.value[f := Left(v, left)]), RecoveredPanic)
  }

  // ---------------------------------------------------------------------
  // What buildArgs guarantees about its output
  // ---------------------------------------------------------------------

  predicate DistinctNames(argv: seq<FlagArg>) {
    forall i, j :: 0 <= i < j < |argv| ==> argv[i].name != argv[j].name
  }

  /** What the loop over the sorted argument names keeps about flags. */
  predicate DraftOk(tree: Tree, tool: Tool, seen: set<string>, d: Draft)
    requires ToolWellFormed(tree, tool)
  {
    && DistinctNames(d.argv)
    && Parsable(tree, tool, d.argv)
    && (forall a :: a in d.argv ==> a.name in seen && !IsConfigName(a.name))
    && AssignsOk(tree, d.assigns)
    && (forall a :: a in d.assigns ==> tree.flags[a.flag].name in seen)
  }

  /** Slice assignments name slice flags, each once. */
  predicate AssignsOk(tree: Tree, assigns: seq<Assignment>) {
    && (forall a :: a in assigns ==> a.flag in tree.flags && tree.flags[a.flag].SliceFlag?)
    && (forall i, j :: 0 <= i < j < |assigns| ==> assigns[i].flag != assigns[j].flag)
  }

  /** And about the agent-safety values: they come from the arguments alone. */
  predicate ConfigOk(args: map<string, Json>, seen: set<string>, d: Draft)
    requires seen <= args.Keys
  {
    && d.config.dryRun == (DRY_RUN in seen && args[DRY_RUN] == Bool(true))
    && d.config.approval == (YES in seen && args[YES] == Bool(true))
    && d.config.key == (if IDEMPOTENCY_KEY in seen && args[IDEMPOTENCY_KEY].Str? then args[IDEMPOTENCY_KEY].s else "")
    && (YES in d.given <==> YES in seen)
  }

  lemma ConfigNamesDiffer()
    ensures FORMAT != DRY_RUN && FORMAT != YES && FORMAT != IDEMPOTENCY_KEY
    ensures DRY_RUN != YES && DRY_RUN != IDEMPOTENCY_KEY && YES != IDEMPOTENCY_KEY
  {
    assert FORMAT[0] == 'f' && DRY_RUN[0] == 'd' && YES[0] == 'y' && IDEMPOTENCY_KEY[0] == 'i';
  }

  lemma BuildStepOk(tree: Tree, tool: Tool, args: map<string, Json>, seen: set<string>, d: Draft, key: string)
    requires ToolWellFormed(tree, tool) && key in args && key !in seen
    requires DraftOk(tree, tool, seen, d)
    ensures var r := BuildStep(tree, tool, args, d, key);
            r.Ok? ==> DraftOk(tree, tool, seen + {key}, r.value)
  {
    hide StringifyArgList;
    hide StringifyArg;
  }

  lemma BuildStepConfig(tree: Tree, tool: Tool, args: map<string, Json>, seen: set<string>, d: Draft, key: string)
    requires ToolWellFormed(tree, tool) && key in args && key !in seen && seen <= args.Keys
    requires ConfigOk(args, seen, d)
    ensures var r := BuildStep(tree, tool, args, d, key);
            r.Ok? ==> ConfigOk(args, seen + {key}, r.value)
  {
    ConfigNamesDiffer();
    hide StringifyArgList;
    hide StringifyArg;
    hide ToolWellFormed;
  }

  lemma BuildStepKeeps(tree: Tree, tool: Tool, args: map<string, Json>, seen: set<string>, d: Draft, key: string)
    requires ToolWellFormed(tree, tool) && key in args && key !in seen && seen <= args.Keys
    requires DraftOk(tree, tool, seen, d) && ConfigOk(args, seen, d)
    ensures var r := BuildStep(tree, tool, args, d, key);
            r.Ok? ==> DraftOk(tree, tool, seen + {key}, r.value) && ConfigOk(args, seen + {key}, r.value)
  {
    BuildStepOk(tree, tool, args, seen, d, key);
    BuildStepConfig(tree, tool, args, seen, d, key);
    hide DraftOk, ConfigOk, BuildStep, ToolWellFormed;
  }

  lemma KeysAfterFirst(args: map<string, Json>, seen: set<string>, keys: seq<string>)
    requires keys != [] && Distinct(keys) && forall k :: k in keys ==> k in args && k !in seen
    ensures Distinct(keys[1..]) && forall k :: k in keys[1..] ==> k in args && k !in seen + {keys[0]}
    ensures seen + {keys[0]} + (set k | k in keys[1..]) == seen + (set k | k in keys)
  {
    assert keys == [keys[0]] + keys[1..];
  }

  lemma {:induction false} BuildFoldOk(
    tree: Tree, tool: Tool, args: map<string, Json>, seen: set<string>, keys: seq<string>, d: Draft)
    requires ToolWellFormed(tree, tool) && forall k :: k in keys ==> k in args && k !in seen
    requires Distinct(keys) && seen <= args.Keys
    requires DraftOk(tree, tool, seen, d) && ConfigOk(args, seen, d)
    ensures var r := BuildFold(tree, tool, args, keys, d);
            r.Ok? ==>
              && DraftOk(tree, tool, seen + (set k | k in keys), r.value)
              && ConfigOk(args, seen + (set k | k in keys), r.value)
    decreases |keys|
  {
    if keys == [] {
      assert seen + (set k | k in keys) == seen;
    } else {
      BuildStepKeeps(tree, tool, args, seen, d, keys[0]);
      hide DraftOk, ConfigOk, BuildStep, ToolWellFormed;
      var step := BuildStep(tree, tool, args, d, keys[0]);
      if step.Ok? {
        KeysAfterFirst(args, seen, keys);
        BuildFoldOk(tree, tool, args, seen + {keys[0]}, keys[1..], step.value);
      }
    }
  }

  /** The configuration a call asks for. */
  ghost function AskedConfig(c: Call): Config {
    var key := if IDEMPOTENCY_KEY in c.args && c.args[IDEMPOTENCY_KEY].Str? then c.args[IDEMPOTENCY_KEY].s else "";
    Config(DRY_RUN in c.args && c.args[DRY_RUN] == Bool(true),
           YES in c.args && c.args[YES] == Bool(true),
           if key == "" then c.freshKey else key)
  }

  /** What execution relies on: each flag at most once, scalars parsed, slices assigned. */
  predicate Runnable(tree: Tree, tool: Tool, b: Built) {
    DistinctNames(b.argv) && Parsable(tree, tool, b.argv) && AssignsOk(tree, b.assigns)
  }

  /** What buildArgs hands to execution. */
  ghost predicate BuiltOk(tree: Tree, tool: Tool, c: Call, b: Built) {
    && Runnable(tree, tool, b)
    && b.config == AskedConfig(c)
    && ((exists a :: a in b.argv && a.name == YES) <==> YES in c.args)
  }

  /**
    The argv names each flag at most once and only scalar flags, approval is
    passed on exactly when the client supplied it, and the configuration is the
    one the arguments ask for.
   */
  lemma BuildArgsOk(tree: Tree, tool: Tool, c: Call)
    requires ToolWellFormed(tree, tool)
    ensures BuildArgs(tree, tool, c).Ok? ==> BuiltOk(tree, tool, c, BuildArgs(tree, tool, c).value)
  {
    DraftOfArgs(tree, tool, c);
    hide DraftOk;
    hide ConfigOk;
    hide BuildFold;
    var r := BuildFold(tree, tool, c.args, Ascending(c.args.Keys), EMPTY_DRAFT);
    if r.Ok? {
      FinishOk(tree, tool, Ascending(tool.accepted.Keys), r.value, c);
      hide BuiltOk;
    }
  }

  lemma DraftOfArgs(tree: Tree, tool: Tool, c: Call)
    requires ToolWellFormed(tree, tool)
    ensures var r := BuildFold(tree, tool, c.args, Ascending(c.args.Keys), EMPTY_DRAFT);
            r.Ok? ==> DraftOk(tree, tool, c.args.Keys, r.value) && ConfigOk(c.args, c.args.Keys, r.value)
  {
    var keys := Ascending(c.args.Keys);
    EmptyDraftOk(tree, tool, c.args);
    hide BuildFold, Increasing, DraftOk, ConfigOk;
    BuildFoldOk(tree, tool, c.args, {}, keys, EMPTY_DRAFT);
    assert {} + (set k | k in keys) == c.args.Keys;
  }

  lemma EmptyDraftOk(tree: Tree, tool: Tool, args: map<string, Json>)
    requires ToolWellFormed(tree, tool)
    ensures DraftOk(tree, tool, {}, EMPTY_DRAFT) && ConfigOk(args, {}, EMPTY_DRAFT)
  {
  }

  lemma FinishOk(tree: Tree, tool: Tool, names: seq<string>, d: Draft, c: Call)
    requires ToolWellFormed(tree, tool) && forall n :: n in names ==> n in tool.accepted
    requires DraftOk(tree, tool, c.args.Keys, d) && ConfigOk(c.args, c.args.Keys, d)
    ensures var r := Finish(tree, tool, names, d, c.freshKey);
            r.Ok? ==> BuiltOk(tree, tool, c, r.value)
  {
    AllArgsOk(tree, tool, d, c.freshKey);
    hide AllArgs;
    hide Sort;
    hide DistinctNames;
    hide Parsable;
  }

  lemma AllArgsOk(tree: Tree, tool: Tool, d: Draft, freshKey: string)
    requires ToolWellFormed(tree, tool)
    requires DistinctNames(d.argv) && Parsable(tree, tool, d.argv)
    requires forall a :: a in d.argv ==> !IsConfigName(a.name)
    ensures var argv := Sort(AllArgs(d, freshKey), TokenLess);
            && DistinctNames(argv) && Parsable(tree, tool, argv)
            && ((exists a :: a in argv && a.name == YES) <==> YES in d.given)
  {
    var all := AllArgs(d, freshKey);
    ForcedArgs(d, freshKey);
    ForcedParsable(tree, tool, d.argv, all);
    hide ToolWellFormed;
    hide AllArgs;
    PermutedNames(all, Sort(all, TokenLess));
  }

  lemma ForcedParsable(tree: Tree, tool: Tool, argv: seq<FlagArg>, all: seq<FlagArg>)
    requires ToolWellFormed(tree, tool) && Parsable(tree, tool, argv)
    requires forall a :: a in all ==> a in argv || IsConfigName(a.name)
    ensures Parsable(tree, tool, all)
  {
  }

  lemma ForcedArgs(d: Draft, freshKey: string)
    requires DistinctNames(d.argv)
    requires forall a :: a in d.argv ==> !IsConfigName(a.name)
    ensures var all := AllArgs(d, freshKey);
            && DistinctNames(all)
            && (forall a :: a in all ==> a in d.argv || IsConfigName(a.name))
            && ((exists a :: a in all && a.name == YES) <==> YES in d.given)
  {
    ConfigNamesDiffer();
    var all := AllArgs(d, freshKey);
    if YES in d.given {
      assert FlagArg(YES, if d.config.approval then "true" else "false") in all;
    }
  }

  lemma PermutedNames(a: seq<FlagArg>, b: seq<FlagArg>)
    requires multiset(a) == multiset(b) && DistinctNames(a)
    ensures DistinctNames(b) && forall x :: x in b <==> x in a
  {
    SameElements(a, b);
    assert Distinct(a);
    DistinctMultiset(a);
    DistinctMultiset(b);
    forall i, j | 0 <= i < j < |b| ensures b[i].name != b[j].name {
      assert b[i] in a && b[j] in a;
      var p :| 0 <= p < |a| && a[p] == b[i];
      var q :| 0 <= q < |a| && a[q] == b[j];
      assert b[i] != b[j];
    }
  }

  // ---------------------------------------------------------------------
  // One call
  // ---------------------------------------------------------------------

  /** Cobra keeps a command's cached context; only a missing one is replaced. */
  function SeenContext(s: TreeState, command: CommandId, ctx: Context): Context {
    if command in s.context then s.context[command] else ctx
  }

  /** strconv.ParseBool. */
  function ParseBool(v: string): Option<bool> {
    if v in ["1", "t", "T", "TRUE", "true", "True"] then Some(true)
    else if v in ["0", "f", "F", "FALSE", "false", "False"] then Some(false)
    else None
  }

  /** LookupFlagBool. */
  predicate IsTrue(tool: Tool, view: View, name: string) {
    && name in tool.accepted && tool.accepted[name] in view.value
    && ParseBool(Text(view.value[tool.accepted[name]])) == Some(true)
  }

  /**
    The wrapped hook holds stdout: it puts a buffer on the invoked command, and
    only the end of the Execute that owns the warning state takes it off again.
   */
  predicate Holds(tool: Tool, view: View, mounted: bool) {
    mounted && IsTrue(tool, view, STRICT) && forall n :: n in tool.exits ==> !IsTrue(tool, view, n)
  }

  /** OutOrStdout reaches the root, where this call's buffer is: no command on the way has a writer. */
  predicate Audible(tool: Tool, diverted: set<CommandId>) {
    forall id :: id in tool.path ==> id !in diverted
  }

  /** The result with the output that went elsewhere. */
  function Mute(r: BodyResult): BodyResult {
    if r.Output? then Output("") else r
  }

  /** The command runs on the parsed state; a writer put on the root is replaced by the next call. */
  ghost function RunBody(tool: Tool, t: TreeState, ctx: Context, c: Call): (TreeState, Reply) {
    var view := View(t.value, t.changed, SeenContext(t, tool.command, ctx));
    var holds := Holds(tool, view, c.mounted);
    var out := c.body(view);
    (t.(context := t.context[tool.command := out.leaves],
        diverted := if holds && tool.path != [] then t.diverted + {tool.command} else t.diverted),
     Ran(view, if !holds && Audible(tool, t.diverted) then out.result else Mute(out.result)))
  }

  /** Cobra has executed the command: its late flags exist from now on. */
  function Begin(tool: Tool, s: TreeState): TreeState {
    s.(ran := s.ran + {tool.command})
  }

  /** What follows a completed reset: assign, then let Cobra add its flags, parse and run. */
  ghost function ExecuteFrom(tree: Tree, s: TreeState, tool: Tool, b: Built, c: Call): (TreeState, Reply)
    requires Runnable(tree, tool, b)
  {
    var afterAssign := AssignAll(tree, s, b.assigns);
    if afterAssign.Stopped? then (afterAssign.state, afterAssign.reply) else
    var parsed := ParseAll(tree, tool, afterAssign.state, b.argv);
    var begun := Begin(tool, parsed.state);
    if parsed.Stopped? then (begun, parsed.reply) else
    RunBody(tool, begun, Context(c.request, b.config), c)
  }

  /** runRecovered: reset, assign, parse, run; stop at the first failure. */
  ghost function Execute(tree: Tree, s: TreeState, tool: Tool, b: Built, c: Call): (TreeState, Reply)
    requires WellFormed(tree) && Runnable(tree, tool, b)
  {
    var reset := ResetTree(tree, s, Context(c.request, b.config));
    if reset.Stopped? then (reset.state, reset.reply) else
    ExecuteFrom(tree, reset.state, tool, b, c)
  }

  lemma ToolAtWellFormed(tree: Tree, tool: Tool, ran: bool)
    requires ToolWellFormed(tree, tool)
    ensures ToolWellFormed(tree, ToolAt(tool, ran))
  {
  }

  /** buildArgs for this call, on a tool whose command has run before, or not. */
  ghost function BuiltIf(tree: Tree, c: Call, ran: bool): (r: Result<Built, Reason>)
    requires WellFormed(tree) && c.tool in tree.tools
    ensures r.Ok? ==> BuiltOk(tree, tree.tools[c.tool], c, r.value)
  {
    var tool := ToolAt(tree.tools[c.tool], ran);
    ToolAtWellFormed(tree, tree.tools[c.tool], ran);
    BuildArgsOk(tree, tool, c);
    BuildArgs(tree, tool, c)
  }

  ghost predicate RanBefore(tree: Tree, s: TreeState, c: Call) {
    c.tool in tree.tools && tree.tools[c.tool].command in s.ran
  }

  /** dispatch: a rejected call leaves the tree alone. */
  ghost function RunCall(tree: Tree, s: TreeState, c: Call): (TreeState, Reply)
    requires WellFormed(tree)
  {
    if c.tool !in tree.tools then (s, UnknownTool) else
    var b := BuiltIf(tree, c, RanBefore(tree, s, c));
    if b.Err? then (s, Invalid(b.error)) else
    Execute(tree, s, tree.tools[c.tool], b.value, c)
  }

  ghost function RunHistory(tree: Tree, s: TreeState, calls: seq<Call>): TreeState
    requires WellFormed(tree)
    decreases |calls|
  {
    if calls == [] then s else RunHistory(tree, RunCall(tree, s, calls[0]).0, calls[1..])
  }
}
