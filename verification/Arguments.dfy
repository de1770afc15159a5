/**
  What a tool call's arguments mean, read off the arguments alone: which one is
  refused and why, which required flag is missing, and which flag is given what.
  The argument vector that buildArgs assembles in one sorted pass is proved to
  hold exactly that.
 */
module Arguments {
  import opened Base
  import opened Order
  import opened Dispatch

  // ---------------------------------------------------------------------
  // The meaning of an argument
  // ---------------------------------------------------------------------

  /** A boolean, string or number has a text. Null, arrays and objects have none. */
  predicate HasText(v: Json, text: string) {
    || (v == Bool(true) && text == "true")
    || (v == Bool(false) && text == "false")
    || v == Str(text)
    || v == Num(text)
  }

  /** An array gives its items' texts in order; a scalar what the flag splits its text into. */
  ghost predicate HasItems(v: Json, split: string -> Option<seq<string>>, items: seq<string>) {
    || (v.Arr? && |items| == |v.items| && forall i :: 0 <= i < |items| ==> HasText(v.items[i], items[i]))
    || exists text :: HasText(v, text) && split(text) == Some(items)
  }

  ghost predicate Convertible(flag: Flag, v: Json) {
    match flag
    case ScalarFlag(_, _, _, _) => exists text :: HasText(v, text)
    case SliceFlag(_, _, _, _, split) => exists items :: HasItems(v, split, items)
  }

  /** The four flags the engine reads or sets itself. */
  predicate EngineName(n: string) {
    n in ["format", "dry-run", "yes", "idempotency-key"]
  }

  /** Why an argument is refused; null is never wrong for a flag of the command. */
  ghost function Offence(tree: Tree, tool: Tool, n: string, v: Json): Option<Reason>
    requires ToolWellFormed(tree, tool)
  {
    if n !in tool.accepted || n in tool.late then Some(UnknownArgument(n))
    else if n == "format" then None
    else if n == "dry-run" || n == "yes" then if v.Bool? then None else Some(NotABoolean(n))
    else if n == "idempotency-key" then if v.Str? then None else Some(NotAString(n))
    else if v == Null || Convertible(tree.flags[tool.accepted[n]], v) then None
    else Some(BadValue(n))
  }

  /** The flag is given a value by the client, or by the engine on its behalf. Never approval. */
  predicate IsGiven(args: map<string, Json>, n: string) {
    n in ["format", "dry-run", "idempotency-key"] || (n in args && (n == "yes" || args[n] != Null))
  }

  ghost predicate Lacks(tree: Tree, tool: Tool, args: map<string, Json>, n: string)
    requires ToolWellFormed(tree, tool)
  {
    n in tool.accepted && tree.flags[tool.accepted[n]].required && !IsGiven(args, n)
  }

  /** The client says true, nothing else. */
  predicate Says(args: map<string, Json>, n: string) {
    n in args && args[n] == Bool(true)
  }

  function AskedKey(c: Call): string {
    if "idempotency-key" in c.args && c.args["idempotency-key"].Str? && c.args["idempotency-key"] != Str("")
    then c.args["idempotency-key"].s else c.freshKey
  }

  /** A scalar flag of the command, its text being the argument's own. */
  ghost predicate ClientToken(tree: Tree, tool: Tool, args: map<string, Json>, a: FlagArg)
    requires ToolWellFormed(tree, tool)
  {
    && a.name in args && !EngineName(a.name) && a.name in tool.accepted
    && tree.flags[tool.accepted[a.name]].ScalarFlag? && HasText(args[a.name], a.value)
  }

  /** The engine's own four: dry-run only to switch it on, approval only as the client put it. */
  function EngineText(c: Call, n: string): Option<string> {
    if n == "format" then Some("json")
    else if n == "dry-run" then if Says(c.args, n) then Some("true") else None
    else if n == "yes" then if n in c.args then Some(if Says(c.args, n) then "true" else "false") else None
    else if n == "idempotency-key" then Some(AskedKey(c))
    else None
  }

  predicate EngineToken(c: Call, a: FlagArg) {
    EngineText(c, a.name) == Some(a.value)
  }

  /** A slice flag of the command, its items being the argument's own. */
  ghost predicate ClientItems(tree: Tree, tool: Tool, args: map<string, Json>, n: string, a: Assignment)
    requires ToolWellFormed(tree, tool)
  {
    && n in args && !EngineName(n) && n in tool.accepted && tool.accepted[n] == a.flag
    && tree.flags[a.flag].SliceFlag? && HasItems(args[n], tree.flags[a.flag].split, a.values)
  }

  ghost function FlagName(tree: Tree, a: Assignment): string {
    if a.flag in tree.flags then tree.flags[a.flag].name else ""
  }

  /** Exactly the tokens, assignments and configuration that the arguments ask for. */
  ghost predicate Carries(tree: Tree, tool: Tool, c: Call, b: Built)
    requires ToolWellFormed(tree, tool)
  {
    && (forall a :: a in b.argv <==> ClientToken(tree, tool, c.args, a) || EngineToken(c, a))
    && DistinctNames(b.argv)
    && (forall i, j :: 0 <= i < j < |b.argv| ==> !StringLess(
          "--" + b.argv[j].name + "=" + b.argv[j].value, "--" + b.argv[i].name + "=" + b.argv[i].value))
    && (forall a :: a in b.assigns <==> ClientItems(tree, tool, c.args, FlagName(tree, a), a))
    && (forall i, j :: 0 <= i < j < |b.assigns| ==>
          StringLess(FlagName(tree, b.assigns[i]), FlagName(tree, b.assigns[j])))
    && b.config == Config(Says(c.args, "dry-run"), Says(c.args, "yes"), AskedKey(c))
  }

  ghost predicate Blameless(tree: Tree, tool: Tool, args: map<string, Json>, n: string)
    requires ToolWellFormed(tree, tool)
  {
    n in args ==> Offence(tree, tool, n, args[n]).None?
  }

  /** The refusal names the first offender in name order or, without one, the first flag that is missing. */
  ghost predicate Refusal(tree: Tree, tool: Tool, args: map<string, Json>, reason: Reason)
    requires ToolWellFormed(tree, tool)
  {
    || (exists n :: n in args && Offence(tree, tool, n, args[n]) == Some(reason)
                    && forall m :: m in args && StringLess(m, n) ==> Blameless(tree, tool, args, m))
    || (&& (forall n :: n in args ==> Blameless(tree, tool, args, n))
        && reason.MissingRequired? && Lacks(tree, tool, args, reason.name)
        && forall m :: Lacks(tree, tool, args, m) ==> !StringLess(m, reason.name))
  }

  // ---------------------------------------------------------------------
  // Conversion
  // ---------------------------------------------------------------------

  lemma TextIs(v: Json, text: string)
    ensures StringifyArg(v) == Rendered(text) <==> HasText(v, text)
    ensures StringifyArg(v) == Skipped <==> v == Null
  {
  }

  lemma {:induction false} ItemTextsAre(vs: seq<Json>, items: seq<string>)
    ensures StringifyItems(vs) == Rendered(items) <==>
            |items| == |vs| && forall i :: 0 <= i < |items| ==> HasText(vs[i], items[i])
    ensures !StringifyItems(vs).Skipped?
    decreases |vs|
  {
    if vs != [] && items != [] {
      TextIs(vs[0], items[0]);
      ItemTextsAre(vs[1..], items[1..]);
      assert items == [items[0]] + items[1..];
      hide HasText, StringifyArg;
      if |items| == |vs| && forall i :: 0 <= i < |items| ==> HasText(vs[i], items[i]) {
        assert forall i :: 0 <= i < |items[1..]| ==> HasText(vs[1..][i], items[1..][i]);
      }
      if StringifyItems(vs) == Rendered(items) {
        forall i | 0 <= i < |items| ensures HasText(vs[i], items[i]) {
          if i > 0 {
            assert HasText(vs[1..][i - 1], items[1..][i - 1]);
          }
        }
      }
    }
  }

  lemma ItemsAre(v: Json, split: string -> Option<seq<string>>, items: seq<string>)
    ensures StringifyArgList(v, split) == Rendered(items) <==> HasItems(v, split, items)
    ensures StringifyArgList(v, split) == Skipped <==> v == Null
  {
    if v.Arr? {
      ItemTextsAre(v.items, items);
    } else {
      forall text ensures StringifyArg(v) == Rendered(text) <==> HasText(v, text) {
        TextIs(v, text);
      }
    }
  }

  /** ConvertArg refuses exactly what is neither null nor convertible. */
  lemma ConvertIs(flag: Flag, v: Json)
    ensures flag.ScalarFlag? ==> (StringifyArg(v).Unsupported? <==> v != Null && !Convertible(flag, v))
    ensures flag.SliceFlag? ==> (StringifyArgList(v, flag.split).Unsupported? <==> v != Null && !Convertible(flag, v))
  {
    if flag.ScalarFlag? {
      forall text ensures StringifyArg(v) == Rendered(text) <==> HasText(v, text) {
        TextIs(v, text);
      }
      if StringifyArg(v).Rendered? {
        assert HasText(v, StringifyArg(v).value);
      }
    } else {
      forall items ensures StringifyArgList(v, flag.split) == Rendered(items) <==> HasItems(v, flag.split, items) {
        ItemsAre(v, flag.split, items);
      }
      ItemsAre(v, flag.split, []);
      hide HasItems, StringifyArgList;
      if StringifyArgList(v, flag.split).Rendered? {
        assert HasItems(v, flag.split, StringifyArgList(v, flag.split).value);
      }
    }
  }

  // ---------------------------------------------------------------------
  // The loop over the argument names
  // ---------------------------------------------------------------------

  /** The draft holds what the arguments seen so far ask for. */
  ghost predicate DraftFrom(tree: Tree, tool: Tool, args: map<string, Json>, seen: set<string>, d: Draft)
    requires ToolWellFormed(tree, tool)
  {
    && TokensFrom(tree, tool, args, seen, d.argv)
    && ItemsFrom(tree, tool, args, seen, d.assigns)
    && (forall n :: n in d.given <==> n in seen && n in args && (EngineName(n) || args[n] != Null))
  }

  ghost predicate TokensFrom(tree: Tree, tool: Tool, args: map<string, Json>, seen: set<string>, argv: seq<FlagArg>)
    requires ToolWellFormed(tree, tool)
  {
    forall a :: a in argv <==> a.name in seen && ClientToken(tree, tool, args, a)
  }

  ghost predicate ItemsFrom(tree: Tree, tool: Tool, args: map<string, Json>, seen: set<string>,
                            assigns: seq<Assignment>)
    requires ToolWellFormed(tree, tool)
  {
    && (forall a :: a in assigns <==>
          FlagName(tree, a) in seen && ClientItems(tree, tool, args, FlagName(tree, a), a))
    && (forall i, j :: 0 <= i < j < |assigns| ==>
          StringLess(FlagName(tree, assigns[i]), FlagName(tree, assigns[j])))
  }

  /** A name that gives no token, or no items, leaves them as they are. */
  lemma TokensPass(tree: Tree, tool: Tool, args: map<string, Json>, seen: set<string>, argv: seq<FlagArg>, key: string)
    requires ToolWellFormed(tree, tool) && TokensFrom(tree, tool, args, seen, argv)
    requires EngineName(key) || key !in args || args[key] == Null
             || (key in tool.accepted && tree.flags[tool.accepted[key]].SliceFlag?)
    ensures TokensFrom(tree, tool, args, seen + {key}, argv)
  {
    forall a: FlagArg | a.name == key ensures !ClientToken(tree, tool, args, a) {
    }
    hide ToolWellFormed, ClientToken;
  }

  lemma ItemsPass(tree: Tree, tool: Tool, args: map<string, Json>, seen: set<string>, assigns: seq<Assignment>,
                  key: string)
    requires ToolWellFormed(tree, tool) && ItemsFrom(tree, tool, args, seen, assigns)
    requires EngineName(key) || key !in args || args[key] == Null
             || (key in tool.accepted && tree.flags[tool.accepted[key]].ScalarFlag?)
    ensures ItemsFrom(tree, tool, args, seen + {key}, assigns)
  {
    forall a: Assignment | FlagName(tree, a) == key ensures !ClientItems(tree, tool, args, key, a) {
    }
    hide ToolWellFormed, ClientItems, FlagName, StringLess;
  }

  /** A step that appends nothing for its name. */
  lemma StepAddsNothing(tree: Tree, tool: Tool, args: map<string, Json>, seen: set<string>, d: Draft, key: string,
                        e: Draft)
    requires ToolWellFormed(tree, tool) && DraftFrom(tree, tool, args, seen, d) && key in args
    requires e.argv == d.argv && e.assigns == d.assigns
    requires e.given == if EngineName(key) then d.given + {key} else d.given
    requires EngineName(key) || args[key] == Null
    ensures DraftFrom(tree, tool, args, seen + {key}, e)
  {
    TokensPass(tree, tool, args, seen, d.argv, key);
    ItemsPass(tree, tool, args, seen, d.assigns, key);
    hide ToolWellFormed, TokensFrom, ItemsFrom;
  }

  lemma StepAddsToken(tree: Tree, tool: Tool, args: map<string, Json>, seen: set<string>, d: Draft, key: string,
                      text: string)
    requires ToolWellFormed(tree, tool) && DraftFrom(tree, tool, args, seen, d) && key in args && key in tool.accepted
    requires !EngineName(key) && tree.flags[tool.accepted[key]].ScalarFlag? && HasText(args[key], text)
    ensures DraftFrom(tree, tool, args, seen + {key},
                      d.(argv := d.argv + [FlagArg(key, text)], given := d.given + {key}))
  {
    ItemsPass(tree, tool, args, seen, d.assigns, key);
    forall a: FlagArg | a.name == key ensures ClientToken(tree, tool, args, a) <==> a == FlagArg(key, text) {
      TextIs(args[key], text);
      TextIs(args[key], a.value);
    }
    hide ToolWellFormed, ClientToken, ItemsFrom;
    assert TokensFrom(tree, tool, args, seen + {key}, d.argv + [FlagArg(key, text)]);
    hide TokensFrom, EngineName;
  }

  lemma StepAddsItems(tree: Tree, tool: Tool, args: map<string, Json>, seen: set<string>, d: Draft, key: string,
                      items: seq<string>)
    requires ToolWellFormed(tree, tool) && DraftFrom(tree, tool, args, seen, d) && key in args && key in tool.accepted
    requires !EngineName(key) && tree.flags[tool.accepted[key]].SliceFlag?
    requires HasItems(args[key], tree.flags[tool.accepted[key]].split, items)
    requires forall n :: n in seen ==> StringLess(n, key)
    ensures DraftFrom(tree, tool, args, seen + {key},
                      d.(assigns := d.assigns + [Assignment(tool.accepted[key], items)], given := d.given + {key}))
  {
    TokensPass(tree, tool, args, seen, d.argv, key);
    ItemsTaken(tree, tool, args, seen, d.assigns, key, items);
    assert args[key] != Null;
    hide ToolWellFormed, TokensFrom, ItemsFrom, HasItems, EngineName;
  }

  lemma ItemsTaken(tree: Tree, tool: Tool, args: map<string, Json>, seen: set<string>, assigns: seq<Assignment>,
                   key: string, items: seq<string>)
    requires ToolWellFormed(tree, tool) && ItemsFrom(tree, tool, args, seen, assigns) && key in args
    requires !EngineName(key) && key in tool.accepted && tree.flags[tool.accepted[key]].SliceFlag?
    requires HasItems(args[key], tree.flags[tool.accepted[key]].split, items)
    requires forall n :: n in seen ==> StringLess(n, key)
    ensures ItemsFrom(tree, tool, args, seen + {key}, assigns + [Assignment(tool.accepted[key], items)])
  {
    var added := Assignment(tool.accepted[key], items);
    assert FlagName(tree, added) == key;
    forall a: Assignment | FlagName(tree, a) == key ensures ClientItems(tree, tool, args, key, a) <==> a == added {
      var split := tree.flags[tool.accepted[key]].split;
      ItemsAre(args[key], split, items);
      ItemsAre(args[key], split, a.values);
    }
    hide ToolWellFormed, ClientItems, FlagName, HasItems, StringLess, EngineName;
    AppendedInOrder(tree, seen, assigns, key, added);
  }

  lemma AppendedInOrder(tree: Tree, seen: set<string>, assigns: seq<Assignment>, key: string, added: Assignment)
    requires FlagName(tree, added) == key && forall n :: n in seen ==> StringLess(n, key)
    requires forall a :: a in assigns ==> FlagName(tree, a) in seen
    requires forall i, j :: 0 <= i < j < |assigns| ==>
               StringLess(FlagName(tree, assigns[i]), FlagName(tree, assigns[j]))
    ensures var all := assigns + [added];
            forall i, j :: 0 <= i < j < |all| ==> StringLess(FlagName(tree, all[i]), FlagName(tree, all[j]))
  {
    hide StringLess, FlagName;
  }

  lemma StepIs(tree: Tree, tool: Tool, args: map<string, Json>, seen: set<string>, d: Draft, key: string)
    requires ToolWellFormed(tree, tool) && DraftFrom(tree, tool, args, seen, d) && key in args
    requires forall n :: n in seen ==> StringLess(n, key)
    ensures var step, why := BuildStep(tree, tool, args, d, key), Offence(tree, tool, key, args[key]);
            if why.Some? then step == Err(why.value)
            else step.Ok? && DraftFrom(tree, tool, args, seen + {key}, step.value)
  {
    if key in tool.accepted && key !in tool.late {
      if EngineName(key) {
        EngineStepIs(tree, tool, args, seen, d, key);
      } else {
        ClientStepIs(tree, tool, args, seen, d, key);
      }
    }
  }

  lemma EngineStepIs(tree: Tree, tool: Tool, args: map<string, Json>, seen: set<string>, d: Draft, key: string)
    requires ToolWellFormed(tree, tool) && DraftFrom(tree, tool, args, seen, d) && key in args && EngineName(key)
    requires key in tool.accepted && key !in tool.late
    ensures var step, why := BuildStep(tree, tool, args, d, key), Offence(tree, tool, key, args[key]);
            if why.Some? then step == Err(why.value)
            else step.Ok? && DraftFrom(tree, tool, args, seen + {key}, step.value)
  {
    ConfigNamesDiffer();
    var step := BuildStep(tree, tool, args, d, key);
    if step.Ok? {
      StepAddsNothing(tree, tool, args, seen, d, key, step.value);
    }
    hide ToolWellFormed, DraftFrom;
  }

  lemma ClientStepIs(tree: Tree, tool: Tool, args: map<string, Json>, seen: set<string>, d: Draft, key: string)
    requires ToolWellFormed(tree, tool) && DraftFrom(tree, tool, args, seen, d) && key in args && !EngineName(key)
    requires key in tool.accepted && key !in tool.late && forall n :: n in seen ==> StringLess(n, key)
    ensures var step, why := BuildStep(tree, tool, args, d, key), Offence(tree, tool, key, args[key]);
            if why.Some? then step == Err(why.value)
            else step.Ok? && DraftFrom(tree, tool, args, seen + {key}, step.value)
  {
    var flag, v := tree.flags[tool.accepted[key]], args[key];
    ConvertIs(flag, v);
    var step := BuildStep(tree, tool, args, d, key);
    assert step == ConvertArg(tree.flags, tool.accepted[key], d, key, v);
    if v == Null {
      assert step == Ok(d);
      StepAddsNothing(tree, tool, args, seen, d, key, d);
    } else if flag.ScalarFlag? && StringifyArg(v).Rendered? {
      var text := StringifyArg(v).value;
      TextIs(v, text);
      StepAddsToken(tree, tool, args, seen, d, key, text);
    } else if flag.SliceFlag? && StringifyArgList(v, flag.split).Rendered? {
      var items := StringifyArgList(v, flag.split).value;
      ItemsAre(v, flag.split, items);
      StepAddsItems(tree, tool, args, seen, d, key, items);
    }
    hide ToolWellFormed, DraftFrom, Convertible, StringifyArg, StringifyArgList, BuildStep;
  }

  /** The loop stops at the first offender, or has gathered what all the names ask for. */
  lemma {:induction false} FoldIs(
    tree: Tree, tool: Tool, args: map<string, Json>, seen: set<string>, keys: seq<string>, d: Draft)
    requires ToolWellFormed(tree, tool) && DraftFrom(tree, tool, args, seen, d)
    requires forall k :: k in keys ==> k in args
    requires Increasing(keys, StringLess) && forall n, k :: n in seen && k in keys ==> StringLess(n, k)
    ensures var r := BuildFold(tree, tool, args, keys, d);
            if r.Ok?
            then (forall k :: k in keys ==> Offence(tree, tool, k, args[k]).None?)
                 && DraftFrom(tree, tool, args, seen + (set k | k in keys), r.value)
            else exists i :: 0 <= i < |keys| && Offence(tree, tool, keys[i], args[keys[i]]) == Some(r.error)
                             && forall j :: 0 <= j < i ==> Offence(tree, tool, keys[j], args[keys[j]]).None?
    decreases |keys|
  {
    hide DraftFrom, Offence, BuildStep, ToolWellFormed, StringLess;
    if keys == [] {
      assert seen + (set k | k in keys) == seen;
    } else {
      assert keys == [keys[0]] + keys[1..];
      StepIs(tree, tool, args, seen, d, keys[0]);
      var step := BuildStep(tree, tool, args, d, keys[0]);
      if step.Ok? {
        FoldIs(tree, tool, args, seen + {keys[0]}, keys[1..], step.value);
        assert seen + {keys[0]} + (set k | k in keys[1..]) == seen + (set k | k in keys);
        var r := BuildFold(tree, tool, args, keys, d);
        if r.Err? {
          var i :| 0 <= i < |keys[1..]| && Offence(tree, tool, keys[1..][i], args[keys[1..][i]]) == Some(r.error)
                   && forall j :: 0 <= j < i ==> Offence(tree, tool, keys[1..][j], args[keys[1..][j]]).None?;
          FirstIsLater(tree, tool, args, keys, i);
        }
      }
    }
  }

  lemma FirstIsLater(tree: Tree, tool: Tool, args: map<string, Json>, keys: seq<string>, i: nat)
    requires ToolWellFormed(tree, tool) && keys != [] && (forall k :: k in keys ==> k in args)
    requires i < |keys| - 1 && Offence(tree, tool, keys[0], args[keys[0]]).None?
    requires forall j :: 0 <= j < i ==> Offence(tree, tool, keys[1..][j], args[keys[1..][j]]).None?
    ensures keys[i + 1] == keys[1..][i]
    ensures forall j :: 0 <= j < i + 1 ==> Offence(tree, tool, keys[j], args[keys[j]]).None?
  {
    hide Offence, ToolWellFormed;
    forall j | 0 <= j < i + 1 ensures Offence(tree, tool, keys[j], args[keys[j]]).None? {
      if j > 0 {
        assert keys[1..][j - 1] == keys[j];
      }
    }
  }

  // ---------------------------------------------------------------------
  // The tail: what is missing, what is forced, and the order
  // ---------------------------------------------------------------------

  lemma {:induction false} MissingIs(tree: Tree, tool: Tool, names: seq<string>, given: set<string>)
    requires ToolWellFormed(tree, tool) && forall n :: n in names ==> n in tool.accepted
    requires Increasing(names, StringLess)
    ensures var missing := FirstMissing(tree, tool, names, given);
            if missing.None? then forall n :: n in names ==> tree.flags[tool.accepted[n]].required ==> n in given
            else
              && missing.value in names && tree.flags[tool.accepted[missing.value]].required && missing.value !in given
              && forall m :: m in names && StringLess(m, missing.value) ==>
                   tree.flags[tool.accepted[m]].required ==> m in given
    decreases |names|
  {
    if names != [] {
      assert names == [names[0]] + names[1..];
      MissingIs(tree, tool, names[1..], given);
      if tree.flags[tool.accepted[names[0]]].required && names[0] !in given {
        forall m | m in names ensures !StringLess(m, names[0]) {
          StringOrder(names[0], m, names[0]);
        }
      }
      hide ToolWellFormed, StringLess;
    }
  }

  lemma NothingBelow(names: seq<string>, tree: Tree, tool: Tool, args: map<string, Json>, given: set<string>)
    requires ToolWellFormed(tree, tool) && forall n :: n in names <==> n in tool.accepted
    requires forall n :: n in given <==> IsGiven(args, n)
    requires Increasing(names, StringLess)
    ensures var missing := FirstMissing(tree, tool, names, given);
            if missing.None? then forall n :: !Lacks(tree, tool, args, n)
            else Lacks(tree, tool, args, missing.value)
                 && forall m :: Lacks(tree, tool, args, m) ==> !StringLess(m, missing.value)
  {
    MissingIs(tree, tool, names, given);
    hide ToolWellFormed, StringLess, IsGiven, FirstMissing;
  }

  lemma TokensWeaklyOrdered()
    ensures StrictWeak(TokenLess)
  {
    forall x, y | TokenLess(x, y) ensures !TokenLess(y, x) {
      StringLessIrreflexive(Token(x));
      StringOrder(Token(x), Token(y), Token(x));
    }
    forall x, y, z | !TokenLess(x, y) && !TokenLess(y, z) ensures !TokenLess(x, z) {
      StringOrder(Token(x), Token(z), Token(y));
      StringOrder(Token(y), Token(x), Token(z));
      StringOrder(Token(z), Token(y), Token(x));
    }
  }

  /** The client's tokens and the engine's, whatever the order. */
  lemma AllArgsAre(tree: Tree, tool: Tool, c: Call, d: Draft, a: FlagArg)
    requires ToolWellFormed(tree, tool) && DraftFrom(tree, tool, c.args, c.args.Keys, d)
    requires ConfigOk(c.args, c.args.Keys, d)
    ensures a in AllArgs(d, c.freshKey) <==> ClientToken(tree, tool, c.args, a) || EngineToken(c, a)
  {
    assert a in d.argv <==> ClientToken(tree, tool, c.args, a);
    assert FinalKey(d, c.freshKey) == AskedKey(c);
    hide DraftFrom, ToolWellFormed, ClientToken, FinalKey, AskedKey;
  }

  lemma ArgvIs(tree: Tree, tool: Tool, c: Call, d: Draft)
    requires ToolWellFormed(tree, tool) && DraftFrom(tree, tool, c.args, c.args.Keys, d)
    requires DraftOk(tree, tool, c.args.Keys, d) && ConfigOk(c.args, c.args.Keys, d)
    ensures var argv := Sort(AllArgs(d, c.freshKey), TokenLess);
            && (forall a :: a in argv <==> ClientToken(tree, tool, c.args, a) || EngineToken(c, a))
            && DistinctNames(argv)
  {
    var argv := Sort(AllArgs(d, c.freshKey), TokenLess);
    AllArgsOk(tree, tool, d, c.freshKey);
    SameElements(argv, AllArgs(d, c.freshKey));
    hide AllArgs, Sort, ToolWellFormed, DraftFrom, ConfigOk, DraftOk, ClientToken, EngineToken, Parsable, DistinctNames;
    forall a ensures a in argv <==> ClientToken(tree, tool, c.args, a) || EngineToken(c, a) {
      AllArgsAre(tree, tool, c, d, a);
    }
  }

  lemma BuiltCarries(tree: Tree, tool: Tool, c: Call, d: Draft, b: Built)
    requires ToolWellFormed(tree, tool) && DraftFrom(tree, tool, c.args, c.args.Keys, d)
    requires DraftOk(tree, tool, c.args.Keys, d) && ConfigOk(c.args, c.args.Keys, d)
    requires b == Built(Sort(AllArgs(d, c.freshKey), TokenLess), d.assigns, d.config.(key := FinalKey(d, c.freshKey)))
    ensures Carries(tree, tool, c, b)
  {
    hide AllArgs, Sort, ToolWellFormed, DraftFrom, DraftOk, ConfigOk, ClientToken, EngineToken, DistinctNames;
    hide StringLess, AskedKey, Says, FinalKey, ClientItems, FlagName;
    ArgvIs(tree, tool, c, d);
    SortedTokens(d, c.freshKey);
    AssignsAre(tree, tool, c.args, d);
    ConfigIs(c, d);
  }

  lemma ConfigIs(c: Call, d: Draft)
    requires ConfigOk(c.args, c.args.Keys, d)
    ensures d.config.(key := FinalKey(d, c.freshKey)) ==
            Config(Says(c.args, "dry-run"), Says(c.args, "yes"), AskedKey(c))
  {
  }

  lemma AssignsAre(tree: Tree, tool: Tool, args: map<string, Json>, d: Draft)
    requires ToolWellFormed(tree, tool) && DraftFrom(tree, tool, args, args.Keys, d)
    ensures forall a :: a in d.assigns <==> ClientItems(tree, tool, args, FlagName(tree, a), a)
    ensures forall i, j :: 0 <= i < j < |d.assigns| ==>
              StringLess(FlagName(tree, d.assigns[i]), FlagName(tree, d.assigns[j]))
  {
    hide ToolWellFormed, StringLess, ClientToken, HasItems, FlagName;
  }

  lemma FinishIs(tree: Tree, tool: Tool, names: seq<string>, c: Call, d: Draft)
    requires ToolWellFormed(tree, tool) && DraftFrom(tree, tool, c.args, c.args.Keys, d)
    requires DraftOk(tree, tool, c.args.Keys, d) && ConfigOk(c.args, c.args.Keys, d)
    requires Increasing(names, StringLess) && forall n :: n in names <==> n in tool.accepted
    ensures var r := Finish(tree, tool, names, d, c.freshKey);
            if r.Ok? then Carries(tree, tool, c, r.value) && forall n :: !Lacks(tree, tool, c.args, n)
            else r.error.MissingRequired? && Lacks(tree, tool, c.args, r.error.name)
                 && forall m :: Lacks(tree, tool, c.args, m) ==> !StringLess(m, r.error.name)
  {
    hide ToolWellFormed, DraftFrom, DraftOk, ConfigOk, Carries, Lacks, AllArgs, Sort, FirstMissing, StringLess;
    hide FinalKey, IsGiven, Increasing;
    GivenIs(tree, tool, c.args, d);
    NothingBelow(names, tree, tool, c.args, d.given + {FORMAT, DRY_RUN, IDEMPOTENCY_KEY});
    var b := Built(Sort(AllArgs(d, c.freshKey), TokenLess), d.assigns, d.config.(key := FinalKey(d, c.freshKey)));
    BuiltCarries(tree, tool, c, d, b);
  }

  lemma GivenIs(tree: Tree, tool: Tool, args: map<string, Json>, d: Draft)
    requires ToolWellFormed(tree, tool) && DraftFrom(tree, tool, args, args.Keys, d)
    ensures forall n :: n in d.given + {FORMAT, DRY_RUN, IDEMPOTENCY_KEY} <==> IsGiven(args, n)
  {
    hide ToolWellFormed, ClientToken, ClientItems, FlagName;
  }

  lemma SortedTokens(d: Draft, freshKey: string)
    ensures var argv := Sort(AllArgs(d, freshKey), TokenLess);
            forall i, j :: 0 <= i < j < |argv| ==> !StringLess(
              "--" + argv[j].name + "=" + argv[j].value, "--" + argv[i].name + "=" + argv[i].value)
  {
    var argv := Sort(AllArgs(d, freshKey), TokenLess);
    TokensWeaklyOrdered();
    SortSorts(AllArgs(d, freshKey), TokenLess);
    hide AllArgs, StringLess, Sort;
    forall i, j | 0 <= i < j < |argv|
      ensures !StringLess("--" + argv[j].name + "=" + argv[j].value, "--" + argv[i].name + "=" + argv[i].value)
    {
      assert !TokenLess(argv[j], argv[i]);
    }
  }

  /**
    buildArgs, from the arguments alone. A refusal names the first offender in name
    order, or else the first required flag that nobody gave; otherwise every
    argument is carried to its own flag as the client put it, and the engine adds
    its own, sorted. Approval is carried exactly as supplied.
   */
  lemma BuildArgsCarriesTheArguments(tree: Tree, tool: Tool, c: Call)
    requires ToolWellFormed(tree, tool)
    ensures var r := BuildArgs(tree, tool, c);
            if r.Ok?
            then
              && Carries(tree, tool, c, r.value)
              && (forall n :: n in c.args ==> Blameless(tree, tool, c.args, n))
              && forall n :: !Lacks(tree, tool, c.args, n)
            else Refusal(tree, tool, c.args, r.error)
  {
    LoopIs(tree, tool, c, Ascending(c.args.Keys));
    DraftOfArgs(tree, tool, c);
    var d := BuildFold(tree, tool, c.args, Ascending(c.args.Keys), EMPTY_DRAFT);
    hide BuildFold, ToolWellFormed, DraftFrom, DraftOk, ConfigOk, Blameless, StringLess, Lacks, Carries, Finish;
    hide Increasing, Refusal, Distinct;
    if d.Ok? {
      FinishIs(tree, tool, Ascending(tool.accepted.Keys), c, d.value);
      if Finish(tree, tool, Ascending(tool.accepted.Keys), d.value, c.freshKey).Err? {
        var why := Finish(tree, tool, Ascending(tool.accepted.Keys), d.value, c.freshKey).error;
        MissingIsRefusal(tree, tool, c.args, why);
      }
    }
  }

  lemma MissingIsRefusal(tree: Tree, tool: Tool, args: map<string, Json>, why: Reason)
    requires ToolWellFormed(tree, tool) && forall n :: n in args ==> Blameless(tree, tool, args, n)
    requires why.MissingRequired? && Lacks(tree, tool, args, why.name)
    requires forall m :: Lacks(tree, tool, args, m) ==> !StringLess(m, why.name)
    ensures Refusal(tree, tool, args, why)
  {
    hide ToolWellFormed, Blameless, Lacks, StringLess, Offence;
  }

  lemma LoopIs(tree: Tree, tool: Tool, c: Call, keys: seq<string>)
    requires ToolWellFormed(tree, tool) && Increasing(keys, StringLess) && forall k :: k in keys <==> k in c.args
    ensures var d := BuildFold(tree, tool, c.args, keys, EMPTY_DRAFT);
            if d.Ok?
            then DraftFrom(tree, tool, c.args, c.args.Keys, d.value) &&
                 forall n :: n in c.args ==> Blameless(tree, tool, c.args, n)
            else Refusal(tree, tool, c.args, d.error)
  {
    FoldIs(tree, tool, c.args, {}, keys, EMPTY_DRAFT);
    assert {} + (set k | k in keys) == c.args.Keys;
    var d := BuildFold(tree, tool, c.args, keys, EMPTY_DRAFT);
    hide BuildFold, ToolWellFormed, DraftFrom, Offence, StringLess, Lacks;
    if d.Err? {
      var i :| 0 <= i < |keys| && Offence(tree, tool, keys[i], c.args[keys[i]]) == Some(d.error)
               && forall j :: 0 <= j < i ==> Offence(tree, tool, keys[j], c.args[keys[j]]).None?;
      FirstOffender(tree, tool, c.args, keys, i);
    }
  }

  lemma FirstOffender(tree: Tree, tool: Tool, args: map<string, Json>, keys: seq<string>, i: nat)
    requires ToolWellFormed(tree, tool) && Increasing(keys, StringLess) && forall k :: k in keys <==> k in args
    requires i < |keys| && forall j :: 0 <= j < i ==> Offence(tree, tool, keys[j], args[keys[j]]).None?
    ensures forall m :: m in args && StringLess(m, keys[i]) ==> Blameless(tree, tool, args, m)
  {
    hide Offence, ToolWellFormed;
    forall m | m in args && StringLess(m, keys[i]) ensures Blameless(tree, tool, args, m) {
      var j :| 0 <= j < |keys| && keys[j] == m;
      StringOrder(keys[i], keys[j], keys[i]);
    }
  }
}
