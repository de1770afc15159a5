/**
  Execute's exit code, its held stdout under --strict, and the writers and flags
  it leaves on a long-lived command tree. Commands are numbered so that a parent
  precedes its children and 0 is the root.
 */
module ExecuteStrict {
  import opened Base

  /** Where bytes can go. Buffer is the buffer of the Execute call in progress. */
  datatype Writer = Stdout | External(id: nat) | Buffer

  datatype Chunk = Chunk(to: Writer, text: string)

  /** A --strict flag: pflag's current value, changed bit and default. */
  datatype BoolFlag = BoolFlag(value: bool, changed: bool, def: bool)

  /**
    parent: the tree; flagOf: the --strict flag each command resolves to, where
    the flags in reset are the root's own. out: the writer set on each command;
    flags: their values; log: everything that reached a writer.
   */
  datatype Tree = Tree(
    parent: seq<int>, flagOf: seq<nat>, reset: set<nat>,
    out: seq<Option<Writer>>, flags: seq<BoolFlag>, log: seq<Chunk>)

  ghost predicate WellFormed(t: Tree) {
    && t.parent != [] && t.parent[0] == -1
    && (forall i :: 0 < i < |t.parent| ==> 0 <= t.parent[i] < i)
    && |t.flagOf| == |t.parent| == |t.out|
    && (forall i :: 0 <= i < |t.flagOf| ==> t.flagOf[i] < |t.flags|)
    && (forall i :: 0 <= i < |t.out| ==> t.out[i] != Some(Buffer))
  }

  /** OutOrStdout: the nearest writer up the tree. */
  ghost function Effective(t: Tree, i: nat): Writer
    requires WellFormed(t) && i < |t.out|
  {
    EffectiveIn(t.parent, t.out, i)
  }

  ghost predicate IsTree(parent: seq<int>) {
    parent != [] && parent[0] == -1 && forall i :: 0 < i < |parent| ==> 0 <= parent[i] < i
  }

  function EffectiveIn(parent: seq<int>, out: seq<Option<Writer>>, i: nat): Writer
    requires |parent| == |out| && i < |out| && IsTree(parent)
  {
    if out[i].Some? then out[i].value
    else if i == 0 then Stdout
    else EffectiveIn(parent, out, parent[i])
  }

  /** The way up from i, past commands without a writer, to the first that has one or to the root. */
  ghost predicate WayUp(parent: seq<int>, out: seq<Option<Writer>>, path: seq<nat>, i: nat)
    requires |parent| == |out|
  {
    && path != [] && path[0] == i
    && (forall k :: 0 <= k < |path| ==> path[k] < |out|)
    && (forall k :: 0 <= k < |path| - 1 ==> out[path[k]].None? && parent[path[k]] == path[k + 1])
  }

  /** What a command writes reaches the writer nearest above it, or the process's stdout. */
  ghost predicate WritesTo(parent: seq<int>, out: seq<Option<Writer>>, i: nat, w: Writer)
    requires |parent| == |out|
  {
    exists path :: WayUp(parent, out, path, i) &&
      var top := path[|path| - 1];
      out[top] == Some(w) || (out[top] == None && top == 0 && w == Stdout)
  }

  lemma {:induction false} EffectiveIsNearest(parent: seq<int>, out: seq<Option<Writer>>, i: nat)
    requires |parent| == |out| && i < |out| && IsTree(parent)
    ensures WritesTo(parent, out, i, EffectiveIn(parent, out, i))
    decreases i
  {
    if out[i].Some? || i == 0 {
      assert WayUp(parent, out, [i], i);
    } else {
      var w := EffectiveIn(parent, out, parent[i]);
      EffectiveIsNearest(parent, out, parent[i]);
      var path :| WayUp(parent, out, path, parent[i]) &&
                  var top := path[|path| - 1];
                  out[top] == Some(w) || (out[top] == None && top == 0 && w == Stdout);
      var longer := [i] + path;
      forall k | 0 <= k < |longer| - 1 ensures out[longer[k]].None? && parent[longer[k]] == longer[k + 1] {
        if k > 0 {
          assert longer[k] == path[k - 1] && longer[k + 1] == path[k];
        }
      }
      assert WayUp(parent, out, longer, i) && longer[|longer| - 1] == path[|path| - 1];
    }
  }

  // ---------------------------------------------------------------------
  // One call
  // ---------------------------------------------------------------------

  datatype Warning = Warning(code: string, message: string)

  /** What a command body does: writes through its own OutOrStdout, or WithWarnings. */
  datatype Action = Write(text: string) | Warn(warnings: seq<Warning>)

  /** How the invocation ends: an error carries the exit code its envelope asks for. */
  datatype End = Returns | Fails(code: int) | Panics

  /**
    What the parse of argv meets that matters here: a --strict with a boolean, a
    --strict with a value that is none, or another argument's parse error.
   */
  datatype Token = Given(b: bool) | Malformed | OtherError

  /**
    stdout: the configured writer, None for a nil one; asks: those tokens of argv,
    in order; early: the exit code of an error before the body, from the mode or,
    when the parse fails, of a typed parse error; exits: --help or --version make
    Cobra print and return before any hook.
   */
  datatype Call = Call(
    stdout: Option<Writer>, invoked: nat, asks: seq<Token>, early: Option<int>, exits: bool,
    actions: seq<Action>, end: End)

  /** unicode.IsSpace. */
  predicate IsSpace(c: char): (space: bool)
    ensures space <==>
            || 9 <= c as int <= 13 || 0x2000 <= c as int <= 0x200A
            || c as int in [0x20, 0x85, 0xA0, 0x1680, 0x2028, 0x2029, 0x202F, 0x205F, 0x3000]
  {
    || '\t' <= c <= '\r' || c in " \U{85}\U{A0}\U{1680}\U{2028}\U{2029}\U{202F}\U{205F}\U{3000}"
    || '\U{2000}' <= c <= '\U{200A}'
  }

  /** Empty once strings.TrimSpace is done. */
  predicate Blank(s: string) {
    forall i :: 0 <= i < |s| ==> IsSpace(s[i])
  }

  /** A warning with a blank code or message is dropped. */
  function Kept(ws: seq<Warning>): seq<Warning> {
    if ws == [] then []
    else if Blank(ws[0].code) || Blank(ws[0].message) then Kept(ws[1..])
    else [ws[0]] + Kept(ws[1..])
  }

  /** Code and message each hold something other than white space. */
  ghost predicate Proper(w: Warning) {
    && (exists i :: 0 <= i < |w.code| && !IsSpace(w.code[i]))
    && (exists i :: 0 <= i < |w.message| && !IsSpace(w.message[i]))
  }

  /** Each proper warning is kept where it stands, and nothing else is. */
  lemma {:induction false} KeptInPlace(before: seq<Warning>, w: Warning, after: seq<Warning>)
    ensures Kept(before + [w] + after) == Kept(before) + (if Proper(w) then [w] else []) + Kept(after)
    decreases |before|
  {
    assert Proper(w) <==> !Blank(w.code) && !Blank(w.message);
    hide Proper, Blank;
    var all := before + [w] + after;
    if before == [] {
      assert all == [w] + after && all[1..] == after;
    } else {
      assert all[0] == before[0] && all[1..] == before[1..] + [w] + after;
      KeptInPlace(before[1..], w, after);
    }
  }

  lemma {:induction false} KeptAreProper(ws: seq<Warning>, w: Warning)
    ensures w in Kept(ws) <==> w in ws && Proper(w)
    ensures multiset(Kept(ws))[w] == if Proper(w) then multiset(ws)[w] else 0
    decreases |ws|
  {
    if ws != [] {
      KeptAreProper(ws[1..], w);
      assert ws == [ws[0]] + ws[1..];
      assert Proper(ws[0]) <==> !Blank(ws[0].code) && !Blank(ws[0].message);
      hide Proper, Blank;
    }
  }

  /** The list --strict escalates: what the last WithWarnings kept. */
  function LastKept(actions: seq<Action>): seq<Warning> {
    if actions == [] then []
    else if actions[|actions| - 1].Warn? then Kept(actions[|actions| - 1].warnings)
    else LastKept(actions[..|actions| - 1])
  }

  /** The bytes the body writes, in order. */
  function Written(actions: seq<Action>): string {
    if actions == [] then ""
    else Written(actions[..|actions| - 1]) +
         (if actions[|actions| - 1].Write? then actions[|actions| - 1].text else "")
  }

  /** The i-th action is the last WithWarnings. */
  ghost predicate LastWarnAt(actions: seq<Action>, i: nat) {
    i < |actions| && actions[i].Warn? && forall j :: i < j < |actions| ==> actions[j].Write?
  }

  /** The last WithWarnings of the body lists a proper warning. */
  ghost predicate WarnsAtLast(actions: seq<Action>) {
    exists i: nat, w :: LastWarnAt(actions, i) && w in actions[i].warnings && Proper(w)
  }

  /** Only the last WithWarnings counts: an earlier warning is forgotten. */
  lemma {:induction false} LastKeptIff(actions: seq<Action>)
    ensures LastKept(actions) != [] <==> WarnsAtLast(actions)
    decreases |actions|
  {
    if actions != [] {
      var n := |actions| - 1;
      hide Proper, Kept;
      if actions[n].Warn? {
        forall w ensures w in Kept(actions[n].warnings) <==> w in actions[n].warnings && Proper(w) {
          KeptAreProper(actions[n].warnings, w);
        }
        assert forall i: nat :: LastWarnAt(actions, i) ==> i == n;
        if Kept(actions[n].warnings) != [] {
          assert LastWarnAt(actions, n) && Kept(actions[n].warnings)[0] in Kept(actions[n].warnings);
        }
      } else {
        LastKeptIff(actions[..n]);
        forall i: nat ensures LastWarnAt(actions, i) <==> LastWarnAt(actions[..n], i) {
        }
        assert forall i: nat :: LastWarnAt(actions, i) ==> actions[..n][i] == actions[i];
        hide LastWarnAt, LastKept;
        assert WarnsAtLast(actions) <==> WarnsAtLast(actions[..n]);
      }
    }
  }

  function TextOf(a: Action): string {
    match a
    case Write(text) => text
    case Warn(_) => ""
  }

  /** What has been written after each action. */
  ghost predicate GrowsTo(actions: seq<Action>, sofar: seq<string>) {
    && |sofar| == |actions| + 1 && sofar[0] == ""
    && forall i :: 0 <= i < |actions| ==> sofar[i + 1] == sofar[i] + TextOf(actions[i])
  }

  /** The text is that of the writes, one after the other. */
  ghost predicate Spells(actions: seq<Action>, text: string) {
    exists sofar :: GrowsTo(actions, sofar) && text == sofar[|actions|]
  }

  lemma {:induction false} WrittenSpells(actions: seq<Action>)
    ensures Spells(actions, Written(actions))
    decreases |actions|
  {
    if actions == [] {
      assert GrowsTo(actions, [""]);
    } else {
      var n, whole := |actions| - 1, Written(actions);
      assert whole == Written(actions[..n]) + TextOf(actions[n]);
      WrittenSpells(actions[..n]);
      hide Written, TextOf;
      var sofar :| GrowsTo(actions[..n], sofar) && Written(actions[..n]) == sofar[n];
      forall i | 0 <= i < n ensures sofar[i + 1] == sofar[i] + TextOf(actions[i]) {
        assert actions[..n][i] == actions[i];
      }
      assert GrowsTo(actions, sofar + [whole]);
    }
  }

  function ResetFlag(f: BoolFlag): BoolFlag {
    if f.changed then BoolFlag(f.def, false, f.def) else f
  }

  /**
    pflag's parse of the tokens, up to the first that fails. A malformed --strict
    stores false, the result of the failed parse, and leaves the changed bit as it
    is; what stands behind another argument's error is never reached.
   */
  function ParseTokens(f: BoolFlag, tokens: seq<Token>): (r: BoolFlag)
    ensures r.def == f.def
    decreases |tokens|
  {
    if tokens == [] then f else
    match tokens[0]
    case Given(b) => ParseTokens(BoolFlag(b, true, f.def), tokens[1..])
    case Malformed => f.(value := false)
    case OtherError => f
  }

  /** The error before the body, if any; an untyped parse error exits 1. */
  function Early(c: Call): Option<int> {
    if (Malformed in c.asks || OtherError in c.asks) && c.early.None? then Some(1) else c.early
  }

  /** Error.ExitCode: a zero code is reported as an internal error. */
  function ExitOf(code: int): int {
    if code == 0 then 1 else code
  }

  /** Which strictness a call resolves to once argv is parsed. */
  function StrictOf(t: Tree, c: Call): bool
    requires c.invoked < |t.flagOf| && t.flagOf[c.invoked] < |t.flags|
  {
    var f := t.flagOf[c.invoked];
    ParseTokens(if f in t.reset then ResetFlag(t.flags[f]) else t.flags[f], c.asks).value
  }

  /** The hook runs and finds --strict set. */
  predicate Strictly(t: Tree, c: Call)
    requires c.invoked < |t.flagOf| && t.flagOf[c.invoked] < |t.flags|
  {
    !c.exits && StrictOf(t, c)
  }

  /** The tree once flags are reset, the root writer set and argv parsed. */
  function Prepared(t: Tree, c: Call): Tree
    requires |t.out| > 0 && c.invoked < |t.flagOf|
  {
    var flags := seq(|t.flags|, i requires 0 <= i < |t.flags| =>
                       if i in t.reset then ResetFlag(t.flags[i]) else t.flags[i]);
    var f := t.flagOf[c.invoked];
    var parsed := if f < |flags| then flags[f := ParseTokens(flags[f], c.asks)] else flags;
    t.(out := t.out[0 := c.stdout], flags := parsed)
  }

  /** holdStdout then restore: the writer the invoked command is left with. */
  ghost function Restored(t: Tree, i: nat): Option<Writer>
    requires WellFormed(t) && i < |t.out|
  {
    if i > 0 && Effective(t, i) == Effective(t, t.parent[i]) then None else Some(Effective(t, i))
  }

  /** The writes of a body, as they land when nothing is held. */
  function Chunks(actions: seq<Action>, w: Writer): seq<Chunk> {
    if actions == [] then []
    else
      var last := actions[|actions| - 1];
      Chunks(actions[..|actions| - 1], w) + (if last.Write? then [Chunk(w, last.text)] else [])
  }

  /** --strict, and the last WithWarnings kept something. */
  function Escalates(t: Tree, c: Call): bool
    requires c.invoked < |t.flagOf| && t.flagOf[c.invoked] < |t.flags|
  {
    Strictly(t, c) && LastKept(c.actions) != []
  }

  /** The exit code; None when the body panics through Execute. */
  function ExitCode(t: Tree, c: Call): Option<int>
    requires c.invoked < |t.flagOf| && t.flagOf[c.invoked] < |t.flags|
  {
    if Early(c).Some? then Some(ExitOf(Early(c).value)) else
    match c.end
    case Panics => None
    case Fails(code) => Some(ExitOf(code))
    case Returns => Some(if Escalates(t, c) then 2 else 0)
  }

  /** What the call adds to the log. */
  ghost function Emitted(t: Tree, c: Call): seq<Chunk>
    requires WellFormed(t) && c.invoked < |t.out| && WellFormed(Prepared(t, c))
  {
    var dest := Effective(Prepared(t, c), c.invoked);
    if Early(c).Some? then []
    else if !Strictly(t, c) then Chunks(c.actions, dest)
    else if c.end == Returns && !Escalates(t, c) then [Chunk(dest, Written(c.actions))]
    else []
  }

  /** The tree Execute leaves behind. */
  ghost function After(t: Tree, c: Call): Tree
    requires WellFormed(t) && c.invoked < |t.out| && WellFormed(Prepared(t, c))
  {
    var p := Prepared(t, c);
    var out := if Early(c).None? && Strictly(t, c) then p.out[c.invoked := Restored(p, c.invoked)] else p.out;
    p.(out := out, log := t.log + Emitted(t, c))
  }

  /** Everything that reached w. */
  function Received(log: seq<Chunk>, w: Writer): string {
    if log == [] then ""
    else Received(log[..|log| - 1], w) + (if log[|log| - 1].to == w then log[|log| - 1].text else "")
  }

  // ---------------------------------------------------------------------
  // Writers
  // ---------------------------------------------------------------------

  /** A call on a well-formed tree is one whose command exists and whose stdout is not a held buffer. */
  predicate Callable(t: Tree, c: Call) {
    c.invoked < |t.out| && c.stdout != Some(Buffer)
  }

  lemma PreparedIsWellFormed(t: Tree, c: Call)
    requires WellFormed(t) && Callable(t, c)
    ensures WellFormed(Prepared(t, c))
    ensures Prepared(t, c).flags[t.flagOf[c.invoked]].value == StrictOf(t, c)
  {
  }

  lemma {:induction false} RestoredElsewhere(t: Tree, i: nat, j: nat)
    requires WellFormed(t) && i < |t.out| && j < |t.out|
    requires IsTree(t.parent)
    ensures EffectiveIn(t.parent, t.out[i := Restored(t, i)], j) == EffectiveIn(t.parent, t.out, j)
    decreases j
  {
    if j == i {
      if i > 0 && Restored(t, i).None? {
        RestoredElsewhere(t, i, t.parent[i]);
      }
    } else if t.out[j].None? && j > 0 {
      RestoredElsewhere(t, i, t.parent[j]);
    }
  }

  lemma {:induction false} EffectiveNotBuffer(t: Tree, i: nat)
    requires WellFormed(t) && i < |t.out|
    ensures Effective(t, i) != Buffer
    decreases i
  {
    if t.out[i].None? && i > 0 {
      EffectiveNotBuffer(t, t.parent[i]);
    }
  }

  /**
    Whatever a call does, every command afterwards writes where it would have
    written before the hold.
   */
  lemma WritersAreRestored(t: Tree, c: Call)
    requires WellFormed(t) && Callable(t, c)
    ensures WellFormed(Prepared(t, c)) && WellFormed(After(t, c))
    ensures forall j :: 0 <= j < |t.out| ==> Effective(After(t, c), j) == Effective(Prepared(t, c), j)
  {
    PreparedIsWellFormed(t, c);
    var p := Prepared(t, c);
    hide Prepared;
    EffectiveNotBuffer(p, c.invoked);
    forall j: nat | j < |t.out| ensures Effective(After(t, c), j) == Effective(p, j) {
      RestoredElsewhere(p, c.invoked, j);
    }
  }

  /**
    A command's own writer survives a strict call unless it equals the writer its
    parent resolves to in that call: restore then takes it for an inherited one
    and clears it. (A root without a writer gets its effective one pinned.)
   */
  lemma OwnWriterIsKeptIff(t: Tree, i: nat)
    requires WellFormed(t) && i < |t.out|
    ensures Restored(t, i) == t.out[i] <==>
            if i > 0 then !(t.out[i].Some? && t.out[i].value == Effective(t, t.parent[i]))
            else t.out[i].Some?
  {
  }

  /** A child with a writer of its own, and a first strict call whose stdout is that writer. */
  function PinnedTree(): Tree {
    Tree([-1, 0], [0, 0], {0}, [None, Some(External(7))], [BoolFlag(false, false, false)], [])
  }

  function PinnedCall(stdout: nat, asks: seq<Token>): Call {
    Call(Some(External(stdout)), 1, asks, None, false, [Write("x")], Returns)
  }

  /**
    So the pin can be lost for later calls: after a strict call to stdout 7, the
    next call, to stdout 8, no longer writes to the command's own writer.
   */
  lemma PinLostWitness()
    ensures var t, strict, next := PinnedTree(), PinnedCall(7, [Given(true)]), PinnedCall(8, []);
            && WellFormed(t) && WellFormed(Prepared(t, strict)) && WellFormed(After(t, strict))
            && WellFormed(Prepared(t, next)) && Effective(Prepared(t, next), 1) == External(7)
            && WellFormed(Prepared(After(t, strict), next))
            && Effective(Prepared(After(t, strict), next), 1) == External(8)
  {
    var t, strict, next := PinnedTree(), PinnedCall(7, [Given(true)]), PinnedCall(8, []);
    PinLost();
    PinHolds();
    WritersAreRestored(t, strict);
    NoPin(After(t, strict), next);
    hide *;
  }

  /** Before the strict call, the next one would write to the command's own writer. */
  lemma PinHolds()
    ensures var t, next := PinnedTree(), PinnedCall(8, []);
            WellFormed(t) && WellFormed(Prepared(t, next)) && Effective(Prepared(t, next), 1) == External(7)
  {
    PreparedIsWellFormed(PinnedTree(), PinnedCall(8, []));
  }

  /** Without it, the command inherits the writer of the call. */
  lemma NoPin(u: Tree, next: Call)
    requires WellFormed(u) && u.out == [Some(External(7)), None] && u.parent == [-1, 0]
    requires next == PinnedCall(8, [])
    ensures WellFormed(Prepared(u, next)) && Effective(Prepared(u, next), 1) == External(8)
  {
    PreparedIsWellFormed(u, next);
    var q := Prepared(u, next);
    assert q.out == [Some(External(8)), None];
    assert EffectiveIn(q.parent, q.out, 0) == External(8);
  }

  lemma PinLost()
    ensures var t, strict := PinnedTree(), PinnedCall(7, [Given(true)]);
            && WellFormed(t) && WellFormed(Prepared(t, strict))
            && After(t, strict).out == [Some(External(7)), None] && After(t, strict).parent == [-1, 0]
  {
    var t, strict := PinnedTree(), PinnedCall(7, [Given(true)]);
    PreparedIsWellFormed(t, strict);
    var p := Prepared(t, strict);
    assert p.out == [Some(External(7)), Some(External(7))];
    assert EffectiveIn(p.parent, p.out, 0) == External(7);
  }

  // ---------------------------------------------------------------------
  // Exit codes and output
  // ---------------------------------------------------------------------

  lemma ReceivedAppend(log: seq<Chunk>, ch: Chunk, w: Writer)
    ensures Received(log + [ch], w) == Received(log, w) + (if ch.to == w then ch.text else "")
  {
    assert (log + [ch])[..|log|] == log;
  }

  lemma OneMoreChunk(log: seq<Chunk>, before: seq<Chunk>, ch: Chunk, w: Writer, r: string, sofar: string)
    requires Received(log + before, w) == r + sofar
    ensures Received(log + (before + [ch]), w) == r + (sofar + (if ch.to == w then ch.text else ""))
  {
    assert log + (before + [ch]) == (log + before) + [ch];
    ReceivedAppend(log + before, ch, w);
    hide Received;
    var text := if ch.to == w then ch.text else "";
    assert (r + sofar) + text == r + (sofar + text);
  }

  lemma {:induction false} ChunksReceived(log: seq<Chunk>, actions: seq<Action>, dest: Writer, w: Writer)
    ensures Received(log + Chunks(actions, dest), w) ==
            Received(log, w) + (if w == dest then Written(actions) else "")
    decreases |actions|
  {
    hide Received;
    if actions == [] {
      assert log + [] == log;
    } else {
      var front, last := actions[..|actions| - 1], actions[|actions| - 1];
      ChunksReceived(log, front, dest, w);
      if last.Write? {
        OneMoreChunk(log, Chunks(front, dest), Chunk(dest, last.text), w, Received(log, w),
                     if w == dest then Written(front) else "");
      } else {
        assert Chunks(front, dest) + [] == Chunks(front, dest);
      }
    }
  }

  /** The call never reaches its body: the mode or the parse of argv is wrong. */
  ghost predicate Erring(c: Call) {
    c.early.Some? || exists i :: 0 <= i < |c.asks| && !c.asks[i].Given?
  }

  /** A parse that succeeds leaves --strict as its last token says, or else as the flag was or its default. */
  ghost predicate AskedStrict(t: Tree, c: Call)
    requires c.invoked < |t.flagOf| && t.flagOf[c.invoked] < |t.flags|
  {
    var f := t.flagOf[c.invoked];
    !c.exits &&
    if c.asks != [] then c.asks[|c.asks| - 1] == Given(true)
    else if f in t.reset && t.flags[f].changed then t.flags[f].def
    else t.flags[f].value
  }

  lemma {:induction false} AllGivenDecides(f: BoolFlag, tokens: seq<Token>)
    requires forall i :: 0 <= i < |tokens| ==> tokens[i].Given?
    ensures ParseTokens(f, tokens).value == if tokens == [] then f.value else tokens[|tokens| - 1] == Given(true)
    decreases |tokens|
  {
    if tokens != [] {
      AllGivenDecides(BoolFlag(tokens[0].b, true, f.def), tokens[1..]);
    }
  }

  lemma ErringIsEarly(t: Tree, c: Call)
    requires WellFormed(t) && Callable(t, c)
    ensures Early(c).Some? <==> Erring(c)
    ensures !Erring(c) ==> (Strictly(t, c) <==> AskedStrict(t, c))
  {
    if !Erring(c) {
      var f := t.flagOf[c.invoked];
      AllGivenDecides(if f in t.reset then ResetFlag(t.flags[f]) else t.flags[f], c.asks);
    }
    hide ParseTokens;
  }

  /** Before the body: the call's stdout is the root's writer, and each command writes where it always did. */
  ghost predicate DeliversTo(t: Tree, c: Call, log: seq<Chunk>, text: string, dest: Writer)
    requires WellFormed(t) && Callable(t, c)
  {
    && Spells(c.actions, text) && WritesTo(t.parent, t.out[0 := c.stdout], c.invoked, dest)
    && forall w :: Received(log, w) == Received(t.log, w) + (if w == dest then text else "")
  }

  /** All that the body wrote reaches the writer nearest to its command, and nothing reaches another. */
  ghost predicate Delivers(t: Tree, c: Call, log: seq<Chunk>)
    requires WellFormed(t) && Callable(t, c)
  {
    exists text, dest :: DeliversTo(t, c, log, text, dest)
  }

  /**
    For every tree state, hence over every sequence of calls on one tree, from the
    call alone. An error wins and names its code, a zero one as 1. Otherwise a
    strict call whose last WithWarnings lists a proper warning exits 2, any other 0.
    A strict call delivers its output only when it exits 0; a call that is not
    strict delivers whatever it wrote, however it ends.
   */
  lemma ExecuteContract(t: Tree, c: Call)
    requires WellFormed(t) && Callable(t, c)
    ensures WellFormed(Prepared(t, c))
    ensures ExitCode(t, c) ==
            if Erring(c) then Some(if c.early.None? || c.early.value == 0 then 1 else c.early.value)
            else if c.end.Panics? then None
            else if c.end.Fails? then Some(if c.end.code == 0 then 1 else c.end.code)
            else Some(if AskedStrict(t, c) && WarnsAtLast(c.actions) then 2 else 0)
    ensures if !Erring(c) && (AskedStrict(t, c) ==> ExitCode(t, c) == Some(0)) then Delivers(t, c, After(t, c).log)
            else After(t, c).log == t.log
  {
    PreparedIsWellFormed(t, c);
    ErringIsEarly(t, c);
    LastKeptIff(c.actions);
    assert t.log + [] == t.log;
    hide Erring, AskedStrict, WarnsAtLast, LastKept, Prepared, WellFormed;
    if !Erring(c) && (AskedStrict(t, c) ==> ExitCode(t, c) == Some(0)) {
      OutputDelivered(t, c);
    }
    hide Delivers, Received, Chunks, Written;
  }

  lemma OutputDelivered(t: Tree, c: Call)
    requires WellFormed(t) && Callable(t, c) && WellFormed(Prepared(t, c)) && Early(c).None?
    requires Strictly(t, c) ==> ExitCode(t, c) == Some(0)
    ensures Delivers(t, c, After(t, c).log)
  {
    var p := Prepared(t, c);
    var dest, text := Effective(p, c.invoked), Written(c.actions);
    assert p.parent == t.parent && p.out == t.out[0 := c.stdout];
    EffectiveIsNearest(p.parent, p.out, c.invoked);
    WrittenSpells(c.actions);
    var log := After(t, c).log;
    if Strictly(t, c) {
      assert log == t.log + [Chunk(dest, text)];
    } else {
      assert log == t.log + Chunks(c.actions, dest);
    }
    hide WellFormed, Prepared, Spells, WritesTo, Received, Written, Chunks, EffectiveIn, Emitted, Strictly, After;
    forall w ensures Received(log, w) == Received(t.log, w) + (if w == dest then text else "") {
      if Strictly(t, c) {
        ReceivedAppend(t.log, Chunk(dest, text), w);
      } else {
        ChunksReceived(t.log, c.actions, dest, w);
      }
    }
    assert DeliversTo(t, c, log, text, dest);
  }

  // ---------------------------------------------------------------------
  // Strictness over histories
  // ---------------------------------------------------------------------

  /** The tree after a sequence of calls. */
  ghost predicate Reaches(t: Tree, calls: seq<Call>, u: Tree)
    decreases |calls|
  {
    if calls == [] then u == t else
    && WellFormed(t) && Callable(t, calls[0]) && WellFormed(Prepared(t, calls[0]))
    && Reaches(After(t, calls[0]), calls[1..], u)
  }

  lemma {:induction false} HistoryStaysWellFormed(t: Tree, calls: seq<Call>, u: Tree)
    requires WellFormed(t) && Reaches(t, calls, u)
    ensures WellFormed(u) && u.parent == t.parent && u.flagOf == t.flagOf && u.reset == t.reset
    ensures |u.flags| == |t.flags| && forall f :: 0 <= f < |t.flags| ==> u.flags[f].def == t.flags[f].def
    decreases |calls|
  {
    if calls != [] {
      WritersAreRestored(t, calls[0]);
      PreparedIsWellFormed(t, calls[0]);
      HistoryStaysWellFormed(After(t, calls[0]), calls[1..], u);
    }
  }

  /** The --strict tokens that the parse reaches. */
  function Reached(tokens: seq<Token>): (r: seq<Token>)
    ensures OtherError !in r
    ensures r <= tokens && forall i :: 0 <= i < |r| - 1 ==> r[i].Given?
    ensures |r| < |tokens| ==> (r != [] && r[|r| - 1].Malformed?) || tokens[|r|].OtherError?
    decreases |tokens|
  {
    if tokens == [] || tokens[0].OtherError? then []
    else if tokens[0].Malformed? then [Malformed]
    else [tokens[0]] + Reached(tokens[1..])
  }

  /** The call's parse reaches a --strict of flag f. */
  predicate Mentions(flagOf: seq<nat>, c: Call, f: nat) {
    Reached(c.asks) != [] && c.invoked < |flagOf| && flagOf[c.invoked] == f
  }

  /** The --strict tokens reached by the last call that mentions flag f; last is what an earlier one gave. */
  function LastTokens(flagOf: seq<nat>, calls: seq<Call>, f: nat, last: seq<Token>): seq<Token>
    decreases |calls|
  {
    if calls == [] then last
    else LastTokens(flagOf, calls[1..], f, if Mentions(flagOf, calls[0], f) then Reached(calls[0].asks) else last)
  }

  /** The value a flag that is never reset is left with by the tokens reached: the last one's. */
  function FinalValue(tokens: seq<Token>): bool
    requires tokens != []
  {
    var last := tokens[|tokens| - 1];
    last.Given? && last.b
  }

  lemma {:induction false} TokensDecide(f: BoolFlag, tokens: seq<Token>)
    ensures var reached := Reached(tokens);
            if reached == [] then ParseTokens(f, tokens) == f
            else ParseTokens(f, tokens) == BoolFlag(FinalValue(reached), f.changed || reached[0].Given?, f.def)
    decreases |tokens|
  {
    if tokens != [] && tokens[0].Given? {
      TokensDecide(BoolFlag(tokens[0].b, true, f.def), tokens[1..]);
    }
  }

  /** What the next call finds in flag f once it has been reset, if it is: the tokens decide. */
  function Settled(reset: bool, f: BoolFlag, tokens: seq<Token>): bool {
    if tokens == [] then (if reset then ResetFlag(f) else f).value
    else if reset then (if tokens[0].Given? then f.def else false)
    else FinalValue(tokens)
  }

  /** One call: the flag settles where its tokens, or else its earlier state, say. */
  lemma CallSettles(t: Tree, c: Call, f: nat)
    requires WellFormed(t) && Callable(t, c) && f < |t.flags|
    ensures WellFormed(Prepared(t, c)) && WellFormed(After(t, c)) && |After(t, c).flags| == |t.flags|
    ensures Settled(f in t.reset, After(t, c).flags[f], []) ==
            Settled(f in t.reset, t.flags[f], if Mentions(t.flagOf, c, f) then Reached(c.asks) else [])
    ensures After(t, c).flags[f].def == t.flags[f].def
  {
    WritersAreRestored(t, c);
    PreparedIsWellFormed(t, c);
    TokensDecide(if f in t.reset then ResetFlag(t.flags[f]) else t.flags[f], c.asks);
    hide Reached, ParseTokens, FinalValue;
    hide Effective, Emitted, Restored, WellFormed;
  }

  /** Nobody mentions the flag, or some call is the last to. */
  lemma {:induction false} LastTokensAre(flagOf: seq<nat>, calls: seq<Call>, f: nat, last: seq<Token>)
    ensures var tokens := LastTokens(flagOf, calls, f, last);
            || (tokens == last && forall i :: 0 <= i < |calls| ==> !Mentions(flagOf, calls[i], f))
            || exists i :: 0 <= i < |calls| && Mentions(flagOf, calls[i], f) && tokens == Reached(calls[i].asks)
                           && forall j :: i < j < |calls| ==> !Mentions(flagOf, calls[j], f)
    decreases |calls|
  {
    hide Reached, Mentions;
    if calls != [] {
      var next := if Mentions(flagOf, calls[0], f) then Reached(calls[0].asks) else last;
      LastTokensAre(flagOf, calls[1..], f, next);
      var tokens := LastTokens(flagOf, calls[1..], f, next);
      if i :| 0 <= i < |calls[1..]| && Mentions(flagOf, calls[1..][i], f) && tokens == Reached(calls[1..][i].asks)
              && forall j :: i < j < |calls[1..]| ==> !Mentions(flagOf, calls[1..][j], f) {
        forall j | i + 1 < j < |calls| ensures !Mentions(flagOf, calls[j], f) {
          assert calls[j] == calls[1..][j - 1];
        }
        assert calls[i + 1] == calls[1..][i];
      } else {
        forall j | 1 <= j < |calls| ensures !Mentions(flagOf, calls[j], f) {
          assert calls[j] == calls[1..][j - 1];
        }
      }
    }
  }

  lemma {:induction false} LastTokensFold(flagOf: seq<nat>, calls: seq<Call>, f: nat, last: seq<Token>)
    ensures LastTokens(flagOf, calls, f, last) ==
            var own := LastTokens(flagOf, calls, f, []); if own == [] then last else own
    decreases |calls|
  {
    if calls != [] {
      LastTokensFold(flagOf, calls[1..], f, if Mentions(flagOf, calls[0], f) then Reached(calls[0].asks) else last);
      LastTokensFold(flagOf, calls[1..], f, if Mentions(flagOf, calls[0], f) then Reached(calls[0].asks) else []);
    }
  }

  /** Over any history a --strict flag settles where the last call that mentioned it says. */
  lemma {:induction false} LastMentionSettles(t: Tree, calls: seq<Call>, u: Tree, f: nat)
    requires WellFormed(t) && Reaches(t, calls, u) && f < |t.flags|
    ensures f < |u.flags| && u.flags[f].def == t.flags[f].def && u.reset == t.reset
    ensures Settled(f in t.reset, u.flags[f], []) ==
            Settled(f in t.reset, t.flags[f], LastTokens(t.flagOf, calls, f, []))
    decreases |calls|
  {
    if calls != [] {
      var c := calls[0];
      CallSettles(t, c, f);
      SameShape(t, c);
      var tokens := if Mentions(t.flagOf, c, f) then Reached(c.asks) else [];
      LastTokensFold(t.flagOf, calls[1..], f, tokens);
      hide Prepared, WellFormed, FinalValue;
      var n := After(t, c);
      hide After;
      LastMentionSettles(n, calls[1..], u, f);
    }
  }

  lemma SameShape(t: Tree, c: Call)
    requires WellFormed(t) && Callable(t, c) && WellFormed(Prepared(t, c))
    ensures After(t, c).flagOf == t.flagOf && After(t, c).reset == t.reset
  {
  }

  /**
    After any history, a call that does not mention --strict is as strict as its
    flag's default exactly when: no call's parse reached that flag and it started
    so; or it is the root's own, and the last call that reached it did so with a
    boolean first or the default is false; or it is not, and the last token reached
    left it at the default.
   */
  lemma StrictOnlyIfAskedIff(t: Tree, calls: seq<Call>, u: Tree, c: Call)
    requires WellFormed(t) && Reaches(t, calls, u) && Callable(u, c) && c.asks == []
    ensures WellFormed(u) && c.invoked < |t.flagOf| && t.flagOf[c.invoked] < |u.flags| == |t.flags|
    ensures var f := t.flagOf[c.invoked];
            var def, tokens := t.flags[f].def, LastTokens(t.flagOf, calls, f, []);
            StrictOf(u, c) == def <==>
            if tokens == [] then (f in t.reset && t.flags[f].changed) || t.flags[f].value == def
            else if f in t.reset then tokens[0].Given? || !def
            else FinalValue(tokens) == def
  {
    HistoryStaysWellFormed(t, calls, u);
    LastMentionSettles(t, calls, u, t.flagOf[c.invoked]);
    hide FinalValue, LastTokens;
  }

  /** A root flag with default true that one malformed token has switched off for the next call. */
  lemma MalformedStrictSticksWitness()
    ensures var t := Tree([-1, 0], [0, 0], {0}, [None, None], [BoolFlag(true, false, true)], []);
            var first, next := PinnedCall(7, [Malformed]), PinnedCall(7, []);
            && WellFormed(t) && WellFormed(Prepared(t, first)) && WellFormed(After(t, first))
            && StrictOf(t, next) && !StrictOf(After(t, first), next) && ExitCode(t, first) == Some(1)
  {
    var t := Tree([-1, 0], [0, 0], {0}, [None, None], [BoolFlag(true, false, true)], []);
    var first := PinnedCall(7, [Malformed]);
    PreparedIsWellFormed(t, first);
    WritersAreRestored(t, first);
    assert Prepared(t, first).flags[0] == BoolFlag(false, false, true);
  }

  /** A subcommand with a --strict flag of its own keeps it set for the next call. */
  lemma OwnStrictFlagSticksWitness()
    ensures var t := Tree([-1, 0], [0, 1], {0}, [None, None],
                          [BoolFlag(false, false, false), BoolFlag(false, false, false)], []);
            var first, next := PinnedCall(7, [Given(true)]), PinnedCall(7, []);
            && WellFormed(t) && WellFormed(Prepared(t, first)) && WellFormed(After(t, first))
            && !StrictOf(t, next) && StrictOf(After(t, first), next)
  {
    var t := Tree([-1, 0], [0, 1], {0}, [None, None],
                  [BoolFlag(false, false, false), BoolFlag(false, false, false)], []);
    var first := PinnedCall(7, [Given(true)]);
    PreparedIsWellFormed(t, first);
    WritersAreRestored(t, first);
    assert Prepared(t, first).flags[1] == BoolFlag(true, true, false);
  }

  /** A --strict behind another argument's error is never reached, so it does not stick. */
  lemma UnreachedStrictIsIgnored(t: Tree, c: Call, next: Call)
    requires WellFormed(t) && Callable(t, c) && Callable(t, next) && next.asks == []
    requires Reached(c.asks) == []
    ensures WellFormed(Prepared(t, c)) && WellFormed(After(t, c)) && Callable(After(t, c), next)
    ensures StrictOf(After(t, c), next) == StrictOf(t, next)
  {
    CallSettles(t, c, t.flagOf[next.invoked]);
    SameShape(t, c);
    hide Reached;
  }

  // ---------------------------------------------------------------------
  // Execute on the tree
  // ---------------------------------------------------------------------

  class AxTree {
    const parent: seq<int>
    const flagOf: seq<nat>
    const reset: set<nat>
    var out: seq<Option<Writer>>
    var flags: seq<BoolFlag>
    ghost var log: seq<Chunk>

    ghost function State(): Tree
      reads this
    {
      Tree(parent, flagOf, reset, out, flags, log)
    }

    constructor (t: Tree)
      requires WellFormed(t)
      ensures State() == t
    {
      parent, flagOf, reset, out, flags, log := t.parent, t.flagOf, t.reset, t.out, t.flags, t.log;
    }

    /** resetStrictFlag, root.SetOut and the parse of --strict. */
    method Prepare(c: Call)
      requires WellFormed(State()) && Callable(State(), c)
      modifies this`out, this`flags
      ensures State() == Prepared(old(State()), c)
    {
      var i := 0;
      while i < |flags|
        invariant 0 <= i <= |flags| == |old(flags)| && out == old(out)
        invariant forall k :: 0 <= k < i ==>
                    flags[k] == if k in reset then ResetFlag(old(flags)[k]) else old(flags)[k]
        invariant forall k :: i <= k < |flags| ==> flags[k] == old(flags)[k]
      {
        if i in reset && flags[i].changed {
          flags := flags[i := BoolFlag(flags[i].def, false, flags[i].def)];
        }
        i := i + 1;
      }
      out := out[0 := c.stdout];
      assert flags == seq(|old(flags)|, k requires 0 <= k < |old(flags)| =>
                            if k in reset then ResetFlag(old(flags)[k]) else old(flags)[k]);
      var f := flagOf[c.invoked];
      var held := ParseStrict(flags[f], c.asks);
      flags := flags[f := held];
    }

    /** pflag's walk over the --strict tokens. */
    method ParseStrict(start: BoolFlag, tokens: seq<Token>) returns (held: BoolFlag)
      ensures held == ParseTokens(start, tokens)
    {
      held := start;
      assert tokens[0..] == tokens;
      for i := 0 to |tokens|
        invariant ParseTokens(start, tokens) == ParseTokens(held, tokens[i..])
      {
        assert tokens[i..][1..] == tokens[i + 1..];
        match tokens[i] {
          case Given(b) =>
            held := BoolFlag(b, true, held.def);
          case Malformed =>
            held := held.(value := false);
            return;
          case OtherError =>
            return;
        }
      }
    }

    /**
      Execute: under --strict stdout is held in a buffer, flushed on success and
      dropped otherwise; the writer is put back on every path, panics included.
     */
    method Execute(c: Call) returns (code: Option<int>)
      requires WellFormed(State()) && Callable(State(), c)
      modifies this
      ensures WellFormed(Prepared(old(State()), c))
      ensures code == ExitCode(old(State()), c)
      ensures State() == After(old(State()), c)
      ensures WellFormed(State())
    {
      ghost var t := State();
      PreparedIsWellFormed(t, c);
      WritersAreRestored(t, c);
      Prepare(c);
      ghost var p := State();
      hide Prepared;
      hide WellFormed;
      var early := Early(c);
      if early.Some? {
        assert t.log + [] == t.log;
        return Some(ExitOf(early.value));
      }
      var strict := !c.exits && flags[flagOf[c.invoked]].value;
      assert IsTree(parent) by {
        TreeShape(p);
      }
      var dest := EffectiveIn(parent, out, c.invoked);
      var inherited := c.invoked > 0 && dest == EffectiveIn(parent, out, parent[c.invoked]);
      if strict {
        out := out[c.invoked := Some(Buffer)];
      }
      var buf, warnings := RunBody(c.actions, strict, dest);
      if strict && c.end == Returns && warnings == [] {
        log := log + [Chunk(dest, buf)];
      }
      if strict {
        out := out[c.invoked := if inherited then None else Some(dest)];
        assert out == p.out[c.invoked := Restored(p, c.invoked)];
      }
      assert t.log + [] == t.log;
      match c.end {
        case Panics => code := None;
        case Fails(e) => code := Some(ExitOf(e));
        case Returns => code := Some(if strict && warnings != [] then 2 else 0);
      }
    }

    /** The command body: its writes land in the held buffer or at their writer. */
    method RunBody(actions: seq<Action>, strict: bool, dest: Writer)
      returns (buf: string, warnings: seq<Warning>)
      modifies this`log
      ensures warnings == LastKept(actions)
      ensures strict ==> buf == Written(actions) && log == old(log)
      ensures !strict ==> log == old(log) + Chunks(actions, dest)
    {
      buf, warnings := "", [];
      for i := 0 to |actions|
        invariant warnings == LastKept(actions[..i])
        invariant strict ==> buf == Written(actions[..i]) && log == old(log)
        invariant !strict ==> log == old(log) + Chunks(actions[..i], dest)
      {
        assert actions[..i + 1][..i] == actions[..i];
        match actions[i] {
          case Write(text) =>
            if strict {
              buf := buf + text;
            } else {
              log := log + [Chunk(dest, text)];
            }
          case Warn(list) =>
            warnings := Kept(list);
        }
      }
      assert actions[..|actions|] == actions;
    }
  }

  lemma TreeShape(t: Tree)
    requires WellFormed(t)
    ensures IsTree(t.parent)
  {
  }
}
