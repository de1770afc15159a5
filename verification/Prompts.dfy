/**
  Rendering a prompt template, measuring the rendering without building it, and
  the prompts/get handler whose size limit relies on the two agreeing.
 */
module Prompts {
  import opened Template

  type Values = map<Bytes, Bytes>

  const MAX_ARGUMENT_BYTES := 0x1_0000
  const MAX_RENDERED_BYTES := 0x10_0000

  /** values[name]; an absent name renders as empty text. */
  function Lookup(values: Values, name: Bytes): Bytes {
    if name in values then values[name] else []
  }

  /** What remains to be written once template[..copied] has been handled. */
  function RenderFrom(t: Bytes, copied: nat, spans: seq<Placeholder>, values: Values): Bytes
    requires Ordered(t, copied, spans)
    decreases |spans|
  {
    if spans == [] then t[copied..]
    else t[copied..spans[0].start] + Lookup(values, spans[0].name)
         + RenderFrom(t, spans[0].end, spans[1..], values)
  }

  ghost function Rendered(t: Bytes, values: Values): Bytes {
    NaiveScanOrdered(t, 0);
    RenderFrom(t, 0, NaiveScan(t, 0), values)
  }

  // ---------------------------------------------------------------------
  // What rendering means: the literals of the template woven with the fills
  // ---------------------------------------------------------------------

  /** The literal pieces between placeholders; they depend on the template alone. */
  ghost function Literals(t: Bytes, from: nat, spans: seq<Placeholder>): (pieces: seq<Bytes>)
    requires Ordered(t, from, spans)
    ensures |pieces| == |spans| + 1
    decreases |spans|
  {
    if spans == [] then [t[from..]]
    else [t[from..spans[0].start]] + Literals(t, spans[0].end, spans[1..])
  }

  /** pieces[0] + fills[0] + pieces[1] + ... */
  ghost function Weave(pieces: seq<Bytes>, fills: seq<Bytes>): Bytes
    requires |pieces| == |fills| + 1
  {
    if fills == [] then pieces[0]
    else pieces[0] + fills[0] + Weave(pieces[1..], fills[1..])
  }

  /** Each placeholder's value, or nothing for a name without one. */
  ghost function Fills(spans: seq<Placeholder>, values: Values): seq<Bytes> {
    seq(|spans|, i requires 0 <= i < |spans| => if spans[i].name in values then values[spans[i].name] else [])
  }

  ghost function OwnTexts(spans: seq<Placeholder>): seq<Bytes> {
    seq(|spans|, i requires 0 <= i < |spans| => Source(spans[i].name))
  }

  lemma {:induction false} RenderWeaves(t: Bytes, from: nat, spans: seq<Placeholder>, values: Values)
    requires Ordered(t, from, spans)
    ensures RenderFrom(t, from, spans, values) == Weave(Literals(t, from, spans), Fills(spans, values))
    decreases |spans|
  {
    if spans != [] {
      RenderWeaves(t, spans[0].end, spans[1..], values);
      assert Fills(spans, values)[1..] == Fills(spans[1..], values);
      assert Literals(t, from, spans)[1..] == Literals(t, spans[0].end, spans[1..]);
    }
  }

  lemma {:induction false} TemplateWeaves(t: Bytes, from: nat, spans: seq<Placeholder>)
    requires Ordered(t, from, spans)
    ensures t[from..] == Weave(Literals(t, from, spans), OwnTexts(spans))
    decreases |spans|
  {
    if spans != [] {
      var s := spans[0];
      TemplateWeaves(t, s.end, spans[1..]);
      assert OwnTexts(spans)[1..] == OwnTexts(spans[1..]);
      assert Literals(t, from, spans)[1..] == Literals(t, s.end, spans[1..]);
      ThreeParts(t, from, s.start, s.end);
    }
  }

  lemma ThreeParts(t: Bytes, a: nat, b: nat, c: nat)
    requires a <= b <= c <= |t|
    ensures t[a..] == t[a..b] + t[b..c] + t[c..]
  {
  }

  /**
    One fixed sequence of literals explains the template and every rendering of
    it: a value fills its slot whole and is never read as template text.
   */
  lemma ValuesAreNeverRescanned(t: Bytes)
    ensures exists pieces: seq<Bytes> ::
              var spans := NaiveScan(t, 0);
              && |pieces| == |spans| + 1
              && t == Weave(pieces, OwnTexts(spans))
              && forall values: Values :: Rendered(t, values) == Weave(pieces, Fills(spans, values))
  {
    var spans := NaiveScan(t, 0);
    NaiveScanOrdered(t, 0);
    var pieces := Literals(t, 0, spans);
    TemplateWeaves(t, 0, spans);
    assert t[0..] == t;
    forall values: Values
      ensures Rendered(t, values) == Weave(pieces, Fills(spans, values))
    {
      RenderWeaves(t, 0, spans, values);
    }
  }

  /** Substituting every placeholder by its own text gives the template back. */
  lemma SelfSubstitutionIsIdentity(t: Bytes, values: Values)
    requires forall p :: p in NaiveScan(t, 0) ==>
               p.name in values && values[p.name] == [0x7B, 0x7B] + p.name + [0x7D, 0x7D]
    ensures Rendered(t, values) == t
  {
    var spans := NaiveScan(t, 0);
    NaiveScanOrdered(t, 0);
    RenderWeaves(t, 0, spans, values);
    TemplateWeaves(t, 0, spans);
    assert Fills(spans, values) == OwnTexts(spans);
    assert t[0..] == t;
  }

  // ---------------------------------------------------------------------
  // Bounds
  // ---------------------------------------------------------------------

  /** Five bytes at least per placeholder, so the rendering cannot explode. */
  lemma {:induction false} RenderBound(t: Bytes, from: nat, spans: seq<Placeholder>, values: Values, cap: nat)
    requires Ordered(t, from, spans)
    requires forall n :: n in values ==> |values[n]| <= cap
    ensures 5 * |spans| <= |t| - from
    ensures |RenderFrom(t, from, spans, values)| <= |t| - from + |spans| * cap
    decreases |spans|
  {
    if spans != [] {
      RenderBound(t, spans[0].end, spans[1..], values, cap);
      assert |spans| * cap == (|spans| - 1) * cap + cap;
    }
  }

  /** With declared-size templates and accepted values the length fits any int. */
  lemma RenderedFits(t: Bytes, values: Values)
    requires |t| <= 65536
    requires forall n :: n in values ==> |values[n]| <= 65536
    ensures |Rendered(t, values)| < 0x4000_0000
  {
    var spans := NaiveScan(t, 0);
    NaiveScanOrdered(t, 0);
    RenderBound(t, 0, spans, values, MAX_ARGUMENT_BYTES);
    assert |spans| <= 13107;
    assert |spans| * MAX_ARGUMENT_BYTES <= 13107 * MAX_ARGUMENT_BYTES;
  }

  // ---------------------------------------------------------------------
  // The two folds
  // ---------------------------------------------------------------------

  lemma RenderStep(t: Bytes, copied: nat, spans: seq<Placeholder>, k: nat, values: Values)
    requires k < |spans| && Ordered(t, copied, spans[k..])
    ensures copied <= spans[k].start < spans[k].end <= |t|
    ensures Ordered(t, spans[k].end, spans[k + 1..])
    ensures RenderFrom(t, copied, spans[k..], values) ==
            t[copied..spans[k].start] + Lookup(values, spans[k].name)
            + RenderFrom(t, spans[k].end, spans[k + 1..], values)
  {
    assert spans[k..][1..] == spans[k + 1..];
  }

  method RenderTemplate(t: Bytes, values: Values) returns (text: Bytes)
    ensures text == Rendered(t, values)
  {
    hide NaiveScan;
    hide Ordered;
    var spans, _ := ScanPlaceholders(t);
    NaiveScanOrdered(t, 0);
    text := [];
    var copied := 0;
    ghost var whole := Rendered(t, values);
    ghost var rest := whole;
    for k := 0 to |spans|
      invariant 0 <= copied <= |t|
      invariant Ordered(t, copied, spans[k..])
      invariant rest == RenderFrom(t, copied, spans[k..], values)
      invariant whole == text + rest
    {
      RenderStep(t, copied, spans, k, values);
      var piece := t[copied..spans[k].start] + Lookup(values, spans[k].name);
      copied := spans[k].end;
      rest := RenderFrom(t, copied, spans[k + 1..], values);
      assert text + (piece + rest) == text + piece + rest;
      text := text + piece;
    }
    text := text + t[copied..];
  }

  /** The running total is the text written so far plus the template still to come. */
  method RenderedLen(t: Bytes, values: Values) returns (total: int)
    ensures total == |Rendered(t, values)|
  {
    hide NaiveScan;
    var spans, _ := ScanPlaceholders(t);
    NaiveScanOrdered(t, 0);
    total := |t|;
    ghost var copied := 0;
    for k := 0 to |spans|
      invariant 0 <= copied <= |t|
      invariant Ordered(t, copied, spans[k..])
      invariant 0 <= |t| - copied <= total
      invariant total - (|t| - copied) + |RenderFrom(t, copied, spans[k..], values)| == |Rendered(t, values)|
    {
      RenderStep(t, copied, spans, k, values);
      total := total + |Lookup(values, spans[k].name)| - (spans[k].end - spans[k].start);
      copied := spans[k].end;
    }
  }

  // ---------------------------------------------------------------------
  // prompts/get
  // ---------------------------------------------------------------------

  datatype Argument = Argument(name: Bytes, required: bool)

  datatype Prompt = Prompt(arguments: seq<Argument>, template: Bytes)

  datatype Reply =
    | Text(text: Bytes)
    | UnknownArgument(name: Bytes)
    | ArgumentTooLong(name: Bytes)
    | MissingRequired(name: Bytes)
    | TooLarge(size: int)

  predicate Declared(prompt: Prompt, name: Bytes) {
    exists a :: a in prompt.arguments && a.name == name
  }

  /** The arguments a call must satisfy before anything is rendered. */
  predicate Acceptable(prompt: Prompt, values: Values) {
    && (forall n :: n in values ==> Declared(prompt, n) && |values[n]| <= MAX_ARGUMENT_BYTES)
    && (forall a :: a in prompt.arguments && a.required ==> a.name in values)
  }

  /** The reason a reply gives is true of the call. */
  predicate Truthful(prompt: Prompt, values: Values, reply: Reply) {
    match reply
    case Text(_) => Acceptable(prompt, values)
    case UnknownArgument(n) => n in values && !Declared(prompt, n)
    case ArgumentTooLong(n) => n in values && |values[n]| > MAX_ARGUMENT_BYTES
    case MissingRequired(n) => n !in values && exists a :: a in prompt.arguments && a.required && a.name == n
    case TooLarge(size) => Acceptable(prompt, values) && size > MAX_RENDERED_BYTES
  }

  /**
    promptHandler. A text is returned exactly for acceptable arguments whose
    rendering fits, it is the rendering, and every other reply names a true
    reason. Go iterates the argument map in no fixed order, so which of several
    offenders is named is left open.
   */
  method GetPrompt(prompt: Prompt, values: Values) returns (reply: Reply)
    ensures Truthful(prompt, values, reply)
    ensures reply.Text? <==>
            && (forall n :: n in values ==>
                  (exists a :: a in prompt.arguments && a.name == n) && |values[n]| <= 65536)
            && (forall a :: a in prompt.arguments && a.required ==> a.name in values)
            && |Rendered(prompt.template, values)| <= 1048576
    ensures reply.Text? ==> reply.text == Rendered(prompt.template, values)
    ensures reply.TooLarge? ==> reply.size == |Rendered(prompt.template, values)|
  {
    var left := values.Keys;
    while left != {}
      invariant left <= values.Keys
      invariant forall n :: n in values.Keys - left ==> Declared(prompt, n) && |values[n]| <= MAX_ARGUMENT_BYTES
      decreases |left|
    {
      var name :| name in left;
      if !Declared(prompt, name) {
        return UnknownArgument(name);
      }
      if |values[name]| > MAX_ARGUMENT_BYTES {
        return ArgumentTooLong(name);
      }
      left := left - {name};
    }
    for i := 0 to |prompt.arguments|
      invariant forall k :: 0 <= k < i && prompt.arguments[k].required ==> prompt.arguments[k].name in values
    {
      var a := prompt.arguments[i];
      if a.required && a.name !in values {
        return MissingRequired(a.name);
      }
    }
    var size := RenderedLen(prompt.template, values);
    if size > MAX_RENDERED_BYTES {
      return TooLarge(size);
    }
    var text := RenderTemplate(prompt.template, values);
    reply := Text(text);
  }
}
