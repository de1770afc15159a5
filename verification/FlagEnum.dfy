/**
  Enum and example declarations on flags. An enum wraps the flag's value, and the
  set that Set enforces must be the set both schema surfaces advertise. Flag types
  other than strings and integers are parameters: what their Set does and whether
  an example parses.
 */
module FlagEnum {
  import opened Base
  import opened Order
  import opened Integers
  import Dispatch
  import Isolation

  /** A pflag type: an integer at its bit size, string, a custom type, or another built-in. */
  datatype FlagType =
    | Signed(bits: BitSize) | Unsigned(bits: BitSize) | Text | Custom(name: string) | Builtin(name: string)

  /**
    A flag's value. The wrapper keeps the author's strings, and the forms in
    which they are compared.
   */
  datatype Value =
    | Plain(kind: FlagType, isSlice: bool, current: string)
    | Enum(inner: Value, flagType: FlagType, allowed: seq<string>, canonical: seq<string>)

  /** The example annotation is [] when absent. */
  datatype FlagState = FlagState(value: Value, def: string, example: seq<string>)

  /** The types that are not modelled, and what a failed integer Set leaves behind. */
  datatype Library = Library(
    set_: (FlagType, string) -> Dispatch.SetOutcome,
    residue: (FlagType, string) -> string,
    exampleOk: (FlagType, string) -> bool)

  datatype Violation =
    | NilCommand | FlagNotFound | UnsupportedType
    | ValuesRequired | InvalidValue | DuplicateValue | DefaultNotInEnum
    | ExampleRequired | ExampleInvalid | ExampleNotInEnum

  // ---------------------------------------------------------------------
  // Canonical forms
  // ---------------------------------------------------------------------

  datatype EnumError = UnsupportedForEnum | Unparsable

  function CanonicalEnumValue(t: FlagType, v: string): Result<string, EnumError> {
    match t
    case Signed(bits) =>
      var n := ParseInt(v, true, bits);
      if n.None? then Err(Unparsable) else Ok(FormatInt(n.value))
    case Unsigned(bits) =>
      var n := ParseUint(v, true, bits);
      if n.None? then Err(Unparsable) else Ok(FormatInt(n.value))
    case Text => Ok(v)
    case Custom(_) => Ok(v)
    case Builtin(_) => Err(UnsupportedForEnum)
  }

  /**
    The form in which values are compared: an integer as it prints, in whatever base
    it was written, if it fits the type; a string or custom value as it stands. Other
    built-in types have none.
   */
  ghost predicate HasForm(t: FlagType, v: string, form: string) {
    match t
    case Signed(bits) => exists n :: ParseInt(v, true, bits) == Some(n) && form == FormatInt(n)
    case Unsigned(bits) => exists n :: ParseUint(v, true, bits) == Some(n) && form == FormatInt(n)
    case Text => form == v
    case Custom(_) => form == v
    case Builtin(_) => false
  }

  lemma FormIs(t: FlagType, v: string)
    ensures forall form :: CanonicalEnumValue(t, v) == Ok(form) <==> HasForm(t, v, form)
    ensures CanonicalEnumValue(t, v) == Err(UnsupportedForEnum) <==> t.Builtin?
  {
    hide ParseInt, ParseUint, FormatInt;
  }

  predicate IsMember(t: FlagType, canonical: seq<string>, v: string) {
    var form := CanonicalEnumValue(t, v);
    form.Ok? && form.value in canonical
  }

  predicate DefaultIsMember(t: FlagType, canonical: seq<string>, def: string) {
    def == "" || IsMember(t, canonical, def)
  }

  /** A canonical form canonicalises to itself, at the type's own bit size. */
  lemma CanonicalIsFixed(t: FlagType, v: string)
    ensures var c := CanonicalEnumValue(t, v); c.Ok? ==> CanonicalEnumValue(t, c.value) == c
  {
    hide ParseInt, ParseUint, FormatInt;
    match t
    case Signed(bits) =>
      ParsedFits(v, true, bits);
      if ParseInt(v, true, bits).Some? {
        IntRoundTrip(ParseInt(v, true, bits).value, true, bits);
      }
    case Unsigned(bits) =>
      ParsedFits(v, true, bits);
      if ParseUint(v, true, bits).Some? {
        UintRoundTrip(ParseUint(v, true, bits).value, true, bits);
      }
    case _ =>
  }

  // ---------------------------------------------------------------------
  // Set
  // ---------------------------------------------------------------------

  function TypeOf(v: Value): FlagType {
    match v
    case Plain(kind, _, _) => kind
    case Enum(inner, _, _, _) => TypeOf(inner)
  }

  /** pflag's Set by type. An integer type stores the parser's result before reporting its error. */
  function PlainSet(lib: Library, kind: FlagType, v: string): Dispatch.SetOutcome {
    match kind
    case Signed(bits) =>
      var n := ParseInt(v, true, bits);
      if n.None? then Dispatch.Rejects(Some(lib.residue(kind, v))) else Dispatch.Accepts(FormatInt(n.value))
    case Unsigned(bits) =>
      var n := ParseUint(v, true, bits);
      if n.None? then Dispatch.Rejects(Some(lib.residue(kind, v))) else Dispatch.Accepts(FormatInt(n.value))
    case Text => Dispatch.Accepts(v)
    case _ => lib.set_(kind, v)
  }

  /** What Set does on a value whose flag has default def. */
  function SetOn(lib: Library, value: Value, def: string, v: string): Dispatch.SetOutcome {
    match value
    case Plain(kind, _, _) => PlainSet(lib, kind, v)
    case Enum(inner, t, _, canonical) =>
      if v == def || IsMember(t, canonical, v) then SetOn(lib, inner, def, v) else Dispatch.Rejects(None)
  }

  /** It failed, and had already written. */
  predicate FailsWriting(out: Dispatch.SetOutcome) {
    !out.Accepts? && out.left.Some?
  }

  /** The bound variable, under any wrapper. */
  function Stored(value: Value): string {
    match value
    case Plain(_, _, current) => current
    case Enum(inner, _, _, _) => Stored(inner)
  }

  function WithStored(value: Value, text: string): Value {
    match value
    case Plain(kind, isSlice, _) => Plain(kind, isSlice, text)
    case Enum(inner, t, allowed, canonical) => Enum(WithStored(inner, text), t, allowed, canonical)
  }

  // ---------------------------------------------------------------------
  // Declaring
  // ---------------------------------------------------------------------

  function Unwrapped(v: Value): Value {
    if v.Enum? then v.inner else v
  }

  predicate EnumTypeSupported(v: Value) {
    && !(v.Plain? && v.isSlice)
    && CanonicalEnumValue(TypeOf(v), "0") != Err(UnsupportedForEnum)
  }

  /** The forms of values, appended to those already taken. */
  function CanonicalForms(t: FlagType, values: seq<string>, taken: seq<string>): Result<seq<string>, Violation>
    decreases |values|
  {
    if values == [] then Ok(taken)
    else
      var form := CanonicalEnumValue(t, values[0]);
      if form.Err? then Err(InvalidValue)
      else if form.value in taken then Err(DuplicateValue)
      else CanonicalForms(t, values[1..], taken + [form.value])
  }

  function DeclaredExample(f: FlagState): Option<string> {
    if |f.example| != 1 || f.example[0] == "" then None else Some(f.example[0])
  }

  /** AddFlagEnum on a found flag: the state it leaves, and why it refused. */
  function EnumDeclared(f: FlagState, values: seq<string>): (FlagState, Option<Violation>) {
    var inner := Unwrapped(f.value);
    var t := TypeOf(inner);
    if !EnumTypeSupported(inner) then (f, Some(UnsupportedType))
    else if values == [] then (f, Some(ValuesRequired))
    else
      var forms := CanonicalForms(t, values, []);
      var example := DeclaredExample(f);
      if forms.Err? then (f, Some(forms.error))
      else if !DefaultIsMember(t, forms.value, f.def) then (f, Some(DefaultNotInEnum))
      else if example.Some? && !IsMember(t, forms.value, example.value) then (f, Some(ExampleNotInEnum))
      else if f.value.Enum? then (f.(value := f.value.(allowed := values, canonical := forms.value)), None)
      else (f.(value := Enum(inner, t, values, forms.value)), None)
  }

  /** The JSON value of a canonical scalar; integers are read in base 10 at 64 bits. */
  function ScalarJson(t: FlagType, v: string): Option<Dispatch.Json> {
    if v == "" then None
    else match t
      case Signed(_) =>
        var n := ParseInt(v, false, 64);
        if n.None? then None else Some(Dispatch.Num(FormatInt(n.value)))
      case Unsigned(_) =>
        var n := ParseUint(v, false, 64);
        if n.None? then None else Some(Dispatch.Num(FormatInt(n.value)))
      case _ => Some(Dispatch.Str(v))
  }

  /** ValidateValue and ExampleJSON both succeed. */
  predicate ExampleConverts(lib: Library, t: FlagType, example: string) {
    if t.Builtin? then lib.exampleOk(t, example)
    else if t.Signed? || t.Unsigned? then
      var c := CanonicalEnumValue(t, example);
      c.Ok? && ScalarJson(t, c.value).Some?
    else ScalarJson(t, example).Some?
  }

  function ExampleProblem(lib: Library, f: FlagState, example: string): Option<Violation> {
    if !ExampleConverts(lib, TypeOf(f.value), example) then Some(ExampleInvalid)
    else if f.value.Enum? && !IsMember(f.value.flagType, f.value.canonical, example) then Some(ExampleNotInEnum)
    else None
  }

  /** AddFlagExample on a found flag. */
  function ExampleDeclared(lib: Library, f: FlagState, example: string): (FlagState, Option<Violation>) {
    if example == "" then (f, Some(ExampleRequired))
    else
      var problem := ExampleProblem(lib, f, example);
      if problem.Some? then (f, problem) else (f.(example := [example]), None)
  }

  /** FlagEnum and FlagExample, which fail closed. */
  function FlagEnum(f: FlagState): Option<seq<string>> {
    if f.value.Enum? && DefaultIsMember(f.value.flagType, f.value.canonical, f.def) then Some(f.value.allowed)
    else None
  }

  function FlagExample(lib: Library, f: FlagState): string {
    var example := DeclaredExample(f);
    if example.None? || ExampleProblem(lib, f, example.value).Some? then "" else example.value
  }

  // ---------------------------------------------------------------------
  // The invariant of a flag's declarations
  // ---------------------------------------------------------------------

  ghost predicate FormsMatch(t: FlagType, allowed: seq<string>, canonical: seq<string>) {
    && |allowed| == |canonical|
    && forall i :: 0 <= i < |allowed| ==> CanonicalEnumValue(t, allowed[i]) == Ok(canonical[i])
  }

  ghost predicate Consistent(f: FlagState) {
    f.value.Enum? ==>
      && f.value.inner.Plain? && f.value.flagType == f.value.inner.kind
      && EnumTypeSupported(f.value.inner)
      && f.value.allowed != []
      && FormsMatch(f.value.flagType, f.value.allowed, f.value.canonical)
      && Distinct(f.value.canonical)
      && DefaultIsMember(f.value.flagType, f.value.canonical, f.def)
      && (DeclaredExample(f).Some? ==> IsMember(f.value.flagType, f.value.canonical, DeclaredExample(f).value))
  }

  /** Every declared example is one the flag can advertise. */
  ghost predicate ExampleSound(lib: Library, f: FlagState) {
    DeclaredExample(f).Some? ==> ExampleProblem(lib, f, DeclaredExample(f).value).None?
  }

  /** The values are accepted exactly when each has a form and no two forms agree. */
  lemma {:induction false} FormsOk(t: FlagType, values: seq<string>, taken: seq<string>)
    requires Distinct(taken)
    ensures var forms := CanonicalForms(t, values, taken);
            && (forms.Ok? ==>
                  && Distinct(forms.value) && |forms.value| == |taken| + |values|
                  && forms.value[..|taken|] == taken && FormsMatch(t, values, forms.value[|taken|..]))
            && (forall c :: FormsMatch(t, values, c) && Distinct(taken + c) ==> forms == Ok(taken + c))
    decreases |values|
  {
    hide CanonicalEnumValue;
    if values != [] {
      var form := CanonicalEnumValue(t, values[0]);
      if form.Ok? && form.value !in taken {
        var now := taken + [form.value];
        FormsOk(t, values[1..], now);
        var forms := CanonicalForms(t, values[1..], now);
        if forms.Ok? {
          assert forms.value[..|taken|] == forms.value[..|now|][..|taken|];
          assert forms.value[|taken|] == now[|taken|];
          assert forms.value[|taken|..] == [form.value] + forms.value[|now|..];
        }
      }
      forall c | FormsMatch(t, values, c) && Distinct(taken + c)
        ensures CanonicalForms(t, values, taken) == Ok(taken + c)
      {
        FormsComplete(t, values, taken, c);
      }
    } else {
      forall c | FormsMatch(t, values, c) ensures taken + c == taken {
        assert c == [];
      }
    }
  }

  lemma {:induction false} FormsComplete(t: FlagType, values: seq<string>, taken: seq<string>, c: seq<string>)
    requires FormsMatch(t, values, c) && Distinct(taken + c)
    ensures CanonicalForms(t, values, taken) == Ok(taken + c)
    decreases |values|
  {
    hide CanonicalEnumValue;
    if values == [] {
      assert taken + c == taken;
    } else {
      assert (taken + c)[|taken|] == c[0];
      assert c[0] !in taken by {
        forall i | 0 <= i < |taken| ensures taken[i] != c[0] {
          assert (taken + c)[i] == taken[i];
        }
      }
      assert taken + c == (taken + [c[0]]) + c[1..];
      FormsComplete(t, values[1..], taken + [c[0]], c[1..]);
    }
  }

  /** The guards of AddFlagEnum, as a caller could check them. */
  ghost predicate EnumAcceptable(f: FlagState, values: seq<string>, c: seq<string>) {
    var t := TypeOf(f.value);
    && EnumTypeSupported(Unwrapped(f.value)) && values != []
    && FormsMatch(t, values, c) && Distinct(c)
    && DefaultIsMember(t, c, f.def)
    && (DeclaredExample(f).Some? ==> IsMember(t, c, DeclaredExample(f).value))
  }

  /** Accepted exactly when acceptable. */
  lemma EnumAcceptedIff(f: FlagState, values: seq<string>)
    ensures EnumDeclared(f, values).1.None? <==> exists c :: EnumAcceptable(f, values, c)
  {
    hide CanonicalEnumValue;
    var t := TypeOf(f.value);
    FormsOk(t, values, []);
    var forms := CanonicalForms(t, values, []);
    if EnumDeclared(f, values).1.None? {
      assert forms.value[0..] == forms.value;
      assert EnumAcceptable(f, values, forms.value);
    }
    if c :| EnumAcceptable(f, values, c) {
      assert [] + c == c;
      hide CanonicalForms;
    }
  }

  /**
    An accepted set is what the flag then advertises, over the same innermost
    value; a refused one changes nothing.
   */
  lemma AcceptedEnumIsAdvertised(f: FlagState, values: seq<string>)
    requires Consistent(f)
    ensures var (g, refused) := EnumDeclared(f, values);
            if refused.Some? then g == f
            else
              && FlagEnum(g) == Some(values)
              && g.def == f.def && g.example == f.example
              && g.value.inner == Unwrapped(f.value)
  {
    hide CanonicalEnumValue, CanonicalForms;
  }

  /** Two values are the same to the flag: 0x10 and 16. */
  ghost predicate SameForm(t: FlagType, v: string, w: string) {
    exists form :: HasForm(t, v, form) && HasForm(t, w, form)
  }

  /** The first k values can be told apart. */
  ghost predicate ApartUpTo(t: FlagType, values: seq<string>, k: nat)
    requires k <= |values|
  {
    && (forall i :: 0 <= i < k ==> SameForm(t, values[i], values[i]))
    && (forall i, j :: 0 <= i < j < k ==> !SameForm(t, values[i], values[j]))
  }

  /** The first value that has no form, or the form of an earlier one. */
  ghost predicate StopsAt(t: FlagType, values: seq<string>, k: nat) {
    k < |values| && ApartUpTo(t, values, k) && !ApartUpTo(t, values, k + 1)
  }

  ghost predicate Blames(t: FlagType, values: seq<string>, why: Violation) {
    exists k: nat ::
      StopsAt(t, values, k) && why == if SameForm(t, values[k], values[k]) then DuplicateValue else InvalidValue
  }

  ghost predicate Listed(t: FlagType, values: seq<string>, v: string) {
    exists i :: 0 <= i < |values| && SameForm(t, values[i], v)
  }

  /** Which of AddFlagEnum's checks is the first to fail. */
  ghost predicate RefusesEnum(f: FlagState, values: seq<string>, why: Violation) {
    var inner := if f.value.Enum? then f.value.inner else f.value;
    var t := TypeOf(inner);
    if t.Builtin? || (inner.Plain? && inner.isSlice) then why == UnsupportedType
    else if values == [] then why == ValuesRequired
    else if !ApartUpTo(t, values, |values|) then
      Blames(t, values, why)
    else if f.def != "" && !Listed(t, values, f.def) then why == DefaultNotInEnum
    else |f.example| == 1 && f.example[0] != "" && !Listed(t, values, f.example[0]) && why == ExampleNotInEnum
  }

  /** What a run of CanonicalForms over the values from k on has taken. */
  ghost predicate TakenFrom(t: FlagType, values: seq<string>, k: nat, taken: seq<string>)
    requires k <= |values|
  {
    |taken| == k && forall i :: 0 <= i < k ==> HasForm(t, values[i], taken[i])
  }

  lemma FormIsUnique(t: FlagType, v: string)
    ensures forall form, other :: HasForm(t, v, form) && HasForm(t, v, other) ==> form == other
  {
    hide ParseInt, ParseUint, FormatInt;
  }

  /** What has been taken tells the next value apart, or not. */
  lemma TakenIs(t: FlagType, values: seq<string>, k: nat, taken: seq<string>, v: string)
    requires k <= |values| && TakenFrom(t, values, k, taken)
    ensures SameForm(t, v, v) <==> CanonicalEnumValue(t, v).Ok?
    ensures CanonicalEnumValue(t, v).Ok? ==>
              (CanonicalEnumValue(t, v).value in taken <==> exists i :: 0 <= i < k && SameForm(t, values[i], v))
  {
    FormIs(t, v);
    FormIsUnique(t, v);
    forall i | 0 <= i < k
      ensures forall form, other :: HasForm(t, values[i], form) && HasForm(t, values[i], other) ==> form == other
    {
      FormIsUnique(t, values[i]);
    }
    hide HasForm, CanonicalEnumValue;
    if CanonicalEnumValue(t, v).Ok? {
      var form := CanonicalEnumValue(t, v).value;
      assert HasForm(t, v, form);
      if form in taken {
        var i :| 0 <= i < k && taken[i] == form;
        assert SameForm(t, values[i], v);
      }
      if i :| 0 <= i < k && SameForm(t, values[i], v) {
        var shared :| HasForm(t, values[i], shared) && HasForm(t, v, shared);
        assert taken[i] == shared == form;
      }
    }
  }

  lemma ApartStep(t: FlagType, values: seq<string>, k: nat)
    requires k < |values| && ApartUpTo(t, values, k)
    ensures ApartUpTo(t, values, k + 1) <==>
            SameForm(t, values[k], values[k]) && !exists i :: 0 <= i < k && SameForm(t, values[i], values[k])
  {
    hide SameForm;
  }

  /** CanonicalForms stops where the values can no longer be told apart. */
  lemma {:induction false} FormsStop(t: FlagType, values: seq<string>, k: nat, taken: seq<string>)
    requires k <= |values| && TakenFrom(t, values, k, taken) && ApartUpTo(t, values, k)
    ensures var forms := CanonicalForms(t, values[k..], taken);
            if forms.Ok? then ApartUpTo(t, values, |values|) && TakenFrom(t, values, |values|, forms.value)
            else Blames(t, values, forms.error)
    decreases |values| - k
  {
    if k < |values| {
      assert values[k..][0] == values[k] && values[k..][1..] == values[k + 1..];
      TakenIs(t, values, k, taken, values[k]);
      ApartStep(t, values, k);
      FormIs(t, values[k]);
      var form := CanonicalEnumValue(t, values[k]);
      hide HasForm, CanonicalEnumValue, SameForm, ApartUpTo;
      if form.Ok? && form.value !in taken {
        assert TakenFrom(t, values, k + 1, taken + [form.value]);
        hide TakenFrom;
        FormsStop(t, values, k + 1, taken + [form.value]);
      } else {
        assert StopsAt(t, values, k);
      }
    } else {
      assert values[k..] == [];
    }
  }

  lemma MemberIsListed(t: FlagType, values: seq<string>, forms: seq<string>, v: string)
    requires TakenFrom(t, values, |values|, forms)
    ensures IsMember(t, forms, v) <==> Listed(t, values, v)
  {
    TakenIs(t, values, |values|, forms, v);
    hide HasForm, CanonicalEnumValue, TakenFrom;
    if i :| 0 <= i < |values| && SameForm(t, values[i], v) {
      assert SameForm(t, v, v);
    }
  }

  lemma StopIsFirst(t: FlagType, values: seq<string>, n: nat)
    requires StopsAt(t, values, n)
    ensures !ApartUpTo(t, values, |values|)
    ensures forall k :: StopsAt(t, values, k) ==> k == n
  {
    hide SameForm;
  }

  /** AddFlagEnum refuses exactly for the first check that fails, and accepts when none does. */
  lemma EnumRefusedIff(f: FlagState, values: seq<string>, why: Violation)
    ensures EnumDeclared(f, values).1 == Some(why) <==> RefusesEnum(f, values, why)
  {
    var inner := Unwrapped(f.value);
    var t := TypeOf(inner);
    FormIs(t, "0");
    assert EnumTypeSupported(inner) <==> !(t.Builtin? || (inner.Plain? && inner.isSlice));
    hide CanonicalEnumValue, HasForm, EnumTypeSupported;
    FormsVerdict(t, values);
    var forms := CanonicalForms(t, values, []);
    hide CanonicalForms, SameForm, ApartUpTo, Blames;
    if forms.Ok? {
      MemberIsListed(t, values, forms.value, f.def);
      if DeclaredExample(f).Some? {
        MemberIsListed(t, values, forms.value, DeclaredExample(f).value);
      }
    }
    hide IsMember, Listed, TakenFrom;
  }

  /** All forms, or the reason at the first value that cannot be told apart. */
  lemma FormsVerdict(t: FlagType, values: seq<string>)
    ensures var forms := CanonicalForms(t, values, []);
            if forms.Ok? then ApartUpTo(t, values, |values|) && TakenFrom(t, values, |values|, forms.value)
            else !ApartUpTo(t, values, |values|) && forall why :: Blames(t, values, why) <==> why == forms.error
  {
    assert values[0..] == values;
    FormsStop(t, values, 0, []);
    var forms := CanonicalForms(t, values, []);
    hide CanonicalForms, SameForm, ApartUpTo, TakenFrom;
    if forms.Err? {
      var n: nat :| StopsAt(t, values, n)
                    && forms.error == if SameForm(t, values[n], values[n]) then DuplicateValue else InvalidValue;
      StopIsFirst(t, values, n);
    }
  }

  // ---------------------------------------------------------------------
  // Examples
  // ---------------------------------------------------------------------

  /** The flag's type reads the text: an integer in any base that fits; a string or custom type anything. */
  ghost predicate Reads(lib: Library, t: FlagType, text: string) {
    match t
    case Signed(bits) => ParseInt(text, true, bits).Some?
    case Unsigned(bits) => ParseUint(text, true, bits).Some?
    case Text => true
    case Custom(_) => true
    case Builtin(_) => lib.exampleOk(t, text)
  }

  /** Why AddFlagExample refuses, on a flag whose declared values are these, if any are. */
  ghost predicate RefusesExample(lib: Library, f: FlagState, example: string, why: Violation) {
    if example == "" then why == ExampleRequired
    else if !Reads(lib, TypeOf(f.value), example) then why == ExampleInvalid
    else f.value.Enum? && !Listed(f.value.flagType, f.value.allowed, example) && why == ExampleNotInEnum
  }

  lemma ConvertsIffReads(lib: Library, t: FlagType, example: string)
    requires example != ""
    ensures ExampleConverts(lib, t, example) <==> Reads(lib, t, example)
  {
    if !t.Builtin? && CanonicalEnumValue(t, example).Ok? {
      MemberRendersCanonically(t, example);
    }
    hide ParseInt, ParseUint, FormatInt;
  }

  /** AddFlagExample refuses exactly for the first check that fails; an accepted example replaces the last one. */
  lemma ExampleRefusedIff(lib: Library, f: FlagState, example: string)
    requires Consistent(f)
    ensures var (g, refused) := ExampleDeclared(lib, f, example);
            && (forall why :: refused == Some(why) <==> RefusesExample(lib, f, example, why))
            && g == FlagState(f.value, f.def, if refused.Some? then f.example else [example])
  {
    if example != "" {
      ConvertsIffReads(lib, TypeOf(f.value), example);
    }
    if f.value.Enum? {
      FormsAreTaken(f.value.flagType, f.value.allowed, f.value.canonical);
      MemberIsListed(f.value.flagType, f.value.allowed, f.value.canonical, example);
    }
    hide ExampleConverts, Reads, Listed, IsMember, Consistent;
  }

  lemma FormsAreTaken(t: FlagType, allowed: seq<string>, canonical: seq<string>)
    requires FormsMatch(t, allowed, canonical)
    ensures TakenFrom(t, allowed, |allowed|, canonical)
  {
    forall i | 0 <= i < |allowed| ensures HasForm(t, allowed[i], canonical[i]) {
      FormIs(t, allowed[i]);
    }
    hide HasForm, CanonicalEnumValue;
  }

  /**
    What is read back fails closed, whatever has been done to the flag since: a set
    that the default is no member of, or an example that would be refused now, is
    not advertised.
   */
  lemma AdvertisingFailsClosed(lib: Library, f: FlagState)
    requires f.value.Enum? ==> FormsMatch(f.value.flagType, f.value.allowed, f.value.canonical)
    ensures FlagEnum(f) ==
            if f.value.Enum? && (f.def == "" || Listed(f.value.flagType, f.value.allowed, f.def))
            then Some(f.value.allowed) else None
    ensures FlagExample(lib, f) ==
            if |f.example| == 1 && forall why :: !RefusesExample(lib, f, f.example[0], why) then f.example[0] else ""
  {
    if f.value.Enum? {
      FormsAreTaken(f.value.flagType, f.value.allowed, f.value.canonical);
      MemberIsListed(f.value.flagType, f.value.allowed, f.value.canonical, f.def);
    }
    if |f.example| == 1 {
      ProblemIs(lib, f, f.example[0]);
    }
    hide Listed, IsMember, ExampleProblem, RefusesExample;
  }

  lemma ProblemIs(lib: Library, f: FlagState, example: string)
    requires f.value.Enum? ==> FormsMatch(f.value.flagType, f.value.allowed, f.value.canonical)
    ensures (example != "" && ExampleProblem(lib, f, example).None?) <==>
            forall why :: !RefusesExample(lib, f, example, why)
  {
    if example != "" {
      ConvertsIffReads(lib, TypeOf(f.value), example);
    }
    if f.value.Enum? {
      FormsAreTaken(f.value.flagType, f.value.allowed, f.value.canonical);
      MemberIsListed(f.value.flagType, f.value.allowed, f.value.canonical, example);
    }
    assert example == "" ==> RefusesExample(lib, f, example, ExampleRequired);
    hide ExampleConverts, Reads, Listed, IsMember, FormsMatch;
    if example != "" && ExampleProblem(lib, f, example).Some? {
      assert RefusesExample(lib, f, example, ExampleProblem(lib, f, example).value);
    }
  }

  /** A plain integer flag holds the form of what it reads, and what a failed parse leaves of the rest. */
  lemma PlainSetIs(lib: Library, t: FlagType, v: string)
    ensures t.Signed? || t.Unsigned? || t.Text? ==>
              forall text :: PlainSet(lib, t, v) == Dispatch.Accepts(text) <==> HasForm(t, v, text)
    ensures (t.Signed? || t.Unsigned?) && !Reads(lib, t, v) ==>
              PlainSet(lib, t, v) == Dispatch.Rejects(Some(lib.residue(t, v)))
  {
    hide ParseInt, ParseUint, FormatInt;
  }

  lemma EnumKeepsConsistent(f: FlagState, values: seq<string>)
    requires Consistent(f)
    ensures Consistent(EnumDeclared(f, values).0)
    ensures TypeOf(EnumDeclared(f, values).0.value) == TypeOf(f.value)
  {
    hide CanonicalEnumValue;
    var t := TypeOf(Unwrapped(f.value));
    FormsOk(t, values, []);
    var forms := CanonicalForms(t, values, []);
    if forms.Ok? {
      assert forms.value[0..] == forms.value;
    }
  }

  // ---------------------------------------------------------------------
  // Any sequence of declarations
  // ---------------------------------------------------------------------

  datatype Declaration = DeclareEnum(values: seq<string>) | DeclareExample(text: string)

  function Declare(lib: Library, f: FlagState, d: Declaration): (FlagState, Option<Violation>) {
    match d
    case DeclareEnum(values) => EnumDeclared(f, values)
    case DeclareExample(text) => ExampleDeclared(lib, f, text)
  }

  function DeclareAll(lib: Library, f: FlagState, ds: seq<Declaration>): FlagState
    decreases |ds|
  {
    if ds == [] then f else DeclareAll(lib, Declare(lib, f, ds[0]).0, ds[1..])
  }

  lemma DeclareKeeps(lib: Library, f: FlagState, d: Declaration)
    requires Consistent(f)
    ensures var g := Declare(lib, f, d).0; Consistent(g) && (ExampleSound(lib, f) ==> ExampleSound(lib, g))
    ensures Declare(lib, f, d).1.Some? ==> Declare(lib, f, d).0 == f
  {
    hide CanonicalEnumValue, ScalarJson, CanonicalForms;
    match d
    case DeclareEnum(values) =>
      EnumKeepsConsistent(f, values);
    case DeclareExample(text) =>
  }

  /**
    From any flag that carries no enum yet, every sequence of declarations,
    accepted or refused, leaves consistent declarations; and if its example
    could be advertised at the start, it can at the end.
   */
  lemma {:induction false} HistoryKeepsDeclarations(lib: Library, f: FlagState, ds: seq<Declaration>)
    requires Consistent(f)
    ensures Consistent(DeclareAll(lib, f, ds))
    ensures ExampleSound(lib, f) ==> ExampleSound(lib, DeclareAll(lib, f, ds))
    decreases |ds|
  {
    hide Consistent, ExampleSound, Declare;
    if ds != [] {
      DeclareKeeps(lib, f, ds[0]);
      HistoryKeepsDeclarations(lib, Declare(lib, f, ds[0]).0, ds[1..]);
    }
  }

  // ---------------------------------------------------------------------
  // The advertised set is the enforced set
  // ---------------------------------------------------------------------

  /** enumJSON's elements; None when any fails to convert. */
  function JsonOfAll(t: FlagType, allowed: seq<string>): Option<seq<Dispatch.Json>> {
    if allowed == [] then Some([])
    else
      var rest := JsonOfAll(t, allowed[1..]);
      var head := JsonOf(t, allowed[0]);
      if head.None? || rest.None? then None else Some([head.value] + rest.value)
  }

  function JsonOf(t: FlagType, member: string): Option<Dispatch.Json> {
    if t.Signed? || t.Unsigned? then
      var c := CanonicalEnumValue(t, member);
      if c.Err? then None else ScalarJson(t, c.value)
    else Some(Dispatch.Str(member))
  }

  /** The enum an MCP tool advertises for a flag. */
  function Advertised(f: FlagState): Option<seq<Dispatch.Json>> {
    var allowed := FlagEnum(f);
    if allowed.None? || allowed.value == [] then None else JsonOfAll(TypeOf(f.value), allowed.value)
  }

  predicate Advertises(f: FlagState, j: Dispatch.Json) {
    Advertised(f).Some? && j in Advertised(f).value
  }

  /** The dispatcher's rendering of a JSON scalar. */
  predicate RendersTo(j: Dispatch.Json, s: string) {
    Dispatch.StringifyArg(j) == Dispatch.Rendered(s)
  }

  /** A member's JSON value renders back to the member's canonical form. */
  lemma MemberRendersCanonically(t: FlagType, member: string)
    requires !t.Builtin? && CanonicalEnumValue(t, member).Ok?
    ensures JsonOf(t, member).Some?
    ensures RendersTo(JsonOf(t, member).value, CanonicalEnumValue(t, member).value)
    ensures JsonOf(t, member).value ==
            if t.Signed? || t.Unsigned? then Dispatch.Num(CanonicalEnumValue(t, member).value)
            else Dispatch.Str(member)
  {
    hide ParseInt, ParseUint, FormatInt;
    match t
    case Signed(bits) =>
      ParsedFits(member, true, bits);
      var n := ParseInt(member, true, bits).value;
      WiderFits(n, bits);
      IntRoundTrip(n, false, 64);
      NotEmpty(n);
    case Unsigned(bits) =>
      ParsedFits(member, true, bits);
      var n := ParseUint(member, true, bits).value;
      WiderFits(n, bits);
      UintRoundTrip(n, false, 64);
      NotEmpty(n);
    case _ =>
  }

  lemma WiderFits(n: int, bits: BitSize)
    ensures FitsSigned(n, bits) ==> FitsSigned(n, 64)
    ensures FitsUnsigned(n, bits) ==> FitsUnsigned(n, 64)
  {
  }

  lemma NotEmpty(n: int)
    ensures FormatInt(n) != ""
  {
  }

  lemma {:induction false} JsonOfAllRenders(t: FlagType, allowed: seq<string>, canonical: seq<string>)
    requires !t.Builtin? && FormsMatch(t, allowed, canonical)
    ensures var js := JsonOfAll(t, allowed);
            js.Some? && |js.value| == |canonical| &&
            forall i :: 0 <= i < |canonical| ==> RendersTo(js.value[i], canonical[i])
    decreases |allowed|
  {
    hide CanonicalEnumValue, JsonOf, RendersTo;
    if allowed != [] {
      MemberRendersCanonically(t, allowed[0]);
      JsonOfAllRenders(t, allowed[1..], canonical[1..]);
    }
  }

  /** A consistent enum is always advertised in full, in author order. */
  lemma EnumIsAdvertised(f: FlagState)
    requires Consistent(f) && f.value.Enum?
    ensures var js := Advertised(f);
            js.Some? && |js.value| == |f.value.canonical| &&
            forall i :: 0 <= i < |js.value| ==> RendersTo(js.value[i], f.value.canonical[i])
  {
    JsonOfAllRenders(f.value.flagType, f.value.allowed, f.value.canonical);
    hide CanonicalEnumValue, JsonOfAll, RendersTo;
    assert !f.value.flagType.Builtin? by {
      BuiltinUnsupported(f.value.inner);
    }
  }

  lemma BuiltinUnsupported(v: Value)
    ensures TypeOf(v).Builtin? ==> !EnumTypeSupported(v)
  {
  }

  predicate Modelled(t: FlagType) {
    t.Signed? || t.Unsigned? || t.Text?
  }

  /** A member's canonical form passes the wrapper and stores itself. */
  lemma FormIsAccepted(lib: Library, f: FlagState, s: string)
    requires Consistent(f) && f.value.Enum? && s in f.value.canonical
    ensures SetOn(lib, f.value, f.def, s) == PlainSet(lib, f.value.flagType, s)
    ensures Modelled(f.value.flagType) ==> PlainSet(lib, f.value.flagType, s) == Dispatch.Accepts(s)
  {
    var t := f.value.flagType;
    var i :| 0 <= i < |f.value.canonical| && f.value.canonical[i] == s;
    assert CanonicalEnumValue(t, f.value.allowed[i]) == Ok(s);
    CanonicalIsFixed(t, f.value.allowed[i]);
    hide ParseInt, ParseUint, FormatInt, FormsMatch;
  }

  /**
    Every advertised value, rendered back by the dispatcher, reaches the wrapped
    type's Set, which strings and integers always accept, storing exactly what
    was rendered.
   */
  lemma AdvertisedIsAccepted(lib: Library, f: FlagState, j: Dispatch.Json)
    requires Consistent(f) && f.value.Enum? && Advertises(f, j)
    ensures exists s ::
              && RendersTo(j, s)
              && SetOn(lib, f.value, f.def, s) == PlainSet(lib, f.value.flagType, s)
              && (Modelled(f.value.flagType) ==> SetOn(lib, f.value, f.def, s) == Dispatch.Accepts(s))
  {
    EnumIsAdvertised(f);
    hide Advertised, RendersTo, SetOn, PlainSet, Consistent;
    var js := Advertised(f).value;
    var i :| 0 <= i < |js| && js[i] == j;
    FormIsAccepted(lib, f, f.value.canonical[i]);
    assert RendersTo(j, f.value.canonical[i]);
  }

  /**
    On strings and integers Set accepts a value exactly when it canonicalises to
    an advertised one, apart from an empty default; what it stores is then the
    advertised value itself.
   */
  lemma AcceptedIffAdvertised(lib: Library, f: FlagState, v: string)
    requires Consistent(f) && f.value.Enum? && Modelled(f.value.flagType)
    requires v != "" || f.def != ""
    ensures SetOn(lib, f.value, f.def, v).Accepts? <==>
            exists j, s :: Advertises(f, j) && RendersTo(j, s) && CanonicalEnumValue(f.value.flagType, v) == Ok(s)
    ensures SetOn(lib, f.value, f.def, v).Accepts? ==>
              exists j :: Advertises(f, j) && RendersTo(j, SetOn(lib, f.value, f.def, v).text)
  {
    var t, canonical := f.value.flagType, f.value.canonical;
    EnumIsAdvertised(f);
    SetIsMembership(lib, f, v);
    hide Advertised, PlainSet, Consistent, CanonicalEnumValue, SetOn;
    var js := Advertised(f).value;
    if IsMember(t, canonical, v) {
      var s := CanonicalEnumValue(t, v).value;
      var i :| 0 <= i < |canonical| && canonical[i] == s;
      assert Advertises(f, js[i]) && RendersTo(js[i], s);
    }
    if j, s :| Advertises(f, j) && RendersTo(j, s) && CanonicalEnumValue(t, v) == Ok(s) {
      var i :| 0 <= i < |js| && js[i] == j;
      assert canonical[i] == s;
    }
  }

  lemma SetIsMembership(lib: Library, f: FlagState, v: string)
    requires Consistent(f) && f.value.Enum? && Modelled(f.value.flagType)
    requires v != "" || f.def != ""
    ensures var out := SetOn(lib, f.value, f.def, v);
            if IsMember(f.value.flagType, f.value.canonical, v)
            then out.Accepts? && CanonicalEnumValue(f.value.flagType, v) == Ok(out.text)
            else out == Dispatch.Rejects(None)
  {
    hide ParseInt, ParseUint, FormatInt, FormsMatch;
  }

  /** On custom types the wrapped Set decides, for the default and for exactly the advertised strings. */
  lemma CustomAcceptedIff(lib: Library, f: FlagState, v: string)
    requires Consistent(f) && f.value.Enum? && f.value.flagType.Custom?
    ensures SetOn(lib, f.value, f.def, v) ==
            if v == f.def || Advertises(f, Dispatch.Str(v)) then lib.set_(f.value.flagType, v)
            else Dispatch.Rejects(None)
  {
    EnumIsAdvertised(f);
    hide Advertised;
    var js, canonical := Advertised(f).value, f.value.canonical;
    if v in canonical {
      var i :| 0 <= i < |canonical| && canonical[i] == v;
      StringsRenderThemselves(f.value.flagType, f.value.allowed, i);
      AdvertisedIs(f);
      assert js[i] == Dispatch.Str(v);
    }
    if Dispatch.Str(v) in js {
      var i :| 0 <= i < |js| && js[i] == Dispatch.Str(v);
      assert RendersTo(js[i], canonical[i]);
    }
  }

  lemma AdvertisedIs(f: FlagState)
    requires Consistent(f) && f.value.Enum?
    ensures Advertised(f) == JsonOfAll(f.value.flagType, f.value.allowed)
  {
    hide CanonicalEnumValue;
  }

  lemma {:induction false} StringsRenderThemselves(t: FlagType, allowed: seq<string>, i: nat)
    requires t.Text? || t.Custom?
    requires i < |allowed|
    ensures JsonOfAll(t, allowed).Some? && |JsonOfAll(t, allowed).value| == |allowed|
    ensures JsonOfAll(t, allowed).value[i] == Dispatch.Str(allowed[i])
    decreases |allowed|
  {
    if |allowed| > 1 {
      StringsRenderThemselves(t, allowed[1..], if i == 0 then 0 else i - 1);
    }
  }

  /**
    An enum makes an integer flag fail-safe: although a failing integer Set
    writes before it reports, the wrapper never lets a value through that fails.
   */
  lemma EnumIsFailSafe(lib: Library, f: FlagState, v: string)
    requires Consistent(f) && f.value.Enum? && Modelled(f.value.flagType)
    requires f.def != ""
    ensures !FailsWriting(SetOn(lib, f.value, f.def, v))
  {
    SetIsMembership(lib, f, v);
  }

  /** A dispatcher flag behaves like this declared flag. */
  ghost predicate Behaves(lib: Library, flag: Dispatch.Flag, f: FlagState) {
    flag.ScalarFlag? && flag.def == f.def && forall held, v :: flag.set_(held, v) == SetOn(lib, f.value, f.def, v)
  }

  /** The default is the printed form of the value, as pflag records it. */
  predicate PrintedDefault(f: FlagState) {
    CanonicalEnumValue(TypeOf(f.value), f.def) == Ok(f.def)
  }

  /**
    So a tree whose scalar flags are strings, or carry an enum, and whose slices
    take their defaults back, meets the condition under which dispatcher calls
    never leak into each other.
   */
  lemma EnumTreesAreFailSafe(lib: Library, tree: Dispatch.Tree, states: map<Dispatch.FlagId, FlagState>)
    requires forall id :: id in tree.flags && tree.flags[id].ScalarFlag? ==>
               && id in states && Behaves(lib, tree.flags[id], states[id]) && SafelyDeclared(states[id])
    requires forall id :: id in tree.flags && tree.flags[id].SliceFlag? ==>
               tree.flags[id].replace(tree.flags[id].defaults) == Dispatch.Replaced
    ensures Isolation.FailSafe(tree)
  {
    forall id | id in tree.flags ensures Isolation.SafeFlag(tree.flags[id]) {
      if tree.flags[id].ScalarFlag? {
        EnumFlagIsSafe(lib, tree.flags[id], states[id]);
      }
    }
    hide Isolation.SafeFlag;
  }

  /** A string, or an integer under an enum, with the default pflag records. */
  ghost predicate SafelyDeclared(f: FlagState) {
    && Consistent(f) && Modelled(TypeOf(f.value)) && PrintedDefault(f)
    && (TypeOf(f.value).Text? || f.value.Enum?)
  }

  lemma EnumFlagIsSafe(lib: Library, flag: Dispatch.Flag, f: FlagState)
    requires Behaves(lib, flag, f) && SafelyDeclared(f)
    ensures Isolation.SafeFlag(flag)
  {
    DefaultReturns(lib, f);
    forall v ensures Isolation.SafeValue(flag, v) {
      OneFlagIsFailSafe(lib, f, v);
      hide SetOn, SafelyDeclared;
    }
  }

  /** The default is always taken back, whatever the flag holds. */
  lemma DefaultReturns(lib: Library, f: FlagState)
    requires SafelyDeclared(f)
    ensures SetOn(lib, f.value, f.def, f.def) == Dispatch.Accepts(f.def)
  {
    hide ParseInt, ParseUint, FormatInt, FormsMatch;
  }

  lemma OneFlagIsFailSafe(lib: Library, f: FlagState, v: string)
    requires SafelyDeclared(f)
    ensures !FailsWriting(SetOn(lib, f.value, f.def, v))
  {
    if f.value.Enum? && !TypeOf(f.value).Text? {
      DefaultIsNotEmpty(f);
      EnumIsFailSafe(lib, f, v);
    }
    hide ParseInt, ParseUint, FormatInt, FormsMatch;
  }

  lemma DefaultIsNotEmpty(f: FlagState)
    requires PrintedDefault(f) && (TypeOf(f.value).Signed? || TypeOf(f.value).Unsigned?)
    ensures f.def != ""
  {
  }

  /** After any declarations, the example advertised is the one last declared. */
  lemma DeclaredExampleIsAdvertised(lib: Library, f: FlagState, ds: seq<Declaration>)
    requires Consistent(f) && f.example == []
    ensures var g := DeclareAll(lib, f, ds);
            FlagExample(lib, g) == if DeclaredExample(g).Some? then DeclaredExample(g).value else ""
  {
    HistoryKeepsDeclarations(lib, f, ds);
    hide ExampleProblem;
  }

  // ---------------------------------------------------------------------
  // Commands and their flags
  // ---------------------------------------------------------------------

  class Flag {
    var value: Value
    var def: string
    var example: seq<string>

    function State(): FlagState
      reads this
    {
      FlagState(value, def, example)
    }

    constructor (value: Value, def: string)
      ensures State() == FlagState(value, def, [])
    {
      this.value, this.def, this.example := value, def, [];
    }

    /**
      Set, through any wrapper. The type and the declared set stay; a value that
      is neither the default nor a member changes nothing; an accepted one is
      what the flag then holds.
     */
    method Set(lib: Library, v: string) returns (ok: bool)
      modifies this`value
      ensures TypeOf(value) == TypeOf(old(value)) && FlagEnum(State()) == old(FlagEnum(State()))
      ensures old(value).Enum? ==>
                && value.Enum? && value.allowed == old(value).allowed && value.canonical == old(value).canonical
                && (v != def && !IsMember(old(value).flagType, old(value).canonical, v) ==> !ok && value == old(value))
      ensures ok ==> SetOn(lib, old(value), def, v) == Dispatch.Accepts(Stored(value))
      ensures !ok && !FailsWriting(SetOn(lib, old(value), def, v)) ==> value == old(value)
    {
      var out := SetOn(lib, value, def, v);
      hide CanonicalEnumValue, PlainSet;
      ok := out.Accepts?;
      if out.Accepts? {
        StoredBack(value, out.text);
        value := WithStored(value, out.text);
      } else if out.left.Some? {
        StoredBack(value, out.left.value);
        value := WithStored(value, out.left.value);
      }
    }
  }

  /** Storing touches nothing but the bound variable. */
  lemma {:induction false} StoredBack(value: Value, text: string)
    ensures Stored(WithStored(value, text)) == text && TypeOf(WithStored(value, text)) == TypeOf(value)
    ensures WithStored(WithStored(value, text), Stored(value)) == value
  {
    if value.Enum? {
      StoredBack(value.inner, text);
    }
  }

  class Command {
    const flags: map<string, Flag>
    const persistent: map<string, Flag>

    constructor (flags: map<string, Flag>, persistent: map<string, Flag>)
      ensures this.flags == flags && this.persistent == persistent
    {
      this.flags, this.persistent := flags, persistent;
    }
  }

  /** lookupFlag: local flags, then persistent ones. */
  function LookupFlag(cmd: Command?, name: string): Result<Flag, Violation> {
    if cmd == null then Err(NilCommand)
    else if name in cmd.flags then Ok(cmd.flags[name])
    else if name in cmd.persistent then Ok(cmd.persistent[name])
    else Err(FlagNotFound)
  }

  ghost function Target(cmd: Command?, name: string): set<Flag> {
    var found := LookupFlag(cmd, name);
    if found.Ok? then {found.value} else {}
  }

  method AddFlagEnum(cmd: Command?, name: string, values: seq<string>) returns (violation: Option<Violation>)
    modifies Target(cmd, name)
    ensures cmd == null ==> violation == Some(NilCommand)
    ensures cmd != null && name !in cmd.flags && name !in cmd.persistent ==> violation == Some(FlagNotFound)
    ensures cmd != null && (name in cmd.flags || name in cmd.persistent) ==>
              var found := if name in cmd.flags then cmd.flags[name] else cmd.persistent[name];
              (found.State(), violation) == EnumDeclared(old(found.State()), values)
  {
    hide CanonicalEnumValue, IsMember, DefaultIsMember;
    var found := LookupFlag(cmd, name);
    if found.Err? {
      return Some(found.error);
    }
    var flag := found.value;
    var inner := Unwrapped(flag.value);
    var t := TypeOf(inner);
    if !EnumTypeSupported(inner) {
      return Some(UnsupportedType);
    }
    if values == [] {
      return Some(ValuesRequired);
    }
    var canonical: seq<string> := [];
    assert values[0..] == values;
    for i := 0 to |values|
      invariant CanonicalForms(t, values, []) == CanonicalForms(t, values[i..], canonical)
    {
      assert values[i..][1..] == values[i + 1..];
      var form := CanonicalEnumValue(t, values[i]);
      if form.Err? {
        return Some(InvalidValue);
      }
      if form.value in canonical {
        return Some(DuplicateValue);
      }
      canonical := canonical + [form.value];
    }
    if !DefaultIsMember(t, canonical, flag.def) {
      return Some(DefaultNotInEnum);
    }
    var example := DeclaredExample(flag.State());
    if example.Some? && !IsMember(t, canonical, example.value) {
      return Some(ExampleNotInEnum);
    }
    if flag.value.Enum? {
      flag.value := flag.value.(allowed := values, canonical := canonical);
    } else {
      flag.value := Enum(inner, t, values, canonical);
    }
    violation := None;
  }

  method AddFlagExample(lib: Library, cmd: Command?, name: string, example: string)
    returns (violation: Option<Violation>)
    modifies Target(cmd, name)
    ensures cmd == null ==> violation == Some(NilCommand)
    ensures cmd != null && name !in cmd.flags && name !in cmd.persistent ==> violation == Some(FlagNotFound)
    ensures cmd != null && (name in cmd.flags || name in cmd.persistent) ==>
              var found := if name in cmd.flags then cmd.flags[name] else cmd.persistent[name];
              (found.State(), violation) == ExampleDeclared(lib, old(found.State()), example)
  {
    hide ExampleProblem;
    var found := LookupFlag(cmd, name);
    if found.Err? {
      return Some(found.error);
    }
    var flag := found.value;
    if example == "" {
      return Some(ExampleRequired);
    }
    var problem := ExampleProblem(lib, flag.State(), example);
    if problem.Some? {
      return problem;
    }
    flag.example := [example];
    violation := None;
  }

  lemma JsonOfAllStep(t: FlagType, allowed: seq<string>, i: nat)
    requires i < |allowed|
    ensures var head, rest := JsonOf(t, allowed[i]), JsonOfAll(t, allowed[i + 1..]);
            JsonOfAll(t, allowed[i..]) ==
            if head.None? || rest.None? then None else Some([head.value] + rest.value)
  {
    assert allowed[i..][1..] == allowed[i + 1..];
  }

  lemma JsonOfNone(t: FlagType, allowed: seq<string>)
    requires allowed == []
    ensures JsonOfAll(t, allowed) == Some([])
  {
  }

  /** enumJSON: all members converted, in author order, or nothing. */
  method EnumJson(t: FlagType, allowed: seq<string>) returns (values: Option<seq<Dispatch.Json>>)
    ensures values == if allowed == [] then None else JsonOfAll(t, allowed)
  {
    hide JsonOf, JsonOfAll;
    if allowed == [] {
      return None;
    }
    var done: seq<Dispatch.Json> := [];
    assert allowed[0..] == allowed;
    for i := 0 to |allowed|
      invariant var rest := JsonOfAll(t, allowed[i..]);
                && JsonOfAll(t, allowed).None? == rest.None?
                && (rest.Some? ==> JsonOfAll(t, allowed).value == done + rest.value)
    {
      JsonOfAllStep(t, allowed, i);
      var json := JsonOf(t, allowed[i]);
      if json.None? {
        return None;
      }
      done := done + [json.value];
    }
    JsonOfNone(t, allowed[|allowed|..]);
    assert done + [] == done;
    values := Some(done);
  }
}
