/**
  Integer literals as Go's strconv reads and writes them: an optional sign, a
  base prefix and digit-separating underscores when the base is 0, and a bit
  size that the value must fit. Errors are not told apart, since every caller
  only asks whether parsing failed.
 */
module Integers {
  import opened Base

  type BitSize = n: nat | n == 8 || n == 16 || n == 32 || n == 64 witness 8

  function MaxUnsigned(bits: BitSize): nat {
    match bits
    case 8 => 0xFF
    case 16 => 0xFFFF
    case 32 => 0xFFFF_FFFF
    case _ => 0xFFFF_FFFF_FFFF_FFFF
  }

  /** 1 << (bits - 1): the magnitude of the least signed value. */
  function SignCutoff(bits: BitSize): nat {
    match bits
    case 8 => 0x80
    case 16 => 0x8000
    case 32 => 0x8000_0000
    case _ => 0x8000_0000_0000_0000
  }

  predicate FitsSigned(n: int, bits: BitSize) {
    0 <= n + SignCutoff(bits) && n < SignCutoff(bits)
  }

  predicate FitsUnsigned(n: int, bits: BitSize) {
    0 <= n <= MaxUnsigned(bits)
  }

  // ---------------------------------------------------------------------
  // Parsing
  // ---------------------------------------------------------------------

  function DigitValue(c: char): Option<nat> {
    if '0' <= c <= '9' then Some((c - '0') as nat)
    else if 'a' <= c <= 'z' then Some((c - 'a') as nat + 10)
    else if 'A' <= c <= 'Z' then Some((c - 'A') as nat + 10)
    else None
  }

  predicate Is(c: char, lower: char, upper: char) {
    c == lower || c == upper
  }

  /** The digit loop, from the value n read so far. None covers syntax and range errors. */
  function ScanDigits(s: string, base: nat, separators: bool, max: nat, n: nat): Option<nat>
    decreases |s|
  {
    if s == [] then Some(n)
    else if s[0] == '_' && separators then ScanDigits(s[1..], base, separators, max, n)
    else
      var d := DigitValue(s[0]);
      if d.None? || d.value >= base || n * base + d.value > max then None
      else ScanDigits(s[1..], base, separators, max, n * base + d.value)
  }

  /** The base a base-0 literal selects and the digits left after its prefix. */
  function SplitPrefix(s: string): (nat, string)
    requires s != []
  {
    if s[0] != '0' then (10, s)
    else if |s| >= 3 && Is(s[1], 'b', 'B') then (2, s[2..])
    else if |s| >= 3 && Is(s[1], 'o', 'O') then (8, s[2..])
    else if |s| >= 3 && Is(s[1], 'x', 'X') then (16, s[2..])
    else (8, s[1..])
  }

  datatype Saw = Nothing | Digit | Separator | Other

  /** underscoreOK's loop: a separator needs a digit (or a prefix) on both sides. */
  predicate SeparatorsFrom(s: string, hex: bool, saw: Saw)
    decreases |s|
  {
    if s == [] then saw != Separator
    else if '0' <= s[0] <= '9' || (hex && ('a' <= s[0] <= 'f' || 'A' <= s[0] <= 'F')) then
      SeparatorsFrom(s[1..], hex, Digit)
    else if s[0] == '_' then saw == Digit && SeparatorsFrom(s[1..], hex, Separator)
    else saw != Separator && SeparatorsFrom(s[1..], hex, Other)
  }

  predicate SeparatorsOk(s: string) {
    if |s| >= 2 && s[0] == '0' && (Is(s[1], 'b', 'B') || Is(s[1], 'o', 'O') || Is(s[1], 'x', 'X')) then
      SeparatorsFrom(s[2..], Is(s[1], 'x', 'X'), Digit)
    else SeparatorsFrom(s, false, Nothing)
  }

  /** ParseUint in base 0 (anyBase) or base 10. */
  function ParseUint(s: string, anyBase: bool, bits: BitSize): (r: Option<nat>) {
    if s == [] then None
    else if !anyBase then ScanDigits(s, 10, false, MaxUnsigned(bits), 0)
    else
      var (base, digits) := SplitPrefix(s);
      var n := ScanDigits(digits, base, true, MaxUnsigned(bits), 0);
      if '_' in digits && !SeparatorsOk(s) then None else n
  }

  /** ParseInt in base 0 (anyBase) or base 10. */
  function ParseInt(s: string, anyBase: bool, bits: BitSize): (r: Option<int>) {
    if s == [] then None
    else
      var negative := s[0] == '-';
      var un := ParseUint(if negative || s[0] == '+' then s[1..] else s, anyBase, bits);
      if un.None? then None
      else if negative then (if un.value > SignCutoff(bits) then None else Some(0 - un.value))
      else if un.value >= SignCutoff(bits) then None
      else Some(un.value)
  }

  // ---------------------------------------------------------------------
  // Formatting
  // ---------------------------------------------------------------------

  /** The bases a literal can be written in. */
  type Radix = b: nat | b == 2 || b == 8 || b == 10 || b == 16 witness 10

  function Quotient(n: nat, base: Radix): nat {
    if base == 2 then n / 2 else if base == 8 then n / 8 else if base == 10 then n / 10 else n / 16
  }

  function Remainder(n: nat, base: Radix): nat {
    if base == 2 then n % 2 else if base == 8 then n % 8 else if base == 10 then n % 10 else n % 16
  }

  lemma DivisionIsExact(n: nat, base: Radix)
    ensures Remainder(n, base) < base && Quotient(n, base) * base + Remainder(n, base) == n
    ensures n >= base ==> 0 < Quotient(n, base) < n
  {
    if base == 2 {
    } else if base == 8 {
    } else if base == 10 {
    } else {
    }
  }

  function DigitChar(d: nat): char
    requires d < 16
  {
    if d < 10 then '0' + d as char else 'a' + (d - 10) as char
  }

  function FormatNat(n: nat, base: Radix): (s: string)
    ensures |s| > 0
    decreases n
  {
    if n < base then [DigitChar(n)]
    else
      DivisionIsExact(n, base);
      FormatNat(Quotient(n, base), base) + [DigitChar(Remainder(n, base))]
  }

  /** FormatInt and FormatUint in base 10. */
  function FormatInt(n: int): (s: string)
    ensures |s| > 0
  {
    if n < 0 then ['-'] + FormatNat(-n, 10) else FormatNat(n, 10)
  }

  // ---------------------------------------------------------------------
  // Round trips
  // ---------------------------------------------------------------------

  lemma {:induction false} ScanConcat(s: string, t: string, base: nat, separators: bool, max: nat, n: nat)
    ensures var m := ScanDigits(s, base, separators, max, n);
            ScanDigits(s + t, base, separators, max, n) ==
            if m.None? then None else ScanDigits(t, base, separators, max, m.value)
    decreases |s|
  {
    if s == [] {
      assert s + t == t;
    } else {
      assert (s + t)[1..] == s[1..] + t;
      var d := DigitValue(s[0]);
      if s[0] == '_' && separators {
        ScanConcat(s[1..], t, base, separators, max, n);
      } else if d.Some? && d.value < base && n * base + d.value <= max {
        ScanConcat(s[1..], t, base, separators, max, n * base + d.value);
      }
    }
  }

  lemma DigitRoundTrip(d: nat)
    requires d < 16
    ensures DigitValue(DigitChar(d)) == Some(d)
    ensures DigitChar(d) != '_' && DigitChar(d) != '-' && DigitChar(d) != '+'
    ensures DigitChar(d) == '0' <==> d == 0
  {
  }

  lemma FormatStep(n: nat, base: Radix)
    requires n >= base
    ensures var q, d := Quotient(n, base), Remainder(n, base);
            && 0 < q < n && d < base && n == q * base + d
            && FormatNat(n, base) == FormatNat(q, base) + [DigitChar(d)]
  {
    DivisionIsExact(n, base);
    hide Quotient, Remainder;
  }

  /** Scanning written digits gives the number back exactly when it fits. */
  lemma {:induction false} ScanFormat(n: nat, base: Radix, separators: bool, max: nat)
    ensures ScanDigits(FormatNat(n, base), base, separators, max, 0) == if n <= max then Some(n) else None
    decreases n
  {
    if n < base {
      DigitRoundTrip(n);
      ScanOne(DigitChar(n), base, separators, max, 0);
    } else {
      FormatStep(n, base);
      hide Quotient, Remainder;
      ScanFormat(Quotient(n, base), base, separators, max);
      ScanLast(Quotient(n, base), Remainder(n, base), base, separators, max);
    }
  }

  lemma ScanLast(q: nat, d: nat, base: Radix, separators: bool, max: nat)
    requires d < base
    requires ScanDigits(FormatNat(q, base), base, separators, max, 0) == if q <= max then Some(q) else None
    ensures ScanDigits(FormatNat(q, base) + [DigitChar(d)], base, separators, max, 0) ==
            if q * base + d <= max then Some(q * base + d) else None
  {
    hide FormatNat, ScanDigits, DigitChar, DigitValue;
    DigitRoundTrip(d);
    ScanConcat(FormatNat(q, base), [DigitChar(d)], base, separators, max, 0);
    if q <= max {
      ScanOne(DigitChar(d), base, separators, max, q);
    } else {
      assert q * base >= q;
    }
  }

  lemma ScanOne(c: char, base: nat, separators: bool, max: nat, n: nat)
    requires c != '_' && DigitValue(c).Some? && DigitValue(c).value < base
    ensures ScanDigits([c], base, separators, max, n) ==
            if n * base + DigitValue(c).value <= max then Some(n * base + DigitValue(c).value) else None
  {
    assert [c][1..] == [];
  }

  lemma {:induction false} FormatIsPlain(n: nat, base: Radix)
    ensures '_' !in FormatNat(n, base)
    ensures FormatNat(n, base)[0] !in {'-', '+'}
    ensures FormatNat(n, base)[0] == '0' <==> n == 0
    decreases n
  {
    if n < base {
      DigitRoundTrip(n);
    } else {
      FormatStep(n, base);
      hide FormatNat, Quotient, Remainder;
      DigitRoundTrip(Remainder(n, base));
      FormatIsPlain(Quotient(n, base), base);
    }
  }

  /** A number as a base-0 literal spells it in each of the four bases. */
  function Literal(n: nat, base: Radix): string {
    if base == 2 then ['0', 'b'] + FormatNat(n, 2)
    else if base == 8 then ['0', 'o'] + FormatNat(n, 8)
    else if base == 16 then ['0', 'x'] + FormatNat(n, 16)
    else FormatNat(n, 10)
  }

  lemma PrefixedLiteral(prefix: string, digits: string)
    requires |prefix| == 2 && prefix[0] == '0' && prefix[1] in {'b', 'o', 'x'} && digits != []
    ensures SplitPrefix(prefix + digits) ==
            (if prefix[1] == 'b' then 2 else if prefix[1] == 'o' then 8 else 16, digits)
  {
    assert (prefix + digits)[2..] == digits;
  }

  /** Every spelling parses back, exactly when the value fits the bit size. */
  lemma LiteralRoundTrip(n: nat, base: Radix, bits: BitSize)
    ensures ParseUint(Literal(n, base), true, bits) == if FitsUnsigned(n, bits) then Some(n) else None
  {
    var s := Literal(n, base);
    var digits := FormatNat(n, base);
    FormatIsPlain(n, base);
    ScanFormat(n, base, true, MaxUnsigned(bits));
    hide FormatNat, ScanDigits, SeparatorsFrom;
    if base != 10 {
      PrefixedLiteral(s[..2], digits);
      assert s == s[..2] + digits;
    } else if n != 0 {
      assert SplitPrefix(s) == (10, s);
    } else {
      ZeroParses(bits);
    }
  }

  lemma ZeroParses(bits: BitSize)
    ensures FormatNat(0, 10) == ['0']
    ensures ParseUint(['0'], true, bits) == Some(0)
  {
    assert ['0'][1..] == [];
  }

  /** Unsigned values in base 10, as both parsers read them. */
  lemma UintRoundTrip(n: nat, anyBase: bool, bits: BitSize)
    ensures ParseUint(FormatInt(n), anyBase, bits) == if FitsUnsigned(n, bits) then Some(n) else None
  {
    LiteralRoundTrip(n, 10, bits);
    ScanFormat(n, 10, false, MaxUnsigned(bits));
  }

  lemma CutoffFits(bits: BitSize)
    ensures 0 < SignCutoff(bits) <= MaxUnsigned(bits)
  {
  }

  /** Signed values in base 10, as both parsers read them. */
  lemma IntRoundTrip(n: int, anyBase: bool, bits: BitSize)
    ensures ParseInt(FormatInt(n), anyBase, bits) == if FitsSigned(n, bits) then Some(n) else None
  {
    var m: nat := if n < 0 then -n else n;
    UintRoundTrip(m, anyBase, bits);
    FormatIsPlain(m, 10);
    CutoffFits(bits);
    hide ParseUint, FormatNat;
    var s := FormatInt(n);
    if n < 0 {
      assert s[1..] == FormatNat(m, 10);
    }
  }

  /** Any sign and base spell the same number. */
  lemma SignedLiteralRoundTrip(n: nat, base: Radix, sign: char, bits: BitSize)
    requires sign in {'-', '+'}
    ensures var v := if sign == '-' then 0 - n else n;
            ParseInt([sign] + Literal(n, base), true, bits) == if FitsSigned(v, bits) then Some(v) else None
  {
    LiteralRoundTrip(n, base, bits);
    CutoffFits(bits);
    hide ParseUint, Literal;
    assert ([sign] + Literal(n, base))[1..] == Literal(n, base);
  }

  lemma {:induction false} ScanBounded(s: string, base: nat, separators: bool, max: nat, n: nat)
    requires n <= max
    ensures var r := ScanDigits(s, base, separators, max, n); r.Some? ==> r.value <= max
    decreases |s|
  {
    if s != [] {
      var d := DigitValue(s[0]);
      if s[0] == '_' && separators {
        ScanBounded(s[1..], base, separators, max, n);
      } else if d.Some? && d.value < base && n * base + d.value <= max {
        ScanBounded(s[1..], base, separators, max, n * base + d.value);
      }
    }
  }

  /** What parses fits the bit size. */
  lemma ParsedFits(s: string, anyBase: bool, bits: BitSize)
    ensures ParseUint(s, anyBase, bits).Some? ==> FitsUnsigned(ParseUint(s, anyBase, bits).value, bits)
    ensures ParseInt(s, anyBase, bits).Some? ==> FitsSigned(ParseInt(s, anyBase, bits).value, bits)
  {
    ParsedUintFits(s, anyBase, bits);
    hide ParseUint;
  }

  lemma ParsedUintFits(s: string, anyBase: bool, bits: BitSize)
    ensures ParseUint(s, anyBase, bits).Some? ==> FitsUnsigned(ParseUint(s, anyBase, bits).value, bits)
  {
    if s != [] {
      var (base, digits) := SplitPrefix(s);
      ScanBounded(digits, base, true, MaxUnsigned(bits), 0);
      ScanBounded(s, 10, false, MaxUnsigned(bits), 0);
    }
  }

  /** Different integers are written differently. */
  lemma FormatInjective(m: int, n: int)
    requires FormatInt(m) == FormatInt(n)
    ensures m == n
  {
    var a: nat, b: nat := if m < 0 then -m else m, if n < 0 then -n else n;
    FormatIsPlain(a, 10);
    FormatIsPlain(b, 10);
    ScanFormat(a, 10, false, a + b);
    ScanFormat(b, 10, false, a + b);
    hide FormatNat, ScanDigits;
    assert m < 0 ==> FormatInt(m)[1..] == FormatNat(a, 10);
    assert n < 0 ==> FormatInt(n)[1..] == FormatNat(b, 10);
  }

  // ---------------------------------------------------------------------
  // What the parsers read
  // ---------------------------------------------------------------------

  function Pow2(n: nat): nat {
    if n == 0 then 1 else 2 * Pow2(n - 1)
  }

  /** The bit sizes hold what two's complement and unsigned words hold. */
  lemma FitsIff(n: int, bits: BitSize)
    ensures FitsUnsigned(n, bits) <==> 0 <= n < Pow2(bits)
    ensures FitsSigned(n, bits) <==> 0 - Pow2(bits - 1) <= n < Pow2(bits - 1)
  {
    assert Pow2(8) == 0x100;
    assert Pow2(16) == 0x1_0000;
    assert Pow2(24) == 0x100_0000;
    assert Pow2(32) == 0x1_0000_0000;
    assert Pow2(40) == 0x100_0000_0000;
    assert Pow2(48) == 0x1_0000_0000_0000;
    assert Pow2(56) == 0x100_0000_0000_0000;
    assert Pow2(64) == 0x1_0000_0000_0000_0000;
  }

  /** The character is this digit, in either case. */
  predicate DigitIs(c: char, d: nat) {
    d < 16 && (c == "0123456789abcdef"[d] || c == "0123456789ABCDEF"[d])
  }

  lemma DigitValueIs(c: char, d: nat)
    requires d < 16
    ensures DigitValue(c) == Some(d) <==> DigitIs(c, d)
  {
  }

  predicate IsDigit(c: char, base: nat) {
    exists d :: 0 <= d < base && DigitIs(c, d)
  }

  /** Digits of the base, between which separators may stand. */
  predicate AllDigits(s: string, base: nat, separators: bool) {
    forall i :: 0 <= i < |s| ==> IsDigit(s[i], base) || (separators && s[i] == '_')
  }

  ghost function DigitOf(c: char): nat {
    if d: nat :| DigitIs(c, d) then d else 0
  }

  /** Positional notation, passing over separators. */
  ghost function Positional(s: string, base: nat): nat {
    if s == [] then 0
    else
      var last := s[|s| - 1];
      if last == '_' then Positional(s[..|s| - 1], base)
      else Shift(Positional(s[..|s| - 1], base), base, DigitOf(last))
  }

  function Shift(n: nat, base: nat, d: nat): nat {
    n * base + d
  }

  lemma DigitOfIs(c: char, base: nat)
    requires base <= 16
    ensures IsDigit(c, base) <==> DigitValue(c).Some? && DigitValue(c).value < base
    ensures IsDigit(c, base) ==> DigitOf(c) == DigitValue(c).value && c != '_'
  {
    forall d: nat | d < 16 ensures DigitValue(c) == Some(d) <==> DigitIs(c, d) {
      DigitValueIs(c, d);
    }
    hide DigitIs;
  }

  /** The digit loop reads positional notation, as long as the value fits. */
  lemma {:induction false} ScanIsPositional(s: string, base: nat, separators: bool, max: nat)
    requires 2 <= base <= 16
    ensures ScanDigits(s, base, separators, max, 0) ==
            if AllDigits(s, base, separators) && Positional(s, base) <= max then Some(Positional(s, base)) else None
    decreases |s|
  {
    if s != [] {
      var front, last := s[..|s| - 1], s[|s| - 1];
      assert s == front + [last];
      assert Positional(s, base) ==
             if last == '_' then Positional(front, base) else Shift(Positional(front, base), base, DigitOf(last));
      hide Positional, AllDigits, IsDigit, DigitOf, ScanDigits, Shift;
      var n := Positional(front, base);
      var next := Shift(n, base, DigitOf(last));
      ScanIsPositional(front, base, separators, max);
      ScanConcat(front, [last], base, separators, max, 0);
      AllDigitsLast(s, base, separators);
      Shifted(n, base, DigitOf(last));
      DigitOfIs(last, base);
      if n <= max {
        ScanLastChar(last, base, separators, max, n);
      }
      ScanPieces(s, base, separators, max, n, next);
    }
  }

  lemma ScanPieces(s: string, base: nat, separators: bool, max: nat, n: nat, next: nat)
    requires s != [] && next >= n
    requires var front, last := s[..|s| - 1], s[|s| - 1];
             var scanned := ScanDigits(front, base, separators, max, 0);
             && scanned == (if AllDigits(front, base, separators) && n <= max then Some(n) else None)
             && ScanDigits(s, base, separators, max, 0) ==
                (if scanned.None? then None else ScanDigits([last], base, separators, max, n))
             && (n <= max ==>
                   ScanDigits([last], base, separators, max, n) ==
                   if last == '_' then (if separators then Some(n) else None)
                   else if IsDigit(last, base) && next <= max then Some(next) else None)
             && Positional(s, base) == (if last == '_' then n else next)
             && (IsDigit(last, base) ==> last != '_')
             && (AllDigits(s, base, separators) <==>
                 AllDigits(front, base, separators) && (IsDigit(last, base) || (separators && last == '_')))
    ensures ScanDigits(s, base, separators, max, 0) ==
            if AllDigits(s, base, separators) && Positional(s, base) <= max then Some(Positional(s, base)) else None
  {
    hide *;
  }

  /** A value out of range stays so, whatever digit follows. */
  lemma Shifted(n: nat, base: nat, d: nat)
    requires base > 0
    ensures Shift(n, base, d) >= n
  {
    assert n * base >= n;
  }

  lemma AllDigitsLast(s: string, base: nat, separators: bool)
    requires s != []
    ensures AllDigits(s, base, separators) <==>
            && AllDigits(s[..|s| - 1], base, separators)
            && (IsDigit(s[|s| - 1], base) || (separators && s[|s| - 1] == '_'))
  {
    hide IsDigit;
  }

  lemma ScanLastChar(c: char, base: nat, separators: bool, max: nat, n: nat)
    requires 2 <= base <= 16 && n <= max
    ensures ScanDigits([c], base, separators, max, n) ==
            if c == '_' then (if separators then Some(n) else None)
            else if IsDigit(c, base) && Shift(n, base, DigitOf(c)) <= max then Some(Shift(n, base, DigitOf(c)))
            else None
  {
    DigitOfIs(c, base);
    assert [c][1..] == [];
    assert DigitValue('_').None?;
    hide DigitOf, IsDigit;
  }

  /** No separator stands last, next to another, or first unless a prefix stands before it. */
  predicate Apart(s: string, prefixed: bool) {
    forall i :: 0 <= i < |s| && s[i] == '_' ==> Lone(s, i, prefixed)
  }

  predicate Lone(s: string, i: nat, prefixed: bool)
    requires i < |s|
  {
    i < |s| - 1 && s[i + 1] != '_' && (if i == 0 then prefixed else s[i - 1] != '_')
  }

  lemma {:induction false} SeparatorsAreApart(s: string, base: Radix)
    requires AllDigits(s, base, true)
    ensures SeparatorsFrom(s, base == 16, Digit) <==> Apart(s, true)
    ensures SeparatorsFrom(s, base == 16, Nothing) <==> Apart(s, false)
    ensures SeparatorsFrom(s, base == 16, Separator) <==> s != [] && s[0] != '_' && Apart(s, false)
    decreases |s|
  {
    if s != [] {
      assert AllDigits(s[1..], base, true);
      SeparatorsAreApart(s[1..], base);
      DigitOfIs(s[0], base);
      ApartTail(s);
      hide AllDigits, IsDigit, DigitOf, Apart;
    }
  }

  lemma ApartTail(s: string)
    requires s != []
    ensures s[0] != '_' ==> (Apart(s, true) <==> Apart(s[1..], true)) && (Apart(s, false) <==> Apart(s[1..], true))
    ensures s[0] == '_' ==>
              !Apart(s, false) && (Apart(s, true) <==> s[1..] != [] && s[1..][0] != '_' && Apart(s[1..], false))
  {
    if s[0] == '_' {
      ApartBehindSeparator(s);
    } else {
      ApartBehindDigit(s, true);
      ApartBehindDigit(s, false);
    }
  }

  lemma ApartBehindDigit(s: string, prefixed: bool)
    requires s != [] && s[0] != '_'
    ensures Apart(s, prefixed) <==> Apart(s[1..], true)
  {
    var t := s[1..];
    assert forall i :: 0 <= i < |t| ==> t[i] == s[i + 1];
    if Apart(t, true) {
      forall i | 0 <= i < |s| && s[i] == '_' ensures Lone(s, i, prefixed) {
        assert t[i - 1] == '_' && Lone(t, i - 1, true);
      }
    }
    if Apart(s, prefixed) {
      forall i | 0 <= i < |t| && t[i] == '_' ensures Lone(t, i, true) {
        assert s[i + 1] == '_' && Lone(s, i + 1, prefixed);
      }
    }
  }

  lemma ApartBehindSeparator(s: string)
    requires s != [] && s[0] == '_'
    ensures !Apart(s, false)
    ensures Apart(s, true) <==> s[1..] != [] && s[1..][0] != '_' && Apart(s[1..], false)
  {
    var t := s[1..];
    assert forall i :: 0 <= i < |t| ==> t[i] == s[i + 1];
    assert !Lone(s, 0, false);
    if t != [] && t[0] != '_' && Apart(t, false) {
      forall i | 0 <= i < |s| && s[i] == '_' ensures Lone(s, i, true) {
        assert i > 0 ==> t[i - 1] == '_' && Lone(t, i - 1, false);
      }
    }
    if Apart(s, true) {
      assert Lone(s, 0, true);
      forall i | 0 <= i < |t| && t[i] == '_' ensures Lone(t, i, false) {
        assert s[i + 1] == '_' && Lone(s, i + 1, true);
      }
    }
  }

  /** How a base-0 literal shows its base: a letter after a zero, a zero alone, or no zero. */
  predicate Spelled(s: string, base: Radix, digits: string) {
    || (base == 10 && digits == s && s != [] && s[0] != '0')
    || (base == 8 && s == "0" + digits)
    || (digits != [] && base == 2 && (s == "0b" + digits || s == "0B" + digits))
    || (digits != [] && base == 8 && (s == "0o" + digits || s == "0O" + digits))
    || (digits != [] && base == 16 && (s == "0x" + digits || s == "0X" + digits))
  }

  /** The number a text stands for, if it fits the bit size: the digits of its base, separators apart. */
  ghost predicate Denotes(s: string, anyBase: bool, bits: BitSize, n: nat) {
    && n < Pow2(bits)
    && if anyBase then exists base: Radix, digits :: Spelling(s, base, digits) && n == Positional(digits, base)
       else s != [] && AllDigits(s, 10, false) && n == Positional(s, 10)
  }

  ghost predicate Spelling(s: string, base: Radix, digits: string) {
    Spelled(s, base, digits) && AllDigits(digits, base, true) && Apart(s, false)
  }

  /** SplitPrefix finds the only spelling there can be. */
  lemma OnlySpelling(s: string, base: Radix, digits: string)
    requires Spelled(s, base, digits) && AllDigits(digits, base, true)
    ensures s != [] && SplitPrefix(s) == (base, digits)
  {
    if s[0] == '0' && digits != [] {
      DigitOfIs(digits[0], base);
      assert IsDigit(digits[0], base) || digits[0] == '_';
      hide IsDigit, AllDigits;
      if s == "0" + digits {
        assert s[1..] == digits && s[1] == digits[0];
      } else {
        assert s[2..] == digits;
      }
    } else if s[0] == '0' {
      assert s == "0";
    }
  }

  lemma PrefixIsSpelled(s: string)
    requires s != []
    ensures var (base, digits) := SplitPrefix(s);
            (base == 2 || base == 8 || base == 10 || base == 16) && Spelled(s, base, digits)
  {
    if s[0] == '0' {
      assert s == "0" + s[1..];
      if |s| >= 3 {
        assert s == [s[0], s[1]] + s[2..];
      }
    }
  }

  /** For a text of digits, the rule on separators is the one Go checks. */
  lemma SeparatorsMeanApart(s: string, base: Radix, digits: string)
    requires Spelled(s, base, digits) && AllDigits(digits, base, true) && s != []
    requires SplitPrefix(s) == (base, digits)
    ensures SeparatorsOk(s) <==> Apart(s, false)
  {
    SeparatorsAreApart(digits, base);
    if base == 10 {
      hide AllDigits;
    } else if |s| >= 3 && s[2..] == digits && (Is(s[1], 'b', 'B') || Is(s[1], 'o', 'O') || Is(s[1], 'x', 'X')) {
      ApartTail(s);
      ApartTail(s[1..]);
      assert s[1..][1..] == digits;
      hide AllDigits, Apart, SeparatorsFrom;
    } else {
      assert s[1..] == digits;
      if digits != [] {
        DigitOfIs(digits[0], base);
        assert IsDigit(digits[0], base) || digits[0] == '_';
        assert s[1] == digits[0];
      }
      ApartTail(s);
      hide AllDigits, Apart, IsDigit;
    }
  }

  lemma ApartWithout(s: string)
    requires '_' !in s
    ensures Apart(s, false)
  {
  }

  lemma SeparatorInDigits(s: string, base: Radix, digits: string)
    requires Spelled(s, base, digits)
    ensures '_' in digits <==> '_' in s
  {
    if '_' in s {
      var i :| 0 <= i < |s| && s[i] == '_';
      if digits != s {
        assert i >= |s| - |digits|;
        assert digits[i - (|s| - |digits|)] == '_';
      }
    }
    if '_' in digits {
      var i :| 0 <= i < |digits| && digits[i] == '_';
      assert s[|s| - |digits| + i] == '_';
    }
  }

  /** ParseUint reads exactly the texts that denote a number that fits, as that number. */
  lemma ParseUintIff(s: string, anyBase: bool, bits: BitSize, n: nat)
    ensures ParseUint(s, anyBase, bits) == Some(n) <==> Denotes(s, anyBase, bits, n)
  {
    FitsIff(n, bits);
    if s != [] && !anyBase {
      ScanIsPositional(s, 10, false, MaxUnsigned(bits));
      hide ScanDigits, AllDigits, Positional, Pow2;
    } else if s != [] {
      AnyBaseIff(s, bits, n);
      hide ParseUint, Pow2;
    } else {
      forall base: Radix, digits ensures !Spelled(s, base, digits) {
      }
      hide Pow2;
    }
  }

  lemma AnyBaseIff(s: string, bits: BitSize, n: nat)
    requires s != []
    ensures ParseUint(s, true, bits) == Some(n) <==>
            && n <= MaxUnsigned(bits)
            && exists base: Radix, digits :: Spelling(s, base, digits) && n == Positional(digits, base)
  {
    PrefixIsSpelled(s);
    var (b, digits) := SplitPrefix(s);
    var base: Radix := b;
    ScanIsPositional(digits, base, true, MaxUnsigned(bits));
    SeparatorInDigits(s, base, digits);
    if AllDigits(digits, base, true) {
      SeparatorsMeanApart(s, base, digits);
    }
    if '_' !in s {
      ApartWithout(s);
    }
    forall other: Radix, ds | Spelling(s, other, ds) ensures other == base && ds == digits {
      OnlySpelling(s, other, ds);
    }
    assert ParseUint(s, true, bits) == Some(n) <==>
           Spelling(s, base, digits) && n == Positional(digits, base) && n <= MaxUnsigned(bits) by {
      hide ScanDigits, AllDigits, Positional, SeparatorsOk, Apart, SplitPrefix;
    }
  }

  /** ParseInt reads an optional sign and a number, within the signed range. */
  lemma ParseIntIff(s: string, anyBase: bool, bits: BitSize, v: int)
    ensures ParseInt(s, anyBase, bits) == Some(v) <==>
            && 0 - Pow2(bits - 1) <= v < Pow2(bits - 1)
            && s != []
            && if s[0] == '-' then v <= 0 && Denotes(s[1..], anyBase, bits, -v)
               else v >= 0 && Denotes(if s[0] == '+' then s[1..] else s, anyBase, bits, v)
  {
    hide Pow2, Denotes, ParseUint;
    FitsIff(v, bits);
    CutoffFits(bits);
    hide SignCutoff, MaxUnsigned;
    if s != [] {
      var digits := if s[0] == '-' || s[0] == '+' then s[1..] else s;
      var n := ParseUint(digits, anyBase, bits);
      if v >= 0 {
        ParseUintIff(digits, anyBase, bits, v);
      }
      if v <= 0 {
        ParseUintIff(digits, anyBase, bits, -v);
      }
    }
  }
}
