/**
  The scanner of the prompt template engine, with its jump over rejected spans.
  Templates are byte strings. A multi-byte or invalid rune is never a name rune,
  so the rune test of the program is a byte test here.
 */
module Template {

  newtype Byte = b: int | 0 <= b < 0x100

  type Bytes = seq<Byte>

  const OPEN: Byte := 0x7B   // '{'
  const CLOSE: Byte := 0x7D  // '}'

  /** One accepted span [start, end) of the form "{{name}}". */
  datatype Placeholder = Placeholder(start: nat, end: nat, name: Bytes)

  /** Letters, digits, "_", "." and "-", byte by byte. */
  predicate IsNameByte(b: Byte): (r: bool)
    ensures r <==> b as int in {
      45, 46, 48, 49, 50, 51, 52, 53, 54, 55, 56, 57,
      65, 66, 67, 68, 69, 70, 71, 72, 73, 74, 75, 76, 77, 78, 79, 80, 81, 82, 83, 84, 85, 86, 87, 88, 89, 90, 95,
      97, 98, 99, 100, 101, 102, 103, 104, 105, 106, 107, 108, 109, 110, 111, 112, 113, 114, 115, 116, 117, 118,
      119, 120, 121, 122}
  {
    || 0x61 <= b <= 0x7A  // a-z
    || 0x41 <= b <= 0x5A  // A-Z
    || 0x30 <= b <= 0x39  // 0-9
    || b == 0x5F || b == 0x2E || b == 0x2D
  }

  predicate ValidName(s: Bytes) {
    s != [] && forall i :: 0 <= i < |s| ==> IsNameByte(s[i])
  }

  /** Two equal delimiter bytes stand at i. */
  predicate PairAt(t: Bytes, i: int, b: Byte) {
    0 <= i && i + 2 <= |t| && t[i] == b && t[i + 1] == b
  }

  /** strings.Index of a doubled byte, from an offset: the first hit, or -1. */
  function FindPair(t: Bytes, from: nat, b: Byte): (r: int)
    requires from <= |t|
    ensures r >= -1
    ensures r == -1 ==> forall i :: from <= i ==> !PairAt(t, i, b)
    ensures r != -1 ==> from <= r && PairAt(t, r, b)
    ensures r != -1 ==> forall i :: from <= i < r ==> !PairAt(t, i, b)
    decreases |t| - from
  {
    if from + 2 > |t| then -1
    else if PairAt(t, from, b) then from
    else FindPair(t, from + 1, b)
  }

  /** Bytes a left-to-right search reads before it can answer. */
  function SearchCost(t: Bytes, from: nat, found: int): nat
    requires from <= |t| && (found == -1 || from <= found)
  {
    if found == -1 then |t| - from else found + 2 - from
  }

  // ---------------------------------------------------------------------
  // What a placeholder is, with no scanning in the definition
  // ---------------------------------------------------------------------

  /** The length of the run of opening braces that ends just before p. */
  function BracesBefore(t: Bytes, p: nat): nat
    requires p <= |t|
  {
    if p == 0 || t[p - 1] != OPEN then 0 else 1 + BracesBefore(t, p - 1)
  }

  /**
    [i, j) is a placeholder: it reads "{{name}}" and the braces before it pair
    off among themselves, so "{{{x}}}" holds none and "{{{{x}}" holds one.
   */
  predicate IsPlaceholder(t: Bytes, i: nat, j: nat) {
    && i + 5 <= j <= |t|
    && PairAt(t, i, 0x7B)
    && PairAt(t, j - 2, 0x7D)
    && ValidName(t[i + 2..j - 2])
    && BracesBefore(t, i) % 2 == 0
  }

  // ---------------------------------------------------------------------
  // The plain scanner: resume two bytes after every rejected "{{"
  // ---------------------------------------------------------------------

  /** The next "{{" from pos and the first "}}" after it, when both exist. */
  datatype Hit = Miss | Hit(open: nat, close: nat)

  function NextHit(t: Bytes, pos: nat): (h: Hit)
    requires pos <= |t|
    ensures h.Hit? ==> pos <= h.open && h.open + 2 <= h.close && h.close + 2 <= |t|
  {
    var open := FindPair(t, pos, OPEN);
    if open == -1 then Miss else
    var close := FindPair(t, open + 2, CLOSE);
    if close == -1 then Miss else Hit(open, close)
  }

  function NaiveScan(t: Bytes, pos: nat): seq<Placeholder>
    requires pos <= |t|
    decreases |t| - pos
  {
    match NextHit(t, pos)
    case Miss => []
    case Hit(open, close) =>
      if ValidName(t[open + 2..close]) then
        [Placeholder(open, close + 2, t[open + 2..close])] + NaiveScan(t, close + 2)
      else
        NaiveScan(t, open + 2)
  }

  /** One step of the plain scanner, for proofs that hide the rest of it. */
  lemma NaiveStep(t: Bytes, pos: nat)
    requires pos <= |t|
    ensures var h := NextHit(t, pos);
            NaiveScan(t, pos) ==
            if h.Miss? then []
            else if ValidName(t[h.open + 2..h.close]) then
              [Placeholder(h.open, h.close + 2, t[h.open + 2..h.close])] + NaiveScan(t, h.close + 2)
            else NaiveScan(t, h.open + 2)
  {
  }

  /** Spans in order, disjoint, each reading "{{name}}" with a valid name. */
  predicate Ordered(t: Bytes, from: nat, spans: seq<Placeholder>)
    decreases |spans|
  {
    if spans == [] then from <= |t| else
      var s := spans[0];
      && from <= s.start && s.start + 5 <= s.end <= |t|
      && t[s.start..s.end] == Source(s.name)
      && ValidName(s.name)
      && Ordered(t, s.end, spans[1..])
  }

  /** The text "{{name}}". */
  function Source(name: Bytes): Bytes {
    [OPEN, OPEN] + name + [CLOSE, CLOSE]
  }

  lemma ReadsItsName(t: Bytes, open: nat, close: nat)
    requires PairAt(t, open, OPEN) && PairAt(t, close, CLOSE) && open + 2 <= close
    ensures t[open..close + 2] == Source(t[open + 2..close])
  {
  }

  lemma {:induction false} NaiveScanOrdered(t: Bytes, pos: nat)
    requires pos <= |t|
    ensures Ordered(t, pos, NaiveScan(t, pos))
    decreases |t| - pos
  {
    hide NaiveScan;
    NaiveStep(t, pos);
    match NextHit(t, pos)
    case Miss =>
    case Hit(open, close) =>
      if ValidName(t[open + 2..close]) {
        NaiveScanOrdered(t, close + 2);
        ReadsItsName(t, open, close);
      } else {
        NaiveScanOrdered(t, open + 2);
        OrderedWeaken(t, pos, open + 2, NaiveScan(t, open + 2));
      }
  }

  lemma OrderedWeaken(t: Bytes, low: nat, from: nat, spans: seq<Placeholder>)
    requires low <= from && Ordered(t, from, spans)
    ensures Ordered(t, low, spans)
  {
  }

  /** Reaching p with an even run of braces before it is what the scan keeps. */
  lemma OpenKeepsParity(t: Bytes, pos: nat, open: int)
    requires pos <= |t| && BracesBefore(t, pos) % 2 == 0
    requires open == FindPair(t, pos, OPEN) != -1
    ensures BracesBefore(t, open) % 2 == 0
    ensures BracesBefore(t, open + 1) % 2 == 1
    ensures BracesBefore(t, open + 2) % 2 == 0
  {
    if open > pos {
      assert !PairAt(t, open - 1, OPEN);
    }
  }

  lemma NameBytes(t: Bytes, a: nat, b: nat)
    requires a <= b <= |t| && ValidName(t[a..b])
    ensures a < b && forall k :: a <= k < b ==> IsNameByte(t[k])
  {
    forall k | a <= k < b ensures IsNameByte(t[k]) {
      assert t[k] == t[a..b][k - a];
    }
  }

  /** From an even position, "{{name}}" can begin only where the scan stops next. */
  lemma NextPlaceholder(t: Bytes, pos: nat, i: nat, j: nat)
    requires pos <= i && pos <= |t| && BracesBefore(t, pos) % 2 == 0
    requires IsPlaceholder(t, i, j)
    ensures var h := NextHit(t, pos);
            && h.Hit? && h.open <= i
            && (i < h.open + 2 ==> i == h.open && j == h.close + 2)
  {
    var open := FindPair(t, pos, OPEN);
    OpenKeepsParity(t, pos, open);
    NameBytes(t, i + 2, j - 2);
    assert PairAt(t, j - 2, CLOSE);
  }

  /** No placeholder begins inside an accepted one. */
  lemma NoneInside(t: Bytes, open: nat, close: nat, i: nat, j: nat)
    requires open + 2 <= close && PairAt(t, close, CLOSE)
    requires ValidName(t[open + 2..close])
    requires open < i < close + 2
    ensures !IsPlaceholder(t, i, j)
  {
    NameBytes(t, open + 2, close);
  }

  predicate Visits(spans: seq<Placeholder>, i: nat, j: nat) {
    exists p :: p in spans && p.start == i && p.end == j
  }

  lemma VisitsCons(p: Placeholder, rest: seq<Placeholder>, i: nat, j: nat)
    ensures Visits([p] + rest, i, j) <==> (p.start == i && p.end == j) || Visits(rest, i, j)
  {
    assert p in [p] + rest;
    assert forall q :: q in rest ==> q in [p] + rest;
  }

  /**
    The plain scanner finds every placeholder and nothing else: from a position
    with paired braces before it, [i, j) is visited exactly when it is a
    placeholder.
   */
  lemma {:induction false} NaiveScanExact(t: Bytes, pos: nat, i: nat, j: nat)
    requires pos <= |t| && BracesBefore(t, pos) % 2 == 0
    requires pos <= i
    ensures Visits(NaiveScan(t, pos), i, j) <==> IsPlaceholder(t, i, j)
    decreases |t| - pos
  {
    hide NaiveScan;
    NaiveStep(t, pos);
    if IsPlaceholder(t, i, j) {
      NextPlaceholder(t, pos, i, j);
    }
    match NextHit(t, pos)
    case Miss =>
    case Hit(open, close) =>
      OpenKeepsParity(t, pos, open);
      if ValidName(t[open + 2..close]) {
        ExactAtHit(t, pos, i, j);
      } else {
        NoneBefore(t, open + 2, i, j);
        if i >= open + 2 {
          NaiveScanExact(t, open + 2, i, j);
        }
      }
  }

  lemma {:induction false} ExactAtHit(t: Bytes, pos: nat, i: nat, j: nat)
    requires pos <= |t| && BracesBefore(t, pos) % 2 == 0
    requires pos <= i
    requires IsPlaceholder(t, i, j) ==> NextHit(t, pos).Hit? && NextHit(t, pos).open <= i
    requires var h := NextHit(t, pos); h.Hit? && ValidName(t[h.open + 2..h.close])
    ensures Visits(NaiveScan(t, pos), i, j) <==> IsPlaceholder(t, i, j)
    decreases |t| - pos, 0
  {
    hide NaiveScan;
    NaiveStep(t, pos);
    var Hit(open, close) := NextHit(t, pos);
    OpenKeepsParity(t, pos, open);
    VisitsCons(Placeholder(open, close + 2, t[open + 2..close]), NaiveScan(t, close + 2), i, j);
    NoneBefore(t, close + 2, i, j);
    NameBytes(t, open + 2, close);
    if i >= close + 2 {
      NaiveScanExact(t, close + 2, i, j);
    } else if i == open {
      if IsPlaceholder(t, i, j) {
        NextPlaceholder(t, pos, i, j);
      }
    } else if i > open {
      NoneInside(t, open, close, i, j);
    }
  }

  lemma NoneBefore(t: Bytes, from: nat, i: nat, j: nat)
    requires from <= |t|
    ensures i < from ==> !Visits(NaiveScan(t, from), i, j)
  {
    NaiveScanOrdered(t, from);
    OrderedStarts(t, from, NaiveScan(t, from));
  }

  lemma {:induction false} OrderedStarts(t: Bytes, from: nat, spans: seq<Placeholder>)
    requires Ordered(t, from, spans)
    ensures forall p :: p in spans ==> from <= p.start
    decreases |spans|
  {
    if spans != [] {
      OrderedStarts(t, spans[0].end, spans[1..]);
      assert spans == [spans[0]] + spans[1..];
    }
  }

  // ---------------------------------------------------------------------
  // The jump
  // ---------------------------------------------------------------------

  /** The last "{{" of span that a scan resuming two bytes after each reaches. */
  function LastOpen(span: Bytes, i: nat): (last: int)
    requires i <= |span|
    ensures last == -1 || (i <= last && PairAt(span, last, OPEN))
    decreases |span| - i
  {
    var j := FindPair(span, i, OPEN);
    if j == -1 then -1 else
    var later := LastOpen(span, j + 2);
    if later == -1 then j else later
  }

  /** Nothing reachable follows the last reachable "{{". */
  lemma {:induction false} LastOpenIsLast(span: Bytes, i: nat)
    requires i <= |span| && LastOpen(span, i) != -1
    ensures LastOpen(span, LastOpen(span, i) + 2) == -1
    decreases |span| - i
  {
    var j := FindPair(span, i, OPEN);
    if LastOpen(span, j + 2) != -1 {
      LastOpenIsLast(span, j + 2);
    }
  }

  /** Searching a span and searching the template from the span agree. */
  lemma SpanSearch(t: Bytes, body: nat, close: nat, i: nat)
    requires body <= close <= |t| && PairAt(t, close, CLOSE)
    requires i <= close - body
    ensures var inSpan := FindPair(t[body..close], i, OPEN);
            var inText := FindPair(t, body + i, OPEN);
            if inSpan == -1 then inText == -1 || inText >= close + 2
            else inText == body + inSpan && inText + 2 <= close
  {
    var span := t[body..close];
    var inText := FindPair(t, body + i, OPEN);
    forall k | i <= k
      ensures PairAt(span, k, OPEN) <==> PairAt(t, body + k, OPEN) && body + k + 2 <= close
    {
    }
    if inText != -1 && inText < close + 2 {
      assert inText + 2 <= close;
      assert PairAt(span, inText - body, OPEN);
    }
    var inSpan := FindPair(span, i, OPEN);
    if inSpan != -1 {
      assert PairAt(t, body + inSpan, OPEN);
    }
  }

  /**
    Jumping to the last reachable "{{" of a rejected span changes nothing: every
    "{{" skipped pairs with the same "}}" and encloses another "{{".
   */
  lemma {:induction false} JumpKeepsScan(t: Bytes, body: nat, close: nat, i: nat)
    requires body <= |t| && close == FindPair(t, body, CLOSE)
    requires i <= close - body
    requires LastOpen(t[body..close], i) != -1
    ensures NaiveScan(t, body + i) == NaiveScan(t, body + LastOpen(t[body..close], i))
    decreases close - body - i
  {
    hide NaiveScan;
    var span := t[body..close];
    var j := FindPair(span, i, OPEN);
    SkipToOpen(t, body, close, i);
    if LastOpen(span, j + 2) != -1 {
      SkipPastOpen(t, body, close, j);
      JumpKeepsScan(t, body, close, j + 2);
    }
  }

  lemma SameHit(t: Bytes, body: nat, close: nat, i: nat)
    requires body <= |t| && close == FindPair(t, body, CLOSE)
    requires i <= close - body
    requires FindPair(t[body..close], i, OPEN) != -1
    ensures var j := FindPair(t[body..close], i, OPEN);
            && i <= j && j + 2 <= close - body <= |t| - body
            && NextHit(t, body + i) == NextHit(t, body + j) == Hit(body + j, close)
  {
    var j := FindPair(t[body..close], i, OPEN);
    SpanSearch(t, body, close, i);
    SpanSearch(t, body, close, j);
  }

  /** The scan from i stands where it stands from its next "{{". */
  lemma SkipToOpen(t: Bytes, body: nat, close: nat, i: nat)
    requires body <= |t| && close == FindPair(t, body, CLOSE)
    requires i <= close - body
    requires FindPair(t[body..close], i, OPEN) != -1
    ensures var j := FindPair(t[body..close], i, OPEN);
            && NaiveScan(t, body + i) == NaiveScan(t, body + j)
            && NextHit(t, body + j) == Hit(body + j, close)
  {
    hide NaiveScan, ValidName, FindPair;
    var j := FindPair(t[body..close], i, OPEN);
    SameHit(t, body, close, i);
    hide NextHit;
    NaiveStep(t, body + i);
    NaiveStep(t, body + j);
  }

  /** A "{{" with another one before its "}}" is rejected, so the scan moves past it. */
  lemma SkipPastOpen(t: Bytes, body: nat, close: nat, j: nat)
    requires body <= close <= |t| && j + 2 <= close - body
    requires NextHit(t, body + j) == Hit(body + j, close)
    requires LastOpen(t[body..close], j + 2) != -1
    ensures NaiveScan(t, body + j) == NaiveScan(t, body + j + 2)
  {
    hide NaiveScan, LastOpen, ValidName, NextHit, FindPair;
    NaiveStep(t, body + j);
    InnerOpenSpoilsName(t, body, close, j);
  }

  lemma InnerOpenSpoilsName(t: Bytes, body: nat, close: nat, j: nat)
    requires body <= close <= |t| && j + 2 <= close - body
    requires LastOpen(t[body..close], j + 2) != -1
    ensures !ValidName(t[body + j + 2..close])
  {
    var span := t[body..close];
    var later := LastOpen(span, j + 2);
    hide LastOpen;
    assert t[body + j + 2..close][later - (j + 2)] == OPEN;
  }

  method CheckName(span: Bytes) returns (ok: bool, read: nat)
    ensures ok <==> span != [] && forall i :: 0 <= i < |span| ==> IsNameByte(span[i])
    ensures ok == ValidName(span)
    ensures read <= |span| && (ok ==> read == |span|)
    ensures !ok && span != [] ==> 0 < read && !IsNameByte(span[read - 1])
    ensures forall i :: 0 <= i < read - 1 ==> IsNameByte(span[i])
  {
    read := 0;
    if span == [] {
      return false, 0;
    }
    while read < |span|
      invariant read <= |span|
      invariant forall i :: 0 <= i < read ==> IsNameByte(span[i])
    {
      read := read + 1;
      if !IsNameByte(span[read - 1]) {
        return false, read;
      }
    }
    ok := true;
  }

  method LastReachableOpen(span: Bytes) returns (last: int, read: nat)
    ensures last == LastOpen(span, 0)
    ensures read == |span|
  {
    last, read := -1, 0;
    var i := 0;
    while true
      invariant 0 <= i <= |span|
      invariant read == i
      invariant LastOpen(span, 0) == if LastOpen(span, i) == -1 then last else LastOpen(span, i)
      decreases |span| - i
    {
      var j := FindPair(span, i, OPEN);
      read := read + SearchCost(span, i, j);
      if j == -1 {
        return;
      }
      last := j;
      i := last + 2;
    }
  }

  /**
    What the loop knows about the work already paid for. Before a jump, all
    spans closed so far end at or before done, where the next "{{" lies or
    after. After a jump, the scan stands on the last reachable "{{" of a span
    that closes at close, and that span has been read once.
   */
  ghost predicate Ledger(t: Bytes, pos: nat, done: nat, jumpedTo: int, bodyRead: nat)
    requires pos <= |t|
  {
    && done <= |t|
    && (jumpedTo == -1 ==>
          && (FindPair(t, pos, OPEN) == -1 || FindPair(t, pos, OPEN) >= done)
          && bodyRead <= 6 * done)
    && (jumpedTo != -1 ==>
          && Jumped(t, pos, jumpedTo)
          && done <= pos && bodyRead <= 3 * done + 3 * (jumpedTo + 2))
  }

  ghost predicate Jumped(t: Bytes, pos: nat, close: int) {
    && pos + 2 <= close
    && PairAt(t, pos, OPEN)
    && close == FindPair(t, pos + 2, CLOSE)
    && LastOpen(t[pos + 2..close], 0) == -1
  }

  /** A hit costs at most three reads of its span, and only one jump can precede it. */
  lemma HitCost(t: Bytes, pos: nat, done: nat, jumpedTo: int, bodyRead: nat, cost: nat)
    requires pos <= |t| && Ledger(t, pos, done, jumpedTo, bodyRead)
    requires var h := NextHit(t, pos); h.Hit? && cost <= 3 * (h.close + 2 - h.open)
    ensures var h := NextHit(t, pos);
            && done <= h.open
            && bodyRead + cost <= 6 * (h.close + 2)
            && (jumpedTo == -1 ==> bodyRead + cost <= 3 * done + 3 * (h.close + 2))
            && (jumpedTo != -1 ==> LastOpen(t[h.open + 2..h.close], 0) == -1)
  {
    hide LastOpen;
  }

  /** A rejected span with no "{{" inside pushes the next "{{" past its "}}". */
  lemma RejectedClears(t: Bytes, body: nat, close: nat)
    requires body <= |t| && close == FindPair(t, body, CLOSE)
    requires LastOpen(t[body..close], 0) == -1
    ensures FindPair(t, body, OPEN) == -1 || FindPair(t, body, OPEN) >= close + 2
  {
    SpanSearch(t, body, close, 0);
  }

  /** A span reached by a jump, with its enclosing span, holds no further "{{". */
  lemma JumpLands(t: Bytes, body: nat, close: nat)
    requires body <= |t| && close == FindPair(t, body, CLOSE)
    requires LastOpen(t[body..close], 0) != -1
    ensures Jumped(t, body + LastOpen(t[body..close], 0), close)
  {
    var span := t[body..close];
    var last := LastOpen(span, 0);
    LastOpenIsLast(span, 0);
    var pos := body + last;
    SpanSearch(t, body, close, last);
    assert FindPair(span, last + 2, OPEN) == -1;
    SpanSearch(t, body, close, last + 2);
    SpanSearch(t, pos + 2, close, 0);
  }

  lemma StartLedger(t: Bytes)
    ensures Ledger(t, 0, 0, -1, 0)
  {
  }

  /** The ledger after a visit, after a rejected span without "{{", and after a jump. */
  lemma LedgerMoves(t: Bytes, pos: nat, done: nat, jumpedTo: int, bodyRead: nat, open: nat, close: nat, cost: nat)
    requires pos <= |t| && Ledger(t, pos, done, jumpedTo, bodyRead)
    requires NextHit(t, pos) == Hit(open, close) && cost <= 3 * (close + 2 - open)
    ensures bodyRead + cost <= 6 * (close + 2) <= 6 * |t|
    ensures Ledger(t, close + 2, close + 2, -1, bodyRead + cost)
    ensures LastOpen(t[open + 2..close], 0) == -1 ==> Ledger(t, open + 2, close + 2, -1, bodyRead + cost)
    ensures var last := LastOpen(t[open + 2..close], 0);
            last != -1 ==> open + 2 + last <= |t| && Ledger(t, open + 2 + last, done, close, bodyRead + cost)
  {
    HitCost(t, pos, done, jumpedTo, bodyRead, cost);
    if LastOpen(t[open + 2..close], 0) == -1 {
      RejectedClears(t, open + 2, close);
    } else {
      JumpLands(t, open + 2, close);
    }
    hide LastOpen, FindPair;
  }

  /**
    scanPlaceholders. The visits are those of the plain scanner, and the bytes
    read by both delimiter searches, the name check and the search for the jump
    target stay within eight times the template length.
   */
  method ScanPlaceholders(t: Bytes) returns (visits: seq<Placeholder>, read: nat)
    ensures visits == NaiveScan(t, 0)
    ensures read <= 8 * |t|
  {
    StartLedger(t);
    hide NaiveScan, LastOpen, Ledger, ValidName, FindPair;
    visits, read := [], 0;
    var pos := 0;
    ghost var done: nat, jumpedTo: int, bodyRead: nat := 0, -1, 0;
    while true
      invariant 0 <= pos <= |t|
      invariant visits + NaiveScan(t, pos) == NaiveScan(t, 0)
      invariant Ledger(t, pos, done, jumpedTo, bodyRead)
      invariant read <= pos + bodyRead && bodyRead <= 6 * |t|
      decreases |t| - pos
    {
      NaiveStep(t, pos);
      var open := FindPair(t, pos, OPEN);
      read := read + SearchCost(t, pos, open);
      if open == -1 {
        return;
      }
      var bodyStart := open + 2;
      var close := FindPair(t, bodyStart, CLOSE);
      read := read + SearchCost(t, bodyStart, close);
      if close == -1 {
        return;
      }
      var span := t[bodyStart..close];
      var valid, nameRead := CheckName(span);
      read := read + nameRead;
      if valid {
        ghost var cost := close + 2 - bodyStart + nameRead;
        LedgerMoves(t, pos, done, jumpedTo, bodyRead, open, close, cost);
        visits := visits + [Placeholder(open, close + 2, span)];
        pos := close + 2;
        done, jumpedTo, bodyRead := pos, -1, bodyRead + cost;
        continue;
      }
      var last, spanRead := LastReachableOpen(span);
      read := read + spanRead;
      ghost var cost := close + 2 - bodyStart + nameRead + spanRead;
      LedgerMoves(t, pos, done, jumpedTo, bodyRead, open, close, cost);
      bodyRead := bodyRead + cost;
      pos := bodyStart;
      if last >= 0 {
        JumpKeepsScan(t, bodyStart, close, 0);
        pos := pos + last;
        jumpedTo := close;
      } else {
        done, jumpedTo := close + 2, -1;
      }
    }
  }

  /**
    The visits of the scan are the placeholders of the template: all of them,
    only them, in order and without overlap.
   */
  lemma ScanFindsThePlaceholders(t: Bytes)
    ensures Ordered(t, 0, NaiveScan(t, 0))
    ensures forall i: nat, j: nat :: Visits(NaiveScan(t, 0), i, j) <==> IsPlaceholder(t, i, j)
  {
    NaiveScanOrdered(t, 0);
    forall i: nat, j: nat
      ensures Visits(NaiveScan(t, 0), i, j) <==> IsPlaceholder(t, i, j)
    {
      NaiveScanExact(t, 0, i, j);
    }
  }

  // ---------------------------------------------------------------------
  // Why the jump is there
  // ---------------------------------------------------------------------

  /** Bytes the plain scanner reads in its searches for "}}" alone. */
  function NaiveRead(t: Bytes, pos: nat): nat
    requires pos <= |t|
    decreases |t| - pos
  {
    match NextHit(t, pos)
    case Miss => 0
    case Hit(open, close) =>
      SearchCost(t, open + 2, close) +
      NaiveRead(t, if ValidName(t[open + 2..close]) then close + 2 else open + 2)
  }

  function BraceRun(n: nat): Bytes {
    seq(2 * n, _ => OPEN) + [CLOSE, CLOSE]
  }

  lemma BraceRunHit(n: nat, k: nat)
    requires k < n
    ensures NextHit(BraceRun(n), 2 * k) == Hit(2 * k, 2 * n)
    ensures !ValidName(BraceRun(n)[2 * k + 2..2 * n])
  {
    var t := BraceRun(n);
    assert PairAt(t, 2 * k, OPEN) && PairAt(t, 2 * n, CLOSE);
    assert forall i :: 2 * k + 2 <= i < 2 * n ==> !PairAt(t, i, CLOSE);
    var span := t[2 * k + 2..2 * n];
    if span != [] {
      assert span[0] == OPEN;
    }
  }

  lemma BraceRunStep(n: nat, k: nat)
    requires k <= n
    ensures NaiveRead(BraceRun(n), 2 * k) ==
            if k == n then 0 else 2 * (n - k) + NaiveRead(BraceRun(n), 2 * k + 2)
  {
    if k < n {
      BraceRunHit(n, k);
      hide NextHit;
      hide ValidName;
    } else {
      assert FindPair(BraceRun(n), 2 * n, OPEN) == -1;
    }
  }

  /** Without the jump a brace run of n pairs costs n * (n + 1) bytes. */
  lemma {:induction false} BraceRunIsQuadratic(n: nat, k: nat)
    requires k <= n
    ensures NaiveRead(BraceRun(n), 2 * k) == (n - k) * (n - k + 1)
    decreases n - k
  {
    hide *;
    BraceRunStep(n, k);
    if k < n {
      BraceRunIsQuadratic(n, k + 1);
    }
  }
}
