/**
  ReadBounded: a chunked read of at most maxBytes bytes. The reader answers each
  call as it likes within the io.Reader contract; the context is polled once
  before every call.
 */
module ReadBounded {
  import opened Base

  type Byte = bv8

  const CEILING: int := 0x4000_0000
  const CHUNK_SIZE: nat := 32 * 1024

  datatype ReadErr = EOF | Failure(message: string)

  /** What one Read delivers. */
  datatype Chunk = Chunk(data: seq<Byte>, err: Option<ReadErr>)

  /** The answer to the call of this index, at this offset, for a buffer of this size. */
  type Responder = (nat, nat, nat) -> Chunk

  function Answer(respond: Responder, calls: nat, offset: nat, cap: nat): Chunk {
    respond(calls, offset, cap)
  }

  /** io.Reader: never more than the buffer holds. */
  ghost predicate Honest(respond: Responder) {
    forall k, off, cap :: |Answer(respond, k, off, cap).data| <= cap
  }

  /** ctx.Err() at each poll. */
  type Context = nat -> Option<string>

  function Polled(ctx: Context, poll: nat): Option<string> {
    ctx(poll)
  }

  datatype Error =
    | InvalidMaxBytes(max: int) | TooLarge(limit: int) | Canceled(reason: string)
    | SourceFailed(message: string) | NoProgress

  type Outcome = Result<seq<Byte>, Error>

  // ---------------------------------------------------------------------
  // One run
  // ---------------------------------------------------------------------

  /** The slice of the buffer offered to the next Read. */
  function Window(max: nat, have: nat): (cap: nat)
    requires have <= max
    ensures cap <= 32768 && have + cap <= max + 1 && (cap == 32768 || have + cap == max + 1)
  {
    if max + 1 - have < CHUNK_SIZE then max + 1 - have else CHUNK_SIZE
  }

  /** The run from a reader that has served these calls and bytes, with data in hand. */
  function Run(respond: Responder, ctx: Context, max: nat, poll: nat, calls: nat, offset: nat, data: seq<Byte>): Outcome
    requires |data| <= max
    decreases max - |data|
  {
    if Polled(ctx, poll).Some? then Err(Canceled(Polled(ctx, poll).value))
    else
      var chunk := Answer(respond, calls, offset, Window(max, |data|));
      var all := data + chunk.data;
      if |all| > max then Err(TooLarge(max))
      else if chunk.err == Some(EOF) then Ok(all)
      else if chunk.err.Some? then Err(SourceFailed(chunk.err.value.message))
      else if chunk.data == [] then Err(NoProgress)
      else Run(respond, ctx, max, poll + 1, calls + 1, offset + |chunk.data|, all)
  }

  /** One turn of the loop. */
  lemma RunStep(respond: Responder, ctx: Context, max: nat, poll: nat, calls: nat, offset: nat, data: seq<Byte>)
    requires |data| <= max
    ensures var r := Run(respond, ctx, max, poll, calls, offset, data);
            var chunk := Answer(respond, calls, offset, Window(max, |data|));
            var all := data + chunk.data;
            && (Polled(ctx, poll).Some? ==> r == Err(Canceled(Polled(ctx, poll).value)))
            && (Polled(ctx, poll).None? && |all| > max ==> r == Err(TooLarge(max)))
            && (Polled(ctx, poll).None? && |all| <= max && chunk.err == Some(EOF) ==> r == Ok(all))
            && (Polled(ctx, poll).None? && |all| <= max && chunk.err.Some? && chunk.err.value.Failure? ==>
                  r == Err(SourceFailed(chunk.err.value.message)))
            && (Polled(ctx, poll).None? && |all| <= max && chunk.err.None? && chunk.data == [] ==> r == Err(NoProgress))
            && (Polled(ctx, poll).None? && |all| <= max && chunk.err.None? && chunk.data != [] ==>
                  r == Run(respond, ctx, max, poll + 1, calls + 1, offset + |chunk.data|, all))
  {
  }

  class Reader {
    const respond: Responder
    var calls: nat
    var offset: nat

    constructor (respond: Responder)
      ensures this.respond == respond && calls == 0 && offset == 0
    {
      this.respond, this.calls, this.offset := respond, 0, 0;
    }

    /** Fills a prefix of the first cap bytes of the buffer. */
    method Read(buf: array<Byte>, cap: nat) returns (n: nat, err: Option<ReadErr>)
      requires Honest(respond) && cap <= buf.Length
      modifies this, buf
      ensures n <= cap && Chunk(buf[..n], err) == Answer(respond, old(calls), old(offset), cap)
      ensures calls == old(calls) + 1 && offset == old(offset) + n
    {
      var chunk := Answer(respond, calls, offset, cap);
      n, err := |chunk.data|, chunk.err;
      for i := 0 to n
        invariant buf[..i] == chunk.data[..i]
        invariant calls == old(calls) && offset == old(offset)
      {
        buf[i] := chunk.data[i];
      }
      calls, offset := calls + 1, offset + n;
    }
  }

  function Background(): Context {
    (_: nat) => None
  }

  /**
    The bounded read. It never consumes more than maxBytes + 1 bytes, reads
    nothing under an invalid limit, and never leaves the loop by its condition:
    every turn either returns or keeps the data within maxBytes.
   */
  method ReadBounded(ctx: Option<Context>, r: Reader, maxBytes: int) returns (res: Outcome)
    requires Honest(r.respond)
    modifies r
    ensures maxBytes < 0 || maxBytes > 1073741824 ==>
              res == Err(InvalidMaxBytes(maxBytes)) && r.calls == old(r.calls) && r.offset == old(r.offset)
    ensures 0 <= maxBytes <= 1073741824 ==>
              && res == Run(r.respond, if ctx.Some? then ctx.value else Background(), maxBytes, 0,
                            old(r.calls), old(r.offset), [])
              && r.offset - old(r.offset) <= maxBytes + 1
              && (res.Ok? ==> |res.value| <= maxBytes && r.offset - old(r.offset) == |res.value|)
  {
    hide Run;
    if maxBytes < 0 || maxBytes > CEILING {
      return Err(InvalidMaxBytes(maxBytes));
    }
    var poll := if ctx.Some? then ctx.value else Background();
    var limit := maxBytes + 1;
    var data: seq<Byte> := [];
    var buf := new Byte[CHUNK_SIZE];
    var turn: nat := 0;
    while |data| < limit
      invariant |data| <= maxBytes
      invariant r.offset == old(r.offset) + |data|
      invariant Run(r.respond, poll, maxBytes, 0, old(r.calls), old(r.offset), []) ==
                Run(r.respond, poll, maxBytes, turn, r.calls, r.offset, data)
      decreases limit - |data|
    {
      RunStep(r.respond, poll, maxBytes, turn, r.calls, r.offset, data);
      assert data + [] == data;
      var canceled := Polled(poll, turn);
      if canceled.Some? {
        return Err(Canceled(canceled.value));
      }
      var remaining := limit - |data|;
      var window := if remaining < buf.Length then remaining else buf.Length;
      var n, err := r.Read(buf, window);
      if n > 0 {
        data := data + buf[..n];
      }
      if |data| > maxBytes {
        return Err(TooLarge(maxBytes));
      }
      if err == Some(EOF) {
        return Ok(data);
      }
      if err.Some? {
        return Err(SourceFailed(err.value.message));
      }
      if n == 0 {
        return Err(NoProgress);
      }
      turn := turn + 1;
    }
    assert false;
  }

  // ---------------------------------------------------------------------
  // Chunking does not matter
  // ---------------------------------------------------------------------

  /** How a source ends after its content. */
  datatype Ending = Ends | Fails(message: string) | Stalls

  /** The chunk is the next part of the content; the ending comes with the last part or after it. */
  ghost predicate Delivers(c: Chunk, content: seq<Byte>, offset: nat, cap: nat, ending: Ending)
    requires offset <= |content|
  {
    var n := |c.data|;
    && n <= cap && offset + n <= |content| && c.data == content[offset..offset + n]
    && match c.err
       case None => n > 0 || (offset == |content| && ending.Stalls?)
       case Some(EOF) => offset + n == |content| && ending.Ends?
       case Some(Failure(m)) => offset + n == |content| && ending == Fails(m)
  }

  /** However it splits its content into chunks. */
  ghost predicate Streams(respond: Responder, content: seq<Byte>, ending: Ending) {
    forall k: nat, offset: nat, cap: nat ::
      0 < cap && offset <= |content| ==> Delivers(Answer(respond, k, offset, cap), content, offset, cap, ending)
  }

  /** What the content and its ending alone decide. */
  function Decided(content: seq<Byte>, ending: Ending, max: nat): Outcome {
    if |content| > max then Err(TooLarge(max))
    else match ending
      case Ends => Ok(content)
      case Fails(m) => Err(SourceFailed(m))
      case Stalls => Err(NoProgress)
  }

  lemma {:induction false} RunIsDecided(respond: Responder, max: nat, content: seq<Byte>, ending: Ending, poll: nat,
                                        calls: nat, offset: nat)
    requires Streams(respond, content, ending) && offset <= |content| && offset <= max
    ensures Run(respond, Background(), max, poll, calls, offset, content[..offset]) == Decided(content, ending, max)
    decreases max - offset
  {
    var data := content[..offset];
    var c := Answer(respond, calls, offset, Window(max, offset));
    assert Delivers(c, content, offset, Window(max, offset), ending);
    hide Streams, Window;
    var all := data + c.data;
    assert all == content[..offset + |c.data|];
    if |all| <= max && c.err.None? && c.data != [] {
      RunIsDecided(respond, max, content, ending, poll + 1, calls + 1, offset + |c.data|);
    } else if offset + |c.data| == |content| {
      assert all == content;
    }
  }

  /**
    For every chunking of a source, without cancellation, the outcome is decided
    by its content and ending; too much content wins over any ending, even one
    that arrives together with the byte that crosses the limit.
   */
  lemma ChunkingIsIrrelevant(respond: Responder, max: nat, content: seq<Byte>, ending: Ending)
    requires Streams(respond, content, ending)
    ensures Run(respond, Background(), max, 0, 0, 0, []) == Decided(content, ending, max)
  {
    RunIsDecided(respond, max, content, ending, 0, 0, 0);
    assert content[..0] == [];
  }

  /** How often a run that is never cancelled polls its context. */
  function Polls(respond: Responder, max: nat, calls: nat, offset: nat, data: seq<Byte>): (n: nat)
    requires |data| <= max
    ensures 0 < n <= max - |data| + 1
    decreases max - |data|
  {
    var chunk := Answer(respond, calls, offset, Window(max, |data|));
    var all := data + chunk.data;
    if |all| > max || chunk.err.Some? || chunk.data == [] then 1
    else 1 + Polls(respond, max, calls + 1, offset + |chunk.data|, all)
  }

  /** The first poll in this span at which the context is done. */
  ghost predicate FirstDone(ctx: Context, from: nat, to: nat, p: nat) {
    from <= p < to && Polled(ctx, p).Some? && forall q :: from <= q < p ==> Polled(ctx, q).None?
  }

  /**
    Cancellation only cuts a run short, and exactly when the context is done at one
    of the polls that the run would make: the first of them gives the reason.
   */
  lemma {:induction false} CancellationOnlyAborts(respond: Responder, ctx: Context, max: nat, poll: nat, calls: nat,
                                                  offset: nat, data: seq<Byte>)
    requires |data| <= max
    ensures var r := Run(respond, ctx, max, poll, calls, offset, data);
            var end := poll + Polls(respond, max, calls, offset, data);
            && (forall p :: FirstDone(ctx, poll, end, p) ==> r == Err(Canceled(Polled(ctx, p).value)))
            && ((forall p :: poll <= p < end ==> Polled(ctx, p).None?) ==>
                  r == Run(respond, Background(), max, poll, calls, offset, data))
    decreases max - |data|
  {
    RunStep(respond, ctx, max, poll, calls, offset, data);
    RunStep(respond, Background(), max, poll, calls, offset, data);
    var c := Answer(respond, calls, offset, Window(max, |data|));
    var all := data + c.data;
    if |all| <= max && c.err.None? && c.data != [] {
      CancellationOnlyAborts(respond, ctx, max, poll + 1, calls + 1, offset + |c.data|, all);
      assert Polls(respond, max, calls, offset, data) == 1 + Polls(respond, max, calls + 1, offset + |c.data|, all);
    } else {
      assert Polls(respond, max, calls, offset, data) == 1;
    }
    hide Run, Polls, Window;
    if Polled(ctx, poll).None? {
      forall p, end | FirstDone(ctx, poll, end, p) ensures FirstDone(ctx, poll + 1, end, p) {
      }
    }
  }

  /** Raising the limit never changes a successful read. */
  lemma LargerLimitKeepsContent(respond: Responder, max: nat, larger: nat, content: seq<Byte>, ending: Ending)
    requires Streams(respond, content, ending) && max <= larger
    requires Run(respond, Background(), max, 0, 0, 0, []).Ok?
    ensures Run(respond, Background(), max, 0, 0, 0, []) == Ok(content)
    ensures Run(respond, Background(), larger, 0, 0, 0, []) == Ok(content)
  {
    ChunkingIsIrrelevant(respond, max, content, ending);
    ChunkingIsIrrelevant(respond, larger, content, ending);
  }
}
