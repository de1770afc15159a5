/**
  The sink as an object: Write, and the body of the background loop with the
  collect loop of flushRemaining. Each method is tied to the protocol: a call
  that no other goroutine interrupts is a run of LokiProtocol.Step, so what is
  proved about runs holds of the object's state.
 */
module LokiWriter {
  import opened Base
  import opened LokiProtocol

  class Writer {
    var ch: seq<Entry>
    var batch: seq<Entry>
    var loop: Loop
    var cancelled: bool
    var drains: map<Ack, Drain>
    var closed: map<Ack, nat>
    ghost var accepted: seq<Entry>
    ghost var posted: seq<seq<Entry>>
    ghost var began: map<Ack, nat>
    ghost var received: map<Ack, nat>

    ghost function State(): Sink
      reads this
    {
      Sink(ch, batch, loop, cancelled, drains, closed, accepted, posted, began, received)
    }

    constructor ()
      ensures State() == START && Inv(State())
    {
      ch, batch, loop, cancelled, drains, closed := [], [], Selecting, false, map[], map[];
      accepted, posted, began, received := [], [], map[], map[];
    }

    /** Non-blocking: a full channel drops the entry, and the call still reports len(p). */
    method Write(entry: Entry) returns (n: nat)
      requires Inv(State())
      modifies this`ch, this`accepted
      ensures n == |entry.line|
      ensures Inv(State())
      ensures Step(old(State()), Event.Write(entry)) == Some(State())
      ensures |old(ch)| < 256 ==> ch == old(ch) + [entry] && accepted == old(accepted) + [entry]
      ensures |old(ch)| == 256 ==> ch == old(ch) && accepted == old(accepted)
    {
      StepConserves(State(), Event.Write(entry));
      StepKeepsAcks(State(), Event.Write(entry));
      if |ch| < CHANNEL_CAP {
        ch := ch + [entry];
        accepted := accepted + [entry];
      }
      n := |entry.line|;
    }

    /** Hands the batch over and reuses its storage. */
    method PostBatch()
      requires batch != []
      modifies this`batch, this`posted
      ensures batch == [] && posted == old(posted) + [old(batch)]
      ensures State() == Post(old(State()))
    {
      posted := posted + [batch];
      batch := [];
    }

    /** flushRemaining: take whatever is buffered, then post it as one batch. */
    method FlushRemaining()
      requires Conserves(State()) && (loop.Collecting? || loop.FinalCollecting?)
      modifies this`ch, this`batch, this`posted
      ensures posted == if old(batch + ch) == [] then old(posted) else old(posted) + [old(batch + ch)]
      ensures State() == Flushed(old(State()))
      ensures batch == [] && ch == [] && Delivered(State()) == accepted
    {
      ghost var s := State();
      FlushRuns(s);
      hide Run, Flat, Conserves, FlushSteps, Delivered;
      while ch != []
        invariant batch + ch == s.batch + s.ch
        invariant State() == s.(batch := batch, ch := ch)
        decreases |ch|
      {
        MoveOne(batch, ch);
        batch := batch + [ch[0]];
        ch := ch[1..];
      }
      NothingLeft(batch, ch);
      if batch == [] {
        return;
      }
      PostBatch();
    }

    /** The select case for an entry: post when the batch is full. */
    method OnEntry()
      requires Inv(State()) && loop == Selecting && ch != []
      modifies this`ch, this`batch, this`posted
      ensures ch == old(ch)[1..]
      ensures if |old(batch)| + 1 < 100 then batch == old(batch) + [old(ch)[0]] && posted == old(posted)
              else batch == [] && posted == old(posted) + [old(batch) + [old(ch)[0]]]
      ensures Step(old(State()), Receive) == Some(State())
      ensures Inv(State())
    {
      StepConserves(State(), Receive);
      StepKeepsAcks(State(), Receive);
      hide Inv;
      batch := batch + [ch[0]];
      ch := ch[1..];
      if |batch| >= BATCH_SIZE {
        PostBatch();
      }
    }

    /** The select case for the ticker. */
    method OnTick()
      requires Inv(State()) && loop == Selecting
      modifies this`batch, this`posted
      ensures batch == [] && posted == if old(batch) == [] then old(posted) else old(posted) + [old(batch)]
      ensures Step(old(State()), Tick) == Some(State())
      ensures Inv(State())
    {
      StepConserves(State(), Tick);
      StepKeepsAcks(State(), Tick);
      hide Inv;
      if batch != [] {
        PostBatch();
      }
    }

    /** The select case for a flush request: flush, then close its ack. */
    method OnFlushRequest(a: Ack)
      requires Inv(State()) && loop == Selecting && a in drains && drains[a] == Offering
      modifies this
      ensures posted == if old(batch + ch) == [] then old(posted) else old(posted) + [old(batch + ch)]
      ensures a !in old(closed) && closed == old(closed)[a := 1]
      ensures Run(old(State()), old(RequestEvents(State(), a))) == Some(State())
      ensures Inv(State())
      ensures loop == Selecting && a in closed && Delivered(State()) == accepted == old(accepted)
    {
      hide Run, Inv, Step, Conserves, Flushed, Delivered, AcksOnce, AcksCover, Flat, Times, RequestEvents;
      ghost var s := State();
      RequestKeeps(s, a);
      drains, received, loop := drains[a := Waiting], received[a := |accepted|], Collecting(a);
      FlushRemaining();
      DeliveredFrom(State(), posted);
      loop := Selecting;
      closed := closed[a := Times(closed, a) + 1];
      DeliveredFrom(State(), posted);
    }

    /** The select case for a done context: flush and return. */
    method OnCancel()
      requires Inv(State()) && loop == Selecting && cancelled
      modifies this
      ensures posted == if old(batch + ch) == [] then old(posted) else old(posted) + [old(batch + ch)]
      ensures Run(old(State()), old(CancelEvents(State()))) == Some(State())
      ensures Inv(State())
      ensures loop == Stopped && ch == [] && Delivered(State()) == accepted == old(accepted)
    {
      hide Run;
      hide AcksOnce;
      hide AcksCover;
      hide Flat;
      ghost var s := State();
      StepConserves(s, ObserveCancel);
      PassCancel(s);
      loop := FinalCollecting;
      FlushRemaining();
      loop := Stopped;
      RunKeepsInvariant(s, CancelEvents(s));
    }
  }

  lemma MoveOne(batch: seq<Entry>, ch: seq<Entry>)
    requires ch != []
    ensures batch + [ch[0]] + ch[1..] == batch + ch
  {
  }

  lemma NothingLeft(batch: seq<Entry>, ch: seq<Entry>)
    requires ch == []
    ensures batch + ch == batch
  {
  }

  /** What serving a flush request does when nothing interrupts it. */
  function RequestEvents(s: Sink, a: Ack): seq<Event> {
    [Accept(a)] + FlushSteps(s.(loop := Collecting(a))) + [CloseAck]
  }

  function CancelEvents(s: Sink): seq<Event> {
    [ObserveCancel] + FlushSteps(s.(loop := FinalCollecting))
  }

  lemma RunOne(s: Sink, ev: Event)
    ensures Run(s, [ev]) == Step(s, ev)
  {
    if Step(s, ev).Some? {
      assert Run(Step(s, ev).value, []) == Step(s, ev);
    }
  }

  lemma DeliveredFrom(s: Sink, posted: seq<seq<Entry>>)
    requires s.posted == posted
    ensures Delivered(s) == Flat(posted)
  {
  }

  /** A flush request served: the states it passes, and that they keep the invariant. */
  lemma RequestKeeps(s: Sink, a: Ack)
    requires Inv(s) && s.loop == Selecting && a in s.drains && s.drains[a] == Offering
    ensures a !in s.closed && Times(s.closed, a) == 0
    ensures var t := s.(drains := s.drains[a := Waiting], received := s.received[a := |s.accepted|],
                        loop := Collecting(a));
            var u := Flushed(t);
            var v := u.(loop := Selecting, closed := u.closed[a := Times(u.closed, a) + 1]);
            && Conserves(t) && Run(s, RequestEvents(s, a)) == Some(v) && Inv(v)
            && u.closed == s.closed && u.accepted == s.accepted
  {
    StepConserves(s, Accept(a));
    PassAccept(s, a);
    hide Run, AcksOnce, AcksCover, Flat;
    RunKeepsInvariant(s, RequestEvents(s, a));
  }

  /** An uninterrupted flush request: receive it, flush, close its ack. */
  lemma PassAccept(s: Sink, a: Ack)
    requires Step(s, Accept(a)).Some?
    ensures var t := Step(s, Accept(a)).value;
            var u := Flushed(t).(loop := Acking(a));
            Run(s, RequestEvents(s, a)) == Step(u, CloseAck)
  {
    var t := Step(s, Accept(a)).value;
    var flush := FlushSteps(t);
    FlushRuns(t);
    RunOne(s, Accept(a));
    RunConcat(s, [Accept(a)], flush);
    RunConcat(s, [Accept(a)] + flush, [CloseAck]);
    RunOne(Flushed(t).(loop := Acking(a)), CloseAck);
  }

  lemma PassCancel(s: Sink)
    requires Step(s, ObserveCancel).Some?
    ensures var t := Step(s, ObserveCancel).value;
            Run(s, CancelEvents(s)) ==
            Some(Flushed(t).(loop := Stopped))
  {
    var t := Step(s, ObserveCancel).value;
    FlushRuns(t);
    RunOne(s, ObserveCancel);
    RunConcat(s, [ObserveCancel], FlushSteps(t));
  }
}
