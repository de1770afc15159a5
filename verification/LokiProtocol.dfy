/**
  The Loki sink as a protocol. Writers, drain callers, the ticker, cancellation
  and the background loop interleave freely; each atomic channel operation or
  select choice is one event. Handing a batch to postBatch is the delivery; the
  HTTP exchange behind it is outside the model.
 */
module LokiProtocol {
  import opened Base

  datatype Entry = Entry(ts: int, line: string)

  /** A drain caller, identified by the ack channel it allocates. */
  type Ack = nat

  const CHANNEL_CAP: nat := 256
  const BATCH_SIZE: nat := 100

  /** Where the background goroutine stands. */
  datatype Loop =
    | Selecting           // at the head of the for-select loop
    | Collecting(ack: Ack)    // flushRemaining for a received flush request
    | Acking(ack: Ack)        // flushRemaining returned, close(ack) is next
    | FinalCollecting     // flushRemaining after cancellation
    | Stopped             // returned, done is closed

  /** Where a Drain call stands. */
  datatype Drain = Offering | Waiting | Returned(acked: bool)

  /**
    ch, batch, loop, cancelled, drains and closed are the program's state.
    accepted, posted, began and received record its history: the entries in
    enqueue order, the batches handed to postBatch, and for each drain how many
    entries had been accepted when the call began and when run received it.
   */
  datatype Sink = Sink(
    ch: seq<Entry>,
    batch: seq<Entry>,
    loop: Loop,
    cancelled: bool,
    drains: map<Ack, Drain>,
    closed: map<Ack, nat>,
    accepted: seq<Entry>,
    posted: seq<seq<Entry>>,
    began: map<Ack, nat>,
    received: map<Ack, nat>)

  const START := Sink([], [], Selecting, false, map[], map[], [], [], map[], map[])

  datatype Event =
    | Write(entry: Entry)     // non-blocking send; dropped when the channel is full
    | Receive                 // select: an entry from the channel
    | Tick                    // select: the ticker
    | Accept(ack: Ack)        // select: rendezvous with an offering drain
    | ObserveCancel           // select: the logger context is done
    | CollectOne              // flushRemaining: one more buffered entry
    | CollectDone             // flushRemaining: channel empty, post what there is
    | CloseAck                // close(ack)
    | Cancel                  // the logger context is cancelled
    | BeginDrain(ack: Ack)    // Drain allocates its ack and offers it
    | DrainSeesAck(ack: Ack)
    | DrainGivesUp(ack: Ack)  // deadline or context
    | DrainSeesStop(ack: Ack)

  predicate LoopEvent(ev: Event) {
    ev.Receive? || ev.Tick? || ev.CollectOne? || ev.CollectDone? || ev.CloseAck?
  }

  /** How often an ack has been closed. */
  function Times(closed: map<Ack, nat>, a: Ack): nat {
    if a in closed then closed[a] else 0
  }

  /** postBatch: an empty batch is never handed over. */
  function Post(s: Sink): (t: Sink)
    ensures t == s.(posted := t.posted, batch := [])
  {
    if s.batch == [] then s else s.(posted := s.posted + [s.batch], batch := [])
  }

  function Take(s: Sink): (t: Sink)
    requires s.ch != []
    ensures t == s.(batch := t.batch, ch := t.ch)
  {
    s.(batch := s.batch + [s.ch[0]], ch := s.ch[1..])
  }

  /** The successor of s under ev, or None where ev is not enabled. */
  function Step(s: Sink, ev: Event): Option<Sink> {
    match ev
    case Write(e) =>
      if |s.ch| < CHANNEL_CAP then Some(s.(ch := s.ch + [e], accepted := s.accepted + [e])) else Some(s)
    case Receive =>
      if s.loop != Selecting || s.ch == [] then None
      else if |Take(s).batch| >= BATCH_SIZE then Some(Post(Take(s)))
      else Some(Take(s))
    case Tick =>
      if s.loop != Selecting then None else Some(Post(s))
    case Accept(a) =>
      if s.loop != Selecting || a !in s.drains || s.drains[a] != Offering then None
      else Some(s.(loop := Collecting(a), drains := s.drains[a := Waiting],
                   received := s.received[a := |s.accepted|]))
    case ObserveCancel =>
      if s.loop != Selecting || !s.cancelled then None else Some(s.(loop := FinalCollecting))
    case CollectOne =>
      if (s.loop.Collecting? || s.loop.FinalCollecting?) && s.ch != [] then Some(Take(s)) else None
    case CollectDone =>
      if s.ch != [] then None
      else if s.loop.Collecting? then Some(Post(s).(loop := Acking(s.loop.ack)))
      else if s.loop.FinalCollecting? then Some(Post(s).(loop := Stopped))
      else None
    case CloseAck =>
      if !s.loop.Acking? then None
      else
        var a := s.loop.ack;
        Some(s.(loop := Selecting, closed := s.closed[a := Times(s.closed, a) + 1]))
    case Cancel => Some(s.(cancelled := true))
    case BeginDrain(a) =>
      if a in s.drains then None
      else Some(s.(drains := s.drains[a := Offering], began := s.began[a := |s.accepted|]))
    case DrainSeesAck(a) =>
      if a in s.drains && s.drains[a] == Waiting && a in s.closed
      then Some(s.(drains := s.drains[a := Returned(true)])) else None
    case DrainGivesUp(a) =>
      if a in s.drains && !s.drains[a].Returned?
      then Some(s.(drains := s.drains[a := Returned(false)])) else None
    case DrainSeesStop(a) =>
      if a in s.drains && !s.drains[a].Returned? && s.loop == Stopped
      then Some(s.(drains := s.drains[a := Returned(false)])) else None
  }

  function Run(s: Sink, events: seq<Event>): Option<Sink>
    decreases |events|
  {
    if events == [] then Some(s) else
    var next := Step(s, events[0]);
    if next.None? then None else Run(next.value, events[1..])
  }

  /** The entries of all batches handed to postBatch, in order. */
  function Flat(batches: seq<seq<Entry>>): seq<Entry> {
    if batches == [] then [] else Flat(batches[..|batches| - 1]) + batches[|batches| - 1]
  }

  function Delivered(s: Sink): seq<Entry> {
    Flat(s.posted)
  }

  // ---------------------------------------------------------------------
  // What every step keeps
  // ---------------------------------------------------------------------

  /** Nothing accepted is lost, duplicated or reordered; the buffers are bounded. */
  ghost predicate Conserves(s: Sink) {
    && s.accepted == Delivered(s) + s.batch + s.ch
    && |s.ch| <= CHANNEL_CAP
    && (s.loop.Selecting? ==> |s.batch| < BATCH_SIZE)
    && (s.loop.Acking? || s.loop.Stopped? ==> s.batch == [])
    && (forall b :: b in s.posted ==> b != [])
  }

  /** Whether run still owes a close for a received flush request. */
  predicate Owes(s: Sink, a: Ack) {
    s.loop == Collecting(a) || s.loop == Acking(a)
  }

  /** Every received request is owed one close or has had exactly one. */
  ghost predicate AcksOnce(s: Sink) {
    && (forall a :: Owes(s, a) ==> a in s.received)
    && (forall a :: a in s.received ==> (a in s.closed <==> !Owes(s, a)))
    && (forall a :: a in s.closed ==> a in s.received && s.closed[a] == 1)
    && (forall a :: a in s.drains && s.drains[a].Offering? ==> a !in s.received)
    && (forall a :: a in s.received ==> a in s.drains)
    && (forall a :: a in s.drains && s.drains[a] == Returned(true) ==> a in s.closed)
  }

  /** What was accepted before run received a request is delivered before its close. */
  ghost predicate AcksCover(s: Sink) {
    && s.began.Keys == s.drains.Keys
    && (forall a :: a in s.began ==> s.began[a] <= |s.accepted|)
    && (forall a :: a in s.received ==> a in s.began && s.began[a] <= s.received[a] <= |s.accepted|)
    && (forall a :: a in s.received && !(s.loop == Collecting(a)) ==> s.received[a] <= |Delivered(s)|)
  }

  ghost predicate Inv(s: Sink) {
    Conserves(s) && AcksOnce(s) && AcksCover(s)
  }

  lemma FlatAppend(batches: seq<seq<Entry>>, b: seq<Entry>)
    ensures Flat(batches + [b]) == Flat(batches) + b
  {
    assert (batches + [b])[..|batches|] == batches;
  }

  lemma PostConserves(s: Sink)
    ensures Delivered(Post(s)) == Delivered(s) + s.batch
    ensures Post(s).batch == []
    ensures (forall b :: b in s.posted ==> b != []) ==> forall b :: b in Post(s).posted ==> b != []
  {
    if s.batch != [] {
      FlatAppend(s.posted, s.batch);
    }
  }

  lemma TakeConserves(s: Sink)
    requires s.ch != []
    ensures Delivered(Take(s)) + Take(s).batch + Take(s).ch == Delivered(s) + s.batch + s.ch
  {
    assert Take(s).batch + Take(s).ch == s.batch + s.ch;
    assert forall d: seq<Entry>, b: seq<Entry>, c: seq<Entry> :: d + b + c == d + (b + c);
  }

  lemma WriteConserves(s: Sink, e: Entry)
    requires Conserves(s)
    ensures Conserves(Step(s, Write(e)).value)
  {
    hide Flat;
    assert Delivered(s) + s.batch + (s.ch + [e]) == Delivered(s) + s.batch + s.ch + [e];
  }

  lemma ReceiveConserves(s: Sink)
    requires Conserves(s) && Step(s, Receive).Some?
    ensures Conserves(Step(s, Receive).value)
    ensures Delivered(s) <= Delivered(Step(s, Receive).value)
  {
    var t := Take(s);
    TakeConserves(s);
    PostConserves(t);
    assert Delivered(t) == Delivered(s);
    hide Delivered;
    hide Post;
    assert t.accepted == Delivered(t) + t.batch + t.ch;
    assert Delivered(t) + t.batch + [] == Delivered(t) + t.batch;
  }

  lemma PostStepConserves(s: Sink, ev: Event)
    requires Conserves(s) && Step(s, ev).Some?
    requires ev.Tick? || ev.CollectDone?
    ensures Conserves(Step(s, ev).value)
    ensures Delivered(s) <= Delivered(Step(s, ev).value)
  {
    PostConserves(s);
    hide Flat;
    hide Post;
    assert Delivered(s) + s.batch + [] + s.ch == Delivered(s) + s.batch + s.ch;
  }

  lemma CollectConserves(s: Sink)
    requires Conserves(s) && Step(s, CollectOne).Some?
    ensures Conserves(Step(s, CollectOne).value)
  {
    TakeConserves(s);
  }

  lemma StepConserves(s: Sink, ev: Event)
    requires Conserves(s) && Step(s, ev).Some?
    ensures Conserves(Step(s, ev).value)
    ensures Delivered(s) <= Delivered(Step(s, ev).value)
    ensures s.accepted <= Step(s, ev).value.accepted
  {
    hide Flat;
    match ev
    case Write(e) => WriteConserves(s, e);
    case Receive => ReceiveConserves(s);
    case Tick => PostStepConserves(s, ev);
    case CollectOne => CollectConserves(s);
    case CollectDone => PostStepConserves(s, ev);
    case _ =>
  }

  lemma StepKeepsAcks(s: Sink, ev: Event)
    requires Inv(s) && Step(s, ev).Some?
    ensures AcksOnce(Step(s, ev).value)
    ensures AcksCover(Step(s, ev).value)
  {
    StepConserves(s, ev);
    if ev.CollectDone? {
      PostConserves(s);
    }
    hide *;
    StepKeepsOnce(s, ev);
    StepCovers(s, ev);
  }

  /** The events that change a drain, a received request or a close. */
  predicate TouchesAcks(ev: Event) {
    || ev.Accept? || ev.CloseAck? || ev.BeginDrain?
    || ev.DrainSeesAck? || ev.DrainGivesUp? || ev.DrainSeesStop?
  }

  lemma QuietStep(s: Sink, ev: Event)
    requires !TouchesAcks(ev) && Step(s, ev).Some?
    ensures var t := Step(s, ev).value;
            && t.drains == s.drains && t.closed == s.closed
            && t.began == s.began && t.received == s.received
            && (forall a :: Owes(t, a) <==> Owes(s, a))
            && (!ev.CollectDone? ==> forall a :: t.loop == Collecting(a) <==> s.loop == Collecting(a))
  {
    hide Post;
    hide Take;
  }

  lemma CloseKeepsOnce(s: Sink)
    requires AcksOnce(s) && Step(s, CloseAck).Some?
    ensures AcksOnce(Step(s, CloseAck).value)
  {
    assert forall a :: Owes(s, a) <==> a == s.loop.ack;
    assert forall a :: !Owes(Step(s, CloseAck).value, a);
  }

  lemma AcceptKeepsOnce(s: Sink, b: Ack)
    requires AcksOnce(s) && Step(s, Accept(b)).Some?
    ensures AcksOnce(Step(s, Accept(b)).value)
  {
    assert forall a :: !Owes(s, a);
    assert forall a :: Owes(Step(s, Accept(b)).value, a) <==> a == b;
  }

  /** A drain may begin when unknown, and return once it has begun. */
  lemma DrainKeepsOnce(s: Sink, t: Sink, a: Ack, d: Drain)
    requires AcksOnce(s)
    requires d == Offering ==> a !in s.drains
    requires d == Returned(true) ==> a in s.closed
    requires t.drains == s.drains[a := d]
    requires t.loop == s.loop && t.received == s.received && t.closed == s.closed
    ensures AcksOnce(t)
  {
    assert forall x :: Owes(t, x) <==> Owes(s, x);
  }

  lemma StepKeepsOnce(s: Sink, ev: Event)
    requires AcksOnce(s) && Step(s, ev).Some?
    ensures AcksOnce(Step(s, ev).value)
  {
    if !TouchesAcks(ev) {
      QuietStep(s, ev);
      hide Step;
    } else if ev.CloseAck? {
      CloseKeepsOnce(s);
    } else if ev.Accept? {
      AcceptKeepsOnce(s, ev.ack);
    } else {
      var t := Step(s, ev).value;
      DrainKeepsOnce(s, t, ev.ack, t.drains[ev.ack]);
      hide AcksOnce;
    }
  }

  lemma StepCovers(s: Sink, ev: Event)
    requires AcksOnce(s) && AcksCover(s) && Step(s, ev).Some?
    requires |s.accepted| <= |Step(s, ev).value.accepted|
    requires |Delivered(s)| <= |Delivered(Step(s, ev).value)|
    requires ev.CollectDone? ==> Delivered(Step(s, ev).value) == s.accepted
    ensures AcksCover(Step(s, ev).value)
  {
    hide Delivered;
    if !TouchesAcks(ev) {
      QuietStep(s, ev);
      hide Step;
    }
  }

  lemma {:induction false} RunKeepsInvariant(s: Sink, events: seq<Event>)
    requires Inv(s) && Run(s, events).Some?
    ensures var t := Run(s, events).value;
            Inv(t) && Delivered(s) <= Delivered(t) && s.accepted <= t.accepted
    decreases |events|
  {
    if events != [] {
      StepConserves(s, events[0]);
      StepKeepsAcks(s, events[0]);
      RunKeepsInvariant(Step(s, events[0]).value, events[1..]);
    }
  }

  // ---------------------------------------------------------------------
  // The guarantees, over every run from the start
  // ---------------------------------------------------------------------

  /** Exact FIFO conservation and the two buffer bounds, in every interleaving. */
  lemma FifoConservation(events: seq<Event>)
    requires Run(START, events).Some?
    ensures var s := Run(START, events).value;
            && s.accepted == Admitted(START, events) == Delivered(s) + s.batch + s.ch
            && |s.ch| <= 256
            && (s.loop.Selecting? ==> |s.batch| < 100)
  {
    RunKeepsInvariant(START, events);
    AcceptedAreAdmitted(START, events);
  }

  /** The entries, in order, of the Write events that found fewer than 256 entries in the channel. */
  function Admitted(s: Sink, events: seq<Event>): seq<Entry>
    requires Run(s, events).Some?
    decreases |events|
  {
    if events == [] then []
    else
      (if events[0].Write? && |s.ch| < 256 then [events[0].entry] else [])
      + Admitted(Step(s, events[0]).value, events[1..])
  }

  /** Every entry that finds room is accepted, and no other. */
  lemma {:induction false} AcceptedAreAdmitted(s: Sink, events: seq<Event>)
    requires Run(s, events).Some?
    ensures Run(s, events).value.accepted == s.accepted + Admitted(s, events)
    decreases |events|
  {
    if events != [] {
      AcceptedByOne(s, events[0]);
      hide Step;
      AcceptedAreAdmitted(Step(s, events[0]).value, events[1..]);
    }
  }

  lemma AcceptedByOne(s: Sink, ev: Event)
    requires Step(s, ev).Some?
    ensures Step(s, ev).value.accepted == s.accepted + (if ev.Write? && |s.ch| < 256 then [ev.entry] else [])
  {
  }

  /** A batch is posted when its hundredth entry is received, and not before. */
  lemma HundredthEntryPosts(s: Sink)
    requires s.loop == Selecting && s.ch != []
    ensures Step(s, Receive).Some?
    ensures var t := Step(s, Receive).value;
            if |s.batch| + 1 < 100 then t == s.(batch := s.batch + [s.ch[0]], ch := s.ch[1..])
            else t == s.(batch := [], ch := s.ch[1..], posted := s.posted + [s.batch + [s.ch[0]]])
  {
  }

  /** Cancellation can always arrive, and a drain can always give up until it returned. */
  lemma NobodyIsHeld(s: Sink, a: Ack)
    ensures Step(s, Cancel) == Some(s.(cancelled := true))
    ensures a !in s.drains ==> Step(s, BeginDrain(a)).Some? && a in Step(s, BeginDrain(a)).value.drains
    ensures a in s.drains && !s.drains[a].Returned? ==>
              Step(s, DrainGivesUp(a)) == Some(s.(drains := s.drains[a := Returned(false)]))
    ensures a in s.drains && s.drains[a] == Waiting && a in s.closed ==>
              Step(s, DrainSeesAck(a)) == Some(s.(drains := s.drains[a := Returned(true)]))
    ensures a in s.drains && !s.drains[a].Returned? && s.loop == Stopped ==>
              Step(s, DrainSeesStop(a)) == Some(s.(drains := s.drains[a := Returned(false)]))
  {
  }

  /**
    A closed ack was closed once, and by then every entry accepted before run
    received the request, hence every entry accepted before Drain was called,
    had been handed to postBatch, in order.
   */
  lemma AckGuarantee(events: seq<Event>, a: Ack)
    requires Run(START, events).Some?
    ensures var s := Run(START, events).value;
            a in s.closed ==>
              && s.closed[a] == 1
              && a in s.began && a in s.received && s.began[a] <= s.received[a] <= |s.accepted|
              && s.accepted[..s.received[a]] <= Delivered(s)
  {
    RunKeepsInvariant(START, events);
    var s := Run(START, events).value;
    if a in s.closed {
      assert s.received[a] <= |Delivered(s)|;
    }
  }

  /** A Drain that returned because of its ack implies the ack guarantee. */
  lemma DrainedMeansDelivered(events: seq<Event>, a: Ack)
    requires Run(START, events).Some?
    ensures var s := Run(START, events).value;
            a in s.drains && s.drains[a] == Returned(true) ==>
              a in s.began && s.began[a] <= |s.accepted| && s.accepted[..s.began[a]] <= Delivered(s)
  {
    RunKeepsInvariant(START, events);
    AckGuarantee(events, a);
  }

  /** What an earlier step recorded about a drain is never rewritten. */
  lemma StepKeepsMarks(s: Sink, ev: Event, a: Ack)
    requires Inv(s) && Step(s, ev).Some?
    ensures var t := Step(s, ev).value;
            && (a in s.received ==> a in t.received && t.received[a] == s.received[a])
            && (a in s.began ==> a in t.began && t.began[a] == s.began[a])
  {
    hide Conserves;
  }

  lemma {:induction false} RunKeepsMarks(s: Sink, events: seq<Event>, a: Ack)
    requires Inv(s) && Run(s, events).Some?
    ensures var t := Run(s, events).value;
            && (a in s.received ==> a in t.received && t.received[a] == s.received[a])
            && (a in s.began ==> a in t.began && t.began[a] == s.began[a])
    decreases |events|
  {
    if events != [] {
      StepKeepsMarks(s, events[0], a);
      StepConserves(s, events[0]);
      StepKeepsAcks(s, events[0]);
      hide Step, Inv;
      RunKeepsMarks(Step(s, events[0]).value, events[1..], a);
    }
  }

  /** A run split at event i. */
  lemma SplitAt(events: seq<Event>, i: nat)
    requires Run(START, events).Some? && i < |events|
    ensures Run(START, events[..i]).Some?
    ensures var s := Run(START, events[..i]).value;
            && Inv(s) && Step(s, events[i]).Some?
            && Inv(Step(s, events[i]).value)
            && Run(Step(s, events[i]).value, events[i + 1..]) == Run(START, events)
  {
    hide Run, Step, Inv;
    var rest := events[i + 1..];
    assert events == events[..i] + ([events[i]] + rest);
    RunConcat(START, events[..i], [events[i]] + rest);
    var s := Run(START, events[..i]).value;
    RunCons(s, events[i], rest);
    StartHolds();
    RunKeepsInvariant(START, events[..i]);
    StepKeepsInv(s, events[i]);
  }

  lemma StepKeepsInv(s: Sink, ev: Event)
    requires Inv(s) && Step(s, ev).Some?
    ensures Inv(Step(s, ev).value)
  {
    StepConserves(s, ev);
    StepKeepsAcks(s, ev);
    hide Step, Conserves, AcksOnce, AcksCover;
  }

  lemma RunCons(s: Sink, ev: Event, rest: seq<Event>)
    ensures Run(s, [ev] + rest) == if Step(s, ev).None? then None else Run(Step(s, ev).value, rest)
  {
    hide Step;
    assert ([ev] + rest)[1..] == rest;
  }

  lemma StartHolds()
    ensures Inv(START)
  {
  }

  /**
    The ack guarantee in terms of what happened: once the ack of a request is
    closed, every entry that writers had got in when the loop received it, and so
    when Drain was called, has been handed over, in order.
   */
  lemma ClosedMeansAdmittedDelivered(events: seq<Event>, i: nat, a: Ack)
    requires Run(START, events).Some? && i < |events| && a in Run(START, events).value.closed
    requires events[i] == Accept(a) || events[i] == BeginDrain(a)
    ensures Run(START, events[..i]).Some?
    ensures Admitted(START, events[..i]) <= Delivered(Run(START, events).value)
  {
    SplitAt(events, i);
    var s := Run(START, events[..i]).value;
    AcceptedAreAdmitted(START, events[..i]);
    MarkIsAccepted(s, events[i], a);
    RunKeepsMarks(Step(s, events[i]).value, events[i + 1..], a);
    RunKeepsInvariant(Step(s, events[i]).value, events[i + 1..]);
    AckGuarantee(events, a);
    hide Run, Step, Inv, Admitted, Delivered;
    var t := Run(START, events).value;
    assert s.accepted <= t.accepted;
    PrefixOf(s.accepted, t.accepted, t.received[a], Delivered(t));
  }

  lemma MarkIsAccepted(s: Sink, ev: Event, a: Ack)
    requires Step(s, ev).Some? && (ev == Accept(a) || ev == BeginDrain(a))
    ensures var t := Step(s, ev).value;
            && t.accepted == s.accepted
            && (ev == Accept(a) ==> a in t.received && t.received[a] == |s.accepted|)
            && (ev == BeginDrain(a) ==> a in t.began && t.began[a] == |s.accepted|)
  {
  }

  lemma PrefixOf(early: seq<Entry>, late: seq<Entry>, n: nat, delivered: seq<Entry>)
    requires early <= late && |early| <= n <= |late| && late[..n] <= delivered
    ensures early <= delivered
  {
    assert early == late[..n][..|early|];
  }

  /** A received request is closed exactly once, unless the loop is still serving it. */
  lemma ReceivedIsClosedOnce(events: seq<Event>, a: Ack)
    requires Run(START, events).Some?
    ensures var s := Run(START, events).value;
            a in s.received ==> (a in s.closed && s.closed[a] == 1) != Owes(s, a)
  {
    RunKeepsInvariant(START, events);
  }

  // ---------------------------------------------------------------------
  // Progress, with writers quiet
  // ---------------------------------------------------------------------

  function Repeat(ev: Event, n: nat): seq<Event> {
    if n == 0 then [] else [ev] + Repeat(ev, n - 1)
  }

  lemma {:induction false} RunConcat(s: Sink, xs: seq<Event>, ys: seq<Event>)
    ensures Run(s, xs + ys) == if Run(s, xs).None? then None else Run(Run(s, xs).value, ys)
    decreases |xs|
  {
    if xs == [] {
      assert xs + ys == ys;
    } else {
      assert (xs + ys)[1..] == xs[1..] + ys;
      if Step(s, xs[0]).Some? {
        RunConcat(Step(s, xs[0]).value, xs[1..], ys);
      }
    }
  }

  /** The collect loop of flushRemaining empties the channel into the batch. */
  lemma {:induction false} CollectAll(s: Sink)
    requires s.loop.Collecting? || s.loop.FinalCollecting?
    ensures Run(s, Repeat(CollectOne, |s.ch|)) == Some(s.(batch := s.batch + s.ch, ch := []))
    decreases |s.ch|
  {
    if s.ch == [] {
      assert s.batch + s.ch == s.batch;
    } else {
      CollectAll(Take(s));
      assert Repeat(CollectOne, |s.ch|)[1..] == Repeat(CollectOne, |s.ch| - 1);
      assert Take(s).batch + Take(s).ch == s.batch + s.ch;
    }
  }

  /** The steps of flushRemaining while no writer runs. */
  function FlushSteps(s: Sink): seq<Event> {
    Repeat(CollectOne, |s.ch|) + [CollectDone]
  }

  function Flushed(s: Sink): Sink {
    Post(s.(batch := s.batch + s.ch, ch := []))
  }

  lemma FlushRuns(s: Sink)
    requires s.loop.Collecting? || s.loop.FinalCollecting?
    ensures Run(s, FlushSteps(s)) ==
            Some(Flushed(s).(loop := if s.loop.Collecting? then Acking(s.loop.ack) else Stopped))
    ensures |FlushSteps(s)| == |s.ch| + 1
    ensures Conserves(s) ==> Delivered(Flushed(s)) == s.accepted
  {
    CollectAll(s);
    RunConcat(s, Repeat(CollectOne, |s.ch|), [CollectDone]);
    RepeatLength(CollectOne, |s.ch|);
    var t := s.(batch := s.batch + s.ch, ch := []);
    assert Run(t, [CollectDone]) == Step(t, CollectDone);
    PostConserves(t);
    if Conserves(s) {
      assert Delivered(s) + (s.batch + s.ch) == Delivered(s) + s.batch + s.ch;
    }
  }

  lemma RepeatLength(ev: Event, n: nat)
    ensures |Repeat(ev, n)| == n
  {
  }

  /** While the loop flushes, its one enabled event is the next of FlushSteps. */
  lemma FlushIsForced(s: Sink, ev: Event)
    requires s.loop.Collecting? || s.loop.FinalCollecting?
    requires LoopEvent(ev) && Step(s, ev).Some?
    ensures ev == FlushSteps(s)[0]
  {
    if s.ch != [] {
      assert Repeat(CollectOne, |s.ch|)[0] == CollectOne;
    }
  }

  lemma {:induction false} ReceiveAll(s: Sink) returns (t: Sink)
    requires Conserves(s) && s.loop == Selecting
    ensures Run(s, Repeat(Receive, |s.ch|)) == Some(t)
    ensures Conserves(t) && t.ch == [] && t.loop == Selecting && t.accepted == s.accepted
    decreases |s.ch|
  {
    if s.ch == [] {
      t := s;
    } else {
      StepConserves(s, Receive);
      var n := Step(s, Receive).value;
      t := ReceiveAll(n);
      assert Repeat(Receive, |s.ch|)[1..] == Repeat(Receive, |s.ch| - 1);
    }
  }

  /**
    The loop stays live: from any reachable state short of cancellation being
    observed, the loop's own steps, at most one per buffered entry and three
    more, deliver everything accepted so far and leave the loop selecting, ready
    for later writes.
   */
  lemma LoopStaysLive(events: seq<Event>) returns (schedule: seq<Event>)
    requires Run(START, events).Some?
    requires var s := Run(START, events).value; !s.loop.Stopped? && !s.loop.FinalCollecting?
    ensures forall ev :: ev in schedule ==> LoopEvent(ev)
    ensures var s := Run(START, events).value;
            && |schedule| <= |s.ch| + 3
            && Run(s, schedule).Some?
            && Delivered(Run(s, schedule).value) == s.accepted
            && Run(s, schedule).value.loop == Selecting
  {
    RunKeepsInvariant(START, events);
    var s := Run(START, events).value;
    hide Delivered;
    match s.loop
    case Selecting =>
      schedule := DrainSelecting(s);
    case Acking(_) =>
      schedule := DrainAcking(s);
    case Collecting(_) =>
      schedule := DrainCollecting(s);
  }

  lemma DrainAcking(s: Sink) returns (schedule: seq<Event>)
    requires Conserves(s) && s.loop.Acking?
    ensures forall ev :: ev in schedule ==> LoopEvent(ev)
    ensures |schedule| <= |s.ch| + 2
    ensures Run(s, schedule).Some? && Delivered(Run(s, schedule).value) == s.accepted
    ensures Run(s, schedule).value.loop == Selecting
  {
    StepConserves(s, CloseAck);
    var rest := DrainSelecting(Step(s, CloseAck).value);
    schedule := [CloseAck] + rest;
    assert schedule[1..] == rest;
  }

  lemma DrainCollecting(s: Sink) returns (schedule: seq<Event>)
    requires Conserves(s) && s.loop.Collecting?
    ensures forall ev :: ev in schedule ==> LoopEvent(ev)
    ensures |schedule| <= |s.ch| + 2
    ensures Run(s, schedule).Some? && Delivered(Run(s, schedule).value) == s.accepted
    ensures Run(s, schedule).value.loop == Selecting && s.loop.ack in Run(s, schedule).value.closed
  {
    FlushRuns(s);
    RepeatIsLoop(CollectOne, |s.ch|);
    var t := Run(s, FlushSteps(s)).value;
    RunConcat(s, FlushSteps(s), [CloseAck]);
    assert Run(t, [CloseAck]) == Step(t, CloseAck);
    hide Run, Conserves, Repeat, Flat;
    schedule := FlushSteps(s) + [CloseAck];
  }

  lemma RepeatIsLoop(ev: Event, n: nat)
    ensures forall x :: x in Repeat(ev, n) ==> x == ev
  {
  }

  lemma DrainSelecting(s: Sink) returns (schedule: seq<Event>)
    requires Conserves(s) && s.loop == Selecting
    ensures forall ev :: ev in schedule ==> LoopEvent(ev)
    ensures |schedule| <= |s.ch| + 1
    ensures Run(s, schedule).Some? && Delivered(Run(s, schedule).value) == s.accepted
    ensures Run(s, schedule).value.loop == Selecting
  {
    var t := ReceiveAll(s);
    RunConcat(s, Repeat(Receive, |s.ch|), [Tick]);
    assert Run(t, [Tick]) == Step(t, Tick);
    hide Run, Repeat;
    PostConserves(t);
    assert t.accepted == Delivered(t) + t.batch;
    hide Flat, Conserves;
    RepeatLength(Receive, |s.ch|);
    RepeatIsLoop(Receive, |s.ch|);
    schedule := Repeat(Receive, |s.ch|) + [Tick];
  }

  /** A step of the loop, any choice of its select included, that has something to do: no tick over an empty batch. */
  predicate Busy(s: Sink, ev: Event) {
    (LoopEvent(ev) || ev.Accept? || ev.ObserveCancel?) && Step(s, ev).Some? && (ev.Tick? ==> s.batch != [])
  }

  /** The drains whose request the loop may still accept. */
  function Offers(s: Sink): set<Ack> {
    set a | a in s.drains && s.drains[a] == Offering
  }

  /** Every event is a busy step of the loop where it happens. */
  predicate BusyRun(s: Sink, events: seq<Event>)
    decreases |events|
  {
    events == [] || (Busy(s, events[0]) && BusyRun(Step(s, events[0]).value, events[1..]))
  }

  /** Bounds the busy steps still to come. */
  function Work(s: Sink): nat {
    2 * |s.ch| + (if s.batch == [] then 0 else 1) + 3 * |Offers(s)|
    + (match s.loop
       case Selecting => if s.cancelled then 2 else 0
       case Acking(_) => if s.cancelled then 3 else 1
       case Collecting(_) => if s.cancelled then 4 else 2
       case FinalCollecting => 1
       case Stopped => 0)
  }

  lemma BusyStepWorks(s: Sink, ev: Event)
    requires Conserves(s) && Busy(s, ev)
    ensures var t := Step(s, ev).value;
            && Conserves(t) && Work(t) < Work(s) && t.accepted == s.accepted
            && (t.loop.Stopped? ==> t.ch == [])
  {
    StepConserves(s, ev);
    AckedBatchIsPosted(s);
    hide Conserves, Flat, Times, Offers;
    if ev.Accept? {
      OneOfferLess(s, ev.ack);
    } else {
      SameOffers(s, ev);
    }
  }

  lemma SameOffers(s: Sink, ev: Event)
    requires LoopEvent(ev) || ev.ObserveCancel?
    ensures Step(s, ev).Some? ==> Offers(Step(s, ev).value) == Offers(s)
  {
  }

  lemma OneOfferLess(s: Sink, a: Ack)
    requires Step(s, Accept(a)).Some?
    ensures |Offers(Step(s, Accept(a)).value)| == |Offers(s)| - 1
  {
    assert Offers(Step(s, Accept(a)).value) == Offers(s) - {a};
  }

  lemma AckedBatchIsPosted(s: Sink)
    requires Conserves(s)
    ensures s.loop.Acking? ==> s.batch == []
  {
  }

  /**
    Everything accepted is delivered and nothing is buffered. The loop has returned
    if the context was cancelled; otherwise no offered drain is left waiting for it.
   */
  ghost predicate Settled(s: Sink) {
    && Delivered(s) == s.accepted && s.ch == [] && s.batch == []
    && (s.loop == Selecting || s.loop == Stopped)
    && (s.cancelled ==> s.loop == Stopped)
    && (s.loop == Selecting ==> forall a :: a in s.drains ==> s.drains[a] != Offering)
  }

  /** With nothing left to do, everything accepted is delivered. */
  lemma IdleMeansDelivered(s: Sink)
    requires Conserves(s) && (s.loop.Stopped? ==> s.ch == [])
    ensures (forall ev :: !Busy(s, ev)) ==> Settled(s)
  {
    hide Flat;
    if forall ev :: !Busy(s, ev) {
      forall a ensures !(s.loop.Selecting? && a in s.drains && s.drains[a] == Offering) {
        assert !Busy(s, Accept(a));
      }
      assert !Busy(s, ObserveCancel);
      assert !Busy(s, Receive) && !Busy(s, Tick) && !Busy(s, CollectOne) && !Busy(s, CollectDone);
      assert !Busy(s, CloseAck);
      assert Delivered(s) + [] + [] == Delivered(s);
    }
  }

  /**
    However the loop chooses among entries, ticks, flush requests and cancellation,
    with writers quiet and no new drain: from every reachable state before it
    returned, its busy steps number at most two per buffered entry, three per
    offered drain and five more, and when none is left to take, everything accepted
    has been delivered.
   */
  lemma EveryScheduleDelivers(events: seq<Event>, schedule: seq<Event>)
    requires Run(START, events).Some? && !Run(START, events).value.loop.Stopped?
    requires BusyRun(Run(START, events).value, schedule)
    ensures var s := Run(START, events).value;
            && |schedule| <= 2 * |s.ch| + 3 * |Offers(s)| + 5
            && Run(s, schedule).Some?
            && var t := Run(s, schedule).value;
               t.accepted == s.accepted && ((forall ev :: !Busy(t, ev)) ==> Settled(t))
  {
    RunKeepsInvariant(START, events);
    BusyRunDelivers(Run(START, events).value, schedule);
  }

  lemma {:induction false} BusyRunDelivers(s: Sink, schedule: seq<Event>)
    requires Conserves(s) && BusyRun(s, schedule) && (s.loop.Stopped? ==> s.ch == [])
    ensures |schedule| <= Work(s) && Run(s, schedule).Some?
    ensures var t := Run(s, schedule).value;
            t.accepted == s.accepted && ((forall ev :: !Busy(t, ev)) ==> Settled(t))
    decreases |schedule|
  {
    if schedule == [] {
      IdleMeansDelivered(s);
    } else {
      BusyStepWorks(s, schedule[0]);
      hide Conserves, Busy, Step, Work, Delivered, Settled;
      BusyRunDelivers(Step(s, schedule[0]).value, schedule[1..]);
    }
  }

  // ---------------------------------------------------------------------
  // After shutdown
  // ---------------------------------------------------------------------

  /**
    Once run has returned, nothing more is ever delivered: what writers still
    enqueue sits in the channel, at most CHANNEL_CAP entries of it.
   */
  lemma {:induction false} StoppedIsFinal(s: Sink, events: seq<Event>)
    requires Inv(s) && s.loop == Stopped && Run(s, events).Some?
    ensures var t := Run(s, events).value;
            && t.loop == Stopped && t.posted == s.posted
            && t.accepted == Delivered(s) + t.ch && |t.ch| <= CHANNEL_CAP
    decreases |events|
  {
    if events != [] {
      StepConserves(s, events[0]);
      StepKeepsAcks(s, events[0]);
      StoppedStep(s, events[0]);
      hide Step;
      hide Inv;
      StoppedIsFinal(Step(s, events[0]).value, events[1..]);
    }
  }

  lemma StoppedStep(s: Sink, ev: Event)
    requires s.loop == Stopped && Step(s, ev).Some?
    ensures Step(s, ev).value.loop == Stopped && Step(s, ev).value.posted == s.posted
  {
  }
}
