/** The buffering stage (main.go:108-131) as a sequential function over the
    events it reacts to: a value arriving on its input, which is pushed into
    the buffer, and the drain interval elapsing (a tick), which drains the
    buffer and forwards the drained values in order. */
module BufferStage {
  import opened Sequences
  import opened Window
  import Buffer

  datatype Event = Arrive(value: int) | Tick

  /** The value-level Get: None for an empty buffer, otherwise everything
      it holds, oldest first. */
  function Drain(w: seq<int>): Option<seq<int>>
  {
    if w == [] then None else Some(w)
  }

  /** The range loop that sends a drained batch downstream, one value at a
      time. */
  function Emit(batch: seq<int>): (sent: seq<int>)
    ensures sent == batch
    decreases |batch|
  {
    if batch == [] then [] else [batch[0]] + Emit(batch[1..])
  }

  /** The flush step: nothing for a nil batch, otherwise every element. */
  function Flush(d: Option<seq<int>>): seq<int>
  {
    match d
    case None => []
    case Some(batch) => Emit(batch)
  }

  /** Draining and flushing emits exactly what the buffer held, in arrival
      order, and a flush emits something only when the buffer held
      something: no empty bursts. */
  lemma FlushOfDrain(w: seq<int>)
    ensures Flush(Drain(w)) == w
    ensures Drain(w).Some? ==> Drain(w).value != []
  {
  }

  /** The values that arrive, in order. */
  function Arrivals(events: seq<Event>): seq<int>
    decreases |events|
  {
    if events == [] then []
    else (if events[0].Arrive? then [events[0].value] else []) + Arrivals(events[1..])
  }

  /** The events of values xs arriving one after the other, with no tick. */
  function Arrives(xs: seq<int>): seq<Event>
  {
    seq(|xs|, i requires 0 <= i < |xs| => Arrive(xs[i]))
  }

  /** One event: an arrival is pushed and sends nothing; a tick drains the
      buffer and sends the flushed batch. Gives what is sent and the new
      window. */
  function Step(cap: nat, w: seq<int>, e: Event): (r: (seq<int>, seq<int>))
    requires 1 <= cap && |w| <= cap
    ensures |r.1| <= cap
  {
    match e
    case Arrive(v) => ([], Slide(w, v, cap))
    case Tick => (Flush(Drain(w)), [])
  }

  /** The stage from window w over events: what it forwards downstream and
      the window it ends with. */
  function Run(cap: nat, w: seq<int>, events: seq<Event>): (r: (seq<int>, seq<int>))
    requires 1 <= cap && |w| <= cap
    ensures |r.1| <= cap
    decreases |events|
  {
    if events == [] then ([], w)
    else
      var s := Step(cap, w, events[0]);
      var rest := Run(cap, s.1, events[1..]);
      (s.0 + rest.0, rest.1)
  }

  /** An arrival sends nothing and slides the window. */
  lemma RunArrive(cap: nat, w: seq<int>, events: seq<Event>)
    requires 1 <= cap && |w| <= cap && events != [] && events[0].Arrive?
    ensures Run(cap, w, events) == Run(cap, Slide(w, events[0].value, cap), events[1..])
  {
    var rest := Run(cap, Slide(w, events[0].value, cap), events[1..]);
    assert [] + rest.0 == rest.0;
  }

  /** A tick sends the whole window and restarts from empty. */
  lemma RunTick(cap: nat, w: seq<int>, events: seq<Event>)
    requires 1 <= cap && |w| <= cap && events != [] && events[0].Tick?
    ensures Run(cap, w, events) == (w + Run(cap, [], events[1..]).0, Run(cap, [], events[1..]).1)
  {
    FlushOfDrain(w);
  }

  /** Run over a stretch of arrivals is the window after pushing them all. */
  lemma {:induction false} RunArrives(cap: nat, w: seq<int>, xs: seq<int>, rest: seq<Event>)
    requires 1 <= cap && |w| <= cap
    ensures Run(cap, w, Arrives(xs) + rest) == Run(cap, PushAll(w, xs, cap), rest)
    decreases |xs|
  {
    if xs == [] {
      assert Arrives(xs) + rest == rest;
    } else {
      var events := Arrives(xs) + rest;
      assert events[0] == Arrive(xs[0]);
      assert events[1..] == Arrives(xs[1..]) + rest;
      RunArrive(cap, w, events);
      RunArrives(cap, Slide(w, xs[0], cap), xs[1..], rest);
    }
  }

  /** A lone tick sends the whole window and leaves the buffer empty. */
  lemma RunSingleTick(cap: nat, w: seq<int>)
    requires 1 <= cap && |w| <= cap
    ensures Run(cap, w, [Tick]) == (w, [])
  {
    RunTick(cap, w, [Tick]);
    assert [Tick][1..] == [];
    var none := Run(cap, [], []);
    assert none == ([], []);
    assert w + none.0 == w;
  }

  /** Sliding window at the stage: from an empty buffer, values xs followed
      by one tick forward exactly the last cap of xs, in arrival order, and
      leave the buffer empty. */
  lemma SingleWindow(cap: nat, xs: seq<int>)
    requires 1 <= cap
    ensures Run(cap, [], Arrives(xs) + [Tick]) == (LastN(xs, cap), [])
  {
    RunArrives(cap, [], xs, [Tick]);
    RunSingleTick(cap, PushAll([], xs, cap));
    FromEmpty(xs, cap);
  }

  /** Arrivals of a non-empty event sequence, one event at a time. */
  lemma ArrivalsCons(events: seq<Event>)
    requires events != []
    ensures events[0].Arrive? ==> Arrivals(events) == [events[0].value] + Arrivals(events[1..])
    ensures events[0].Tick? ==> Arrivals(events) == Arrivals(events[1..])
  {
    assert [] + Arrivals(events[1..]) == Arrivals(events[1..]);
  }

  /** Order: what is forwarded, followed by what is still held at the end,
      is a subsequence of what was held at the start followed by every
      arrival. Nothing is invented, duplicated or reordered; only the
      oldest values of an overfull window are dropped. */
  lemma {:induction false} RunKeepsOrder(cap: nat, w: seq<int>, events: seq<Event>)
    requires 1 <= cap && |w| <= cap
    ensures IsSubseq(Run(cap, w, events).0 + Run(cap, w, events).1, w + Arrivals(events))
    decreases |events|
  {
    if events == [] {
      assert Run(cap, w, events).0 + Run(cap, w, events).1 == w == w + Arrivals(events);
      SubseqRefl(w);
    } else if events[0].Arrive? {
      RunKeepsOrder(cap, Slide(w, events[0].value, cap), events[1..]);
      KeepsOrderAtArrive(cap, w, events);
    } else {
      RunKeepsOrder(cap, [], events[1..]);
      KeepsOrderAtTick(cap, w, events);
    }
  }

  /** The arrival step of RunKeepsOrder. */
  lemma KeepsOrderAtArrive(cap: nat, w: seq<int>, events: seq<Event>)
    requires 1 <= cap && |w| <= cap && events != [] && events[0].Arrive?
    requires
      var r' := Run(cap, Slide(w, events[0].value, cap), events[1..]);
      IsSubseq(r'.0 + r'.1, Slide(w, events[0].value, cap) + Arrivals(events[1..]))
    ensures IsSubseq(Run(cap, w, events).0 + Run(cap, w, events).1, w + Arrivals(events))
  {
    var v := events[0].value;
    var w' := Slide(w, v, cap);
    var r' := Run(cap, w', events[1..]);
    var later := Arrivals(events[1..]);
    RunArrive(cap, w, events);
    ArrivalsCons(events);
    // the new window is a suffix of the old one followed by v
    var held := w + [v];
    assert held[|held| - |w'|..] == w';
    SubseqOfSuffix(r'.0 + r'.1, w', held, later);
    AppendAssoc(w, [v], later);
  }

  /** The tick step of RunKeepsOrder. */
  lemma KeepsOrderAtTick(cap: nat, w: seq<int>, events: seq<Event>)
    requires 1 <= cap && |w| <= cap && events != [] && events[0].Tick?
    requires
      var r' := Run(cap, [], events[1..]);
      IsSubseq(r'.0 + r'.1, [] + Arrivals(events[1..]))
    ensures IsSubseq(Run(cap, w, events).0 + Run(cap, w, events).1, w + Arrivals(events))
  {
    var r' := Run(cap, [], events[1..]);
    var later := Arrivals(events[1..]);
    RunTick(cap, w, events);
    ArrivalsCons(events);
    assert [] + later == later;
    SubseqPrependGrouped(w, r'.0, r'.1, later);
  }

  /** No arrival overflows the window: n values are held and every stretch
      of arrivals between ticks fits. */
  predicate Fits(cap: nat, n: nat, events: seq<Event>)
    decreases |events|
  {
    events == [] ||
    match events[0]
    case Arrive(_) => n + 1 <= cap && Fits(cap, n + 1, events[1..])
    case Tick => Fits(cap, 0, events[1..])
  }

  /** When nothing overflows, nothing is lost: every value held or arriving
      is forwarded at a tick or still held at the end, in arrival order. */
  lemma {:induction false} RunLosesNothing(cap: nat, w: seq<int>, events: seq<Event>)
    requires 1 <= cap && |w| <= cap && Fits(cap, |w|, events)
    ensures Run(cap, w, events).0 + Run(cap, w, events).1 == w + Arrivals(events)
    decreases |events|
  {
    if events == [] {
      assert Run(cap, w, events) == ([], w);
      assert Run(cap, w, events).0 + Run(cap, w, events).1 == w;
    } else if events[0].Arrive? {
      RunLosesNothing(cap, w + [events[0].value], events[1..]);
      LosesNothingAtArrive(cap, w, events);
    } else {
      RunLosesNothing(cap, [], events[1..]);
      LosesNothingAtTick(cap, w, events);
    }
  }

  /** The arrival step of RunLosesNothing: below capacity the window grows. */
  lemma LosesNothingAtArrive(cap: nat, w: seq<int>, events: seq<Event>)
    requires 1 <= cap && |w| < cap && events != [] && events[0].Arrive?
    requires
      var r' := Run(cap, w + [events[0].value], events[1..]);
      r'.0 + r'.1 == w + [events[0].value] + Arrivals(events[1..])
    ensures Run(cap, w, events).0 + Run(cap, w, events).1 == w + Arrivals(events)
  {
    var v := events[0].value;
    ArrivalsCons(events);
    assert Slide(w, v, cap) == w + [v];
    RunArrive(cap, w, events);
    assert w + [v] + Arrivals(events[1..]) == w + Arrivals(events);
  }

  /** The tick step of RunLosesNothing. */
  lemma LosesNothingAtTick(cap: nat, w: seq<int>, events: seq<Event>)
    requires 1 <= cap && |w| <= cap && events != [] && events[0].Tick?
    requires
      var r' := Run(cap, [], events[1..]);
      r'.0 + r'.1 == [] + Arrivals(events[1..])
    ensures Run(cap, w, events).0 + Run(cap, w, events).1 == w + Arrivals(events)
  {
    var r' := Run(cap, [], events[1..]);
    RunTick(cap, w, events);
    ArrivalsCons(events);
    assert [] + Arrivals(events[1..]) == Arrivals(events[1..]);
    Regroup(w, r'.0, r'.1, Arrivals(events[1..]));
  }

  /** One event at a time: Run is a step followed by the rest. */
  lemma RunCons(cap: nat, w: seq<int>, events: seq<Event>, i: nat)
    requires 1 <= cap && |w| <= cap && i < |events|
    ensures
      var s := Step(cap, w, events[i]);
      var rest := Run(cap, s.1, events[i + 1..]);
      Run(cap, w, events[i..]) == (s.0 + rest.0, rest.1)
  {
    assert events[i..][0] == events[i] && events[i..][1..] == events[i + 1..];
  }

  /** One pass of the select in bufferStage: push an arriving value, or on
      a tick get the batch and send it. */
  method HandleEvent(b: Buffer.RingBuffer, e: Event) returns (sent: seq<int>)
    requires b.Valid() && b.size >= 1
    modifies b, b.slots
    ensures b.Valid()
    ensures (sent, b.contents) == Step(b.size, old(b.contents), e)
  {
    if e.Arrive? {
      b.Push(e.value);
      sent := [];
    } else {
      ghost var held := b.contents;
      var batch := b.Get();
      FlushOfDrain(held);
      sent := Flush(batch);
    }
  }

  /** The stage loop of bufferStage over a RingBuffer object. It forwards
      what Run says and leaves the buffer holding Run's final window. */
  method RunBufferStage(b: Buffer.RingBuffer, events: seq<Event>) returns (out: seq<int>)
    requires b.Valid() && b.size >= 1
    modifies b, b.slots
    ensures b.Valid()
    ensures (out, b.contents) == Run(b.size, old(b.contents), events)
  {
    out := [];
    ghost var goal := Run(b.size, b.contents, events);
    assert events[0..] == events;
    assert [] + goal.0 == goal.0;
    var i := 0;
    while i < |events|
      invariant 0 <= i <= |events|
      invariant b.Valid()
      invariant out + Run(b.size, b.contents, events[i..]).0 == goal.0
      invariant Run(b.size, b.contents, events[i..]).1 == goal.1
    {
      ghost var s := Step(b.size, b.contents, events[i]);
      ghost var rest := Run(b.size, s.1, events[i + 1..]);
      RunCons(b.size, b.contents, events, i);
      AppendAssoc(out, s.0, rest.0);
      var sent := HandleEvent(b, events[i]);
      out := out + sent;
      i := i + 1;
    }
    assert events[i..] == [];
    assert out + [] == out;
  }
}
