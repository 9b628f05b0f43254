/** How main wires the stages (main.go:133-159): the non-negative filter
    feeds the multiple-of-three filter, which feeds the buffering stage over
    a buffer of capacity 10, whose output is what the sink logs as
    processed. Ticks of the drain interval may fall anywhere between the
    values reaching the buffering stage. */
module Wiring {
  import opened Sequences
  import opened Filters
  import opened BufferStage

  /** NewRingBuffer(10, ...) in main. */
  const Capacity: nat := 10

  /** The values the sink receives, for the values xs the input stage
      produces and any interleaving events of those values with ticks at the
      buffering stage: they are survivors of both filters, in input order. */
  lemma {:induction false} SinkReceives(xs: seq<int>, events: seq<Event>)
    requires Arrivals(events) == Pipeline(xs)
    ensures IsSubseq(Run(Capacity, [], events).0, Pipeline(xs))
    ensures forall v :: v in Run(Capacity, [], events).0 ==> v in xs && v >= 0 && v % 3 == 0
  {
    var r := Run(Capacity, [], events);
    RunKeepsOrder(Capacity, [], events);
    assert [] + Arrivals(events) == Pipeline(xs);
    PrefixIsSubseq(r.0, r.1);
    SubseqTrans(r.0, r.0 + r.1, Pipeline(xs));
    PipelineIsSurvivors(xs);
    forall v | v in r.0
      ensures v in xs && v >= 0 && v % 3 == 0
    {
      SubseqMembers(r.0, Pipeline(xs), v);
      SurvivorsMembers(xs, v);
    }
  }

  lemma {:induction false} SurvivorsMembers(xs: seq<int>, v: int)
    ensures v in Survivors(xs) <==> v in xs && v >= 0 && v % 3 == 0
    decreases |xs|
  {
    if xs != [] {
      SurvivorsMembers(xs[1..], v);
      assert xs == [xs[0]] + xs[1..];
    }
  }

  /** An example run: the integers 4, -1, 9, 6 enter the pipeline, and one
      drain tick follows them at the buffering stage. The sink receives 9
      then 6. */
  lemma EndToEnd()
    ensures Pipeline([4, -1, 9, 6]) == [9, 6]
    ensures Run(Capacity, [], Arrives(Pipeline([4, -1, 9, 6])) + [Tick]).0 == [9, 6]
  {
    PipelineIsSurvivors([4, -1, 9, 6]);
    assert [4, -1, 9, 6][1..] == [-1, 9, 6];
    assert [-1, 9, 6][1..] == [9, 6];
    assert [9, 6][1..] == [6];
    assert Survivors([4, -1, 9, 6]) == [9, 6];
    SingleWindow(Capacity, [9, 6]);
  }
}
