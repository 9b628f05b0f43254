/** The two filter stages (main.go:78-106) as sequential functions over the
    values they receive: each value is either forwarded unchanged or
    reported (the log line), and forwarded values keep their order. */
module Filters {
  import opened Sequences

  datatype Filter = NonNegative | MultipleOfThree

  /** Go's remainder, which truncates toward zero (Dafny's % is Euclidean),
      for a positive divisor. */
  function GoRem(a: int, b: int): (r: int)
    requires b > 0
    ensures -b < r < b
    ensures a >= 0 ==> r >= 0
    ensures a < 0 ==> r <= 0
  {
    if a >= 0 then a % b else -((-a) % b)
  }

  /** The test each stage applies: data >= 0, and data%3 == 0. */
  predicate Forwards(f: Filter, v: int)
  {
    match f
    case NonNegative => v >= 0
    case MultipleOfThree => GoRem(v, 3) == 0
  }

  /** Truncated and Euclidean remainders agree on divisibility by three, so
      the multiple-of-three stage forwards exactly the multiples of three,
      negative ones included. */
  lemma MultipleOfThreeIff(v: int)
    ensures Forwards(MultipleOfThree, v) <==> v % 3 == 0
  {
  }

  /** What a stage does with one received value. */
  datatype Decision = Forward(value: int) | Report(value: int)

  /** One stage over the values it receives, in order. */
  function Stage(f: Filter, xs: seq<int>): (r: seq<Decision>)
    ensures |r| == |xs|
    ensures forall i :: 0 <= i < |xs| ==> r[i].value == xs[i] && (r[i].Forward? <==> Forwards(f, xs[i]))
    decreases |xs|
  {
    if xs == [] then []
    else [if Forwards(f, xs[0]) then Forward(xs[0]) else Report(xs[0])] + Stage(f, xs[1..])
  }

  /** The values sent on the output channel, in order. */
  function Forwarded(steps: seq<Decision>): seq<int>
    decreases |steps|
  {
    if steps == [] then []
    else (if steps[0].Forward? then [steps[0].value] else []) + Forwarded(steps[1..])
  }

  /** The values logged as filtered, in order. */
  function Reported(steps: seq<Decision>): seq<int>
    decreases |steps|
  {
    if steps == [] then []
    else (if steps[0].Report? then [steps[0].value] else []) + Reported(steps[1..])
  }

  function Output(f: Filter, xs: seq<int>): seq<int>
  {
    Forwarded(Stage(f, xs))
  }

  /** Every received value is accounted for exactly once: forwarded or
      reported, never both, never dropped, never duplicated. */
  lemma {:induction false} ForwardedOrReported(f: Filter, xs: seq<int>)
    ensures multiset(Forwarded(Stage(f, xs))) + multiset(Reported(Stage(f, xs))) == multiset(xs)
    ensures forall v :: v in Forwarded(Stage(f, xs)) ==> Forwards(f, v)
    ensures forall v :: v in Reported(Stage(f, xs)) ==> !Forwards(f, v)
    decreases |xs|
  {
    if xs != [] {
      ForwardedOrReported(f, xs[1..]);
      assert Stage(f, xs)[1..] == Stage(f, xs[1..]);
      assert xs == [xs[0]] + xs[1..];
    }
  }

  /** A stage commutes with concatenation of its input: what it forwards
      from xs comes before what it forwards from ys. */
  lemma {:induction false} OutputDistributes(f: Filter, xs: seq<int>, ys: seq<int>)
    ensures Output(f, xs + ys) == Output(f, xs) + Output(f, ys)
    decreases |xs|
  {
    if xs == [] {
      assert xs + ys == ys;
    } else {
      OutputDistributes(f, xs[1..], ys);
      assert (xs + ys)[1..] == xs[1..] + ys;
      assert Stage(f, xs + ys)[1..] == Stage(f, (xs + ys)[1..]);
      assert Stage(f, xs)[1..] == Stage(f, xs[1..]);
    }
  }

  /** A value is forwarded iff it was received and passes the test. */
  lemma {:induction false} OutputMembers(f: Filter, xs: seq<int>, v: int)
    ensures v in Output(f, xs) <==> v in xs && Forwards(f, v)
    decreases |xs|
  {
    if xs != [] {
      OutputMembers(f, xs[1..], v);
      assert Stage(f, xs)[1..] == Stage(f, xs[1..]);
      assert xs == [xs[0]] + xs[1..];
    }
  }

  /** Forwarded values keep their input order. */
  lemma {:induction false} OutputKeepsOrder(f: Filter, xs: seq<int>)
    ensures IsSubseq(Output(f, xs), xs)
    decreases |xs|
  {
    if xs != [] {
      OutputKeepsOrder(f, xs[1..]);
      assert Stage(f, xs)[1..] == Stage(f, xs[1..]);
      if Forwards(f, xs[0]) {
        assert Output(f, xs) == [xs[0]] + Output(f, xs[1..]);
      } else {
        assert Output(f, xs) == Output(f, xs[1..]);
      }
    }
  }

  /** Two examples of the stages. */
  lemma Examples()
    ensures Output(NonNegative, [-3, 0, 5]) == [0, 5]
    ensures Reported(Stage(NonNegative, [-3, 0, 5])) == [-3]
    ensures Output(MultipleOfThree, [0, 5, 9, -6]) == [0, 9, -6]
    ensures Reported(Stage(MultipleOfThree, [0, 5, 9, -6])) == [5]
  {
    var a := [-3, 0, 5];
    assert a[1..] == [0, 5] && a[1..][1..] == [5] && a[1..][1..][1..] == [];
    var b := [0, 5, 9, -6];
    assert b[1..] == [5, 9, -6] && b[1..][1..] == [9, -6];
    assert b[1..][1..][1..] == [-6] && b[1..][1..][1..][1..] == [];
    assert Stage(NonNegative, a) == [Report(-3), Forward(0), Forward(5)];
    assert Stage(MultipleOfThree, b) == [Forward(0), Report(5), Forward(9), Forward(-6)];
  }

  /** The two stages as main wires them: the non-negative filter feeds the
      multiple-of-three filter. */
  function Pipeline(xs: seq<int>): seq<int>
  {
    Output(MultipleOfThree, Output(NonNegative, xs))
  }

  /** Independent statement of what survives both filters. */
  function Survivors(xs: seq<int>): seq<int>
    decreases |xs|
  {
    if xs == [] then []
    else (if xs[0] >= 0 && xs[0] % 3 == 0 then [xs[0]] else []) + Survivors(xs[1..])
  }

  lemma {:induction false} PipelineIsSurvivors(xs: seq<int>)
    ensures Pipeline(xs) == Survivors(xs)
    decreases |xs|
  {
    if xs != [] {
      PipelineIsSurvivors(xs[1..]);
      var x := xs[0];
      assert xs == [x] + xs[1..];
      OutputDistributes(NonNegative, [x], xs[1..]);
      var middle := Output(NonNegative, [x]);
      OutputDistributes(MultipleOfThree, middle, Output(NonNegative, xs[1..]));
      MultipleOfThreeIff(x);
      assert Stage(NonNegative, [x])[1..] == [];
      if x >= 0 {
        assert middle == [x];
        assert Stage(MultipleOfThree, [x])[1..] == [];
      } else {
        assert middle == [];
      }
    }
  }
}
