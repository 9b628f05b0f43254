# A verified model of the integer pipeline's buffer and stages

The program reads integers from standard input and passes them through a
linear chain of stages: a filter that forwards non-negative values, a filter
that forwards multiples of three, and a buffering stage that collects values
in a fixed-capacity buffer and forwards everything it has collected, oldest
first, once a drain interval passes without a new value arriving (the timer
is re-armed on every pass of its `select`, main.go:113). The sink logs what
arrives.

This project models the core of that program in Dafny:

- `ring_buffer.dfy` (module `Buffer`): the `RingBuffer` type as a class
  over an `array<int>` with the cursor `pos` (`-1` when empty) and a fixed
  `size`. Despite its name it does not wrap around. It is a sliding window:
  `Push` shifts every element one place left when the buffer is full, which
  drops the oldest one. `Pop` removes the newest element. `Get` drains the
  buffer. A ghost field `contents` is the public view, and `Valid()` ties it
  to the array's live part `slots[0..pos]`.
- `window.dfy` (module `Window`): the abstract meaning of one insertion,
  `Slide`, and of a run of insertions, `PushAll`. The main result is that the
  buffer always holds the last `size` values inserted since the last drain.
- `filters.dfy` (module `Filters`): the two filter stages as functions over
  the values they receive. Each value is forwarded unchanged or reported,
  and forwarded values keep their order. Go's truncating `%` is written out
  as `GoRem`.
- `buffer_stage.dfy` (module `BufferStage`): the buffering stage as a
  function `Run` over a sequence of events, built from `Step` (one pass of
  the `select`, handling either an arriving value or the timer) and `Drain`
  (the value-level `Get`). An event is a value arriving
  (`Arrive`) or the drain timer firing (`Tick`). `RunBufferStage` is
  the loop of `bufferStage` over a real `RingBuffer` object, and it is
  proved to agree with `Run`.
- `pipeline.dfy` (module `Wiring`): the wiring in `main`, with capacity 10,
  plus an example run from input to sink.
- `sequences.dfy` (module `Sequences`): `Option` and the subsequence
  relation `IsSubseq`, with the lemmas about them.

Several functions only compute: `Filters.Forwards`, `Filters.Output`,
`Filters.Pipeline`, `Window.PushAll`, `BufferStage.Drain`, `BufferStage.Flush`,
`BufferStage.Step` and `BufferStage.Run`. Their rows in the table below say what
each one computes and name the lemmas that state what it means.

The filters and the buffering stage run as goroutines joined by channels in
the source. Here each stage is a sequential function over its inputs. Timer
expiry is an abstract `Tick` event.

Two points where the code is easy to misread:
- `Pop` (main.go:39) and `Get` (main.go:50) test `pos` before taking the
  lock. In a sequential model this has no effect.
- The second filter's name suggests it removes multiples of three, but the
  code forwards exactly the multiples of three (main.go:97). The model
  forwards the multiples of three.

## Model

| member | source | states |
|---|---|---|
| Buffer.RingBuffer.constructor | main.go:21-23 | A new buffer of capacity `size` is valid and empty: `pos == -1` and the backing array has `size` slots. |
| Buffer.RingBuffer.Push | main.go:25-36 | Below capacity, the cursor advances and `contents` becomes `old(contents) + [e]`. When full, the cursor stays and `contents` becomes `old(contents)[1..] + [e]`, so the oldest element is dropped. Both cases equal `Window.Slide`, and slots past the new cursor are untouched. The invariant `-1 <= pos <= size-1` is kept. |
| Buffer.RingBuffer.ShiftLeft | main.go:29-31 | The shift loop moves `slots[i]` to `slots[i-1]` for every `i` in `1..size-1` and leaves the last slot as it was. |
| Buffer.RingBuffer.Pop | main.go:38-47 | On an empty buffer it returns `(0, false)` and changes nothing. Otherwise it returns the newest element with `true`, removes that element from `contents`, and moves the cursor back by one. |
| Buffer.RingBuffer.Get | main.go:49-58 | On an empty buffer it returns `None` (nil) and changes nothing. Otherwise it returns `Some(contents)` in arrival order and leaves the buffer empty with `pos == -1`, so the next Push writes index 0. |
| Buffer.PushThenPop | main.go:25-47 | Below capacity, a Push followed by a Pop returns the pushed value and restores the previous contents. This is derived from the method contracts alone. |
| Window.Slide | main.go:28-35 | One insertion yields the last `cap` elements of `w + [e]`. The result never exceeds the capacity and always ends with `e`. |
| Window.PushAll | main.go:25-36 | Repeated `Push`: each value of `xs` is slid into the window in turn, and the result never exceeds `cap`. `Window.PushAllIsLastN` proves it equals `LastN(w + xs, cap)`. |
| Window.PushAllIsLastN | main.go:25-36 | Sliding window: starting from any window of at most `cap` elements, inserting `xs` leaves exactly the last `cap` elements of `w + xs`, in order. |
| Window.FromEmpty | main.go:21-36 | Starting from an empty buffer, pushing `xs` leaves the last `min(|xs|, cap)` elements of `xs`. Once `cap` or more values have been pushed, the buffer is exactly full. |
| Filters.GoRem | main.go:97 | Go's truncated remainder by a positive divisor lies strictly between `-b` and `b`, and it takes the sign of the dividend. |
| Filters.MultipleOfThreeIff | main.go:97 | The Go test `data%3 == 0` holds exactly when Dafny's Euclidean `v % 3 == 0` holds, negative values included. |
| Filters.Forwards | main.go:78-106 | The test applied by each stage. `NonNegative` tests `v >= 0` (main.go:82), and `MultipleOfThree` tests `GoRem(v, 3) == 0`, Go's `data%3 == 0` (main.go:97). `Filters.MultipleOfThreeIff` relates the second to Dafny's `%`. |
| Filters.Stage | main.go:78-106 | The stage makes exactly one decision per received value, in input order. Each value is carried unchanged. The decision is Forward iff the stage's test passes (`v >= 0`, or `v%3 == 0`), and Report otherwise. |
| Filters.ForwardedOrReported | main.go:81-86 | Every received value is forwarded or reported, exactly once: the two multisets add up to the input. Every forwarded value passes the test, and every reported value fails it. |
| Filters.Output | main.go:78-106 | The values a stage sends on its output channel, in order. `OutputMembers`, `OutputKeepsOrder`, `OutputDistributes` and `ForwardedOrReported` state what they are. |
| Filters.OutputDistributes | main.go:78-106 | What a stage forwards from `xs + ys` is what it forwards from `xs` followed by what it forwards from `ys`, so the input order is kept. |
| Filters.OutputMembers | main.go:96-101 | A value is forwarded iff it was received and passes the stage's test. |
| Filters.OutputKeepsOrder | main.go:78-106 | The forwarded values form a subsequence of the received values. |
| Filters.Examples | main.go:82-86 | The non-negative filter forwards [0, 5] from [-3, 0, 5] and reports [-3]. The multiple-of-three filter forwards [0, 9, -6] from [0, 5, 9, -6] and reports [5]. |
| Filters.Pipeline | main.go:139-145 | The non-negative filter feeding the multiple-of-three filter, as `main` wires them. `PipelineIsSurvivors` proves it equals `Survivors`. |
| Filters.PipelineIsSurvivors | main.go:139-145 | The non-negative filter followed by the multiple-of-three filter forwards exactly the values with `v >= 0 && v % 3 == 0`, in order. It is proved equal to an independent one-pass definition, `Survivors`. |
| BufferStage.Drain | main.go:49-58 | The value-level `Get`: `None` (nil) for an empty window, otherwise `Some` of the whole window, oldest first. `BufferStage.HandleEvent` ties it to `RingBuffer.Get`. |
| BufferStage.Flush | main.go:122-126 | `if a != nil { range a }`: a nil batch sends nothing, a present batch is sent element by element. `FlushOfDrain` states the result. |
| BufferStage.Emit | main.go:123-125 | The range loop sends every element of the batch once, in order. |
| BufferStage.FlushOfDrain | main.go:121-126 | Draining and flushing emits exactly what the buffer held, in arrival order. A batch that is present is never empty, so there are no empty bursts. |
| BufferStage.Step | main.go:110-126 | One pass of the `select`: an arriving value is slid into the window and nothing is sent; a tick sends the flushed drain and empties the window. The new window never exceeds `cap`. |
| BufferStage.Run | main.go:108-131 | The `for` loop of `bufferStage` over a sequence of events: what is sent, in order, and the final window, which never exceeds `cap`. `RunKeepsOrder`, `RunLosesNothing` and `SingleWindow` state what it means, and `RunBufferStage` ties it to the object. |
| BufferStage.RunArrive | main.go:111-112 | One-step unfolding of `Run`, used by the proofs below: an arriving value sends nothing and slides the window. |
| BufferStage.RunTick | main.go:113-126 | One-step unfolding of `Run`, used by the proofs below: a tick sends the whole window and restarts from empty. |
| BufferStage.RunArrives | main.go:111-112 | A stretch of arrivals is equivalent to pushing them all with `PushAll`. |
| BufferStage.SingleWindow | main.go:108-131 | From an empty buffer, values `xs` followed by one tick forward exactly the last `cap` of `xs` in arrival order, and they leave the buffer empty. |
| BufferStage.RunKeepsOrder | main.go:108-131 | The forwarded values, followed by the final window, form a subsequence of the starting window followed by all arrivals. Nothing is invented, duplicated or reordered. |
| BufferStage.RunLosesNothing | main.go:108-131 | When no stretch of arrivals between ticks overflows the capacity, the forwarded values followed by the final window equal the starting window followed by all arrivals. |
| BufferStage.RunSingleTick | main.go:121-126 | Unfolding of `Run` on a single event, used by `SingleWindow`: a lone tick forwards the whole window and leaves the buffer empty. |
| BufferStage.HandleEvent | main.go:110-126 | One pass of the select over a real buffer object: it sends and leaves what `Step` says. |
| BufferStage.RunBufferStage | main.go:108-131 | The loop of `bufferStage` over a `RingBuffer` object forwards exactly `Run(...).0` and leaves the buffer holding `Run(...).1`. |
| Wiring.SinkReceives | main.go:133-159 | For any interleaving of ticks with the filtered values, the sink receives a subsequence of the values that pass both filters. Every received value was input and satisfies `v >= 0 && v % 3 == 0`. |
| Wiring.EndToEnd | main.go:133-159 | The input integers 4, -1, 9, 6 followed by one tick deliver exactly 9 then 6 to the sink. |

## Left out

- Goroutines, channels, `select` and the `done` cancellation channel (main.go:60-159). Their point is concurrent scheduling and nondeterministic races, so each stage is modelled as a sequential function over its inputs. The cancellation race, where a value is lost when `done` wins, is not modelled.
- `sync.Mutex` locking (main.go:18, 26-27, 42-43, 53-54). In a sequential model it has no effect, and neither does the emptiness check before the lock in `Pop` and `Get`.
- The drain interval and `time.After` (main.go:16, 113). Wall-clock time is not modelled, and the constructor takes no interval. `time.After` is called afresh on every pass of the `select`, so each arrival restarts the countdown, and a flush happens only after `drainInterval` passes with no arrival; input that keeps arriving faster than that is never flushed and only slides the window. The model lets a `Tick` fall between any two events, which over-approximates this: the lemmas quantified over all event sequences (`RunKeepsOrder`, `RunLosesNothing`, `SinkReceives`) cover every schedule the timer allows, but nothing in the model says when a flush is guaranteed to happen.
- Buffer.RingBuffer.constructor: the capacity is a `nat`, so negative capacities are not modelled; for those `make` at main.go:22 panics.
- Standard input scanning, the `exit` token, `strconv.Atoi` parsing and every `log.Println` (main.go:60-76, 85, 100, 136-154). These are I/O and library code, which is not part of this model. The input stage is represented only by the integers it produces.
- The commented-out Pop-based drain loop (main.go:114-120). It is dead code.
- Buffer.RingBuffer.Get: the source returns a slice that aliases the buffer's array. The model returns a snapshot taken at the call. The two agree because `bufferStage` sends the whole batch before it can push again.
- Buffer.RingBuffer.Push: requires `size >= 1`. With capacity 0, the source writes `array[-1]` and panics. The constructor does accept capacity 0, as `make([]int, 0)` does.
- Filters.GoRem: states only the range and sign of Go's remainder, not the full identity `a == (a/b)*b + a%b`. `MultipleOfThreeIff` gives the divisibility fact the filter needs.
- Go's `int` (32 or 64 bits, by platform) is modelled as an unbounded integer. Values pass through unchanged and are only compared, and the cursor is bounded by the capacity, so no overflow arises.
