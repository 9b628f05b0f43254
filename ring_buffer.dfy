/** The buffer the buffering stage collects values in (main.go:13-58).
    Despite its name it does not wrap around: it is a fixed-capacity window
    over an array whose live part is slots[0..pos], oldest first, with
    pos == -1 meaning empty. */
module Buffer {
  import opened Sequences
  import Window

  class RingBuffer {
    // the backing array and its capacity, fixed at construction
    const slots: array<int>
    const size: nat
    // index of the most recently written element, -1 when empty
    var pos: int
    // public view: the values held, oldest first
    ghost var contents: seq<int>

    /** The object invariant: the cursor stays within the array and the
        live part of the array is the public view. */
    ghost predicate Valid()
      reads this, slots
    {
      && slots.Length == size
      && -1 <= pos <= size - 1
      && |contents| == pos + 1
      && contents == slots[..pos + 1]
    }

    /** NewRingBuffer: a buffer of the given capacity starts empty. */
    constructor (size: nat)
      ensures Valid() && fresh(slots)
      ensures this.size == size && pos == -1 && contents == []
    {
      this.slots := new int[size];
      this.size := size;
      this.pos := -1;
      this.contents := [];
    }

    /** Insert e. When the buffer is full every element moves one place to
        the left first, which discards the oldest. */
    method Push(e: int)
      requires Valid() && size >= 1
      modifies this, slots
      ensures Valid()
      ensures contents == Window.Slide(old(contents), e, size)
      ensures old(pos) < size - 1 ==> pos == old(pos) + 1 && contents == old(contents) + [e]
      ensures old(pos) == size - 1 ==> pos == old(pos) && contents == old(contents)[1..] + [e]
      ensures forall k :: pos < k < size ==> slots[k] == old(slots[k])
    {
      ghost var held := contents;
      if pos == size - 1 {
        ShiftLeft();
        assert slots[..size - 1] == held[1..];
      } else {
        pos := pos + 1;
      }
      slots[pos] := e;
      contents := Window.Slide(held, e, size);
      assert contents == slots[..pos + 1];
    }

    /** The loop of Push that moves slots[1..size-1] one place to the left. */
    method ShiftLeft()
      requires slots.Length == size && size >= 1
      modifies slots
      ensures forall k :: 0 <= k < size - 1 ==> slots[k] == old(slots[k + 1])
      ensures slots[size - 1] == old(slots[size - 1])
    {
      var i := 1;
      while i < size
        invariant 1 <= i <= size
        invariant forall k :: 0 <= k < i - 1 ==> slots[k] == old(slots[k + 1])
        invariant forall k :: i - 1 <= k < size ==> slots[k] == old(slots[k])
      {
        slots[i - 1] := slots[i];
        i := i + 1;
      }
    }

    /** Remove and return the most recently inserted element; on an empty
        buffer return (0, false) and change nothing. */
    method Pop() returns (v: int, ok: bool)
      requires Valid()
      modifies this
      ensures Valid()
      ensures ok <==> old(contents) != []
      ensures !ok ==> v == 0 && pos == old(pos) && contents == old(contents)
      ensures ok ==> && v == old(contents)[|old(contents)| - 1]
                     && contents == old(contents)[..|old(contents)| - 1]
                     && pos == old(pos) - 1
    {
      if pos < 0 {
        return 0, false;
      }
      v := slots[pos];
      pos := pos - 1;
      contents := contents[..|contents| - 1];
      ok := true;
    }

    /** Drain: return everything held, oldest first, and reset to empty; on
        an empty buffer return None (Go's nil) and change nothing. The
        result is a snapshot of slots[0..pos]. */
    method Get() returns (r: Option<seq<int>>)
      requires Valid()
      modifies this
      ensures Valid()
      ensures old(contents) == [] ==> r == None && pos == old(pos) && contents == old(contents)
      ensures old(contents) != [] ==> r == Some(old(contents)) && pos == -1 && contents == []
    {
      if pos < 0 {
        return None;
      }
      r := Some(slots[..pos + 1]);
      pos := -1;
      contents := [];
    }
  }

  /** What callers can rely on from the contracts alone: below capacity, a
      Push followed by a Pop gives back the pushed value and restores the
      previous contents. */
  method PushThenPop(b: RingBuffer, e: int) returns (v: int, ok: bool)
    requires b.Valid() && |b.contents| < b.size
    modifies b, b.slots
    ensures b.Valid()
    ensures ok && v == e && b.contents == old(b.contents)
  {
    b.Push(e);
    v, ok := b.Pop();
  }
}
