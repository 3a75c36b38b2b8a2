/**
 * The bounded buffer of exp-2-parallel-file-search/main.c: a fixed-size ring
 * of task pointers with an `in` cursor (next slot to write) and an `out`
 * cursor (next slot to read), both taken modulo `size`.
 *
 * The two counting semaphores are a free-slot count (`empty`) and a
 * filled-slot count (`full`); here they are integer fields, and waiting on
 * one becomes a precondition that it is positive.  The binary `mutex` only
 * serialises the two operations and has no sequential counterpart.
 */
module RingBuffer {
  import opened CText

  /** An item of the buffer: a file path, or the NULL pointer that tells a controller to stop. */
  datatype Task = Sentinel | Path(path: Text)

  /** Position `x` of a ring of `n` slots, for 0 <= x < 2n: one wrap at most. */
  function Wrap(x: int, n: int): int {
    if x < n then x else x - n
  }

  /** The cursor update `(x) % size` of the C code is Wrap on the values it sees. */
  lemma ModSmall(x: int, n: int)
    requires 0 < n && 0 <= x < 2 * n
    ensures x % n == Wrap(x, n)
  {
    if x >= n {
      assert x == 1 * n + (x - n);
    }
  }

  class Buffer {
    /** `buffer->array`: one slot per capacity unit. */
    var slots: array<Task>
    /** `buffer->in`: where the next put writes. */
    var inCursor: int
    /** `buffer->out`: where the next read reads. */
    var outCursor: int
    /** `buffer->size`: the capacity. */
    var size: int
    /** The `empty` semaphore: slots free to put into. */
    var empty: int
    /** The `full` semaphore: slots holding an item. */
    var full: int
    /** The items resident in the buffer, oldest first. */
    ghost var contents: seq<Task>

    ghost predicate Valid()
      reads this, slots
    {
      && slots.Length == size
      && 1 <= size
      && 0 <= inCursor < size
      && 0 <= outCursor < size
      && |contents| <= size
      && inCursor == Wrap(outCursor + |contents|, size)
      && full == |contents| && empty == size - |contents|
      && forall k :: 0 <= k < |contents| ==> contents[k] == slots[Wrap(outCursor + k, size)]
    }

    /**
     * create_buffer(size).  A size of 0 starts the `empty` semaphore at 0, so
     * the first put_buffer waits for ever (ZeroCapacityBlocks); the model
     * builds only buffers that can take an item.
     */
    constructor (capacity: int)
      requires 1 <= capacity
      ensures Valid() && fresh(slots)
      ensures size == capacity && inCursor == 0 && outCursor == 0
      ensures contents == [] && empty == capacity && full == 0
    {
      slots := new Task[capacity];
      inCursor, outCursor, size := 0, 0, capacity;
      empty, full := capacity, 0;
      contents := [];
    }

    /** put_buffer(buffer, value), called once `empty` admits it. */
    method Put(value: Task)
      requires Valid() && empty > 0
      modifies this`inCursor, this`empty, this`full, this`contents, slots
      ensures Valid()
      ensures slots[old(inCursor)] == value
      ensures forall k :: 0 <= k < slots.Length && k != old(inCursor) ==> slots[k] == old(slots[k])
      ensures inCursor == (old(inCursor) + 1) % size && outCursor == old(outCursor)
      ensures contents == old(contents) + [value]
      ensures full == old(full) + 1 && empty == old(empty) - 1
    {
      ghost var i0 := inCursor;
      slots[inCursor] := value;
      ModSmall(i0 + 1, size);
      inCursor := (inCursor + 1) % size;
      contents := contents + [value];
      empty, full := empty - 1, full + 1;
    }

    /** read_buffer(buffer), called once `full` admits it. */
    method Get() returns (item: Task)
      requires Valid() && full > 0
      modifies this`outCursor, this`empty, this`full, this`contents
      ensures Valid()
      ensures item == slots[old(outCursor)]
      ensures outCursor == (old(outCursor) + 1) % size && inCursor == old(inCursor)
      ensures item == old(contents)[0] && contents == old(contents)[1..]
      ensures full == old(full) - 1 && empty == old(empty) + 1
    {
      ghost var o0 := outCursor;
      assert contents[0] == slots[o0];
      item := slots[outCursor];
      ModSmall(o0 + 1, size);
      outCursor := (outCursor + 1) % size;
      contents := contents[1..];
      empty, full := empty + 1, full - 1;
      forall k | 0 <= k < |contents|
        ensures contents[k] == slots[Wrap(outCursor + k, size)]
      {
        assert contents[k] == old(contents)[k + 1];
      }
    }
  }

  /** One buffer operation by some thread. */
  datatype Op = PutOp(value: Task) | GetOp

  /**
   * The semaphores would let `ops` run without blocking from `filled`
   * resident items in a buffer of capacity `capacity`.
   */
  ghost predicate Admissible(filled: int, capacity: int, ops: seq<Op>)
    decreases |ops|
  {
    |ops| == 0 ||
    match ops[0]
    case PutOp(_) => filled < capacity && Admissible(filled + 1, capacity, ops[1..])
    case GetOp => filled > 0 && Admissible(filled - 1, capacity, ops[1..])
  }

  /** In a buffer of capacity 0 no put and no get can ever go ahead: the searcher's first put hangs. */
  lemma ZeroCapacityBlocks(ops: seq<Op>)
    ensures Admissible(0, 0, ops) <==> ops == []
  {
  }

  /** The values put by `ops`, in order. */
  function Puts(ops: seq<Op>): (r: seq<Task>)
    ensures |r| <= |ops|
  {
    if |ops| == 0 then []
    else (if ops[0].PutOp? then [ops[0].value] else []) + Puts(ops[1..])
  }

  lemma PutsAppend(ops: seq<Op>, op: Op)
    ensures Puts(ops + [op]) == Puts(ops) + (if op.PutOp? then [op.value] else [])
  {
    if |ops| > 0 {
      assert (ops + [op])[1..] == ops[1..] + [op];
    } else {
      assert (ops + [op])[1..] == [];
    }
  }

  /** One operation on the buffer: a put appends its value, a get hands out the oldest item. */
  method Apply(b: Buffer, op: Op) returns (got: seq<Task>)
    requires b.Valid() && (op.PutOp? ==> b.full < b.size) && (op.GetOp? ==> b.full > 0)
    modifies b, b.slots
    ensures b.Valid() && b.slots == old(b.slots) && b.size == old(b.size)
    ensures got + b.contents == old(b.contents) + (if op.PutOp? then [op.value] else [])
    ensures b.full == old(b.full) + (if op.PutOp? then 1 else -1)
  {
    if op.PutOp? {
      b.Put(op.value);
      got := [];
    } else {
      var x := b.Get();
      got := [x];
      assert old(b.contents) == [x] + b.contents;
    }
  }

  /**
   * Runs a sequence of operations that the semaphores admit: the buffer
   * never holds more than its capacity, and the items returned, followed by
   * those still resident, are the items that were resident plus the items
   * put, in put order (FIFO).
   */
  method Drive(b: Buffer, ops: seq<Op>) returns (got: seq<Task>)
    requires b.Valid() && Admissible(b.full, b.size, ops)
    modifies b, b.slots
    ensures b.Valid() && b.slots == old(b.slots) && b.size == old(b.size)
    ensures got + b.contents == old(b.contents) + Puts(ops)
    ensures 0 <= b.full <= b.size
  {
    got := [];
    var i := 0;
    while i < |ops|
      invariant 0 <= i <= |ops|
      invariant b.Valid() && b.slots == old(b.slots) && b.size == old(b.size)
      invariant Admissible(b.full, b.size, ops[i..])
      invariant got + b.contents == old(b.contents) + Puts(ops[..i])
    {
      var op := ops[i];
      ghost var c0 := b.contents;
      ghost var put := if op.PutOp? then [op.value] else [];
      assert ops[i..][0] == op && ops[i..][1..] == ops[i + 1..];
      assert ops[..i + 1] == ops[..i] + [op];
      PutsAppend(ops[..i], op);
      var x := Apply(b, op);
      assert (got + x) + b.contents == got + (c0 + put) == (got + c0) + put;
      got := got + x;
      i := i + 1;
    }
    assert ops[..i] == ops;
  }
}
