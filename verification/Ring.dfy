/**
  The bounded ring buffers: StreamQueue in Environment.cpp (six slots) and PQueue in 4x4/C_4x4.cpp.  The waits
  under the mutex become preconditions: a method is entered when its wait is over.
 */
module Ring {

  datatype Option<T> = None | Some(value: T)

  /** Slot number i behind head, of `cap` slots. */
  function Slot(head: nat, i: nat, cap: nat): (k: nat)
    requires head < cap && i <= cap
    ensures k < cap
  {
    if head + i < cap then head + i else head + i - cap
  }

  lemma SlotIsMod(head: nat, i: nat, cap: nat)
    requires head < cap && i <= cap
    ensures Slot(head, i, cap) == (head + i) % cap
  {
    if head + i >= cap {
      var r := head + i - cap;
      ModSmall(if r < cap then r else r - cap, cap, if r < cap then 1 else 2);
    } else {
      ModSmall(head + i, cap, 0);
    }
  }

  lemma {:induction false} ModSmall(r: nat, cap: nat, q: nat)
    requires r < cap && q <= 2
    ensures (r + q * cap) % cap == r
  {
    assert (r + q * cap) / cap == q;
  }

  class Queue<T(0)> {
    const slots: array<T>
    var head: nat
    var tail: nat
    var count: nat
    var closed: bool

    ghost predicate Valid()
      reads this
    {
      && 0 < slots.Length && head < slots.Length && count <= slots.Length
      && tail == Slot(head, count, slots.Length)
    }

    ghost function Contents(): (s: seq<T>)
      requires Valid()
      reads this, slots
      ensures |s| == count
    {
      seq(count, i requires 0 <= i < count && Valid() reads this, slots => slots[Slot(head, i, slots.Length)])
    }

    constructor (cap: nat)
      requires 0 < cap
      ensures Valid() && Contents() == [] && !closed && slots.Length == cap && fresh(slots)
    {
      slots := new T[cap];
      head, tail, count, closed := 0, 0, 0, false;
    }

    /** sq_push and put, once there is room. */
    method Push(x: T)
      requires Valid() && count < slots.Length
      modifies this, slots
      ensures Valid() && Contents() == old(Contents()) + [x] && closed == old(closed)
    {
      ghost var was := Contents();
      SlotIsMod(tail, 1, slots.Length);
      slots[tail] := x;
      tail := (tail + 1) % slots.Length;
      count := count + 1;
      assert Contents() == was + [x];
    }

    /** sq_pop and get, once there is an item or the queue is closed: nothing only when closed and drained. */
    method Pop() returns (r: Option<T>)
      requires Valid() && (count > 0 || closed)
      modifies this
      ensures Valid() && closed == old(closed)
      ensures
        if old(Contents()) == [] then r == None && Contents() == []
        else r == Some(old(Contents())[0]) && Contents() == old(Contents())[1..]
    {
      ghost var was := Contents();
      if count == 0 {
        r := None;
      } else {
        r := Some(slots[head]);
        SlotIsMod(head, 1, slots.Length);
        head := (head + 1) % slots.Length;
        count := count - 1;
        assert Contents() == was[1..];
      }
    }

    method Close()
      requires Valid()
      modifies this`closed
      ensures Valid() && closed && Contents() == old(Contents())
    {
      closed := true;
    }
  }
}
