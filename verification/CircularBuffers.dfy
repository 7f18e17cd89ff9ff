/** The client's fixed-size ring buffer. */
module CircularBuffers {
  import opened Wrappers
  import opened Bounded

  /** The slots hold the last values pushed: from the first slot on until they are full, from the head on after that. */
  ghost predicate Holds<T>(slots: seq<T>, head: nat, size: nat, pushed: seq<T>) {
    && head < |slots| && size <= |slots|
    && size == |LastN(pushed, |slots|)|
    && (size < |slots| ==> head == size && slots[..size] == pushed)
    && (size == |slots| ==> Unrotated(slots, head) == LastN(pushed, |slots|))
  }

  lemma NothingHeld<T>(slots: seq<T>)
    requires slots != []
    ensures Holds(slots, 0, 0, [])
  {
  }

  lemma PushHolds<T>(slots: seq<T>, head: nat, size: nat, pushed: seq<T>, value: T)
    requires Holds(slots, head, size, pushed)
    ensures var next := Wrap(head + 1, |slots|);
      Holds(slots[head := value], next, if size < |slots| then size + 1 else size, pushed + [value])
  {
    hide Wrap;
    var after, capacity := slots[head := value], |slots|;
    LastNOfAppend(pushed, capacity, value);
    if size < capacity {
      hide Unrotated;
      assert after[..size + 1] == slots[..size] + [value];
      UnrotatedFromStart(after);
    } else {
      OverwriteOldest(slots, head, Wrap(head + 1, capacity), value);
      hide Unrotated;
    }
  }

  lemma OneMoreTaken<T>(kept: seq<T>, i: nat)
    requires i < |kept|
    ensures kept[..i] + [kept[i]] == kept[..i + 1]
  {
  }

  /** Where the i-th of the values held, oldest first, is to be found. */
  function Slot(head: nat, size: nat, capacity: nat, i: nat): (slot: nat)
    requires head < capacity && i < size <= capacity
    ensures slot < capacity
  {
    Wrap(head + capacity - size + i, capacity)
  }

  lemma SlotHolds<T>(slots: seq<T>, head: nat, size: nat, pushed: seq<T>, i: nat)
    requires Holds(slots, head, size, pushed) && i < size
    ensures head < |slots| && size == |LastN(pushed, |slots|)| <= |slots|
    ensures slots[Slot(head, size, |slots|, i)] == LastN(pushed, |slots|)[i]
  {
    hide Wrap;
    if size == |slots| {
      UnrotatedAt(slots, head, i);
      hide LastN, Unrotated;
    } else {
      assert slots[..size][i] == slots[i];
    }
  }

  class CircularBuffer<T(0)> {
    const capacity: nat
    const buf: array<T>
    var head: nat
    var size: nat
    /** Everything ever pushed. */
    ghost var pushed: seq<T>

    ghost predicate Valid()
      reads this, buf
    {
      1 <= capacity == buf.Length && Holds(buf[..], head, size, pushed)
    }

    constructor (capacity: nat)
      requires capacity >= 1
      ensures Valid() && this.capacity == capacity && pushed == [] && fresh(buf)
    {
      this.capacity := capacity;
      buf := new T[capacity];
      head, size, pushed := 0, 0, [];
      new;
      NothingHeld(buf[..]);
    }

    method Push(value: T)
      requires Valid()
      modifies this, buf
      ensures Valid() && pushed == old(pushed) + [value]
    {
      PushHolds(buf[..], head, size, pushed, value);
      var next := Wrap(head + 1, capacity);
      hide Holds, Wrap;
      ghost var slots := buf[..];
      buf[head] := value;
      assert buf[..] == slots[head := value];
      head := next;
      if size < capacity {
        size := size + 1;
      }
      pushed := pushed + [value];
    }

    /** The i-th of the values held, oldest first. */
    function At(i: nat): (value: T)
      requires Valid() && i < size
      reads this, buf
      ensures size == |LastN(pushed, capacity)| && value == LastN(pushed, capacity)[i]
    {
      SlotHolds(buf[..], head, size, pushed, i);
      buf[Slot(head, size, capacity, i)]
    }

    /** The most recent value; the C++ method throws when there is none. */
    method Latest() returns (value: Option<T>)
      requires Valid()
      ensures value == if pushed == [] then None else Some(pushed[|pushed| - 1])
    {
      if size == 0 {
        return None;
      }
      SlotHolds(buf[..], head, size, pushed, size - 1);
      var idx := Wrap(head + capacity - 1, capacity);
      assert idx == Slot(head, size, capacity, size - 1);
      hide Holds, Wrap, LastN, Slot;
      value := Some(buf[idx]);
    }

    method Size() returns (n: nat)
      requires Valid()
      ensures n == if |pushed| < capacity then |pushed| else capacity
    {
      n := size;
    }

    /** The last `capacity` values pushed, oldest first. */
    method ToVector() returns (out: seq<T>)
      requires Valid()
      ensures out == LastN(pushed, capacity)
    {
      ghost var kept := LastN(pushed, capacity);
      assert size == |kept|;
      hide Holds, LastN, At;
      out := [];
      for i := 0 to size
        invariant out == kept[..i]
      {
        OneMoreTaken(kept, i);
        out := out + [At(i)];
      }
    }
  }
}
