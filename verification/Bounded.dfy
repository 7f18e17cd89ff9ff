/** The specification every bounded log of the repository is held to: the last n entries of a history. */
module Bounded {

  function LastN<T>(s: seq<T>, n: nat): (r: seq<T>)
    ensures |r| == if |s| < n then |s| else n
    ensures forall i :: 0 <= i < |r| ==> r[i] == s[|s| - |r| + i]
  {
    if |s| <= n then s else s[|s| - n..]
  }

  /** Appending and cutting back only ever needs the entries already kept. */
  lemma LastNOfAppend<T>(s: seq<T>, n: nat, x: T)
    ensures LastN(s + [x], n) == LastN(LastN(s, n) + [x], n)
    ensures n > 0 ==> LastN(s + [x], n) == (if |s| < n then s else LastN(s, n)[1..]) + [x]
  {
    var kept := LastN(s, n);
    if |s| < n {
      assert kept == s;
    } else {
      DropOldest(s, n, x);
      hide LastN;
    }
  }

  lemma DropOldest<T>(s: seq<T>, n: nat, x: T)
    requires |s| >= n
    ensures LastN(LastN(s, n) + [x], n) == LastN(s + [x], n)
    ensures n > 0 ==> LastN(s + [x], n) == LastN(s, n)[1..] + [x]
  {
    var after, kept := LastN(s + [x], n), LastN(s, n);
    var again := LastN(kept + [x], n);
    hide LastN;
    assert |after| == n == |again|;
    assert forall i :: 0 <= i < n ==> after[i] == again[i];
    assert n > 0 ==> forall i :: 0 <= i < n - 1 ==> after[i] == s[|s| - n + 1 + i] == kept[1..][i];
  }

  /** Newest first for the listings, `list(reversed(rows))` for rows a query returned newest first. */
  function Reversed<T>(s: seq<T>): (r: seq<T>)
    ensures |r| == |s|
    ensures forall i :: 0 <= i < |s| ==> r[i] == s[|s| - 1 - i]
  {
    seq(|s|, i requires 0 <= i < |s| => s[|s| - 1 - i])
  }

  /** Python's `s[-limit:]` for any integer: the tail from limit, the whole list for 0, a dropped prefix for a negative one. */
  function TailSlice<T>(s: seq<T>, limit: int): seq<T> {
    if limit == 0 then s
    else if limit > 0 then LastN(s, limit)
    else if -limit <= |s| then s[-limit..] else []
  }

  /** The tail slice, index by index, for every limit. */
  lemma TailSliceExactly<T>(s: seq<T>, limit: int)
    ensures var r := TailSlice(s, limit);
      var start := if limit > |s| then 0
                   else if limit > 0 then |s| - limit
                   else if -limit > |s| then |s|
                   else -limit;
      |r| == |s| - start && forall i :: 0 <= i < |r| ==> r[i] == s[start + i]
  {
  }

  /** Oldest first: the slots from the head on, then the ones before it. */
  function Unrotated<T>(slots: seq<T>, head: nat): (r: seq<T>)
    requires head <= |slots|
    ensures |r| == |slots|
  {
    slots[head..] + slots[..head]
  }

  lemma UnrotatedFromStart<T>(slots: seq<T>)
    ensures Unrotated(slots, 0) == slots
  {
  }

  lemma UnrotatedAt<T>(slots: seq<T>, head: nat, i: nat)
    requires head <= |slots| && i < |slots|
    ensures Unrotated(slots, head)[i] == slots[if head + i < |slots| then head + i else head + i - |slots|]
  {
  }

  /** A slot index that may have run past the end once, taken modulo the size. */
  function Wrap(i: nat, size: nat): (slot: nat)
    requires i < 2 * size
    ensures slot == if i < size then i else i - size
  {
    i % size
  }

  lemma OverwriteOldest<T>(slots: seq<T>, head: nat, next: nat, value: T)
    requires head < |slots| && next == if head + 1 == |slots| then 0 else head + 1
    ensures Unrotated(slots[head := value], next) == Unrotated(slots, head)[1..] + [value]
  {
    var after := slots[head := value];
    if next == 0 {
      assert after == slots[..head] + [value];
    } else {
      assert after[next..] == slots[head..][1..];
      assert after[..next] == slots[..head] + [value];
    }
  }

  /** For limit >= 1 the listing is the newest min(limit, max, n) entries, newest first. */
  lemma RecentIsNewestFirst<T>(history: seq<T>, max: nat, limit: int, out: seq<T>)
    requires limit >= 1 && out == Reversed(TailSlice(LastN(history, max), limit))
    ensures |out| == (if limit <= max && limit <= |history| then limit else if max <= |history| then max else |history|)
    ensures forall i :: 0 <= i < |out| ==> out[i] == history[|history| - 1 - i]
  {
    var kept := LastN(history, max);
    var tail := LastN(kept, limit);
    assert out == Reversed(tail);
  }
}
