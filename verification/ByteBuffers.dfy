/** The client's byte buffer for building and reading binary messages. */
module ByteBuffers {
  import opened Wrappers
  import opened BigEndian

  /** One typed value written to or read from a buffer; raw bytes are read back one `read_u8` at a time. */
  datatype Item = U8(b: byte) | U16(h: int) | U32(w: int) | Raw(bytes: seq<byte>)

  /** What is asked for when reading. */
  datatype Kind = OfU8 | OfU16 | OfU32 | OfRaw(count: nat)

  predicate IsItem(item: Item) {
    match item
    case U16(h) => 0 <= h < 0x1_0000
    case U32(w) => 0 <= w < 0x1_0000_0000
    case _ => true
  }

  function KindOf(item: Item): Kind {
    match item
    case U8(_) => OfU8
    case U16(_) => OfU16
    case U32(_) => OfU32
    case Raw(bytes) => OfRaw(|bytes|)
  }

  function SizeOf(kind: Kind): nat {
    match kind
    case OfU8 => 1
    case OfU16 => 2
    case OfU32 => 4
    case OfRaw(n) => n
  }

  function Encode(item: Item): seq<byte> {
    match item
    case U8(b) => [b]
    case U16(h) => Bytes16(h)
    case U32(w) => Bytes32(w)
    case Raw(bytes) => bytes
  }

  function EncodeAll(items: seq<Item>): seq<byte> {
    if items == [] then [] else Encode(items[0]) + EncodeAll(items[1..])
  }

  datatype Taken = Taken(item: Option<Item>, rest: seq<byte>)

  /** A typed read from the unread bytes: it fails, taking nothing, exactly when too few are left. */
  function Take(unread: seq<byte>, kind: Kind): Taken {
    if |unread| < SizeOf(kind) then Taken(None, unread)
    else
      var now, rest := unread[..SizeOf(kind)], unread[SizeOf(kind)..];
      match kind
      case OfU8 => Taken(Some(U8(now[0])), rest)
      case OfU16 => Taken(Some(U16(Unsigned16(now))), rest)
      case OfU32 => Taken(Some(U32(Unsigned32(now))), rest)
      case OfRaw(_) => Taken(Some(Raw(now)), rest)
  }

  class ByteBuffer {
    var data: seq<byte>
    var readPos: nat

    ghost predicate Valid()
      reads this
    {
      readPos <= |data|
    }

    ghost function Unread(): seq<byte>
      reads this
      requires Valid()
    {
      data[readPos..]
    }

    constructor (bytes: seq<byte>)
      ensures Valid() && data == bytes && Unread() == bytes
    {
      data, readPos := bytes, 0;
    }

    method WriteU8(b: byte)
      requires Valid()
      modifies this
      ensures Valid() && data == old(data) + [b] && Unread() == old(Unread()) + Encode(U8(b))
    {
      data := data + [b];
    }

    method WriteU16Be(h: int)
      requires Valid() && IsItem(U16(h))
      modifies this
      ensures Valid() && Unread() == old(Unread()) + Encode(U16(h))
      ensures data == old(data) + [h / 0x100, h % 0x100]
    {
      data := data + [h / 0x100 % 0x100];
      data := data + [h % 0x100];
    }

    method WriteU32Be(w: int)
      requires Valid() && IsItem(U32(w))
      modifies this
      ensures Valid() && Unread() == old(Unread()) + Encode(U32(w))
      ensures data == old(data) + [w / 0x100_0000, w / 0x1_0000 % 0x100, w / 0x100 % 0x100, w % 0x100]
    {
      data := data + [w / 0x100_0000 % 0x100];
      data := data + [w / 0x1_0000 % 0x100];
      data := data + [w / 0x100 % 0x100];
      data := data + [w % 0x100];
    }

    method WriteBytes(src: seq<byte>)
      requires Valid()
      modifies this
      ensures Valid() && data == old(data) + src && Unread() == old(Unread()) + Encode(Raw(src))
    {
      data := data + src;
    }

    /** Whether n more bytes can be read; where they cannot, the C++ method throws. */
    predicate CheckReadable(n: nat)
      reads this
    {
      readPos + n <= |data|
    }

    method ReadU8() returns (b: Option<byte>)
      requires Valid()
      modifies this
      ensures Valid() && data == old(data)
      ensures var t := Take(old(Unread()), OfU8);
        Unread() == t.rest && (if b.None? then t.item == None else t.item == Some(U8(b.value)))
      ensures var u := old(Unread());
        if |u| < 1 then b == None && Unread() == u else b == Some(u[0]) && Unread() == u[1..]
    {
      if !CheckReadable(1) {
        return None;
      }
      b := Some(data[readPos]);
      readPos := readPos + 1;
    }

    method ReadU16Be() returns (h: Option<int>)
      requires Valid()
      modifies this
      ensures Valid() && data == old(data)
      ensures var t := Take(old(Unread()), OfU16);
        Unread() == t.rest && (if h.None? then t.item == None else t.item == Some(U16(h.value)))
      ensures var u := old(Unread());
        if |u| < 2 then h == None && Unread() == u else h == Some(0x100 * (u[0] as int) + u[1] as int) && Unread() == u[2..]
    {
      if !CheckReadable(2) {
        return None;
      }
      h := Some((data[readPos] as int) * 0x100 + data[readPos + 1] as int);
      readPos := readPos + 2;
    }

    method ReadU32Be() returns (w: Option<int>)
      requires Valid()
      modifies this
      ensures Valid() && data == old(data)
      ensures var t := Take(old(Unread()), OfU32);
        Unread() == t.rest && (if w.None? then t.item == None else t.item == Some(U32(w.value)))
      ensures var u := old(Unread());
        if |u| < 4 then w == None && Unread() == u
        else w == Some(0x100_0000 * (u[0] as int) + 0x1_0000 * (u[1] as int) + 0x100 * (u[2] as int) + u[3] as int)
             && Unread() == u[4..]
    {
      if !CheckReadable(4) {
        return None;
      }
      w := Some((data[readPos] as int) * 0x100_0000 + (data[readPos + 1] as int) * 0x1_0000
                + (data[readPos + 2] as int) * 0x100 + data[readPos + 3] as int);
      readPos := readPos + 4;
    }

    method Remaining() returns (n: nat)
      requires Valid()
      ensures n == |Unread()|
    {
      n := |data| - readPos;
    }
  }

  // ---- the buffer is a first-in first-out queue of typed values ----

  /** Raw bytes really are what that many one-byte reads return. */
  lemma {:induction false} RawIsRepeatedU8(unread: seq<byte>, n: nat)
    requires 0 < n <= |unread|
    ensures var first := Take(unread, OfU8); var others := Take(first.rest, OfRaw(n - 1));
      && others.item.Some? && first.item.Some?
      && Take(unread, OfRaw(n)) == Taken(Some(Raw([first.item.value.b] + others.item.value.bytes)), others.rest)
  {
    assert unread[..n] == [unread[0]] + unread[1..][..n - 1];
    assert unread[n..] == unread[1..][n - 1..];
  }

  lemma TakeOfEncoded(item: Item, more: seq<byte>)
    requires IsItem(item)
    ensures Take(Encode(item) + more, KindOf(item)) == Taken(Some(item), more)
  {
    var unread, n := Encode(item) + more, SizeOf(KindOf(item));
    assert unread[..n] == Encode(item) && unread[n..] == more;
    match item {
      case U16(h) => Bytes16RoundTrip(h, []);
      case U32(w) => Bytes32RoundTrip(w);
      case _ =>
    }
  }

  /** A program of writes and reads, in any order. */
  datatype Op = Put(item: Item) | Get(kind: Kind)

  /** What the reads of a program return, on the bytes. */
  function ReadsOnBytes(unread: seq<byte>, ops: seq<Op>): seq<Option<Item>>
    decreases |ops|
  {
    if ops == [] then []
    else
      match ops[0]
      case Put(item) => ReadsOnBytes(unread + Encode(item), ops[1..])
      case Get(kind) =>
        var t := Take(unread, kind);
        [t.item] + ReadsOnBytes(t.rest, ops[1..])
  }

  /** What they would return if the buffer were a queue of the values themselves. */
  function ReadsOnQueue(queue: seq<Item>, ops: seq<Op>): seq<Option<Item>>
    decreases |ops|
  {
    if ops == [] then []
    else
      match ops[0]
      case Put(item) => ReadsOnQueue(queue + [item], ops[1..])
      case Get(kind) =>
        if queue == [] then [None] + ReadsOnQueue(queue, ops[1..])
        else [Some(queue[0])] + ReadsOnQueue(queue[1..], ops[1..])
  }

  /** Every write is in range, and every read that finds a value waiting asks for its type. */
  ghost predicate WellTyped(queue: seq<Item>, ops: seq<Op>)
    decreases |ops|
  {
    ops == [] ||
    match ops[0]
    case Put(item) => IsItem(item) && WellTyped(queue + [item], ops[1..])
    case Get(kind) =>
      if queue == [] then SizeOf(kind) > 0 && WellTyped(queue, ops[1..])
      else kind == KindOf(queue[0]) && WellTyped(queue[1..], ops[1..])
  }

  lemma EncodeAllFirst(first: Item, rest: seq<Item>)
    ensures EncodeAll([first] + rest) == Encode(first) + EncodeAll(rest)
  {
    assert ([first] + rest)[1..] == rest;
  }

  lemma {:induction false} EncodeAllAppend(items: seq<Item>, item: Item)
    ensures EncodeAll(items + [item]) == EncodeAll(items) + Encode(item)
  {
    if items == [] {
      assert [item][1..] == [] && [] + [item] == [item];
    } else {
      var first, rest := items[0], items[1..];
      EncodeAllAppend(rest, item);
      hide EncodeAll;
      assert items == [first] + rest;
      Assoc([first], rest, [item]);
      EncodeAllFirst(first, rest);
      EncodeAllFirst(first, rest + [item]);
      Assoc(Encode(first), EncodeAll(rest), Encode(item));
    }
  }

  /** On every well-typed program, however writes and reads alternate, the bytes behave as the queue does. */
  lemma {:induction false} BytesRefineQueue(queue: seq<Item>, ops: seq<Op>)
    requires WellTyped(queue, ops) && AllItems(queue)
    ensures ReadsOnBytes(EncodeAll(queue), ops) == ReadsOnQueue(queue, ops)
    decreases |ops|
  {
    hide Encode, IsItem;
    if ops != [] {
      match ops[0] {
        case Put(item) =>
          EncodeAllAppend(queue, item);
          BytesRefineQueue(queue + [item], ops[1..]);
        case Get(kind) =>
          if queue == [] {
            BytesRefineQueue(queue, ops[1..]);
          } else {
            TakeOfEncoded(queue[0], EncodeAll(queue[1..]));
            BytesRefineQueue(queue[1..], ops[1..]);
          }
      }
    }
  }

  /** Writes one value with the method of its type. */
  method Write(buffer: ByteBuffer, item: Item)
    requires buffer.Valid() && IsItem(item)
    modifies buffer
    ensures buffer.Valid() && buffer.Unread() == old(buffer.Unread()) + Encode(item)
  {
    match item {
      case U8(b) => buffer.WriteU8(b);
      case U16(h) => buffer.WriteU16Be(h);
      case U32(w) => buffer.WriteU32Be(w);
      case Raw(bytes) => buffer.WriteBytes(bytes);
    }
  }

  /** Reads n bytes one at a time, on a buffer that holds enough of them or none at all. */
  method ReadRaw(buffer: ByteBuffer, n: nat) returns (item: Option<Item>)
    requires buffer.Valid() && (n <= |buffer.Unread()| || buffer.Unread() == [])
    modifies buffer
    ensures buffer.Valid()
    ensures var t := Take(old(buffer.Unread()), OfRaw(n)); item == t.item && buffer.Unread() == t.rest
    ensures var u := old(buffer.Unread());
      if |u| < n then item == None && buffer.Unread() == u else item == Some(Raw(u[..n])) && buffer.Unread() == u[n..]
  {
    ghost var unread := buffer.Unread();
    var bytes := [];
    hide Take, ReadSoFar;
    NoneSoFar(unread);
    for i := 0 to n
      invariant buffer.Valid() && ReadSoFar(unread, i, bytes, buffer.Unread())
    {
      OneByteMore(unread, i, bytes, buffer.Unread());
      var b := buffer.ReadU8();
      if b.None? {
        TakeRaw(unread, n);
        return None;
      }
      bytes := bytes + [b.value];
    }
    TakeRaw(unread, n);
    BytesSoFar(unread, n, bytes, buffer.Unread());
    item := Some(Raw(bytes));
  }

  /** These first i bytes have been read and the rest has not. */
  ghost predicate ReadSoFar(unread: seq<byte>, i: nat, bytes: seq<byte>, rest: seq<byte>) {
    i <= |unread| && bytes == unread[..i] && rest == unread[i..]
  }

  lemma NoneSoFar(unread: seq<byte>)
    ensures ReadSoFar(unread, 0, [], unread)
  {
  }

  lemma OneByteMore(unread: seq<byte>, i: nat, bytes: seq<byte>, rest: seq<byte>)
    requires ReadSoFar(unread, i, bytes, rest)
    ensures if rest == [] then |unread| == i && (i == 0 <==> unread == [])
            else ReadSoFar(unread, i + 1, bytes + [rest[0]], rest[1..])
  {
  }

  lemma BytesSoFar(unread: seq<byte>, n: nat, bytes: seq<byte>, rest: seq<byte>)
    requires ReadSoFar(unread, n, bytes, rest)
    ensures n <= |unread| && bytes == unread[..n] && rest == unread[n..]
  {
  }

  lemma TakeRaw(unread: seq<byte>, n: nat)
    ensures Take(unread, OfRaw(n)) == if |unread| < n then Taken(None, unread) else Taken(Some(Raw(unread[..n])), unread[n..])
  {
  }

  /** Reads one value with the method of its type. */
  method Read(buffer: ByteBuffer, kind: Kind) returns (item: Option<Item>)
    requires buffer.Valid() && (SizeOf(kind) <= |buffer.Unread()| || buffer.Unread() == [])
    modifies buffer
    ensures buffer.Valid()
    ensures var t := Take(old(buffer.Unread()), kind); item == t.item && buffer.Unread() == t.rest
  {
    match kind {
      case OfU8 =>
        var b := buffer.ReadU8();
        item := if b.None? then None else Some(U8(b.value));
      case OfU16 =>
        var h := buffer.ReadU16Be();
        item := if h.None? then None else Some(U16(h.value));
      case OfU32 =>
        var w := buffer.ReadU32Be();
        item := if w.None? then None else Some(U32(w.value));
      case OfRaw(n) =>
        item := ReadRaw(buffer, n);
    }
  }

  /** The values still waiting after a program. */
  function QueueAfter(queue: seq<Item>, ops: seq<Op>): seq<Item>
    decreases |ops|
  {
    if ops == [] then queue
    else
      match ops[0]
      case Put(item) => QueueAfter(queue + [item], ops[1..])
      case Get(_) => QueueAfter(if queue == [] then [] else queue[1..], ops[1..])
  }

  ghost predicate AllItems(queue: seq<Item>) {
    forall i :: 0 <= i < |queue| ==> IsItem(queue[i])
  }

  /** The operation fits the values waiting: a value in range, or the type of the first that waits. */
  predicate Fits(waiting: seq<Item>, op: Op) {
    match op
    case Put(item) => IsItem(item)
    case Get(kind) => if waiting == [] then SizeOf(kind) > 0 else kind == KindOf(waiting[0])
  }

  function Left(waiting: seq<Item>, op: Op): seq<Item> {
    match op
    case Put(item) => waiting + [item]
    case Get(_) => if waiting == [] then [] else waiting[1..]
  }

  function Returned(waiting: seq<Item>, op: Op): seq<Option<Item>> {
    match op
    case Put(_) => []
    case Get(_) => [if waiting == [] then None else Some(waiting[0])]
  }

  /** Runs one operation. */
  method RunOne(buffer: ByteBuffer, op: Op, ghost waiting: seq<Item>) returns (out: seq<Option<Item>>)
    requires buffer.Valid() && buffer.Unread() == EncodeAll(waiting) && AllItems(waiting) && Fits(waiting, op)
    modifies buffer
    ensures out == Returned(waiting, op)
    ensures buffer.Valid() && buffer.Unread() == EncodeAll(Left(waiting, op))
  {
    hide Encode, IsItem, Take, AllItems, EncodeAll;
    match op {
      case Put(item) =>
        EncodeAllAppend(waiting, item);
        Write(buffer, item);
        out := [];
      case Get(kind) =>
        TakeOfWaiting(waiting, kind);
        var item := Read(buffer, kind);
        out := [item];
    }
  }

  /** The first i operations have returned this much and left these values waiting. */
  ghost predicate SoFar(queue: seq<Item>, ops: seq<Op>, i: nat, out: seq<Option<Item>>, waiting: seq<Item>) {
    && i <= |ops| && AllItems(waiting) && WellTyped(waiting, ops[i..])
    && out + ReadsOnQueue(waiting, ops[i..]) == ReadsOnQueue(queue, ops)
    && QueueAfter(waiting, ops[i..]) == QueueAfter(queue, ops)
  }

  lemma NothingSoFar(queue: seq<Item>, ops: seq<Op>)
    requires AllItems(queue) && WellTyped(queue, ops)
    ensures SoFar(queue, ops, 0, [], queue)
  {
    assert ops[0..] == ops;
    hide WellTyped, AllItems, ReadsOnQueue, QueueAfter;
    assert [] + ReadsOnQueue(queue, ops) == ReadsOnQueue(queue, ops);
  }

  lemma OneMoreSoFar(queue: seq<Item>, ops: seq<Op>, i: nat, out: seq<Option<Item>>, waiting: seq<Item>)
    requires SoFar(queue, ops, i, out, waiting) && i < |ops|
    ensures Fits(waiting, ops[i]) && AllItems(waiting)
    ensures SoFar(queue, ops, i + 1, out + Returned(waiting, ops[i]), Left(waiting, ops[i]))
  {
    assert ops[i..][0] == ops[i] && ops[i..][1..] == ops[i + 1..];
    OneOpMore(waiting, ops[i..]);
    hide WellTyped, AllItems, ReadsOnQueue, QueueAfter, Fits, Left, Returned;
    var later := ReadsOnQueue(Left(waiting, ops[i]), ops[i + 1..]);
    assert (out + Returned(waiting, ops[i])) + later == out + (Returned(waiting, ops[i]) + later);
  }

  lemma AllSoFar(queue: seq<Item>, ops: seq<Op>, out: seq<Option<Item>>, waiting: seq<Item>)
    requires SoFar(queue, ops, |ops|, out, waiting)
    ensures out == ReadsOnQueue(queue, ops) && waiting == QueueAfter(queue, ops)
  {
    assert ops[|ops|..] == [];
    NoMoreOps(waiting);
    hide WellTyped, AllItems, ReadsOnQueue, QueueAfter;
    assert out + [] == out;
  }

  /**
   * Runs a program of writes and reads on a buffer that holds these values: the reads return what the
   * queue of values returns, and the buffer holds what the queue is left with.
   */
  method RunOn(buffer: ByteBuffer, ops: seq<Op>, ghost queue: seq<Item>) returns (out: seq<Option<Item>>)
    requires buffer.Valid() && buffer.Unread() == EncodeAll(queue) && AllItems(queue) && WellTyped(queue, ops)
    modifies buffer
    ensures out == ReadsOnQueue(queue, ops) == ReadsOnBytes(old(buffer.Unread()), ops)
    ensures buffer.Valid() && buffer.Unread() == EncodeAll(QueueAfter(queue, ops))
  {
    BytesRefineQueue(queue, ops);
    NothingSoFar(queue, ops);
    hide SoFar, AllItems, EncodeAll, ReadsOnBytes, ReadsOnQueue, QueueAfter, WellTyped, Fits, Left, Returned;
    out := [];
    ghost var waiting := queue;
    var i := 0;
    while i < |ops|
      invariant 0 <= i <= |ops| && buffer.Valid() && buffer.Unread() == EncodeAll(waiting)
      invariant SoFar(queue, ops, i, out, waiting)
    {
      OneMoreSoFar(queue, ops, i, out, waiting);
      var returned := RunOne(buffer, ops[i], waiting);
      out := out + returned;
      waiting := Left(waiting, ops[i]);
      i := i + 1;
    }
    AllSoFar(queue, ops, out, waiting);
  }

  /** What the first operation of a program does to the queue and returns. */
  lemma OneOpMore(waiting: seq<Item>, ops: seq<Op>)
    requires ops != [] && AllItems(waiting) && WellTyped(waiting, ops)
    ensures Fits(waiting, ops[0])
    ensures AllItems(Left(waiting, ops[0])) && WellTyped(Left(waiting, ops[0]), ops[1..])
    ensures ReadsOnQueue(waiting, ops) == Returned(waiting, ops[0]) + ReadsOnQueue(Left(waiting, ops[0]), ops[1..])
    ensures QueueAfter(waiting, ops) == QueueAfter(Left(waiting, ops[0]), ops[1..])
  {
    assert forall j :: 1 <= j < |waiting| ==> waiting[1..][j - 1] == waiting[j];
  }

  lemma NoMoreOps(waiting: seq<Item>)
    ensures ReadsOnQueue(waiting, []) == [] && QueueAfter(waiting, []) == waiting
  {
  }

  /** A read of the type of the first waiting value finds it; one from an empty queue fails. */
  lemma TakeOfWaiting(waiting: seq<Item>, kind: Kind)
    requires AllItems(waiting) && (if waiting == [] then SizeOf(kind) > 0 else kind == KindOf(waiting[0]))
    ensures if waiting == [] then EncodeAll(waiting) == [] else SizeOf(kind) <= |EncodeAll(waiting)|
    ensures Take(EncodeAll(waiting), kind)
         == if waiting == [] then Taken(None, []) else Taken(Some(waiting[0]), EncodeAll(waiting[1..]))
  {
    if waiting != [] {
      TakeOfEncoded(waiting[0], EncodeAll(waiting[1..]));
    }
  }

  /** Reading everything back with the same types, one read per item. */
  function TakeAll(unread: seq<byte>, kinds: seq<Kind>): (r: (seq<Option<Item>>, seq<byte>)) {
    if kinds == [] then ([], unread)
    else
      var t := Take(unread, kinds[0]);
      var later := TakeAll(t.rest, kinds[1..]);
      ([t.item] + later.0, later.1)
  }

  function Kinds(items: seq<Item>): (k: seq<Kind>)
    ensures |k| == |items|
  {
    seq(|items|, i requires 0 <= i < |items| => KindOf(items[i]))
  }

  /** Writing any items and reading back with their types returns them all, in order, and leaves nothing unread. */
  lemma {:induction false} WriteThenReadBack(items: seq<Item>)
    requires forall i :: 0 <= i < |items| ==> IsItem(items[i])
    ensures var back := TakeAll(EncodeAll(items), Kinds(items));
      && |back.0| == |items| && (forall i :: 0 <= i < |items| ==> back.0[i] == Some(items[i]))
      && back.1 == []
  {
    hide Encode, IsItem, Take, KindOf;
    if items != [] {
      TakeOfEncoded(items[0], EncodeAll(items[1..]));
      WriteThenReadBack(items[1..]);
      assert Kinds(items)[1..] == Kinds(items[1..]);
    }
  }
}
