/** The TCP server's per-connection loop: newline framing, line handling and counting. */
module TcpFraming {
  import opened Wrappers
  import opened Splitting
  import opened TcpCounters

  type Bytes = seq<byte>

  const NEWLINE: byte := 10

  /** A reading as parsed from a line. */
  datatype Reading = Reading(sensorId: int, value: real, unit: string)

  /**
   * What parsing and storing line number n of a connection came to: a ValueError, a sensor that
   * does not exist, a stored reading, or an exception the loop does not catch.
   */
  datatype Outcome = BadLine | UnknownSensor | Stored(reading: Reading) | Uncaught

  /** The oracle of a connection: what each line, by its number and its bytes, comes to. */
  datatype Handler = Handler(outcome: (nat, Bytes) -> Outcome)

  /** One `recv`: the bytes it returned, or the exception it raised. */
  datatype Recv = Data(chunk: Bytes) | Broken

  /** `line.lstrip()`: the line without its leading blanks, tabs, line feeds, vertical tabs, form feeds and carriage returns. */
  function Stripped(line: Bytes): (rest: Bytes)
    ensures |rest| <= |line| && rest == line[|line| - |rest|..]
    ensures forall i :: 0 <= i < |line| - |rest| ==> line[i] == 32 || 9 <= line[i] <= 13
    ensures rest != [] ==> rest[0] != 32 && !(9 <= rest[0] <= 13)
  {
    if line != [] && (line[0] == 32 || 9 <= line[0] <= 13) then Stripped(line[1..]) else line
  }

  /** `not line.strip()`. */
  predicate Blank(line: Bytes) {
    Stripped(line) == []
  }

  lemma BlankIff(line: Bytes)
    ensures Blank(line) <==> forall i :: 0 <= i < |line| ==> line[i] == 32 || 9 <= line[i] <= 13
  {
    var rest := Stripped(line);
    assert rest != [] ==> line[|line| - |rest|] == rest[0];
  }

  // ---- framing, independent of chunks ----

  datatype Framed = Framed(lines: seq<Bytes>, rest: Bytes)

  /** The complete lines of a stream and the bytes after its last newline. */
  function Frame(stream: Bytes): Framed {
    var parts := Split(stream, NEWLINE);
    Framed(parts[..|parts| - 1], parts[|parts| - 1])
  }

  /** The server's state after one more chunk. */
  function Feed(state: Framed, chunk: Bytes): Framed {
    var next := Frame(state.rest + chunk);
    Framed(state.lines + next.lines, next.rest)
  }

  function FeedAll(chunks: seq<Bytes>): Framed {
    if chunks == [] then Framed([], []) else Feed(FeedAll(chunks[..|chunks| - 1]), chunks[|chunks| - 1])
  }

  function Flatten(chunks: seq<Bytes>): Bytes {
    if chunks == [] then [] else Flatten(chunks[..|chunks| - 1]) + chunks[|chunks| - 1]
  }

  /** Only the rest of the stream so far matters for framing what follows. */
  lemma SplitContinues(before: Bytes, chunk: Bytes)
    ensures var p := Split(before, NEWLINE); var m := |p| - 1;
      Split(before + chunk, NEWLINE) == p[..m] + Split(p[m] + chunk, NEWLINE)
  {
    hide *;
    var p, q := Split(before, NEWLINE), Split(chunk, NEWLINE);
    var tail := p[|p| - 1];
    assert NEWLINE !in tail by { LastPartIsFree(before); }
    SplitOfFree(tail, NEWLINE);
    SplitAppend(before, chunk, NEWLINE);
    SplitAppend(tail, chunk, NEWLINE);
    ContinueTail(p, q);
  }

  lemma LastPartIsFree(s: Bytes)
    ensures var p := Split(s, NEWLINE); NEWLINE !in p[|p| - 1]
  {
    JoinOfSplit(s, NEWLINE);
  }

  lemma FeedStep(before: Bytes, chunk: Bytes)
    ensures Feed(Frame(before), chunk) == Frame(before + chunk)
  {
    SplitContinues(before, chunk);
    hide Split;
    var p := Split(before, NEWLINE);
    var init, next := p[..|p| - 1], Split(p[|p| - 1] + chunk, NEWLINE);
    assert (init + next)[..|init + next| - 1] == init + next[..|next| - 1];
  }

  /** Feeding chunk by chunk finds the lines of the whole stream, however it was cut. */
  lemma {:induction false} FramingIgnoresChunks(chunks: seq<Bytes>)
    ensures FeedAll(chunks) == Frame(Flatten(chunks))
  {
    if chunks != [] {
      var k := |chunks| - 1;
      FramingIgnoresChunks(chunks[..k]);
      FeedStep(Flatten(chunks[..k]), chunks[k]);
    }
  }

  /** Two ways of cutting the same stream give the same lines and the same rest. */
  lemma ChunkIndependence(chunks: seq<Bytes>, others: seq<Bytes>)
    requires Flatten(chunks) == Flatten(others)
    ensures FeedAll(chunks) == FeedAll(others)
  {
    FramingIgnoresChunks(chunks);
    FramingIgnoresChunks(others);
  }

  /** The frame of a stream is the only newline-free sequence of lines and rest that joins back to it. */
  lemma FramingRebuilds(stream: Bytes, framed: Framed)
    ensures framed == Frame(stream)
       <==> Join(framed.lines + [framed.rest], 10) == stream && forall part :: part in framed.lines + [framed.rest] ==> 10 !in part
  {
    var parts := framed.lines + [framed.rest];
    if framed == Frame(stream) {
      assert parts == Split(stream, NEWLINE);
      JoinOfSplit(stream, NEWLINE);
    } else if forall part :: part in parts ==> 10 !in part {
      SplitOfJoin(parts, NEWLINE);
      assert parts[..|parts| - 1] == framed.lines;
    }
  }

  // ---- handling the lines ----

  /** Readings stored, errors counted, the counter events in order, and whether an uncaught exception ended it. */
  datatype Tally = Tally(stored: seq<Reading>, errors: nat, events: seq<Event>, uncaught: bool)

  function Then(first: Tally, second: Tally): Tally {
    if first.uncaught then first
    else Tally(first.stored + second.stored, first.errors + second.errors, first.events + second.events, second.uncaught)
  }

  function TallyOne(line: Bytes, handle: Handler, n: nat): Tally {
    if Blank(line) then Tally([], 0, [], false)
    else
      match handle.outcome(n, line)
      case Uncaught => Tally([], 0, [], true)
      case Stored(r) => Tally([r], 0, [ReadingOk], false)
      case _ => Tally([], 1, [Failed], false)
  }

  /** What handling these lines in order comes to, the first of them being line number n. */
  function TallyOf(lines: seq<Bytes>, handle: Handler, n: nat): Tally {
    if lines == [] then Tally([], 0, [], false)
    else Then(TallyOne(lines[0], handle, n), TallyOf(lines[1..], handle, n + 1))
  }

  /** The number of the first line that ends the connection, or the number of lines. */
  function FirstUncaught(lines: seq<Bytes>, handle: Handler, n: nat): nat {
    if lines == [] || (!Blank(lines[0]) && handle.outcome(n, lines[0]).Uncaught?) then n
    else FirstUncaught(lines[1..], handle, n + 1)
  }

  function NonBlank(lines: seq<Bytes>): nat {
    if lines == [] then 0 else (if Blank(lines[0]) then 0 else 1) + NonBlank(lines[1..])
  }

  /** The reading of a line that parses, names a known sensor and is stored. */
  function GoodReading(line: Bytes, handle: Handler, n: nat): seq<Reading> {
    if !Blank(line) && handle.outcome(n, line).Stored? then [handle.outcome(n, line).reading] else []
  }

  /** The readings of those of the first m lines that parse, name a known sensor and are stored. */
  function GoodReadings(lines: seq<Bytes>, handle: Handler, n: nat, m: nat): seq<Reading>
    requires m <= |lines|
  {
    if m == 0 then []
    else GoodReading(lines[0], handle, n) + GoodReadings(lines[1..], handle, n + 1, m - 1)
  }

  /** Every non-blank line before the first uncaught exception is counted once: as a reading or as an error. */
  lemma {:induction false} EveryLineCountedOnce(lines: seq<Bytes>, handle: Handler, n: nat)
    ensures var t, end := TallyOf(lines, handle, n), FirstUncaught(lines, handle, n);
      && n <= end <= n + |lines|
      && |t.stored| + t.errors == NonBlank(lines[..end - n])
      && (t.uncaught <==> end < n + |lines|)
  {
    hide *;
    if lines != [] && (Blank(lines[0]) || !handle.outcome(n, lines[0]).Uncaught?) {
      EveryLineCountedOnce(lines[1..], handle, n + 1);
      PastFirst(lines, handle, n);
      NonBlankFirst(lines, FirstUncaught(lines[1..], handle, n + 1) - n);
      OneLineCounts(lines[0], handle, n, TallyOf(lines[1..], handle, n + 1));
    } else {
      NothingCounted(lines, handle, n);
    }
  }

  /** A line that does not end the connection adds one reading or one error, or neither when it is blank. */
  lemma OneLineCounts(line: Bytes, handle: Handler, n: nat, later: Tally)
    requires Blank(line) || !handle.outcome(n, line).Uncaught?
    ensures var t := Then(TallyOne(line, handle, n), later);
      && |t.stored| + t.errors == (if Blank(line) then 0 else 1) + |later.stored| + later.errors
      && t.uncaught == later.uncaught
  {
    hide Blank;
  }

  lemma NothingCounted(lines: seq<Bytes>, handle: Handler, n: nat)
    requires lines == [] || (!Blank(lines[0]) && handle.outcome(n, lines[0]).Uncaught?)
    ensures FirstUncaught(lines, handle, n) == n && NonBlank(lines[..0]) == 0
    ensures TallyOf(lines, handle, n) == Tally([], 0, [], lines != [])
  {
    hide Blank;
  }

  /** A first line that does not end the connection: what comes after it is handled as it would be alone. */
  lemma PastFirst(lines: seq<Bytes>, handle: Handler, n: nat)
    requires lines != [] && (Blank(lines[0]) || !handle.outcome(n, lines[0]).Uncaught?)
    ensures FirstUncaught(lines, handle, n) == FirstUncaught(lines[1..], handle, n + 1)
    ensures TallyOf(lines, handle, n) == Then(TallyOne(lines[0], handle, n), TallyOf(lines[1..], handle, n + 1))
  {
    hide Blank, TallyOne, Then;
  }

  lemma NonBlankFirst(lines: seq<Bytes>, m: nat)
    requires 1 <= m <= |lines|
    ensures NonBlank(lines[..m]) == (if Blank(lines[0]) then 0 else 1) + NonBlank(lines[1..][..m - 1])
  {
    assert lines[..m][1..] == lines[1..][..m - 1];
  }

  lemma {:induction false} FirstUncaughtBounds(lines: seq<Bytes>, handle: Handler, n: nat)
    ensures n <= FirstUncaught(lines, handle, n) <= n + |lines|
  {
    hide Blank;
    if lines != [] && (Blank(lines[0]) || !handle.outcome(n, lines[0]).Uncaught?) {
      FirstUncaughtBounds(lines[1..], handle, n + 1);
    }
  }

  /** What is stored is what the good lines before that exception say, in order. */
  lemma {:induction false} StoredAreGood(lines: seq<Bytes>, handle: Handler, n: nat, m: nat)
    requires n + m == FirstUncaught(lines, handle, n)
    ensures m <= |lines| && TallyOf(lines, handle, n).stored == GoodReadings(lines, handle, n, m)
  {
    hide *;
    if lines != [] && (Blank(lines[0]) || !handle.outcome(n, lines[0]).Uncaught?) {
      OneLineMore(lines, handle, n);
      StoredAreGood(lines[1..], handle, n + 1, m - 1);
      FirstGood(lines, handle, n, m);
    } else {
      NothingStored(lines, handle, n);
    }
  }

  lemma FirstGood(lines: seq<Bytes>, handle: Handler, n: nat, m: nat)
    requires 0 < m <= |lines|
    ensures GoodReadings(lines, handle, n, m) == GoodReading(lines[0], handle, n) + GoodReadings(lines[1..], handle, n + 1, m - 1)
  {
  }

  lemma NothingStored(lines: seq<Bytes>, handle: Handler, n: nat)
    requires lines == [] || (!Blank(lines[0]) && handle.outcome(n, lines[0]).Uncaught?)
    ensures FirstUncaught(lines, handle, n) == n && TallyOf(lines, handle, n).stored == GoodReadings(lines, handle, n, 0) == []
  {
    hide Blank;
  }

  /** The first line stores its reading if it is good, and the others store what they would alone. */
  lemma OneLineMore(lines: seq<Bytes>, handle: Handler, n: nat)
    requires lines != [] && (Blank(lines[0]) || !handle.outcome(n, lines[0]).Uncaught?)
    ensures n + 1 <= FirstUncaught(lines, handle, n) == FirstUncaught(lines[1..], handle, n + 1)
    ensures TallyOf(lines, handle, n).stored
         == GoodReading(lines[0], handle, n) + TallyOf(lines[1..], handle, n + 1).stored
  {
    hide *;
    FirstUncaughtBounds(lines[1..], handle, n + 1);
    PastFirst(lines, handle, n);
    OneLineStores(lines[0], handle, n);
    ThenStores(TallyOne(lines[0], handle, n), TallyOf(lines[1..], handle, n + 1));
  }

  lemma ThenStores(first: Tally, second: Tally)
    requires !first.uncaught
    ensures Then(first, second).stored == first.stored + second.stored
  {
  }

  lemma OneLineStores(line: Bytes, handle: Handler, n: nat)
    requires Blank(line) || !handle.outcome(n, line).Uncaught?
    ensures var t := TallyOne(line, handle, n);
      && !t.uncaught
      && t.stored == GoodReading(line, handle, n)
  {
  }

  /** The bytes a connection delivers: up to the first empty chunk, failure, or the end of the calls. */
  function Received(recvs: seq<Recv>): Bytes {
    if recvs == [] || recvs[0].Broken? || recvs[0].chunk == [] then [] else recvs[0].chunk + Received(recvs[1..])
  }

  /** What is received is what the first k calls return, where the k-th is the first to raise or to return nothing. */
  lemma {:induction false} ReceivedUpTo(recvs: seq<Recv>, chunks: seq<Bytes>, k: nat)
    requires k <= |recvs| && |chunks| == k
    requires forall i :: 0 <= i < k ==> recvs[i] == Data(chunks[i]) && chunks[i] != []
    requires k < |recvs| ==> recvs[k] == Broken || recvs[k] == Data([])
    ensures Received(recvs) == Flatten(chunks)
    ensures BreaksOff(recvs) <==> k < |recvs| && recvs[k] == Broken
  {
    if k > 0 {
      ReceivedUpTo(recvs[1..], chunks[1..], k - 1);
      FlattenFirst(chunks[0], chunks[1..]);
      assert chunks == [chunks[0]] + chunks[1..];
    }
  }

  lemma {:induction false} FlattenFirst(first: Bytes, rest: seq<Bytes>)
    ensures Flatten([first] + rest) == first + Flatten(rest)
  {
    if rest == [] {
      assert [first] + [] == [first] && [first][..0] == [] && first + [] == first;
    } else {
      var k := |rest| - 1;
      FlattenFirst(first, rest[..k]);
      assert ([first] + rest)[..k + 1] == [first] + rest[..k];
      Assoc(first, Flatten(rest[..k]), rest[k]);
    }
  }

  predicate BreaksOff(recvs: seq<Recv>) {
    recvs != [] && (recvs[0].Broken? || (recvs[0].chunk != [] && BreaksOff(recvs[1..])))
  }

  /** `buf.split(b"\n", 1)` when there is a newline: the position of the first one. */
  method FindNewline(buf: Bytes) returns (at: int)
    ensures -1 <= at < |buf|
    ensures at >= 0 ==> buf[at] == NEWLINE && NEWLINE !in buf[..at]
    ensures at == -1 ==> NEWLINE !in buf
  {
    for i := 0 to |buf|
      invariant NEWLINE !in buf[..i]
    {
      if buf[i] == NEWLINE {
        return i;
      }
    }
    assert buf[..|buf|] == buf;
    return -1;
  }

  /** Handling one batch of lines after another is handling them all, unless the first batch ended the connection. */
  lemma {:induction false} TallyAppend(a: seq<Bytes>, b: seq<Bytes>, handle: Handler, n: nat)
    ensures TallyOf(a + b, handle, n) == Then(TallyOf(a, handle, n), TallyOf(b, handle, n + |a|))
  {
    hide TallyOne;
    if a == [] {
      assert a + b == b;
    } else {
      TallyAppend(a[1..], b, handle, n + 1);
      assert (a + b)[1..] == a[1..] + b && (a + b)[0] == a[0];
      ThenIsAssociative(TallyOne(a[0], handle, n), TallyOf(a[1..], handle, n + 1), TallyOf(b, handle, n + |a|));
    }
  }

  lemma ThenIsAssociative(x: Tally, y: Tally, z: Tally)
    ensures Then(Then(x, y), z) == Then(x, Then(y, z))
  {
  }

  /** One line: skipped, counted as an error, stored and counted as a reading, or the end of the connection. */
  method HandleLine(stats: TcpStats, line: Bytes, handle: Handler, n: nat, now: real)
    returns (stored: seq<Reading>, uncaught: bool)
    requires stats.Valid()
    modifies stats
    ensures stats.Valid()
    ensures var t := TallyOne(line, handle, n);
      stats.events == old(stats.events) + t.events && stored == t.stored && uncaught == t.uncaught
    ensures var skipped := forall i :: 0 <= i < |line| ==> line[i] == 32 || 9 <= line[i] <= 13;
      var outcome := handle.outcome(n, line);
      && (skipped || outcome.Uncaught? ==> stats.events == old(stats.events) && stored == [])
      && (!skipped && (outcome.BadLine? || outcome.UnknownSensor?) ==>
            stats.events == old(stats.events) + [Failed] && stored == [])
      && (!skipped && outcome.Stored? ==> stats.events == old(stats.events) + [ReadingOk] && stored == [outcome.reading])
      && (uncaught <==> !skipped && outcome.Uncaught?)
  {
    stored, uncaught := [], false;
    BlankIff(line);
    if Blank(line) {
      return;
    }
    match handle.outcome(n, line) {
      case Uncaught =>
        uncaught := true;
      case Stored(r) =>
        stored := [r];
        stats.ReadingReceived(now);
      case _ =>
        stats.Error();
    }
  }

  /** The inner loop: takes every complete line off the buffer and handles it. */
  method DrainLines(stats: TcpStats, buffer: Bytes, handle: Handler, n: nat, now: real)
    returns (buf: Bytes, next: nat, stored: seq<Reading>, uncaught: bool)
    requires stats.Valid()
    modifies stats
    ensures stats.Valid()
    ensures var t := TallyOf(Frame(buffer).lines, handle, n);
      stats.events == old(stats.events) + t.events && stored == t.stored && uncaught == t.uncaught
    ensures !uncaught ==> buf == Frame(buffer).rest && next == n + |Frame(buffer).lines|
  {
    hide TcpStats.Valid, Frame, TallyOne, TallyOf;
    ghost var all := Frame(buffer);
    ghost var done := Tally([], 0, [], false);
    buf, next, stored, uncaught := buffer, n, [], false;
    var at := FindNewline(buf);
    while at >= 0
      invariant stats.Valid() && !uncaught && !done.uncaught
      invariant -1 <= at < |buf|
      invariant if at >= 0 then buf[at] == NEWLINE && NEWLINE !in buf[..at] else NEWLINE !in buf
      invariant Frame(buf).rest == all.rest && next + |Frame(buf).lines| == n + |all.lines|
      invariant TallyOf(all.lines, handle, n) == Then(done, TallyOf(Frame(buf).lines, handle, next))
      invariant stored == done.stored && stats.events == old(stats.events) + done.events
      decreases |buf|
    {
      var line := buf[..at];
      FrameAtNewline(buf, at);
      buf := buf[at + 1..];
      DrainStep(done, line, Frame(buf).lines, handle, next);
      done := Then(done, TallyOne(line, handle, next));
      var more: seq<Reading>;
      more, uncaught := HandleLine(stats, line, handle, next, now);
      stored := stored + more;
      if uncaught {
        return;
      }
      next := next + 1;
      at := FindNewline(buf);
    }
    FrameWithoutNewline(buf);
    DrainEnd(done, handle, next);
  }

  lemma DrainStep(done: Tally, line: Bytes, lines: seq<Bytes>, handle: Handler, n: nat)
    ensures Then(done, TallyOf([line] + lines, handle, n))
         == Then(Then(done, TallyOne(line, handle, n)), TallyOf(lines, handle, n + 1))
  {
    assert ([line] + lines)[1..] == lines;
    ThenIsAssociative(done, TallyOne(line, handle, n), TallyOf(lines, handle, n + 1));
  }

  lemma DrainEnd(done: Tally, handle: Handler, n: nat)
    requires !done.uncaught
    ensures Then(done, TallyOf([], handle, n)) == done
  {
  }

  lemma FrameWithoutNewline(buf: Bytes)
    requires NEWLINE !in buf
    ensures Frame(buf) == Framed([], buf)
  {
    SplitOfFree(buf, NEWLINE);
  }

  lemma FrameAtNewline(buf: Bytes, at: nat)
    requires at < |buf| && buf[at] == NEWLINE && NEWLINE !in buf[..at]
    ensures Frame(buf) == Framed([buf[..at]] + Frame(buf[at + 1..]).lines, Frame(buf[at + 1..]).rest)
  {
    assert buf == buf[..at] + [NEWLINE] + buf[at + 1..];
    SplitAtFirst(buf[..at], buf[at + 1..], NEWLINE);
    hide Split;
  }

  /** `handle_client`: one connection from accept to close. */
  method HandleClient(stats: TcpStats, recvs: seq<Recv>, handle: Handler, now: real)
    returns (stored: seq<Reading>, rest: Bytes, raised: bool)
    requires stats.Valid()
    modifies stats
    ensures stats.Valid()
    ensures var t := TallyOf(Frame(Received(recvs)).lines, handle, 0);
      && stats.events == old(stats.events) + [Opened] + t.events + [Closed]
      && stored == t.stored
      && raised == (t.uncaught || BreaksOff(recvs))
      && (!t.uncaught ==> rest == Frame(Received(recvs)).rest)
  {
    hide TcpStats.Valid, Frame, TallyOf, TallyOne;
    FrameOfNothing(handle);
    ghost var start := stats.events;
    stats.ConnOpened(now);
    ghost var seen: Bytes := [];
    rest, stored, raised := [], [], false;
    var i, n := 0, 0;
    while i < |recvs| && recvs[i].Data? && recvs[i].chunk != []
      invariant i <= |recvs| && !raised
      invariant stats.Valid()
      invariant Received(recvs) == seen + Received(recvs[i..]) && BreaksOff(recvs) == BreaksOff(recvs[i..])
      invariant rest == Frame(seen).rest && n == |Frame(seen).lines|
      invariant var t := TallyOf(Frame(seen).lines, handle, 0);
        !t.uncaught && stored == t.stored && stats.events == start + [Opened] + t.events
    {
      var chunk := recvs[i].chunk;
      FrameContinues(seen, chunk);
      TallyAppend(Frame(seen).lines, Frame(rest + chunk).lines, handle, 0);
      assert recvs[i..][1..] == recvs[i + 1..];
      assert seen + (chunk + Received(recvs[i + 1..])) == (seen + chunk) + Received(recvs[i + 1..]);
      i, seen := i + 1, seen + chunk;
      var more: seq<Reading>;
      rest, n, more, raised := DrainLines(stats, rest + chunk, handle, n, now);
      stored := stored + more;
      if raised {
        FrameContinues(seen, Received(recvs[i..]));
        TallyAppend(Frame(seen).lines, Frame(Frame(seen).rest + Received(recvs[i..])).lines, handle, 0);
        stats.ConnClosed(now);
        return;
      }
    }
    raised := i < |recvs| && recvs[i].Broken?;
    assert Received(recvs[i..]) == [] && seen + [] == seen;
    stats.ConnClosed(now);
  }

  lemma FrameOfNothing(handle: Handler)
    ensures Frame([]) == Framed([], []) && TallyOf([], handle, 0) == Tally([], 0, [], false)
  {
  }

  lemma FrameContinues(before: Bytes, chunk: Bytes)
    ensures Frame(before + chunk)
         == Framed(Frame(before).lines + Frame(Frame(before).rest + chunk).lines, Frame(Frame(before).rest + chunk).rest)
  {
    FeedStep(before, chunk);
  }

  // ---- what a connection does to the counters ----

  ghost predicate LineEventsOnly(more: seq<Event>) {
    forall e :: e in more ==> e == ReadingOk || e == Failed
  }

  lemma {:induction false} AfterLineEvents(events: seq<Event>, more: seq<Event>, e: Event)
    requires LineEventsOnly(more)
    ensures Since(events + more, e) == Since(events, e) + Since(more, e)
    ensures Active(events + more) == Active(events)
  {
    if more == [] {
      assert events + more == events;
    } else {
      var k := |more| - 1;
      assert more[k] in more && forall x :: x in more[..k] ==> x in more;
      AfterLineEvents(events, more[..k], e);
      assert (events + more)[..|events + more| - 1] == events + more[..k];
    }
  }

  /** The events of a tally are its readings and its errors, and no others. */
  ghost predicate EventsAdd(t: Tally) {
    && LineEventsOnly(t.events)
    && Since(t.events, ReadingOk) == |t.stored| && Since(t.events, Failed) == t.errors
    && Since(t.events, Opened) == 0 == Since(t.events, Closed)
  }

  lemma OneLineAdds(line: Bytes, handle: Handler, n: nat)
    ensures EventsAdd(TallyOne(line, handle, n))
  {
    var events := TallyOne(line, handle, n).events;
    assert events != [] ==> events[..0] == [] && |events| == 1;
  }

  lemma ThenAdds(first: Tally, second: Tally)
    requires EventsAdd(first) && EventsAdd(second)
    ensures EventsAdd(Then(first, second))
  {
    AfterLineEvents(first.events, second.events, ReadingOk);
    AfterLineEvents(first.events, second.events, Failed);
    AfterLineEvents(first.events, second.events, Opened);
    AfterLineEvents(first.events, second.events, Closed);
    hide Since;
  }

  lemma {:induction false} TallyEvents(lines: seq<Bytes>, handle: Handler, n: nat)
    ensures EventsAdd(TallyOf(lines, handle, n))
  {
    if lines != [] {
      hide EventsAdd, Then, TallyOne;
      TallyEvents(lines[1..], handle, n + 1);
      OneLineAdds(lines[0], handle, n);
      ThenAdds(TallyOne(lines[0], handle, n), TallyOf(lines[1..], handle, n + 1));
    }
  }

  /**
   * A whole connection, however its bytes were cut into chunks and however it ended, counts one
   * open, one close, each stored reading and each error once, and leaves the active count as it was.
   */
  lemma ConnectionOnCounters(before: seq<Event>, lines: seq<Bytes>, handle: Handler)
    ensures var t := TallyOf(lines, handle, 0); var after := before + [Opened] + t.events + [Closed];
      && Since(after, Opened) == Since(before, Opened) + 1 && Since(after, Closed) == Since(before, Closed) + 1
      && Since(after, ReadingOk) == Since(before, ReadingOk) + |t.stored|
      && Since(after, Failed) == Since(before, Failed) + t.errors
      && Active(after) == Active(before)
  {
    var entered, events := before + [Opened], TallyOf(lines, handle, 0).events;
    TallyEvents(lines, handle, 0);
    hide TallyOf;
    AfterLineEvents(entered, events, Opened);
    AfterLineEvents(entered, events, Closed);
    AfterLineEvents(entered, events, ReadingOk);
    AfterLineEvents(entered, events, Failed);
    hide Since, Active;
    OneEventMore(before, Opened);
    OneEventMore(entered + events, Closed);
  }

  lemma OneEventMore(before: seq<Event>, e: Event)
    requires e == Opened || e == Closed
    ensures var after := before + [e];
      && (forall x :: Since(after, x) == Since(before, x) + if x == e then 1 else 0)
      && Active(after) == (if e == Opened then Active(before) + 1 else if Active(before) > 0 then Active(before) - 1 else 0)
  {
    assert (before + [e])[..|before|] == before;
  }
}
