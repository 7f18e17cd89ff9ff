/** The TCP server's connection counters, their clamp at zero and their reset. */
module TcpCounters {
  import opened Wrappers

  datatype Event = Opened | Closed | ReadingOk | Failed | Reset

  // ---- the specification: counting over the whole run of events ----

  /** Connections truly live after the run: opens minus closes, whatever was reset. */
  function Live(events: seq<Event>): int {
    if events == [] then 0
    else
      var k := |events| - 1;
      Live(events[..k]) + match events[k] case Opened => 1 case Closed => -1 case _ => 0
  }

  /** The counter as the server computes it. */
  function Active(events: seq<Event>): nat {
    if events == [] then 0
    else
      var k := |events| - 1;
      var before := Active(events[..k]);
      match events[k]
      case Opened => before + 1
      case Closed => if before > 0 then before - 1 else 0
      case Reset => 0
      case _ => before
  }

  /** k is a moment of the run with no reset after it. */
  ghost predicate SinceReset(events: seq<Event>, k: int) {
    0 <= k <= |events| && forall i :: k <= i < |events| ==> events[i] != Reset
  }

  /** The fewest live connections at any moment since the last reset (or since the start). */
  function FewestLive(events: seq<Event>): int {
    if events == [] then 0
    else
      var k := |events| - 1;
      if events[k] == Reset || Live(events) < FewestLive(events[..k]) then Live(events) else FewestLive(events[..k])
  }

  lemma {:induction false} FewestIsMinimum(events: seq<Event>)
    ensures exists k :: SinceReset(events, k) && Live(events[..k]) == FewestLive(events)
    ensures forall k :: SinceReset(events, k) ==> FewestLive(events) <= Live(events[..k])
  {
    var n := |events|;
    assert events[..n] == events;
    if n == 0 {
      assert SinceReset(events, 0);
    } else {
      var init := events[..n - 1];
      FewestIsMinimum(init);
      forall k | SinceReset(events, k)
        ensures FewestLive(events) <= Live(events[..k])
      {
        if k < n {
          assert init[..k] == events[..k];
          assert forall i :: k <= i < |init| ==> init[i] == events[i];
          assert SinceReset(init, k);
        }
      }
      if FewestLive(events) == Live(events) {
        assert SinceReset(events, n);
      } else {
        var k :| SinceReset(init, k) && Live(init[..k]) == FewestLive(init);
        assert init[..k] == events[..k];
        assert SinceReset(events, k);
      }
    }
  }

  /**
   * The closed form of the clamped walk, for every run whatsoever: since the last reset the
   * counter is the live count minus its lowest value on the way.
   */
  lemma {:induction false} ClampedWalk(events: seq<Event>)
    ensures Active(events) == Live(events) - FewestLive(events)
  {
    if events != [] {
      ClampedWalk(events[..|events| - 1]);
    }
  }

  /** Only live connections close: the server opens each connection before it can close it. */
  ghost predicate Feasible(events: seq<Event>) {
    forall k :: 0 <= k <= |events| ==> Live(events[..k]) >= 0
  }

  /**
   * On every feasible run the counter stays between zero and the true live count, and it is the
   * true count exactly when no connection was live at some moment since the last reset.
   */
  lemma CounterAgainstLive(events: seq<Event>)
    requires Feasible(events)
    ensures 0 <= Active(events) <= Live(events)
    ensures Active(events) == Live(events) <==> exists k :: SinceReset(events, k) && Live(events[..k]) == 0
  {
    ClampedWalk(events);
    FewestIsMinimum(events);
    var k :| SinceReset(events, k) && Live(events[..k]) == FewestLive(events);
    assert FewestLive(events) >= 0;
  }

  /** In particular it is exact as long as the counters are only ever reset with no connection live. */
  lemma ExactWithoutLiveResets(events: seq<Event>)
    requires Feasible(events)
    requires forall i :: 0 <= i < |events| && events[i] == Reset ==> Live(events[..i]) == 0
    ensures Active(events) == Live(events)
  {
    CounterAgainstLive(events);
    var k := LastReset(events);
    if k > 0 {
      assert events[..k][..k - 1] == events[..k - 1];
      assert Live(events[..k]) == Live(events[..k - 1]) == 0;
    }
  }

  lemma LastReset(events: seq<Event>) returns (k: nat)
    ensures SinceReset(events, k) && (k == 0 || events[k - 1] == Reset)
  {
    k := |events|;
    while k > 0 && events[k - 1] != Reset
      invariant SinceReset(events, k)
    {
      k := k - 1;
    }
  }

  /** A reset with one connection live leaves the counter one short until that connection closes. */
  lemma ResetWhileLiveLosesOne()
    ensures Feasible([Opened, Reset]) && Active([Opened, Reset]) == 0 && Live([Opened, Reset]) == 1
    ensures Active([Opened, Reset, Closed]) == 0 == Live([Opened, Reset, Closed])
  {
    assert [Opened, Reset, Closed][..2] == [Opened, Reset] && [Opened, Reset][..1] == [Opened] && [Opened][..0] == [];
    assert Live([Opened]) == 1 && Active([Opened]) == 1;
    assert Live([Opened, Reset]) == 1 && Active([Opened, Reset]) == 0;
    forall k | 0 <= k <= 2
      ensures Live([Opened, Reset][..k]) >= 0
    {
      if k == 2 {
        assert [Opened, Reset][..2] == [Opened, Reset];
      }
    }
  }

  /** How often an event happened since the last reset. */
  function Since(events: seq<Event>, e: Event): nat {
    if events == [] then 0
    else
      var k := |events| - 1;
      if events[k] == Reset then 0 else Since(events[..k], e) + if events[k] == e then 1 else 0
  }

  /** k is the moment right after the last reset, or the start when there was none. */
  ghost predicate LastResetAt(events: seq<Event>, k: int) {
    SinceReset(events, k) && (k == 0 || events[k - 1] == Reset)
  }

  /** Since the last reset each event is counted as often as it happened. */
  lemma {:induction false} SinceIsCount(events: seq<Event>, k: nat, e: Event)
    requires LastResetAt(events, k)
    ensures Since(events, e) == multiset(events[k..])[e]
  {
    if k < |events| {
      var n := |events| - 1;
      assert events[n] != Reset;
      SinceIsCount(events[..n], k, e);
      assert events[k..] == events[..n][k..] + [events[n]];
    } else {
      assert events[k..] == [];
    }
  }

  /** Live is the opens minus the closes of the whole run. */
  lemma {:induction false} LiveIsCount(events: seq<Event>)
    ensures Live(events) + multiset(events)[Closed] == multiset(events)[Opened]
  {
    if events != [] {
      var k := |events| - 1;
      LiveIsCount(events[..k]);
      assert events == events[..k] + [events[k]];
    }
  }

  datatype Snapshot = Snapshot(connectionsOpened: nat, connectionsClosed: nat, activeConnections: nat,
                               readingsReceived: nat, errors: nat, lastEventAt: Option<real>)

  class TcpStats {
    var connectionsOpened: nat
    var connectionsClosed: nat
    var activeConnections: nat
    var readingsReceived: nat
    var errors: nat
    var lastEventAt: Option<real>
    /** Every event since the server started, across resets. */
    ghost var events: seq<Event>

    ghost predicate Valid()
      reads this
    {
      && activeConnections == Active(events)
      && connectionsOpened == Since(events, Opened)
      && connectionsClosed == Since(events, Closed)
      && readingsReceived == Since(events, ReadingOk)
      && errors == Since(events, Failed)
    }

    constructor ()
      ensures Valid() && events == []
    {
      connectionsOpened, connectionsClosed, activeConnections, readingsReceived, errors := 0, 0, 0, 0, 0;
      lastEventAt, events := None, [];
    }

    ghost method Log(e: Event)
      modifies `events
      ensures events == old(events) + [e] && events[..|events| - 1] == old(events)
    {
      events := events + [e];
    }

    method ConnOpened(now: real)
      requires Valid()
      modifies this
      ensures Valid() && events == old(events) + [Opened] && lastEventAt == Some(now)
    {
      connectionsOpened := connectionsOpened + 1;
      activeConnections := activeConnections + 1;
      lastEventAt := Some(now);
      Log(Opened);
    }

    method ConnClosed(now: real)
      requires Valid()
      modifies this
      ensures Valid() && events == old(events) + [Closed] && lastEventAt == Some(now)
    {
      connectionsClosed := connectionsClosed + 1;
      activeConnections := if activeConnections - 1 > 0 then activeConnections - 1 else 0;
      lastEventAt := Some(now);
      Log(Closed);
    }

    method ReadingReceived(now: real)
      requires Valid()
      modifies this
      ensures Valid() && events == old(events) + [ReadingOk] && lastEventAt == Some(now)
    {
      readingsReceived := readingsReceived + 1;
      lastEventAt := Some(now);
      Log(ReadingOk);
    }

    method Error()
      requires Valid()
      modifies this
      ensures Valid() && events == old(events) + [Failed] && lastEventAt == old(lastEventAt)
    {
      errors := errors + 1;
      Log(Failed);
    }

    method ResetAll()
      requires Valid()
      modifies this
      ensures Valid() && events == old(events) + [Reset] && lastEventAt == None
    {
      connectionsOpened, connectionsClosed, activeConnections, readingsReceived, errors := 0, 0, 0, 0, 0;
      lastEventAt := None;
      Log(Reset);
    }

    method GetSnapshot() returns (s: Snapshot)
      requires Valid()
      ensures s.activeConnections == Live(events) - FewestLive(events)
      ensures s == Snapshot(Since(events, Opened), Since(events, Closed), Active(events),
                            Since(events, ReadingOk), Since(events, Failed), lastEventAt)
      ensures forall k :: LastResetAt(events, k) ==>
        var m := multiset(events[k..]);
        && s.connectionsOpened == m[Opened] && s.connectionsClosed == m[Closed]
        && s.readingsReceived == m[ReadingOk] && s.errors == m[Failed] && s.lastEventAt == lastEventAt
    {
      ClampedWalk(events);
      forall k | LastResetAt(events, k)
        ensures Since(events, Opened) == multiset(events[k..])[Opened]
        ensures Since(events, Closed) == multiset(events[k..])[Closed]
        ensures Since(events, ReadingOk) == multiset(events[k..])[ReadingOk]
        ensures Since(events, Failed) == multiset(events[k..])[Failed]
      {
        SinceIsCount(events, k, Opened);
        SinceIsCount(events, k, Closed);
        SinceIsCount(events, k, ReadingOk);
        SinceIsCount(events, k, Failed);
      }
      s := Snapshot(connectionsOpened, connectionsClosed, activeConnections, readingsReceived, errors, lastEventAt);
    }
  }
}
