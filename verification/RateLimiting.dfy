/** The sliding-window rate limiter of the gateway. */
module RateLimiting {
  import opened Wrappers

  /** One request: the peer's host if the connection has one, and the clock reading taken for it. */
  datatype Request = Request(client: Option<string>, now: real)

  datatype Verdict = Unlimited | Admitted | Rejected

  /** `[t for t in times if now - t < window]`. */
  function Recent(times: seq<real>, now: real, window: int): (r: seq<real>)
    ensures |r| <= |times|
  {
    if times == [] then []
    else
      var k := |times| - 1;
      Recent(times[..k], now, window) + if now - times[k] < window as real then [times[k]] else []
  }

  /** The table is a defaultdict: an unseen host has no times. */
  function TimesOf(clients: map<string, seq<real>>, host: string): seq<real> {
    if host in clients then clients[host] else []
  }

  function Judge(max: int, window: int, times: seq<real>, now: real): Verdict {
    if |Recent(times, now, window)| >= max then Rejected else Admitted
  }

  // ---- runs of the limiter ----

  /** The verdict on one request, given the table. */
  function VerdictOn(max: int, window: int, clients: map<string, seq<real>>, req: Request): Verdict {
    if req.client.None? then Unlimited else Judge(max, window, TimesOf(clients, req.client.value), req.now)
  }

  /** The table after a whole run, pruned at every step. */
  function TableAfter(max: int, window: int, reqs: seq<Request>): map<string, seq<real>> {
    if reqs == [] then map[]
    else
      var k := |reqs| - 1;
      Step(max, window, TableAfter(max, window, reqs[..k]), reqs[k])
  }

  function Step(max: int, window: int, clients: map<string, seq<real>>, req: Request): map<string, seq<real>> {
    if req.client.None? then clients
    else
      var host := req.client.value;
      var kept := Recent(TimesOf(clients, host), req.now, window);
      clients[host := if |kept| >= max then kept else kept + [req.now]]
  }

  /** The verdict the limiter gave on request i of a run. */
  function VerdictAt(max: int, window: int, reqs: seq<Request>, i: nat): Verdict
    requires i < |reqs|
  {
    VerdictOn(max, window, TableAfter(max, window, reqs[..i]), reqs[i])
  }

  // ---- the reference: one host, its full admission history, nothing ever pruned ----

  function History(max: int, window: int, reqs: seq<Request>, host: string): seq<real> {
    if reqs == [] then []
    else
      var k := |reqs| - 1;
      var before := History(max, window, reqs[..k], host);
      if reqs[k].client == Some(host) && Judge(max, window, before, reqs[k].now) == Admitted then before + [reqs[k].now]
      else before
  }

  /** What one host's requests read from the clock never goes back; other hosts' readings do not matter. */
  ghost predicate ClockNeverBack(reqs: seq<Request>, host: string) {
    forall i, j :: 0 <= i <= j < |reqs| && reqs[i].client == Some(host) && reqs[j].client == Some(host) ==>
      reqs[i].now <= reqs[j].now
  }

  // ---- what pruning loses, on any clock ----

  /** The times of the requests of this host that the limiter let through. */
  function AdmittedTimes(max: int, window: int, reqs: seq<Request>, host: string): seq<real> {
    if reqs == [] then []
    else
      var k := |reqs| - 1;
      AdmittedTimes(max, window, reqs[..k], host) + if AdmittedAt(max, window, reqs, host, k) then [reqs[k].now] else []
  }

  predicate AdmittedAt(max: int, window: int, reqs: seq<Request>, host: string, i: int) {
    0 <= i < |reqs| && reqs[i].client == Some(host) && VerdictAt(max, window, reqs, i) == Admitted
  }

  /**
   * An admission that counts at `now` was dropped by a later request of the host: request j read the
   * clock a whole window or more after admission i, and `now` is less than a window after it.
   */
  ghost predicate ForgottenBy(max: int, window: int, reqs: seq<Request>, host: string, now: real, i: int, j: int) {
    && 0 <= i < j < |reqs| && AdmittedAt(max, window, reqs, host, i) && reqs[j].client == Some(host)
    && reqs[j].now - reqs[i].now >= window as real > now - reqs[i].now
  }

  ghost predicate Forgotten(max: int, window: int, reqs: seq<Request>, host: string, now: real) {
    exists i, j :: ForgottenBy(max, window, reqs, host, now, i, j)
  }

  lemma {:induction false} RecentMembers(times: seq<real>, now: real, window: int, t: real)
    ensures t in Recent(times, now, window) <==> t in times && now - t < window as real
  {
    if times != [] {
      RecentMembers(times[..|times| - 1], now, window, t);
      assert times == times[..|times| - 1] + [times[|times| - 1]];
    }
  }

  /** A time that counts later but not at an earlier pruning. */
  ghost predicate LostBetween(times: seq<real>, first: real, now: real, window: int) {
    exists t :: t in times && first - t >= window as real > now - t
  }

  lemma LostInLast(times: seq<real>, first: real, now: real, window: int)
    requires times != []
    ensures var k := |times| - 1;
      LostBetween(times, first, now, window)
      <==> LostBetween(times[..k], first, now, window) || first - times[k] >= window as real > now - times[k]
  {
    var k := |times| - 1;
    assert times == times[..k] + [times[k]];
    assert forall t :: t in times <==> t in times[..k] || t == times[k];
    if first - times[k] >= window as real > now - times[k] {
      assert times[k] in times;
    }
  }

  lemma {:induction false} RecentOfRecent(times: seq<real>, first: real, now: real, window: int)
    ensures var twice, once := Recent(Recent(times, first, window), now, window), Recent(times, now, window);
      if LostBetween(times, first, now, window) then |twice| < |once| else twice == once
  {
    if times != [] {
      var k := |times| - 1;
      RecentOfRecent(times[..k], first, now, window);
      LostInLast(times, first, now, window);
      hide LostBetween;
      var kept := Recent(times[..k], first, window);
      RecentOfAppend(kept, times[k], now, window);
      assert kept + [] == kept;
    }
  }

  lemma RecentOfAppend(times: seq<real>, t: real, now: real, window: int)
    ensures Recent(times + [t], now, window)
         == Recent(times, now, window) + if now - t < window as real then [t] else []
  {
    assert (times + [t])[..|times|] == times;
  }

  lemma {:induction false} AdmittedMembers(max: int, window: int, reqs: seq<Request>, host: string, t: real)
    ensures t in AdmittedTimes(max, window, reqs, host)
       <==> exists i :: AdmittedAt(max, window, reqs, host, i) && reqs[i].now == t
  {
    if reqs != [] {
      var k := |reqs| - 1;
      AdmittedMembers(max, window, reqs[..k], host, t);
      forall i
        ensures AdmittedAt(max, window, reqs, host, i)
           <==> (i == k && AdmittedAt(max, window, reqs, host, k)) || AdmittedAt(max, window, reqs[..k], host, i)
      {
        AdmittedAtPrefix(max, window, reqs, host, i);
      }
      if t in AdmittedTimes(max, window, reqs[..k], host) {
        var i :| AdmittedAt(max, window, reqs[..k], host, i) && reqs[..k][i].now == t;
        assert AdmittedAt(max, window, reqs, host, i) && reqs[i].now == t;
      }
    }
  }

  lemma AdmittedAtPrefix(max: int, window: int, reqs: seq<Request>, host: string, i: int)
    requires reqs != []
    ensures var k := |reqs| - 1;
      AdmittedAt(max, window, reqs, host, i)
      <==> (i == k && AdmittedAt(max, window, reqs, host, k)) || AdmittedAt(max, window, reqs[..k], host, i)
  {
    if 0 <= i < |reqs| - 1 {
      assert reqs[..|reqs| - 1][..i] == reqs[..i];
    }
  }

  lemma ForgottenByLast(max: int, window: int, reqs: seq<Request>, host: string, now: real)
    requires reqs != []
    ensures var k := |reqs| - 1;
      Forgotten(max, window, reqs, host, now)
      <==> Forgotten(max, window, reqs[..k], host, now)
           || (reqs[k].client == Some(host)
               && LostBetween(AdmittedTimes(max, window, reqs[..k], host), reqs[k].now, now, window))
  {
    var k := |reqs| - 1;
    forall i, j
      ensures ForgottenBy(max, window, reqs, host, now, i, j)
         <==> ForgottenBy(max, window, reqs[..k], host, now, i, j) || (j == k && ForgottenBy(max, window, reqs, host, now, i, k))
    {
      AdmittedAtPrefix(max, window, reqs, host, i);
    }
    var times := AdmittedTimes(max, window, reqs[..k], host);
    if i :| ForgottenBy(max, window, reqs, host, now, i, k) {
      AdmittedAtPrefix(max, window, reqs, host, i);
      AdmittedMembers(max, window, reqs[..k], host, reqs[i].now);
      assert AdmittedAt(max, window, reqs[..k], host, i) && reqs[..k][i].now == reqs[i].now;
      assert reqs[i].now in times;
    }
    if reqs[k].client == Some(host) && LostBetween(times, reqs[k].now, now, window) {
      var t :| t in times && reqs[k].now - t >= window as real > now - t;
      AdmittedMembers(max, window, reqs[..k], host, t);
      var i :| AdmittedAt(max, window, reqs[..k], host, i) && reqs[..k][i].now == t;
      AdmittedAtPrefix(max, window, reqs, host, i);
      assert ForgottenBy(max, window, reqs, host, now, i, k);
    }
  }

  lemma PruneOnceMore(stored: seq<real>, admitted: seq<real>, lost: bool, first: real, now: real, window: int)
    requires var pruned, full := Recent(stored, now, window), Recent(admitted, now, window);
      if lost then |pruned| < |full| else pruned == full
    ensures var pruned, full := Recent(Recent(stored, first, window), now, window), Recent(admitted, now, window);
      if lost || LostBetween(admitted, first, now, window) then |pruned| < |full| else pruned == full
  {
    RecentOfRecent(stored, first, now, window);
    if !lost {
      forall t
        ensures now - t < window as real ==> (t in stored <==> t in admitted)
      {
        RecentMembers(stored, now, window, t);
        RecentMembers(admitted, now, window, t);
      }
    }
  }

  /** What the last request adds to the table and to the admissions of a host. */
  lemma LastRequest(max: int, window: int, reqs: seq<Request>, host: string)
    requires reqs != []
    ensures var k := |reqs| - 1;
      var stored, after := TimesOf(TableAfter(max, window, reqs[..k]), host), TimesOf(TableAfter(max, window, reqs), host);
      var tail := if AdmittedAt(max, window, reqs, host, k) then [reqs[k].now] else [];
      && after == (if reqs[k].client == Some(host) then Recent(stored, reqs[k].now, window) else stored) + tail
      && AdmittedTimes(max, window, reqs, host) == AdmittedTimes(max, window, reqs[..k], host) + tail
      && (reqs[k].client != Some(host) ==>
            after == stored && AdmittedTimes(max, window, reqs, host) == AdmittedTimes(max, window, reqs[..k], host))
  {
  }

  lemma SameTail(kept: seq<real>, admitted: seq<real>, more: bool, t: real, now: real, window: int)
    ensures var tail := if more then [t] else [];
      && |Recent(kept + tail, now, window)| - |Recent(kept, now, window)|
         == |Recent(admitted + tail, now, window)| - |Recent(admitted, now, window)|
      && (Recent(kept, now, window) == Recent(admitted, now, window) ==>
            Recent(kept + tail, now, window) == Recent(admitted + tail, now, window))
  {
    assert kept + [] == kept && admitted + [] == admitted;
    RecentOfAppend(kept, t, now, window);
    RecentOfAppend(admitted, t, now, window);
    hide Recent;
  }

  /**
   * On any clock: at a moment `now` the pruned list counts the very times the host's full admission
   * history does, or strictly fewer; and fewer exactly when an admission was forgotten.
   */
  lemma {:induction false} PruningLosesOnlyForgotten(max: int, window: int, reqs: seq<Request>, host: string, now: real)
    ensures var pruned := Recent(TimesOf(TableAfter(max, window, reqs), host), now, window);
      var full := Recent(AdmittedTimes(max, window, reqs, host), now, window);
      if Forgotten(max, window, reqs, host, now) then |pruned| < |full| else pruned == full
  {
    if reqs != [] {
      hide Recent, Forgotten, LostBetween, TableAfter, AdmittedTimes, AdmittedAt, TimesOf;
      var k, req := |reqs| - 1, reqs[|reqs| - 1];
      LastRequest(max, window, reqs, host);
      var lost := Forgotten(max, window, reqs[..k], host, now);
      PruningLosesOnlyForgotten(max, window, reqs[..k], host, now);
      ForgottenByLast(max, window, reqs, host, now);
      if req.client == Some(host) {
        var stored := TimesOf(TableAfter(max, window, reqs[..k]), host);
        var admitted := AdmittedTimes(max, window, reqs[..k], host);
        PruneOnceMore(stored, admitted, lost, req.now, now, window);
        SameTail(Recent(stored, req.now, window), admitted, AdmittedAt(max, window, reqs, host, k), req.now, now, window);
      }
    } else {
      assert !Forgotten(max, window, [], host, now);
    }
  }

  /** The pruned list is as good as the full history at a moment if and only if no admission was forgotten. */
  lemma PruningIsHarmlessIff(max: int, window: int, reqs: seq<Request>, host: string, now: real)
    ensures Recent(TimesOf(TableAfter(max, window, reqs), host), now, window)
         == Recent(AdmittedTimes(max, window, reqs, host), now, window)
       <==> !exists i, j :: ForgottenBy(max, window, reqs, host, now, i, j)
  {
    PruningLosesOnlyForgotten(max, window, reqs, host, now);
  }

  /** So a clock that steps back can only let too many through: whatever is rejected, the full history rejects too. */
  lemma NeverRejectsTooMany(max: int, window: int, reqs: seq<Request>, i: nat)
    requires i < |reqs| && reqs[i].client.Some?
    ensures var host := reqs[i].client.value;
      var full := Judge(max, window, AdmittedTimes(max, window, reqs[..i], host), reqs[i].now);
      && (VerdictAt(max, window, reqs, i) == Rejected ==> full == Rejected)
      && (!Forgotten(max, window, reqs[..i], host, reqs[i].now) ==> VerdictAt(max, window, reqs, i) == full)
  {
    PruningLosesOnlyForgotten(max, window, reqs[..i], reqs[i].client.value, reqs[i].now);
  }

  // ---- on a clock that makes no request of the host miss an admission ----

  /** No request of the host finds an admission forgotten. */
  ghost predicate NeverForgets(max: int, window: int, reqs: seq<Request>, host: string) {
    forall i :: 0 <= i < |reqs| && reqs[i].client == Some(host) ==>
      !Forgotten(max, window, reqs[..i], host, reqs[i].now)
  }

  lemma NeverForgetsBefore(max: int, window: int, reqs: seq<Request>, host: string)
    requires reqs != [] && NeverForgets(max, window, reqs, host)
    ensures NeverForgets(max, window, reqs[..|reqs| - 1], host)
  {
    var before := reqs[..|reqs| - 1];
    forall i | 0 <= i < |before| && before[i].client == Some(host)
      ensures !Forgotten(max, window, before[..i], host, before[i].now)
    {
      assert before[..i] == reqs[..i] && before[i] == reqs[i];
    }
  }

  /** Then the full history kept by the unpruned reference is exactly the times the limiter admitted. */
  lemma {:induction false} HistoryIfNeverForgets(max: int, window: int, reqs: seq<Request>, host: string)
    requires NeverForgets(max, window, reqs, host)
    ensures History(max, window, reqs, host) == AdmittedTimes(max, window, reqs, host)
  {
    if reqs != [] {
      var k := |reqs| - 1;
      NeverForgetsBefore(max, window, reqs, host);
      HistoryIfNeverForgets(max, window, reqs[..k], host);
      if reqs[k].client == Some(host) {
        assert !Forgotten(max, window, reqs[..k], host, reqs[k].now);
        NeverRejectsTooMany(max, window, reqs, k);
      }
    }
  }

  // ---- on a clock that never goes back for the host ----

  lemma NothingForgotten(max: int, window: int, reqs: seq<Request>, i: nat)
    requires i < |reqs| && reqs[i].client.Some? && ClockNeverBack(reqs, reqs[i].client.value)
    ensures !Forgotten(max, window, reqs[..i], reqs[i].client.value, reqs[i].now)
  {
  }

  lemma NeverForgetsIfNeverBack(max: int, window: int, reqs: seq<Request>, host: string)
    requires ClockNeverBack(reqs, host)
    ensures NeverForgets(max, window, reqs, host)
  {
    forall i | 0 <= i < |reqs| && reqs[i].client == Some(host)
      ensures !Forgotten(max, window, reqs[..i], host, reqs[i].now)
    {
      NothingForgotten(max, window, reqs, i);
    }
  }

  /** The full history kept by the unpruned reference is exactly the times of the host's admitted requests. */
  lemma HistoryIsWhatWasAdmitted(max: int, window: int, reqs: seq<Request>, host: string)
    requires ClockNeverBack(reqs, host)
    ensures History(max, window, reqs, host) == AdmittedTimes(max, window, reqs, host)
  {
    NeverForgetsIfNeverBack(max, window, reqs, host);
    HistoryIfNeverForgets(max, window, reqs, host);
  }

  /** Every decision of a run equals the one taken on the host's full, unpruned admission history. */
  lemma DecidesAsFullHistory(max: int, window: int, reqs: seq<Request>, i: nat)
    requires i < |reqs| && reqs[i].client.Some? && ClockNeverBack(reqs[..i + 1], reqs[i].client.value)
    ensures VerdictAt(max, window, reqs, i)
         == Judge(max, window, History(max, window, reqs[..i], reqs[i].client.value), reqs[i].now)
  {
    var upTo := reqs[..i + 1];
    assert upTo[..i] == reqs[..i];
    HistoryIsWhatWasAdmitted(max, window, reqs[..i], reqs[i].client.value);
    NothingForgotten(max, window, upTo, i);
    NeverRejectsTooMany(max, window, upTo, i);
  }

  /** How many times lie in the interval from a to a + window, closed at one end only. */
  function CountHalfOpen(times: seq<real>, a: real, window: int, leftClosed: bool): nat {
    if times == [] then 0
    else
      var k := |times| - 1;
      CountHalfOpen(times[..k], a, window, leftClosed) + if Inside(times[k], a, window, leftClosed) then 1 else 0
  }

  predicate Inside(t: real, a: real, window: int, leftClosed: bool) {
    if leftClosed then a <= t < a + window as real else a < t <= a + window as real
  }

  lemma {:induction false} InsideIsRecent(times: seq<real>, a: real, window: int, leftClosed: bool, now: real)
    requires Inside(now, a, window, leftClosed)
    ensures CountHalfOpen(times, a, window, leftClosed) <= |Recent(times, now, window)|
  {
    if times != [] {
      InsideIsRecent(times[..|times| - 1], a, window, leftClosed, now);
    }
  }

  lemma {:induction false} HistoryIsThrottled(max: int, window: int, reqs: seq<Request>, host: string, a: real, leftClosed: bool)
    ensures CountHalfOpen(History(max, window, reqs, host), a, window, leftClosed) <= if max > 0 then max else 0
  {
    if reqs != [] {
      var k := |reqs| - 1;
      HistoryIsThrottled(max, window, reqs[..k], host, a, leftClosed);
      var before, after := History(max, window, reqs[..k], host), History(max, window, reqs, host);
      if after != before {
        assert after[..|before|] == before;
        if Inside(reqs[k].now, a, window, leftClosed) {
          InsideIsRecent(before, a, window, leftClosed, reqs[k].now);
        }
      }
    }
  }

  /**
   * The promise of the limiter, on any clock: as long as no request of a host finds an admission
   * forgotten, any half-open interval as long as the window holds at most `max` admissions of it.
   */
  lemma NeverOverTheLimitUnlessForgotten(max: int, window: int, reqs: seq<Request>, host: string, a: real, leftClosed: bool)
    requires NeverForgets(max, window, reqs, host)
    ensures CountHalfOpen(AdmittedTimes(max, window, reqs, host), a, window, leftClosed) <= if max > 0 then max else 0
  {
    HistoryIfNeverForgets(max, window, reqs, host);
    HistoryIsThrottled(max, window, reqs, host, a, leftClosed);
  }

  /** So it holds over any run in which the host's clock readings never go back. */
  lemma NeverOverTheLimit(max: int, window: int, reqs: seq<Request>, host: string, a: real, leftClosed: bool)
    requires ClockNeverBack(reqs, host)
    ensures CountHalfOpen(AdmittedTimes(max, window, reqs, host), a, window, leftClosed) <= if max > 0 then max else 0
  {
    NeverForgetsIfNeverBack(max, window, reqs, host);
    NeverOverTheLimitUnlessForgotten(max, window, reqs, host, a, leftClosed);
  }

  lemma {:induction false} HistoryBefore(max: int, window: int, reqs: seq<Request>, host: string, now: real)
    requires forall i :: 0 <= i < |reqs| && reqs[i].client == Some(host) ==> reqs[i].now <= now
    ensures forall i :: 0 <= i < |History(max, window, reqs, host)| ==> History(max, window, reqs, host)[i] <= now
  {
    if reqs != [] {
      HistoryBefore(max, window, reqs[..|reqs| - 1], host, now);
    }
  }

  lemma {:induction false} RecentIsInside(times: seq<real>, now: real, window: int)
    requires forall i :: 0 <= i < |times| ==> times[i] <= now
    ensures |Recent(times, now, window)| == CountHalfOpen(times, now - window as real, window, false)
  {
    if times != [] {
      RecentIsInside(times[..|times| - 1], now, window);
    }
  }

  /** Nothing is rejected needlessly: a request is refused exactly when the window ending at it already holds `max` admissions. */
  lemma RejectedExactlyWhenFull(max: int, window: int, reqs: seq<Request>, i: nat)
    requires i < |reqs| && reqs[i].client.Some? && ClockNeverBack(reqs[..i + 1], reqs[i].client.value)
    ensures VerdictAt(max, window, reqs, i) == Rejected
       <==> CountHalfOpen(AdmittedTimes(max, window, reqs[..i], reqs[i].client.value), reqs[i].now - window as real, window, false) >= max
    ensures VerdictAt(max, window, reqs, i) != Rejected ==> VerdictAt(max, window, reqs, i) == Admitted
  {
    var host, now := reqs[i].client.value, reqs[i].now;
    assert reqs[..i + 1][i] == reqs[i] && reqs[..i + 1][..i] == reqs[..i];
    assert forall j :: 0 <= j < i ==> reqs[..i + 1][j] == reqs[..i][j];
    DecidesAsFullHistory(max, window, reqs, i);
    HistoryIsWhatWasAdmitted(max, window, reqs[..i], host);
    HistoryBefore(max, window, reqs[..i], host, now);
    RecentIsInside(History(max, window, reqs[..i], host), now, window);
  }

  // ---- isolation ----

  /** The requests of one host, in order. */
  function Only(reqs: seq<Request>, host: string): (alone: seq<Request>)
    ensures forall i :: 0 <= i < |alone| ==> alone[i].client == Some(host)
  {
    if reqs == [] then []
    else
      var k := |reqs| - 1;
      Only(reqs[..k], host) + if reqs[k].client == Some(host) then [reqs[k]] else []
  }

  /** A host is treated as if it were alone, on any clock: its stored times and its admissions ignore all others. */
  lemma {:induction false} HostsAreIndependent(max: int, window: int, reqs: seq<Request>, host: string)
    ensures TimesOf(TableAfter(max, window, reqs), host) == TimesOf(TableAfter(max, window, Only(reqs, host)), host)
    ensures AdmittedTimes(max, window, reqs, host) == AdmittedTimes(max, window, Only(reqs, host), host)
  {
    if reqs != [] {
      var k := |reqs| - 1;
      HostsAreIndependent(max, window, reqs[..k], host);
      var alone := Only(reqs[..k], host);
      if reqs[k].client == Some(host) {
        assert (alone + [reqs[k]])[..|alone|] == alone;
      } else {
        assert alone + [] == alone;
      }
    }
  }

  // ---- what the promise depends on ----

  function CountClosed(times: seq<real>, a: real, window: int): nat {
    if times == [] then 0
    else
      var k := |times| - 1;
      CountClosed(times[..k], a, window) + if a <= times[k] <= a + window as real then 1 else 0
  }

  lemma {:induction false} ClosedIsTwoHalves(times: seq<real>, a: real, window: int)
    requires window >= 1
    ensures CountClosed(times, a, window) <= CountHalfOpen(times, a, window, true) + CountHalfOpen(times, a, window, false)
  {
    if times != [] {
      ClosedIsTwoHalves(times[..|times| - 1], a, window);
    }
  }

  /** A closed interval of the window's length holds at most twice the limit. */
  lemma ClosedIntervalHoldsAtMostTwice(max: int, window: int, reqs: seq<Request>, host: string, a: real)
    requires window >= 1 && ClockNeverBack(reqs, host)
    ensures CountClosed(AdmittedTimes(max, window, reqs, host), a, window) <= if max > 0 then 2 * max else 0
  {
    NeverOverTheLimit(max, window, reqs, host, a, true);
    NeverOverTheLimit(max, window, reqs, host, a, false);
    ClosedIsTwoHalves(AdmittedTimes(max, window, reqs, host), a, window);
  }

  /** The first k of two bursts of `max` requests of one host, a window apart. */
  function Bursts(max: nat, window: int, host: string, k: nat): (reqs: seq<Request>)
    ensures |reqs| == k
  {
    seq(k, i requires 0 <= i < k => Request(Some(host), if i < max then 0.0 else window as real))
  }

  lemma {:induction false} AllRecent(times: seq<real>, now: real, window: int, keep: bool)
    requires forall i :: 0 <= i < |times| ==> (now - times[i] < window as real <==> keep)
    ensures Recent(times, now, window) == if keep then times else []
  {
    if times != [] {
      AllRecent(times[..|times| - 1], now, window, keep);
    }
  }

  /** What the table holds after k requests of the bursts: the first is dropped when the second begins. */
  function BurstTimes(max: nat, window: int, k: nat): seq<real> {
    if k <= max then seq(k, _ => 0.0) else seq(k - max, _ => window as real)
  }

  lemma NextOfBurst(max: nat, window: int, k: nat)
    requires max >= 1 && window >= 1 && k < 2 * max
    ensures var now := if k < max then 0.0 else window as real;
      var kept := Recent(BurstTimes(max, window, k), now, window);
      |kept| < max && kept + [now] == BurstTimes(max, window, k + 1)
  {
    AllRecent(BurstTimes(max, window, k), if k < max then 0.0 else window as real, window, k != max);
  }

  /** The limiter admits all of both bursts. */
  lemma {:induction false} BurstsAreAdmitted(max: nat, window: int, host: string, k: nat)
    requires max >= 1 && window >= 1 && k <= 2 * max
    ensures var reqs := Bursts(max, window, host, k);
      && TimesOf(TableAfter(max, window, reqs), host) == BurstTimes(max, window, k)
      && CountClosed(AdmittedTimes(max, window, reqs, host), 0.0, window) == k
  {
    if k > 0 {
      var reqs := Bursts(max, window, host, k);
      assert reqs[..k - 1] == Bursts(max, window, host, k - 1);
      BurstsAreAdmitted(max, window, host, k - 1);
      NextOfBurst(max, window, k - 1);
      var now := if k - 1 < max then 0.0 else window as real;
      assert reqs[k - 1] == Request(Some(host), now);
      hide Recent, BurstTimes, Bursts;
      var admitted := AdmittedTimes(max, window, reqs[..k - 1], host);
      assert AdmittedTimes(max, window, reqs, host) == admitted + [now];
      assert (admitted + [now])[..|admitted|] == admitted;
    }
  }

  /** That bound is tight for every limit and every window: there is a run attaining it. */
  lemma ClosedIntervalCanHoldTwice(max: int, window: int, host: string)
    requires max >= 1 && window >= 1
    ensures var reqs := Bursts(max, window, host, 2 * max);
      && ClockNeverBack(reqs, host)
      && CountClosed(AdmittedTimes(max, window, reqs, host), 0.0, window) == 2 * max
  {
    BurstsAreAdmitted(max, window, host, 2 * max);
  }

  /** A run in which the clock steps back and an admission that had been dropped is missed. */
  lemma ClockStepBackMatters()
    ensures var reqs := [Request(Some("a"), 0.0), Request(Some("a"), 100.0), Request(Some("a"), 50.0)];
      && VerdictAt(2, 60, reqs, 2) == Admitted
      && Judge(2, 60, History(2, 60, reqs[..2], "a"), reqs[2].now) == Rejected
  {
    var r0, r1, r2 := Request(Some("a"), 0.0), Request(Some("a"), 100.0), Request(Some("a"), 50.0);
    assert [r0, r1, r2][..2] == [r0, r1] && [r0, r1][..1] == [r0] && [r0][..0] == [];
    RecentOfFew();
    hide Recent;
    assert TimesOf(TableAfter(2, 60, [r0]), "a") == [0.0] && History(2, 60, [r0], "a") == [0.0];
    assert TimesOf(TableAfter(2, 60, [r0, r1]), "a") == [100.0] && History(2, 60, [r0, r1], "a") == [0.0, 100.0];
  }

  /** A run in which the clock steps back and the limit is exceeded: three admissions within a window at limit 2. */
  lemma StepBackExceedsTheLimit()
    ensures var a := Some("a"); var reqs := [Request(a, 0.0), Request(a, 0.0), Request(a, 100.0), Request(a, 50.0)];
      && AdmittedTimes(2, 60, reqs, "a") == [0.0, 0.0, 100.0, 50.0]
      && CountHalfOpen(AdmittedTimes(2, 60, reqs, "a"), 0.0, 60, true) == 3
  {
    var r0, r1, r2 := Request(Some("a"), 0.0), Request(Some("a"), 100.0), Request(Some("a"), 50.0);
    var all := [r0, r0, r1, r2];
    assert all[..3] == [r0, r0, r1] && [r0, r0, r1][..2] == [r0, r0] && [r0, r0][..1] == [r0] && [r0][..0] == [];
    RecentOfFew();
    RecentOfTwo();
    hide Recent, CountHalfOpen;
    CountOfFour();
    assert [] + [0.0] == [0.0] && AdmittedAt(2, 60, [r0], "a", 0);
    assert TimesOf(TableAfter(2, 60, [r0]), "a") == [0.0] && AdmittedTimes(2, 60, [r0], "a") == [0.0];
    assert TimesOf(TableAfter(2, 60, [r0, r0]), "a") == [0.0, 0.0] && AdmittedTimes(2, 60, [r0, r0], "a") == [0.0, 0.0];
    assert TimesOf(TableAfter(2, 60, [r0, r0, r1]), "a") == [100.0];
    assert AdmittedTimes(2, 60, [r0, r0, r1], "a") == [0.0, 0.0, 100.0];
  }

  lemma CountOfFour()
    ensures CountHalfOpen([0.0, 0.0, 100.0, 50.0], 0.0, 60, true) == 3
  {
    var times := [0.0, 0.0, 100.0, 50.0];
    assert times[..3] == [0.0, 0.0, 100.0] && times[..3][..2] == [0.0, 0.0] && [0.0, 0.0][..1] == [0.0];
    assert CountHalfOpen([0.0], 0.0, 60, true) == 1;
    assert CountHalfOpen([0.0, 0.0], 0.0, 60, true) == 2;
    assert CountHalfOpen([0.0, 0.0, 100.0], 0.0, 60, true) == 2;
  }

  lemma RecentOfFew()
    ensures Recent([], 0.0, 60) == [] == Recent([0.0], 100.0, 60)
    ensures Recent([100.0], 50.0, 60) == [100.0] && Recent([0.0, 100.0], 50.0, 60) == [0.0, 100.0]
  {
    assert [0.0, 100.0][..1] == [0.0] && [0.0][..0] == [] && [100.0][..0] == [];
  }

  lemma RecentOfTwo()
    ensures Recent([0.0], 0.0, 60) == [0.0] && Recent([0.0, 0.0], 100.0, 60) == []
  {
    assert [0.0, 0.0][..1] == [0.0] && [0.0][..0] == [];
  }

  // ---- the middleware object ----

  class RateLimiter {
    const maxRequests: int
    const window: int
    var clients: map<string, seq<real>>
    /** Every request dispatched so far. */
    ghost var log: seq<Request>

    ghost predicate Valid()
      reads this
    {
      clients == TableAfter(maxRequests, window, log)
    }

    constructor (maxRequests: int, window: int)
      ensures Valid() && this.maxRequests == maxRequests && this.window == window && log == []
    {
      this.maxRequests, this.window := maxRequests, window;
      clients, log := map[], [];
    }

    /** Forwards or rejects one request. */
    method Dispatch(req: Request) returns (verdict: Verdict)
      requires Valid()
      modifies this
      ensures Valid() && log == old(log) + [req]
      ensures verdict == VerdictAt(maxRequests, window, log, |log| - 1)
      ensures req.client.None? ==> verdict == Unlimited && clients == old(clients)
      ensures forall host :: req.client != Some(host) ==> TimesOf(clients, host) == TimesOf(old(clients), host)
      ensures req.client.Some? && ClockNeverBack(log, req.client.value) ==>
        verdict == Judge(maxRequests, window, History(maxRequests, window, old(log), req.client.value), req.now)
    {
      OneMore(maxRequests, window, log, req);
      log := log + [req];
      hide TableAfter, VerdictAt, History, Recent, ClockNeverBack;
      if req.client.None? {
        return Unlimited;
      }
      var host := req.client.value;
      var kept := Recent(TimesOf(clients, host), req.now, window);
      clients := clients[host := kept];
      if |kept| >= maxRequests {
        return Rejected;
      }
      clients := clients[host := clients[host] + [req.now]];
      return Admitted;
    }
  }

  lemma OneMore(max: int, window: int, before: seq<Request>, req: Request)
    ensures var log := before + [req];
      && TableAfter(max, window, log) == Step(max, window, TableAfter(max, window, before), req)
      && VerdictAt(max, window, log, |before|) == VerdictOn(max, window, TableAfter(max, window, before), req)
      && (req.client.Some? && ClockNeverBack(log, req.client.value) ==>
            VerdictAt(max, window, log, |before|) == Judge(max, window, History(max, window, before, req.client.value), req.now))
  {
    var log := before + [req];
    assert log[..|before|] == before;
    if req.client.Some? && ClockNeverBack(log, req.client.value) {
      assert log[..|before| + 1] == log;
      DecidesAsFullHistory(max, window, log, |before|);
    }
  }
}
