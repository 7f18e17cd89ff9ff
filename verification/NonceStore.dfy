/** Request verification with the self-clearing store of used nonces. */
module NonceStore {
  import opened Wrappers
  import opened Reals

  const MAX_NONCES := 10000

  /** Acceptances between two clearings of the store. */
  const BLOCK := MAX_NONCES + 1

  /** The block acceptance number i falls in. */
  function Block(i: nat): nat {
    i / BLOCK
  }

  /** The number of the first acceptance in the block of acceptance k. */
  function BlockStart(k: nat): nat {
    k - k % BLOCK
  }

  lemma BlockFacts(i: nat, k: nat)
    requires i <= k
    ensures Block(i) <= Block(k)
    ensures Block(i) == Block(k) <==> BlockStart(k) <= i
  {
  }

  lemma NextBlock(k: nat)
    ensures if k % BLOCK == MAX_NONCES then (k + 1) % BLOCK == 0 && BlockStart(k + 1) == k + 1
            else (k + 1) % BLOCK == k % BLOCK + 1 && BlockStart(k + 1) == BlockStart(k)
    ensures BlockStart(k) <= k
  {
  }

  /** One call of `verify_hmac`, with the clock reading taken for it. */
  datatype Call = Call(key: string, payload: string, nonce: string, timestamp: string, signature: string,
                       maxAge: real, now: real)

  /** What `float` makes of a text: a number, an infinity, not-a-number, or an exception. */
  datatype Parsed = Number(t: real) | Infinite | NotANumber | Malformed

  /** The library functions the check relies on: `float(text)` and the keyed digest of a message. */
  datatype Library = Library(parse: string -> Parsed, digest: (string, string) -> string)

  /** The answer of a call, or the exception it raises. */
  datatype Answer = ValueError | TypeError | Refused | Accepted

  function ComputeHmac(lib: Library, key: string, payload: string, nonce: string, timestamp: string): string {
    lib.digest(key, payload + ":" + nonce + ":" + timestamp)
  }

  /** The timestamp is a number within the allowed age of the clock. */
  predicate Timely(lib: Library, call: Call) {
    var p := lib.parse(call.timestamp);
    p.Number? && Abs(call.now - p.t) <= call.maxAge
  }

  /** `age > max_age` is false: also when the age is not a number, which no comparison holds of. */
  predicate NotTooOld(lib: Library, call: Call) {
    lib.parse(call.timestamp).NotANumber? || Timely(lib, call)
  }

  predicate Signed(lib: Library, call: Call) {
    IsAscii(call.signature) && ComputeHmac(lib, call.key, call.payload, call.nonce, call.timestamp) == call.signature
  }

  function Verify(lib: Library, used: set<string>, call: Call): Answer {
    if lib.parse(call.timestamp).Malformed? then ValueError
    else if !NotTooOld(lib, call) then Refused
    else if call.nonce in used then Refused
    else if !IsAscii(call.signature) then TypeError
    else if !Signed(lib, call) then Refused
    else Accepted
  }

  // ---- runs ----

  function UsedAfter(lib: Library, calls: seq<Call>): set<string> {
    if calls == [] then {}
    else
      var k := |calls| - 1;
      var used := UsedAfter(lib, calls[..k]);
      if Verify(lib, used, calls[k]) != Accepted then used
      else if |used + {calls[k].nonce}| > MAX_NONCES then {}
      else used + {calls[k].nonce}
  }

  function AnswerAt(lib: Library, calls: seq<Call>, i: nat): Answer
    requires i < |calls|
  {
    Verify(lib, UsedAfter(lib, calls[..i]), calls[i])
  }

  /** The accepted calls of a run, in order. */
  function AcceptedCalls(lib: Library, calls: seq<Call>): (r: seq<Call>)
    ensures |r| <= |calls|
  {
    if calls == [] then []
    else
      var k := |calls| - 1;
      AcceptedCalls(lib, calls[..k]) + if AnswerAt(lib, calls, k) == Accepted then [calls[k]] else []
  }

  /** The nonces of the acceptances since the last full block. */
  ghost function CurrentBlock(accepted: seq<Call>): set<string> {
    set i | BlockStart(|accepted|) <= i < |accepted| :: accepted[i].nonce
  }

  ghost predicate DistinctInBlocks(accepted: seq<Call>) {
    forall i, j :: 0 <= i < j < |accepted| && i / 10001 == j / 10001 ==> accepted[i].nonce != accepted[j].nonce
  }

  lemma NextCurrentBlock(accepted: seq<Call>, call: Call)
    ensures CurrentBlock(accepted + [call])
         == if |accepted| % BLOCK == MAX_NONCES then {} else CurrentBlock(accepted) + {call.nonce}
  {
    var k, after := |accepted|, accepted + [call];
    NextBlock(k);
    hide BlockStart;
    if k % BLOCK != MAX_NONCES {
      forall n
        ensures n in CurrentBlock(after) <==> n in CurrentBlock(accepted) + {call.nonce}
      {
        if n in CurrentBlock(accepted) {
          var i :| BlockStart(k) <= i < k && accepted[i].nonce == n;
          assert after[i].nonce == n;
        }
        if n == call.nonce {
          assert after[k].nonce == n;
        }
      }
    }
  }

  lemma NextIsDistinct(accepted: seq<Call>, call: Call)
    requires DistinctInBlocks(accepted) && call.nonce !in CurrentBlock(accepted)
    ensures DistinctInBlocks(accepted + [call])
  {
    var k, after := |accepted|, accepted + [call];
    forall i | 0 <= i < k && Block(i) == Block(k)
      ensures after[i].nonce != call.nonce
    {
      BlockFacts(i, k);
      assert accepted[i].nonce in CurrentBlock(accepted);
    }
    hide Block, BlockStart, CurrentBlock;
  }

  lemma BlockGrows(k: nat, block: set<string>, nonce: string, after: set<string>)
    requires |block| == k % BLOCK && nonce !in block
    requires after == if k % BLOCK == MAX_NONCES then {} else block + {nonce}
    ensures |after| == (k + 1) % BLOCK
  {
    NextBlock(k);
  }

  lemma BlockStep(accepted: seq<Call>, call: Call)
    requires |CurrentBlock(accepted)| == |accepted| % BLOCK && DistinctInBlocks(accepted)
    requires call.nonce !in CurrentBlock(accepted)
    ensures DistinctInBlocks(accepted + [call])
    ensures CurrentBlock(accepted + [call])
         == if |accepted| % BLOCK == MAX_NONCES then {} else CurrentBlock(accepted) + {call.nonce}
    ensures |CurrentBlock(accepted + [call])| == |accepted + [call]| % BLOCK
  {
    hide *;
    NextCurrentBlock(accepted, call);
    NextIsDistinct(accepted, call);
    BlockGrows(|accepted|, CurrentBlock(accepted), call.nonce, CurrentBlock(accepted + [call]));
  }

  /**
   * After k acceptances the store holds exactly the nonces of the current block, k mod BLOCK of
   * them, and inside every block of BLOCK consecutive acceptances all nonces differ.
   */
  lemma {:induction false} StoreHoldsCurrentBlock(lib: Library, calls: seq<Call>)
    ensures var accepted := AcceptedCalls(lib, calls);
      && UsedAfter(lib, calls) == CurrentBlock(accepted)
      && |UsedAfter(lib, calls)| == |accepted| % 10001
      && DistinctInBlocks(accepted)
  {
    if calls != [] {
      var k := |calls| - 1;
      StoreHoldsCurrentBlock(lib, calls[..k]);
      var accepted, used := AcceptedCalls(lib, calls[..k]), UsedAfter(lib, calls[..k]);
      if AnswerAt(lib, calls, k) == Accepted {
        BlockStep(accepted, calls[k]);
      } else {
        assert accepted + [] == accepted;
      }
    }
  }

  /**
   * Every answer of a run can be told from the log of acceptances alone, without the store: the nonce
   * must not be among the acceptances since the last multiple of 10001, the timestamp must be within
   * the allowed age of the clock or not a number, and the signature the digest of the three joined parts.
   */
  lemma AnswersFromTheLog(lib: Library, calls: seq<Call>, i: nat)
    requires i < |calls|
    ensures var accepted, call := AcceptedCalls(lib, calls[..i]), calls[i];
      var t := lib.parse(call.timestamp);
      var inTime := t.NotANumber? || (t.Number? && call.now - call.maxAge <= t.t <= call.now + call.maxAge);
      var unused := forall j :: 0 <= j < |accepted| && j / 10001 == |accepted| / 10001 ==> accepted[j].nonce != call.nonce;
      var signature := lib.digest(call.key, call.payload + ":" + call.nonce + ":" + call.timestamp);
      && (AnswerAt(lib, calls, i) == ValueError <==> t.Malformed?)
      && (AnswerAt(lib, calls, i) == TypeError <==> inTime && unused && !IsAscii(call.signature))
      && (AnswerAt(lib, calls, i) == Accepted
          <==> inTime && unused && IsAscii(call.signature) && signature == call.signature)
  {
    StoreHoldsCurrentBlock(lib, calls[..i]);
    hide BlockStart, AcceptedCalls, UsedAfter, IsAscii;
    var accepted, call := AcceptedCalls(lib, calls[..i]), calls[i];
    InCurrentBlock(accepted, call.nonce);
  }

  lemma InCurrentBlock(accepted: seq<Call>, nonce: string)
    ensures nonce in CurrentBlock(accepted)
       <==> exists j :: 0 <= j < |accepted| && Block(j) == Block(|accepted|) && accepted[j].nonce == nonce
  {
    var k := |accepted|;
    if nonce in CurrentBlock(accepted) {
      var j :| BlockStart(k) <= j < k && accepted[j].nonce == nonce;
      BlockFacts(j, k);
    }
    if exists j :: 0 <= j < k && Block(j) == Block(k) && accepted[j].nonce == nonce {
      var j :| 0 <= j < k && Block(j) == Block(k) && accepted[j].nonce == nonce;
      BlockFacts(j, k);
    }
  }

  lemma {:induction false} AcceptedWereChecked(lib: Library, calls: seq<Call>, i: nat)
    requires i < |AcceptedCalls(lib, calls)|
    ensures NotTooOld(lib, AcceptedCalls(lib, calls)[i]) && Signed(lib, AcceptedCalls(lib, calls)[i])
  {
    var k := |calls| - 1;
    if i < |AcceptedCalls(lib, calls[..k])| {
      AcceptedWereChecked(lib, calls[..k], i);
    }
  }

  /**
   * Two acceptances of one nonce with one timestamp are separated by a clearing of the store, and
   * no further apart in time than the two calls' allowed ages together, unless the timestamp is not
   * a number.
   */
  lemma SameNonceTwice(lib: Library, calls: seq<Call>, i: nat, j: nat)
    requires i < j < |AcceptedCalls(lib, calls)|
    requires var a := AcceptedCalls(lib, calls); a[i].nonce == a[j].nonce && a[i].timestamp == a[j].timestamp
    ensures i / 10001 < j / 10001
    ensures var a := AcceptedCalls(lib, calls);
      lib.parse(a[i].timestamp).NotANumber? || Abs(a[i].now - a[j].now) <= a[i].maxAge + a[j].maxAge
  {
    var a := AcceptedCalls(lib, calls);
    StoreHoldsCurrentBlock(lib, calls);
    AcceptedWereChecked(lib, calls, i);
    AcceptedWereChecked(lib, calls, j);
    hide *;
    DifferentBlocks(a, i, j);
    WithinBothAges(lib, a[i], a[j]);
  }

  lemma WithinBothAges(lib: Library, first: Call, second: Call)
    requires first.timestamp == second.timestamp && NotTooOld(lib, first) && NotTooOld(lib, second)
    ensures lib.parse(first.timestamp).NotANumber? || Abs(first.now - second.now) <= first.maxAge + second.maxAge
  {
  }

  lemma DifferentBlocks(accepted: seq<Call>, i: nat, j: nat)
    requires DistinctInBlocks(accepted) && i < j < |accepted| && accepted[i].nonce == accepted[j].nonce
    ensures i / 10001 < j / 10001
  {
  }

  /**
   * Presenting an accepted call once more, not too old: it is accepted again exactly when the
   * block it was accepted in is complete, that is, when the store has been cleared since.
   */
  lemma RepeatedCall(lib: Library, calls: seq<Call>, i: nat, now: real)
    requires i < |AcceptedCalls(lib, calls)|
    requires NotTooOld(lib, AcceptedCalls(lib, calls)[i].(now := now))
    ensures var accepted := AcceptedCalls(lib, calls); var again := accepted[i].(now := now);
      AnswerAt(lib, calls + [again], |calls|) == Accepted
      <==> (i / 10001 < |accepted| / 10001
            && forall j :: i < j < |accepted| && j / 10001 == |accepted| / 10001 ==> accepted[j].nonce != again.nonce)
  {
    var accepted := AcceptedCalls(lib, calls);
    var again := accepted[i].(now := now);
    assert (calls + [again])[..|calls|] == calls;
    AcceptedWereChecked(lib, calls, i);
    assert Signed(lib, again);
    AnswersFromTheLog(lib, calls + [again], |calls|);
    BlockFacts(i, |accepted|);
    forall j | 0 <= j <= i
      ensures j / 10001 <= i / 10001
    {
      BlockFacts(j, i);
    }
    assert accepted[i].nonce == again.nonce;
  }

  /**
   * The age of a call is no check at all exactly on timestamps that are not numbers: a signed call
   * with an unused nonce is then accepted whatever the clock reads.
   */
  lemma AcceptedAtAnyTimeIff(lib: Library, calls: seq<Call>, call: Call)
    requires call.nonce !in UsedAfter(lib, calls) && Signed(lib, call)
    ensures (forall now :: AnswerAt(lib, calls + [call.(now := now)], |calls|) == Accepted)
       <==> lib.parse(call.timestamp).NotANumber?
  {
    forall now
      ensures AnswerAt(lib, calls + [call.(now := now)], |calls|) == Verify(lib, UsedAfter(lib, calls), call.(now := now))
      ensures Signed(lib, call.(now := now))
    {
      assert (calls + [call.(now := now)])[..|calls|] == calls;
    }
    hide UsedAfter, AnswerAt, IsAscii;
    var p := lib.parse(call.timestamp);
    if p.Number? {
      var late := call.(now := p.t + Abs(call.maxAge) + 1.0);
      assert Verify(lib, UsedAfter(lib, calls), late) == Refused;
      assert AnswerAt(lib, calls + [late], |calls|) != Accepted;
    } else if !p.NotANumber? {
      assert AnswerAt(lib, calls + [call.(now := 0.0)], |calls|) != Accepted;
    }
  }

  /** Such a call, on the empty store: it is accepted however far the clock is from anything. */
  lemma NotANumberIsAccepted(digest: (string, string) -> string, key: string, payload: string, nonce: string, now: real)
    requires IsAscii(digest(key, payload + ":" + nonce + ":" + "nan"))
    ensures var lib := Library(text => if text == "nan" then NotANumber else Malformed, digest);
      var call := Call(key, payload, nonce, "nan", ComputeHmac(lib, key, payload, nonce, "nan"), 30.0, now);
      !Timely(lib, call) && AnswerAt(lib, [call], 0) == Accepted
  {
    var lib := Library(text => if text == "nan" then NotANumber else Malformed, digest);
    var call := Call(key, payload, nonce, "nan", ComputeHmac(lib, key, payload, nonce, "nan"), 30.0, now);
    assert [call][..0] == [];
  }

  lemma OneMore(lib: Library, before: seq<Call>, call: Call)
    ensures var log, used := before + [call], UsedAfter(lib, before);
      && AnswerAt(lib, log, |before|) == Verify(lib, used, call)
      && UsedAfter(lib, log) == (if Verify(lib, used, call) != Accepted then used
                                 else if |used + {call.nonce}| > MAX_NONCES then {} else used + {call.nonce})
      && |UsedAfter(lib, log)| == |AcceptedCalls(lib, log)| % BLOCK
  {
    StoreHoldsCurrentBlock(lib, before + [call]);
    hide CurrentBlock, AcceptedCalls, Verify;
    assert (before + [call])[..|before|] == before;
  }

  /** The module-level store. */
  class Verifier {
    const lib: Library
    var usedNonces: set<string>
    /** Every call so far. */
    ghost var log: seq<Call>

    ghost predicate Valid()
      reads this
    {
      usedNonces == UsedAfter(lib, log)
    }

    constructor (lib: Library)
      ensures Valid() && this.lib == lib && log == []
    {
      this.lib := lib;
      usedNonces, log := {}, [];
    }

    method VerifyHmac(call: Call) returns (answer: Answer)
      requires Valid()
      modifies this
      ensures Valid() && log == old(log) + [call]
      ensures answer == AnswerAt(lib, log, |log| - 1)
      ensures |usedNonces| == |AcceptedCalls(lib, log)| % BLOCK
    {
      OneMore(lib, log, call);
      log := log + [call];
      hide UsedAfter, AnswerAt, AcceptedCalls, IsAscii;
      match lib.parse(call.timestamp) {
        case Malformed => return ValueError;
        case Infinite => return Refused;
        case NotANumber =>
        case Number(t) =>
          var age := Abs(call.now - t);
          if age > call.maxAge {
            return Refused;
          }
      }
      if call.nonce in usedNonces {
        return Refused;
      }
      if !IsAscii(call.signature) {
        return TypeError;
      }
      var expected := ComputeHmac(lib, call.key, call.payload, call.nonce, call.timestamp);
      if expected != call.signature {
        return Refused;
      }
      usedNonces := usedNonces + {call.nonce};
      if |usedNonces| > MAX_NONCES {
        usedNonces := {};
      }
      return Accepted;
    }
  }
}
