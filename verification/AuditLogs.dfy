/** The append-only audit log. */
module AuditLogs {
  import opened Bounded

  datatype Entry = Entry(action: string, target: string, detail: map<string, string>, timestamp: real)

  /** What a log with this bound still holds of its history: a bound of 0 keeps everything, a negative one nothing. */
  function Kept(history: seq<Entry>, max: int): seq<Entry> {
    if max > 0 then LastN(history, max) else if max == 0 then history else []
  }

  /** Append, then cut back to `entries[-max:]` when over the bound. */
  function Recorded(entries: seq<Entry>, max: int, e: Entry): seq<Entry> {
    var longer := entries + [e];
    if |longer| > max then TailSlice(longer, max) else longer
  }

  function Run(max: int, history: seq<Entry>): seq<Entry> {
    if history == [] then [] else Recorded(Run(max, history[..|history| - 1]), max, history[|history| - 1])
  }

  lemma RecordedKeeps(max: int, history: seq<Entry>, e: Entry)
    ensures Recorded(Kept(history, max), max, e) == Kept(history + [e], max)
  {
    if max > 0 {
      LastNOfAppend(history, max, e);
    } else if max < 0 {
      assert Kept(history, max) + [e] == [e];
    }
  }

  /** After any run of records the log holds exactly `Kept`. */
  lemma {:induction false} RunKeeps(max: int, history: seq<Entry>)
    ensures Run(max, history) == Kept(history, max)
  {
    if history == [] {
      KeptNothing(max);
    } else {
      var k := |history| - 1;
      hide Kept, Recorded;
      RunKeeps(max, history[..k]);
      RecordedKeeps(max, history[..k], history[k]);
      assert history == history[..k] + [history[k]];
    }
  }

  lemma KeptNothing(max: int)
    ensures Kept([], max) == []
  {
  }

  /** So the log respects a non-negative bound on every run if and only if the bound is not 0. */
  lemma BoundedExactly(max: nat, history: seq<Entry>)
    ensures |Run(max, history)| <= max || max == 0
    ensures max == 0 ==> |Run(max, history)| == |history|
  {
    RunKeeps(max, history);
  }

  class AuditLog {
    const max: int
    var entries: seq<Entry>
    ghost var history: seq<Entry>

    ghost predicate Valid()
      reads this
    {
      entries == Run(max, history)
    }

    constructor (max: int)
      ensures Valid() && this.max == max && history == []
    {
      this.max := max;
      entries, history := [], [];
    }

    method Record(e: Entry)
      requires Valid()
      modifies this
      ensures Valid() && history == old(history) + [e]
    {
      entries := entries + [e];
      if |entries| > max {
        entries := TailSlice(entries, max);
      }
      assert (history + [e])[..|history|] == history;
      history := history + [e];
    }

    /** The newest entries of what is kept, newest first, for any limit Python accepts. */
    method Recent(limit: int) returns (out: seq<Entry>)
      requires Valid()
      ensures out == Reversed(TailSlice(Kept(history, max), limit))
    {
      RunKeeps(max, history);
      out := Reversed(TailSlice(entries, limit));
    }
  }
}
