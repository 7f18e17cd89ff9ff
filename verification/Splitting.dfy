/** Cutting a sequence at every separator, as a byte stream is cut into lines and a topic into levels. */
module Splitting {
  import opened Wrappers

  function Split<T(==)>(s: seq<T>, sep: T): (parts: seq<seq<T>>)
    ensures parts != []
  {
    if s == [] then [[]]
    else
      var rest := Split(s[1..], sep);
      if s[0] == sep then [[]] + rest else [[s[0]] + rest[0]] + rest[1..]
  }

  function Join<T>(parts: seq<seq<T>>, sep: T): seq<T>
    requires parts != []
  {
    if |parts| == 1 then parts[0] else parts[0] + [sep] + Join(parts[1..], sep)
  }

  ghost predicate Free<T>(parts: seq<seq<T>>, sep: T) {
    forall i :: 0 <= i < |parts| ==> sep !in parts[i]
  }

  /** The first part ends at the first separator. */
  lemma {:induction false} SplitAtFirst<T>(a: seq<T>, b: seq<T>, sep: T)
    requires sep !in a
    ensures Split(a + [sep] + b, sep) == [a] + Split(b, sep)
  {
    if a == [] {
      assert ([] + [sep] + b)[1..] == b;
    } else {
      SplitAtFirst(a[1..], b, sep);
      assert a[0] in a && [a[0]] + a[1..] == a;
      assert (a + [sep] + b)[1..] == a[1..] + [sep] + b;
      assert ([a[1..]] + Split(b, sep))[1..] == Split(b, sep);
    }
  }

  lemma {:induction false} SplitOfFree<T>(a: seq<T>, sep: T)
    requires sep !in a
    ensures Split(a, sep) == [a]
  {
    if a != [] {
      SplitOfFree(a[1..], sep);
      assert a[0] in a && [a[0]] + a[1..] == a;
    }
  }

  /** The parts of a continued sequence: appending only ever continues the last part. */
  function Continue<T>(p: seq<seq<T>>, q: seq<seq<T>>): seq<seq<T>>
    requires p != [] && q != []
  {
    p[..|p| - 1] + [p[|p| - 1] + q[0]] + q[1..]
  }

  lemma {:induction false} SplitAppend<T>(a: seq<T>, b: seq<T>, sep: T)
    ensures Split(a + b, sep) == Continue(Split(a, sep), Split(b, sep))
  {
    var q := Split(b, sep);
    if a == [] {
      assert [] + b == b;
      assert [] + q[0] == q[0] && [q[0]] + q[1..] == q;
    } else {
      SplitAppend(a[1..], b, sep);
      assert (a + b)[1..] == a[1..] + b;
      ContinueFirst(Split(a[1..], sep), q, a[0]);
    }
  }

  lemma ContinueFirst<T>(p: seq<seq<T>>, q: seq<seq<T>>, x: T)
    requires p != [] && q != []
    ensures Continue([[]] + p, q) == [[]] + Continue(p, q)
    ensures Continue([[x] + p[0]] + p[1..], q) == [[x] + Continue(p, q)[0]] + Continue(p, q)[1..]
  {
    if |p| == 1 {
      assert [x] + (p[0] + q[0]) == [x] + p[0] + q[0];
    }
  }

  lemma ContinueTail<T>(p: seq<seq<T>>, q: seq<seq<T>>)
    requires p != [] && q != []
    ensures Continue(p, q) == p[..|p| - 1] + Continue([p[|p| - 1]], q)
  {
    assert [p[|p| - 1]][..0] == [];
  }

  /** Putting one more element, or an empty part, in front of the parts. */
  lemma JoinOfLonger<T>(x: T, rest: seq<seq<T>>, sep: T)
    requires rest != []
    ensures Join([[]] + rest, sep) == [sep] + Join(rest, sep)
    ensures Join([[x] + rest[0]] + rest[1..], sep) == [x] + Join(rest, sep)
  {
    assert ([[]] + rest)[1..] == rest;
    LongerFirst(x, rest, sep);
    hide Join;
  }

  lemma LongerFirst<T>(x: T, rest: seq<seq<T>>, sep: T)
    requires rest != []
    ensures Join([[x] + rest[0]] + rest[1..], sep) == [x] + Join(rest, sep)
  {
    var longer := [[x] + rest[0]] + rest[1..];
    assert longer[1..] == rest[1..] && |longer| == |rest|;
    if |rest| > 1 {
      var later := Join(rest[1..], sep);
      assert Join(longer, sep) == [x] + rest[0] + [sep] + later;
      hide Join;
      Assoc([x], rest[0], [sep]);
      Assoc([x], rest[0] + [sep], later);
    }
  }

  /** Joining undoes splitting, and no part contains the separator. */
  lemma {:induction false} JoinOfSplit<T>(s: seq<T>, sep: T)
    ensures Join(Split(s, sep), sep) == s && Free(Split(s, sep), sep)
  {
    if s != [] {
      JoinOfSplit(s[1..], sep);
      JoinOfLonger(s[0], Split(s[1..], sep), sep);
      hide Join;
      assert s == [s[0]] + s[1..];
    }
  }

  /** Splitting undoes joining: the parts are the only separator-free ones that join to the sequence. */
  lemma {:induction false} SplitOfJoin<T>(parts: seq<seq<T>>, sep: T)
    requires parts != [] && Free(parts, sep)
    ensures Split(Join(parts, sep), sep) == parts
  {
    if |parts| == 1 {
      SplitOfFree(parts[0], sep);
    } else {
      SplitOfJoin(parts[1..], sep);
      SplitAtFirst(parts[0], Join(parts[1..], sep), sep);
    }
  }
}
