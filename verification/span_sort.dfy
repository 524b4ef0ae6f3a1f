/**
 * The baseline order of sort_and_resolve_references: the trace's spans sorted by
 * `startTime` with Python's `list.sort`, which is stable.
 */
module SpanSort {
  import opened SpanModel

  /** Nondecreasing by start time. */
  ghost predicate SortedByStart(s: seq<Span>) {
    forall i, j :: 0 <= i < j < |s| ==> s[i].startTime <= s[j].startTime
  }

  /** No two spans of `s` share a start time. */
  ghost predicate DistinctStarts(s: seq<Span>) {
    forall i, j :: 0 <= i < j < |s| ==> s[i].startTime != s[j].startTime
  }

  /** The spans of `s` that start at `t`, in their order in `s`. */
  function StartingAt(s: seq<Span>, t: int): seq<Span> {
    if s == [] then []
    else (if s[0].startTime == t then [s[0]] else []) + StartingAt(s[1..], t)
  }

  /** Places `x` before the first span that does not start earlier than it. */
  function InsertByStart(x: Span, s: seq<Span>): seq<Span> {
    if s == [] || x.startTime <= s[0].startTime then [x] + s
    else [s[0]] + InsertByStart(x, s[1..])
  }

  /** `spans.sort(key=lambda x: x['startTime'])`: a stable sort by start time. */
  function SortByStart(s: seq<Span>): seq<Span> {
    if s == [] then [] else InsertByStart(s[0], SortByStart(s[1..]))
  }

  lemma {:induction false} InsertByStartPermutes(x: Span, s: seq<Span>)
    ensures multiset(InsertByStart(x, s)) == multiset(s) + multiset{x}
    ensures |InsertByStart(x, s)| == |s| + 1
    decreases |s|
  {
    if s != [] && x.startTime > s[0].startTime {
      InsertByStartPermutes(x, s[1..]);
      assert s == [s[0]] + s[1..];
    }
  }

  lemma {:induction false} InsertByStartSorted(x: Span, s: seq<Span>)
    requires SortedByStart(s)
    ensures SortedByStart(InsertByStart(x, s))
    decreases |s|
  {
    if s != [] && x.startTime > s[0].startTime {
      var r := InsertByStart(x, s[1..]);
      InsertByStartSorted(x, s[1..]);
      InsertByStartPermutes(x, s[1..]);
      forall k | 0 <= k < |r| ensures s[0].startTime <= r[k].startTime {
        assert r[k] in multiset(s[1..]) + multiset{x};
        if r[k] != x {
          assert r[k] in s[1..];
        }
      }
      assert InsertByStart(x, s) == [s[0]] + r;
    }
  }

  /** The stable sort returns a sorted permutation of its input. */
  lemma {:induction false} SortByStartFacts(s: seq<Span>)
    ensures SortedByStart(SortByStart(s))
    ensures multiset(SortByStart(s)) == multiset(s)
    ensures |SortByStart(s)| == |s|
  {
    if s != [] {
      SortByStartFacts(s[1..]);
      InsertByStartPermutes(s[0], SortByStart(s[1..]));
      InsertByStartSorted(s[0], SortByStart(s[1..]));
      assert s == [s[0]] + s[1..];
    }
  }

  lemma StartingAtCons(a: Span, s: seq<Span>, t: int)
    ensures StartingAt([a] + s, t) == (if a.startTime == t then [a] else []) + StartingAt(s, t)
  {
    assert ([a] + s)[1..] == s;
  }

  lemma {:induction false} InsertByStartStable(x: Span, s: seq<Span>, t: int)
    ensures StartingAt(InsertByStart(x, s), t) == (if x.startTime == t then [x] else []) + StartingAt(s, t)
    decreases |s|
  {
    if s == [] || x.startTime <= s[0].startTime {
      StartingAtCons(x, s, t);
    } else {
      var rest := InsertByStart(x, s[1..]);
      InsertByStartStable(x, s[1..], t);
      StartingAtCons(s[0], rest, t);
      StartingAtCons(s[0], s[1..], t);
      assert s == [s[0]] + s[1..];
      if x.startTime == t {
        assert s[0].startTime != t;
      } else if s[0].startTime == t {
        assert StartingAt(rest, t) == StartingAt(s[1..], t);
      }
    }
  }

  /**
   * Stability: for every start time, the spans starting then keep their relative order.
   * With SortByStartFacts this characterises a stable sort.
   */
  lemma {:induction false} SortByStartStable(s: seq<Span>, t: int)
    ensures StartingAt(SortByStart(s), t) == StartingAt(s, t)
  {
    if s != [] {
      SortByStartStable(s[1..], t);
      InsertByStartStable(s[0], SortByStart(s[1..]), t);
    }
  }

  lemma MultisetTail(a: seq<Span>)
    requires a != []
    ensures multiset(a[1..]) == multiset(a) - multiset{a[0]}
  {
    assert a == [a[0]] + a[1..];
  }

  lemma SortedHeadsEqual(a: seq<Span>, b: seq<Span>)
    requires a != [] && b != []
    requires SortedByStart(a) && SortedByStart(b)
    requires multiset(a) == multiset(b)
    requires DistinctStarts(a)
    ensures a[0] == b[0]
  {
    assert a[0] in multiset(b);
    var k :| 0 <= k < |b| && b[k] == a[0];
    assert b[0] in multiset(a);
    var m :| 0 <= m < |a| && a[m] == b[0];
    assert a[0].startTime <= a[m].startTime == b[0].startTime <= b[k].startTime == a[0].startTime;
    assert m == 0;
  }

  /** Two sorted arrangements of the same spans are equal when no two spans share a start time. */
  lemma {:induction false} SortedWithDistinctStartsUnique(a: seq<Span>, b: seq<Span>)
    requires SortedByStart(a) && SortedByStart(b)
    requires multiset(a) == multiset(b)
    requires DistinctStarts(a)
    ensures a == b
    decreases |a|
  {
    assert |a| == |multiset(a)| == |multiset(b)| == |b|;
    if a != [] {
      SortedHeadsEqual(a, b);
      MultisetTail(a);
      MultisetTail(b);
      SortedWithDistinctStartsUnique(a[1..], b[1..]);
      assert a == [a[0]] + a[1..];
      assert b == [b[0]] + b[1..];
    }
  }
}
