/** What sort_and_resolve_references guarantees about the order it produces. */
module SpanOrderProofs {
  import opened SpanModel
  import opened SpanSort
  import opened SpanOrder

  /** No two positions of `s` hold spans with the same id. */
  ghost predicate NoDupIds(s: seq<Span>) {
    forall i, j :: 0 <= i < j < |s| ==> s[i].spanID != s[j].spanID
  }

  /** Every span of `s` is the one the index stores under its id. */
  ghost predicate FromIndex(index: map<string, Span>, s: seq<Span>) {
    forall x :: x in s ==> x.spanID in index && index[x.spanID] == x
  }

  /**
   * `w'` continues `w`: the output only grows at its end, by spans of the index
   * with distinct ids, exactly one for each id marked in between.
   */
  ghost predicate WalkExtends(index: map<string, Span>, w: Walk, w': Walk) {
    && w.visited <= w'.visited
    && |w.out| <= |w'.out|
    && w'.out[..|w.out|] == w.out
    && Ids(w'.out[|w.out|..]) == w'.visited - w.visited
    && NoDupIds(w'.out[|w.out|..])
    && FromIndex(index, w'.out[|w.out|..])
  }

  lemma NoDupIdsConcat(a: seq<Span>, b: seq<Span>)
    requires NoDupIds(a) && NoDupIds(b) && Ids(a) !! Ids(b)
    ensures NoDupIds(a + b)
  {
    forall i, j | 0 <= i < j < |a + b| ensures (a + b)[i].spanID != (a + b)[j].spanID {
      if j >= |a| && i < |a| {
        assert (a + b)[i] == a[i] && (a + b)[j] == b[j - |a|];
        assert a[i].spanID in Ids(a) && b[j - |a|].spanID in Ids(b);
      } else if i >= |a| {
        assert (a + b)[i] == b[i - |a|] && (a + b)[j] == b[j - |a|];
      }
    }
  }

  lemma IdsConcat(a: seq<Span>, b: seq<Span>)
    ensures Ids(a + b) == Ids(a) + Ids(b)
  {
    assert forall x :: x in a + b <==> x in a || x in b;
  }

  lemma ExtendsRefl(index: map<string, Span>, w: Walk)
    ensures WalkExtends(index, w, w)
  {
    assert w.out[|w.out|..] == [];
  }

  lemma ExtendsTrans(index: map<string, Span>, a: Walk, b: Walk, c: Walk)
    requires WalkExtends(index, a, b) && WalkExtends(index, b, c)
    ensures WalkExtends(index, a, c)
  {
    var ab, bc := b.out[|a.out|..], c.out[|b.out|..];
    assert c.out[..|b.out|] == b.out;
    assert c.out[..|a.out|] == b.out[..|a.out|] == a.out;
    assert c.out[|a.out|..] == ab + bc;
    IdsConcat(ab, bc);
    NoDupIdsConcat(ab, bc);
  }

  /** One visit extends the walk and marks the visited id. */
  lemma {:induction false} VisitExtends(index: map<string, Span>, id: string, w: Walk)
    requires Indexed(index) && id in index
    ensures WalkExtends(index, w, Visit(index, id, w))
    decreases index.Keys - w.visited, 0
  {
    if id in w.visited {
      ExtendsRefl(index, w);
    } else {
      var w0 := Walk(w.visited + {id}, w.out);
      var w1 := VisitRefs(index, index[id].references, w0);
      VisitRefsExtends(index, index[id].references, w0);
      var added := w1.out[|w.out|..];
      assert id !in Ids(added) && w.visited <= w1.visited;
      assert w1.visited - w.visited == (w1.visited - w0.visited) + {id};
      assert Visit(index, id, w).out[|w.out|..] == added + [index[id]];
      assert Visit(index, id, w).out[..|w.out|] == w.out by {
        assert (w1.out + [index[id]])[..|w.out|] == w1.out[..|w.out|];
      }
      IdsConcat(added, [index[id]]);
      assert Ids([index[id]]) == {id};
      NoDupIdsConcat(added, [index[id]]);
    }
  }

  lemma {:induction false} VisitRefsExtends(index: map<string, Span>, refs: seq<Ref>, w: Walk)
    requires Indexed(index)
    ensures WalkExtends(index, w, VisitRefs(index, refs, w))
    decreases index.Keys - w.visited, |refs| + 1
  {
    if refs == [] {
      ExtendsRefl(index, w);
    } else {
      var w1 := if Followed(index, refs[0]) then Visit(index, refs[0].spanID, w) else w;
      if Followed(index, refs[0]) {
        VisitExtends(index, refs[0].spanID, w);
      } else {
        ExtendsRefl(index, w);
      }
      assert index.Keys - w1.visited <= index.Keys - w.visited;
      VisitRefsExtends(index, refs[1..], w1);
      ExtendsTrans(index, w, w1, VisitRefs(index, refs[1..], w1));
    }
  }

  lemma {:induction false} VisitRootsExtends(index: map<string, Span>, roots: seq<Span>, w: Walk)
    requires Indexed(index)
    requires forall x :: x in roots ==> x.spanID in index
    ensures WalkExtends(index, w, VisitRoots(index, roots, w))
    ensures forall x :: x in roots ==> x.spanID in VisitRoots(index, roots, w).visited
  {
    if roots == [] {
      ExtendsRefl(index, w);
    } else {
      var w1 := Visit(index, roots[0].spanID, w);
      VisitExtends(index, roots[0].spanID, w);
      VisitRootsExtends(index, roots[1..], w1);
      ExtendsTrans(index, w, w1, VisitRoots(index, roots[1..], w1));
      assert forall x :: x in roots ==> x == roots[0] || x in roots[1..];
    }
  }

  /** The walk from the empty state: the ids output are exactly the ids marked. */
  lemma ResolveSortedWalk(sorted: seq<Span>)
    ensures var index := IdIndex(sorted);
            var w := VisitRoots(index, Roots(sorted), Walk({}, []));
            && Ids(w.out) == w.visited
            && NoDupIds(w.out)
            && FromIndex(index, w.out)
            && Ids(Roots(sorted)) <= w.visited
  {
    var index := IdIndex(sorted);
    VisitRootsExtends(index, Roots(sorted), Walk({}, []));
    var w := VisitRoots(index, Roots(sorted), Walk({}, []));
    assert w.out[0..] == w.out;
  }

  /** Every span id appears at most once in the resolved order, and only spans of the trace appear. */
  lemma ResolveIdsUnique(spans: seq<Span>)
    ensures NoDupIds(Resolve(spans))
    ensures forall x :: x in Resolve(spans) ==> x in spans
  {
    var sorted := SortByStart(spans);
    SortByStartFacts(spans);
    ResolveSortedWalk(sorted);
    forall x | x in Resolve(spans) ensures x in spans {
      assert x in sorted;
      assert x in multiset(sorted);
    }
  }

  lemma {:induction false} InsertByStartNoDup(x: Span, t: seq<Span>)
    requires NoDupIds(t) && x.spanID !in Ids(t)
    ensures NoDupIds(InsertByStart(x, t))
    ensures Ids(InsertByStart(x, t)) == Ids(t) + {x.spanID}
    decreases |t|
  {
    if t == [] || x.startTime <= t[0].startTime {
      IdsConcat([x], t);
      NoDupIdsConcat([x], t);
    } else {
      assert t == [t[0]] + t[1..];
      IdsConcat([t[0]], t[1..]);
      assert t[0].spanID !in Ids(t[1..]) by {
        forall y | y in t[1..] ensures y.spanID != t[0].spanID {
          var k :| 0 <= k < |t[1..]| && t[1..][k] == y;
          assert t[k + 1] == y;
        }
      }
      InsertByStartNoDup(x, t[1..]);
      IdsConcat([t[0]], InsertByStart(x, t[1..]));
      NoDupIdsConcat([t[0]], InsertByStart(x, t[1..]));
    }
  }

  /** Sorting keeps the span ids and their uniqueness. */
  lemma {:induction false} SortByStartNoDup(s: seq<Span>)
    requires NoDupIds(s)
    ensures NoDupIds(SortByStart(s))
    ensures Ids(SortByStart(s)) == Ids(s)
  {
    if s != [] {
      assert s == [s[0]] + s[1..];
      IdsConcat([s[0]], s[1..]);
      assert s[0].spanID !in Ids(s[1..]) by {
        forall y | y in s[1..] ensures y.spanID != s[0].spanID {
          var k :| 0 <= k < |s[1..]| && s[1..][k] == y;
          assert s[k + 1] == y;
        }
      }
      SortByStartNoDup(s[1..]);
      InsertByStartNoDup(s[0], SortByStart(s[1..]));
    }
  }

  /** With unique ids the index maps each id back to its own span. */
  lemma {:induction false} IdIndexOfUnique(s: seq<Span>)
    requires NoDupIds(s)
    ensures forall x :: x in s ==> IdIndex(s)[x.spanID] == x
  {
    if s != [] {
      var init, last := s[..|s| - 1], s[|s| - 1];
      assert s == init + [last];
      IdIndexOfUnique(init);
      forall x | x in s ensures IdIndex(s)[x.spanID] == x {
        if x != last {
          var k :| 0 <= k < |s| && s[k] == x;
          assert k < |s| - 1;
          assert x in init;
        }
      }
    }
  }

  /** A span list without repeated ids holds each of its spans exactly once. */
  lemma {:induction false} NoDupIdsMultiset(a: seq<Span>)
    requires NoDupIds(a)
    ensures forall x :: multiset(a)[x] == if x in a then 1 else 0
  {
    if a != [] {
      assert a == [a[0]] + a[1..];
      NoDupIdsMultiset(a[1..]);
      assert a[0] !in a[1..] by {
        forall k | 0 <= k < |a[1..]| ensures a[1..][k] != a[0] {
          assert a[1..][k] == a[k + 1];
        }
      }
    }
  }

  lemma {:induction false} RootsOfSelfFree(s: seq<Span>)
    requires forall x :: x in s ==> !RefersToSelf(x)
    ensures Roots(s) == s
  {
    if s != [] {
      RootsOfSelfFree(s[1..]);
    }
  }

  lemma SameSpansNoDup(a: seq<Span>, b: seq<Span>)
    requires NoDupIds(a) && NoDupIds(b)
    requires forall x :: x in a <==> x in b
    ensures multiset(a) == multiset(b)
  {
    NoDupIdsMultiset(a);
    NoDupIdsMultiset(b);
    assert forall x :: multiset(a)[x] == multiset(b)[x];
  }

  lemma ResolveSortedPermutes(sorted: seq<Span>)
    requires NoDupIds(sorted)
    requires forall x :: x in sorted ==> !RefersToSelf(x)
    ensures multiset(ResolveSorted(sorted)) == multiset(sorted)
  {
    RootsOfSelfFree(sorted);
    ResolveSortedWalk(sorted);
    IdIndexOfUnique(sorted);
    var index := IdIndex(sorted);
    var out := ResolveSorted(sorted);
    forall x | x in sorted ensures x in out {
      assert x.spanID in Ids(out);
      var y :| y in out && y.spanID == x.spanID;
      assert y == index[y.spanID] == x;
    }
    SameSpansNoDup(out, sorted);
  }

  /**
   * With unique span ids and no span referencing itself, the resolved order is a
   * permutation of the trace's spans: nothing is lost and nothing is repeated.
   */
  lemma ResolvePermutes(spans: seq<Span>)
    requires NoDupIds(spans)
    requires forall x :: x in spans ==> !RefersToSelf(x)
    ensures multiset(Resolve(spans)) == multiset(spans)
  {
    var sorted := SortByStart(spans);
    SortByStartFacts(spans);
    SortByStartNoDup(spans);
    forall x | x in sorted ensures !RefersToSelf(x) {
      assert x in multiset(spans);
    }
    ResolveSortedPermutes(sorted);
  }

  /**
   * `rank` numbers the spans so that every followed CHILD_OF target ranks below the
   * span that names it. Such a numbering exists exactly when those references are acyclic.
   */
  ghost predicate RankedRefs(index: map<string, Span>, rank: string -> nat) {
    forall y, r :: y in index && r in index[y].references && Followed(index, r) ==> rank(r.spanID) < rank(y)
  }

  /** Every followed reference of a span of `s` names a span placed before it. */
  ghost predicate ParentsFirst(index: map<string, Span>, s: seq<Span>) {
    forall i, r :: 0 <= i < |s| && r in s[i].references && Followed(index, r) ==> r.spanID in Ids(s[..i])
  }

  /** The ids marked whose spans are not output yet: the visits still in progress. */
  function InProgress(w: Walk): set<string> {
    w.visited - Ids(w.out)
  }

  lemma ExtendsIds(index: map<string, Span>, w: Walk, w': Walk)
    requires WalkExtends(index, w, w')
    ensures Ids(w'.out) == Ids(w.out) + (w'.visited - w.visited)
  {
    assert w'.out == w.out + w'.out[|w.out|..];
    IdsConcat(w.out, w'.out[|w.out|..]);
  }

  lemma ParentsFirstSnoc(index: map<string, Span>, s: seq<Span>, x: Span)
    requires ParentsFirst(index, s)
    requires forall r :: r in x.references && Followed(index, r) ==> r.spanID in Ids(s)
    ensures ParentsFirst(index, s + [x])
  {
    forall i, r | 0 <= i < |s + [x]| && r in (s + [x])[i].references && Followed(index, r)
      ensures r.spanID in Ids((s + [x])[..i])
    {
      if i < |s| {
        assert (s + [x])[..i] == s[..i];
      } else {
        assert (s + [x])[..i] == s;
      }
    }
  }

  lemma {:induction false} VisitParentsFirst(index: map<string, Span>, rank: string -> nat, id: string, w: Walk)
    requires Indexed(index) && RankedRefs(index, rank) && id in index
    requires ParentsFirst(index, w.out) && Ids(w.out) <= w.visited
    requires forall p :: p in InProgress(w) ==> rank(id) < rank(p)
    ensures var w' := Visit(index, id, w);
            && ParentsFirst(index, w'.out)
            && Ids(w'.out) <= w'.visited
            && InProgress(w') == InProgress(w)
            && id in Ids(w'.out)
    decreases index.Keys - w.visited, 0
  {
    if id !in w.visited {
      var refs := index[id].references;
      var w0 := Walk(w.visited + {id}, w.out);
      VisitRefsParentsFirst(index, rank, refs, w0);
      var w1 := VisitRefs(index, refs, w0);
      ParentsFirstSnoc(index, w1.out, index[id]);
      IdsConcat(w1.out, [index[id]]);
      assert Ids([index[id]]) == {id};
      var w' := Visit(index, id, w);
      assert w' == Walk(w1.visited, w1.out + [index[id]]);
      assert InProgress(w1) == InProgress(w0) == InProgress(w) + {id};
      assert Ids(w'.out) == Ids(w1.out) + {id};
      assert InProgress(w') == InProgress(w);
    } else {
      assert id !in InProgress(w);
    }
  }

  lemma {:induction false} VisitRefsParentsFirst(index: map<string, Span>, rank: string -> nat, refs: seq<Ref>, w: Walk)
    requires Indexed(index) && RankedRefs(index, rank)
    requires ParentsFirst(index, w.out) && Ids(w.out) <= w.visited
    requires forall r, p :: r in refs && Followed(index, r) && p in InProgress(w) ==> rank(r.spanID) < rank(p)
    ensures var w' := VisitRefs(index, refs, w);
            && ParentsFirst(index, w'.out)
            && Ids(w'.out) <= w'.visited
            && InProgress(w') == InProgress(w)
            && forall r :: r in refs && Followed(index, r) ==> r.spanID in Ids(w'.out)
    decreases index.Keys - w.visited, |refs| + 1
  {
    if refs != [] {
      var w1 := if Followed(index, refs[0]) then Visit(index, refs[0].spanID, w) else w;
      if Followed(index, refs[0]) {
        VisitParentsFirst(index, rank, refs[0].spanID, w);
      }
      assert index.Keys - w1.visited <= index.Keys - w.visited;
      VisitRefsParentsFirst(index, rank, refs[1..], w1);
      var w' := VisitRefs(index, refs[1..], w1);
      VisitRefsExtends(index, refs[1..], w1);
      ExtendsIds(index, w1, w');
      assert forall r :: r in refs ==> r == refs[0] || r in refs[1..];
    }
  }

  lemma {:induction false} VisitRootsParentsFirst(index: map<string, Span>, rank: string -> nat, roots: seq<Span>, w: Walk)
    requires Indexed(index) && RankedRefs(index, rank)
    requires forall x :: x in roots ==> x.spanID in index
    requires ParentsFirst(index, w.out) && Ids(w.out) == w.visited
    ensures var w' := VisitRoots(index, roots, w);
            ParentsFirst(index, w'.out) && Ids(w'.out) == w'.visited
  {
    if roots != [] {
      VisitParentsFirst(index, rank, roots[0].spanID, w);
      var w1 := Visit(index, roots[0].spanID, w);
      assert InProgress(w1) == {};
      assert forall x :: x in w1.visited ==> x in Ids(w1.out) by {
        forall x | x in w1.visited ensures x in Ids(w1.out) {
          assert x !in InProgress(w1);
        }
      }
      VisitRootsParentsFirst(index, rank, roots[1..], w1);
    }
  }

  lemma SameIds(a: seq<Span>, b: seq<Span>)
    requires multiset(a) == multiset(b)
    ensures Ids(a) == Ids(b)
  {
    forall x ensures x in a <==> x in b {
      assert x in a <==> x in multiset(a);
      assert x in b <==> x in multiset(b);
    }
  }

  /** A rank that orders the references among the spans also orders those of their index. */
  lemma RankedIndex(spans: seq<Span>, rank: string -> nat)
    requires forall x, r :: x in spans && r in x.references && r.refType == ChildOf && r.spanID in Ids(spans)
               ==> rank(r.spanID) < rank(x.spanID)
    ensures Indexed(IdIndex(SortByStart(spans))) && RankedRefs(IdIndex(SortByStart(spans)), rank)
  {
    var sorted := SortByStart(spans);
    SortByStartFacts(spans);
    SameIds(sorted, spans);
    var index := IdIndex(sorted);
    forall y, r | y in index && r in index[y].references && Followed(index, r)
      ensures rank(r.spanID) < rank(y)
    {
      assert index[y] in multiset(spans);
    }
  }

  /** `ParentsFirst`, with the earlier position made explicit. */
  lemma ParentsFirstIndices(index: map<string, Span>, out: seq<Span>)
    requires ParentsFirst(index, out)
    ensures forall i, r :: 0 <= i < |out| && r in out[i].references && Followed(index, r)
              ==> exists j :: 0 <= j < i && out[j].spanID == r.spanID
  {
    forall i, r | 0 <= i < |out| && r in out[i].references && Followed(index, r)
      ensures exists j :: 0 <= j < i && out[j].spanID == r.spanID
    {
      assert r.spanID in Ids(out[..i]);
      var y :| y in out[..i] && y.spanID == r.spanID;
      var j :| 0 <= j < i && out[..i][j] == y;
      assert out[j] == y;
    }
  }

  /**
   * When the CHILD_OF references among the trace's spans are acyclic (witnessed by a
   * rank under which every target ranks below the span naming it), every span in the
   * resolved order comes after each of its CHILD_OF targets present in the trace.
   */
  lemma ResolveParentsFirst(spans: seq<Span>, rank: string -> nat)
    requires forall x, r :: x in spans && r in x.references && r.refType == ChildOf && r.spanID in Ids(spans)
               ==> rank(r.spanID) < rank(x.spanID)
    ensures var out := Resolve(spans);
            forall i, r :: 0 <= i < |out| && r in out[i].references && r.refType == ChildOf && r.spanID in Ids(spans)
              ==> exists j :: 0 <= j < i && out[j].spanID == r.spanID
  {
    var sorted := SortByStart(spans);
    SortByStartFacts(spans);
    SameIds(sorted, spans);
    var index := IdIndex(sorted);
    RankedIndex(spans, rank);
    VisitRootsParentsFirst(index, rank, Roots(sorted), Walk({}, []));
    ParentsFirstIndices(index, Resolve(spans));
  }

  /** `y` is another span of the index with a CHILD_OF reference naming `v`. */
  ghost predicate NamedBy(index: map<string, Span>, y: string, v: string) {
    y in index && y != v && exists r :: r in index[y].references && r.refType == ChildOf && r.spanID == v
  }

  /** Every marked id is a root id or is named as a CHILD_OF target by another marked span. */
  ghost predicate Reached(index: map<string, Span>, rootIds: set<string>, visited: set<string>) {
    forall v :: v in visited ==> v in rootIds || exists y :: y in visited && NamedBy(index, y, v)
  }

  lemma {:induction false} VisitReached(index: map<string, Span>, rootIds: set<string>, id: string, w: Walk)
    requires id in index && Reached(index, rootIds, w.visited)
    requires id !in w.visited ==> id in rootIds || exists y :: y in w.visited && NamedBy(index, y, id)
    ensures Reached(index, rootIds, Visit(index, id, w).visited)
    decreases index.Keys - w.visited, 0
  {
    if id !in w.visited {
      var w0 := Walk(w.visited + {id}, w.out);
      VisitRefsReached(index, rootIds, id, index[id].references, w0);
    }
  }

  lemma {:induction false} VisitRefsReached(index: map<string, Span>, rootIds: set<string>, y: string, refs: seq<Ref>, w: Walk)
    requires y in index && y in w.visited && Reached(index, rootIds, w.visited)
    requires forall r :: r in refs ==> r in index[y].references
    ensures Reached(index, rootIds, VisitRefs(index, refs, w).visited)
    decreases index.Keys - w.visited, |refs| + 1
  {
    if refs != [] {
      var w1 := if Followed(index, refs[0]) then Visit(index, refs[0].spanID, w) else w;
      if Followed(index, refs[0]) {
        if refs[0].spanID !in w.visited {
          assert NamedBy(index, y, refs[0].spanID);
        }
        VisitReached(index, rootIds, refs[0].spanID, w);
      }
      assert index.Keys - w1.visited <= index.Keys - w.visited;
      VisitRefsReached(index, rootIds, y, refs[1..], w1);
    }
  }

  lemma {:induction false} VisitRootsReached(index: map<string, Span>, rootIds: set<string>, roots: seq<Span>, w: Walk)
    requires forall x :: x in roots ==> x.spanID in index && x.spanID in rootIds
    requires Reached(index, rootIds, w.visited)
    ensures Reached(index, rootIds, VisitRoots(index, roots, w).visited)
  {
    if roots != [] {
      VisitReached(index, rootIds, roots[0].spanID, w);
      VisitRootsReached(index, rootIds, roots[1..], Visit(index, roots[0].spanID, w));
    }
  }

  lemma NoDupDistinctIds(s: seq<Span>, x: Span, y: Span)
    requires NoDupIds(s) && x in s && y in s && x != y
    ensures x.spanID != y.spanID
  {
    var i :| 0 <= i < |s| && s[i] == x;
    var j :| 0 <= j < |s| && s[j] == y;
    assert i != j;
  }

  lemma RootIdsExcludeSelfReferencing(sorted: seq<Span>, x: Span)
    requires NoDupIds(sorted) && x in sorted && RefersToSelf(x)
    ensures x.spanID !in Ids(Roots(sorted))
  {
    forall z | z in Roots(sorted) ensures z.spanID != x.spanID {
      NoDupDistinctIds(sorted, z, x);
    }
  }

  /**
   * With unique span ids, a span that references its own id is not a root, and it is
   * output only when another output span names it as a CHILD_OF target.
   */
  lemma ResolveSelfReferencing(spans: seq<Span>)
    requires NoDupIds(spans)
    ensures forall x :: x in Resolve(spans) && RefersToSelf(x) ==>
              exists y, r :: y in Resolve(spans) && y.spanID != x.spanID && r in y.references
                             && r.refType == ChildOf && r.spanID == x.spanID
  {
    var sorted := SortByStart(spans);
    SortByStartFacts(spans);
    SortByStartNoDup(spans);
    var index := IdIndex(sorted);
    var roots := Roots(sorted);
    VisitRootsReached(index, Ids(roots), roots, Walk({}, []));
    ResolveSortedWalk(sorted);
    var out := Resolve(spans);
    forall x | x in out && RefersToSelf(x)
      ensures exists y, r :: y in out && y.spanID != x.spanID && r in y.references
                             && r.refType == ChildOf && r.spanID == x.spanID
    {
      assert x.spanID in Ids(out);
      RootIdsExcludeSelfReferencing(sorted, x);
      var yid :| yid in Ids(out) && NamedBy(index, yid, x.spanID);
      var y :| y in out && y.spanID == yid;
      assert y == index[yid];
    }
  }

  /** The references of `refs` that the visit follows, in order. */
  function FollowedOnly(index: map<string, Span>, refs: seq<Ref>): seq<Ref> {
    if refs == [] then []
    else (if Followed(index, refs[0]) then [refs[0]] else []) + FollowedOnly(index, refs[1..])
  }

  /** References that are not CHILD_OF, or whose target is not a span of the trace, do not affect the walk. */
  lemma {:induction false} VisitRefsIgnoresUnfollowed(index: map<string, Span>, refs: seq<Ref>, w: Walk)
    ensures VisitRefs(index, refs, w) == VisitRefs(index, FollowedOnly(index, refs), w)
    decreases |refs|
  {
    if refs != [] {
      var w1 := if Followed(index, refs[0]) then Visit(index, refs[0].spanID, w) else w;
      VisitRefsIgnoresUnfollowed(index, refs[1..], w1);
      var f := FollowedOnly(index, refs);
      if Followed(index, refs[0]) {
        assert f == [refs[0]] + FollowedOnly(index, refs[1..]);
        assert f[0] == refs[0] && f[1..] == FollowedOnly(index, refs[1..]);
        assert VisitRefs(index, f, w) == VisitRefs(index, f[1..], w1);
      } else {
        assert f == FollowedOnly(index, refs[1..]);
      }
    }
  }

  lemma {:induction false} VisitRootsWithoutFollowed(index: map<string, Span>, done: seq<Span>, todo: seq<Span>)
    requires NoDupIds(done + todo) && FromIndex(index, done + todo)
    requires forall x, r :: x in todo && r in x.references ==> !Followed(index, r)
    ensures VisitRoots(index, todo, Walk(Ids(done), done)) == Walk(Ids(done + todo), done + todo)
    decreases |todo|
  {
    if todo == [] {
      assert done + todo == done;
    } else {
      var x := todo[0];
      assert x == (done + todo)[|done|];
      assert x.spanID !in Ids(done) by {
        forall k | 0 <= k < |done| ensures done[k].spanID != x.spanID {
          assert done[k] == (done + todo)[k];
        }
      }
      assert VisitRefs(index, x.references, Walk(Ids(done) + {x.spanID}, done)) == Walk(Ids(done) + {x.spanID}, done) by {
        VisitRefsIgnoresUnfollowed(index, x.references, Walk(Ids(done) + {x.spanID}, done));
        assert FollowedOnly(index, x.references) == [] by {
          FollowedOnlyEmpty(index, x.references);
        }
      }
      IdsConcat(done, [x]);
      assert Ids([x]) == {x.spanID};
      assert (done + [x]) + todo[1..] == done + todo;
      VisitRootsWithoutFollowed(index, done + [x], todo[1..]);
    }
  }

  lemma {:induction false} FollowedOnlyEmpty(index: map<string, Span>, refs: seq<Ref>)
    requires forall r :: r in refs ==> !Followed(index, r)
    ensures FollowedOnly(index, refs) == []
  {
    if refs != [] {
      FollowedOnlyEmpty(index, refs[1..]);
    }
  }

  lemma ResolveSortedWithoutReferences(sorted: seq<Span>)
    requires NoDupIds(sorted)
    requires forall x :: x in sorted ==> !RefersToSelf(x)
    requires forall x, r :: x in sorted && r in x.references && r.refType == ChildOf ==> r.spanID !in Ids(sorted)
    ensures ResolveSorted(sorted) == sorted
  {
    RootsOfSelfFree(sorted);
    IdIndexOfUnique(sorted);
    assert [] + sorted == sorted;
    assert Ids([]) == {};
    VisitRootsWithoutFollowed(IdIndex(sorted), [], sorted);
  }

  /**
   * With unique span ids, no span referencing itself, and no CHILD_OF reference to a
   * span of the trace, the resolved order is the stable sort by start time.
   */
  lemma ResolveWithoutReferences(spans: seq<Span>)
    requires NoDupIds(spans)
    requires forall x :: x in spans ==> !RefersToSelf(x)
    requires forall x, r :: x in spans && r in x.references && r.refType == ChildOf ==> r.spanID !in Ids(spans)
    ensures Resolve(spans) == SortByStart(spans)
  {
    var sorted := SortByStart(spans);
    SortByStartFacts(spans);
    SortByStartNoDup(spans);
    assert forall x :: x in sorted ==> x in spans by {
      forall x | x in sorted ensures x in spans {
        assert x in multiset(spans);
      }
    }
    ResolveSortedWithoutReferences(sorted);
  }

  /**
   * Resolving is idempotent when span ids are unique, start times pairwise distinct and
   * no span references itself: sorting the resolved list restores the sorted list.
   */
  lemma ResolveIdempotent(spans: seq<Span>)
    requires NoDupIds(spans) && DistinctStarts(spans)
    requires forall x :: x in spans ==> !RefersToSelf(x)
    ensures Resolve(Resolve(spans)) == Resolve(spans)
  {
    var sorted := SortByStart(spans);
    var out := Resolve(spans);
    SortByStartFacts(spans);
    SortByStartNoDup(spans);
    ResolvePermutes(spans);
    SortByStartFacts(out);
    assert DistinctStarts(sorted) by {
      forall i, j | 0 <= i < j < |sorted| ensures sorted[i].startTime != sorted[j].startTime {
        assert sorted[i] in multiset(spans) && sorted[j] in multiset(spans);
        var a :| 0 <= a < |spans| && spans[a] == sorted[i];
        var b :| 0 <= b < |spans| && spans[b] == sorted[j];
        assert a != b;
      }
    }
    SortedWithDistinctStartsUnique(sorted, SortByStart(out));
  }
}
