/**
 * sort_and_resolve_references: the order in which a trace's spans are written out.
 *
 * The spans are first sorted by start time. A span is treated as a root unless one of
 * its own references names its own span id; the roots are visited in sorted order. The
 * visit of a span marks it, then visits the targets of its CHILD_OF references that
 * are spans of the trace, and only then appends the span itself. CHILD_OF targets are
 * parents, so the effective order is parents before children.
 *
 * The functions below are the specification; the methods at the end are the
 * step-by-step procedure, proved equal to them.
 */
module SpanOrder {
  import opened SpanModel
  import opened SpanSort

  const ChildOf := "CHILD_OF"

  /** The span ids occurring in `s`. */
  function Ids(s: seq<Span>): set<string> {
    set x | x in s :: x.spanID
  }

  /** Every span of the index is stored under its own id. */
  ghost predicate Indexed(index: map<string, Span>) {
    forall id :: id in index ==> index[id].spanID == id
  }

  /** No span after position `i` of `s` has the id of `s[i]`. */
  ghost predicate LastWithId(s: seq<Span>, i: int)
    requires 0 <= i < |s|
  {
    forall j :: i < j < |s| ==> s[j].spanID != s[i].spanID
  }

  /** The map stores each span of `s` that no later span of `s` shares its id with. */
  ghost predicate LastWins(s: seq<Span>, m: map<string, Span>) {
    forall i :: 0 <= i < |s| && LastWithId(s, i) ==> s[i].spanID in m && m[s[i].spanID] == s[i]
  }

  lemma LastWithIdInit(init: seq<Span>, last: Span, i: int)
    requires 0 <= i < |init| && LastWithId(init + [last], i)
    ensures LastWithId(init, i) && init[i].spanID != last.spanID
  {
    var s := init + [last];
    assert s[i] == init[i] && s[|init|] == last;
    forall j | i < j < |init| ensures init[j].spanID != init[i].spanID {
      assert s[j] == init[j];
    }
  }

  /** `{span['spanID']: span for span in spans}`: a later span replaces an earlier one with the same id. */
  function IdIndex(s: seq<Span>): (m: map<string, Span>)
    ensures m.Keys == Ids(s)
    ensures Indexed(m)
    ensures forall id :: id in m ==> m[id] in s
    ensures LastWins(s, m)
  {
    if s == [] then map[]
    else
      var init := s[..|s| - 1];
      var last := s[|s| - 1];
      assert s == init + [last];
      IndexSnoc(init, last, IdIndex(init));
      IdIndex(init)[last.spanID := last]
  }

  /** Storing one more span keeps the index of a list an index of the longer list. */
  lemma IndexSnoc(init: seq<Span>, last: Span, m: map<string, Span>)
    requires m.Keys == Ids(init) && Indexed(m) && (forall id :: id in m ==> m[id] in init)
    requires LastWins(init, m)
    ensures var s, m' := init + [last], m[last.spanID := last];
            m'.Keys == Ids(s) && Indexed(m') && (forall id :: id in m' ==> m'[id] in s)
    ensures LastWins(init + [last], m[last.spanID := last])
  {
    assert Ids(init + [last]) == Ids(init) + {last.spanID};
    LastWinsSnoc(init, last, m);
  }

  lemma LastWinsSnoc(init: seq<Span>, last: Span, m: map<string, Span>)
    requires LastWins(init, m)
    ensures LastWins(init + [last], m[last.spanID := last])
  {
    var s := init + [last];
    var m' := m[last.spanID := last];
    forall i | 0 <= i < |s| && LastWithId(s, i) ensures s[i].spanID in m' && m'[s[i].spanID] == s[i] {
      if i < |init| {
        LastWithIdInit(init, last, i);
        assert s[i] == init[i];
      }
    }
  }

  /** Some reference of `x`, of any type, names `x`'s own id. */
  predicate RefersToSelf(x: Span) {
    exists r :: r in x.references && r.spanID == x.spanID
  }

  /** The root list: every span that does not reference its own id, in order. */
  function Roots(s: seq<Span>): (r: seq<Span>)
    ensures forall x :: x in r <==> x in s && !RefersToSelf(x)
  {
    if s == [] then []
    else
      assert forall x :: x in s <==> x == s[0] || x in s[1..];
      (if RefersToSelf(s[0]) then [] else [s[0]]) + Roots(s[1..])
  }

  /** A reference the visit follows: a CHILD_OF reference to a span of the trace. */
  predicate Followed(index: map<string, Span>, r: Ref) {
    r.refType == ChildOf && r.spanID in index
  }

  /** The state of the walk: the `visited` set and the `sorted_spans` list built so far. */
  datatype Walk = Walk(visited: set<string>, out: seq<Span>)

  /**
   * `visit(span_id)`. It terminates on every reference graph, cycles included: each
   * nested visit starts with strictly fewer unvisited ids of the index.
   */
  function Visit(index: map<string, Span>, id: string, w: Walk): (w': Walk)
    requires id in index
    ensures w.visited + {id} <= w'.visited
    decreases index.Keys - w.visited, 0
  {
    if id in w.visited then w
    else
      var w1 := VisitRefs(index, index[id].references, Walk(w.visited + {id}, w.out));
      Walk(w1.visited, w1.out + [index[id]])
  }

  /** The loop of `visit` over the references of one span. */
  function VisitRefs(index: map<string, Span>, refs: seq<Ref>, w: Walk): (w': Walk)
    ensures w.visited <= w'.visited
    decreases index.Keys - w.visited, |refs| + 1
  {
    if refs == [] then w
    else
      var w1 := if Followed(index, refs[0]) then Visit(index, refs[0].spanID, w) else w;
      assert index.Keys - w1.visited <= index.Keys - w.visited;
      VisitRefs(index, refs[1..], w1)
  }

  /** The loop over the root list. */
  function VisitRoots(index: map<string, Span>, roots: seq<Span>, w: Walk): (w': Walk)
    requires forall x :: x in roots ==> x.spanID in index
    ensures w.visited <= w'.visited
  {
    if roots == [] then w
    else VisitRoots(index, roots[1..], Visit(index, roots[0].spanID, w))
  }

  /** The resolved order of spans that are already sorted by start time. */
  function ResolveSorted(sorted: seq<Span>): seq<Span> {
    VisitRoots(IdIndex(sorted), Roots(sorted), Walk({}, [])).out
  }

  /** The span list that sort_and_resolve_references assigns back to the trace. */
  function Resolve(spans: seq<Span>): seq<Span> {
    ResolveSorted(SortByStart(spans))
  }

  /** The nested function `visit`, which updates `visited` and `sorted_spans`. */
  method VisitSpan(index: map<string, Span>, id: string, visited: set<string>, out: seq<Span>)
    returns (visited': set<string>, out': seq<Span>)
    requires id in index
    ensures Walk(visited', out') == Visit(index, id, Walk(visited, out))
    decreases index.Keys - visited
  {
    if id in visited {
      return visited, out;
    }
    visited', out' := visited + {id}, out;
    var span := index[id];
    var refs := span.references;
    var i := 0;
    while i < |refs|
      invariant 0 <= i <= |refs|
      invariant visited + {id} <= visited'
      invariant VisitRefs(index, refs[i..], Walk(visited', out'))
             == VisitRefs(index, refs, Walk(visited + {id}, out))
    {
      assert refs[i..][1..] == refs[i + 1..];
      if refs[i].refType == ChildOf && refs[i].spanID in index {
        visited', out' := VisitSpan(index, refs[i].spanID, visited', out');
      }
      i := i + 1;
    }
    out' := out' + [span];
  }

  /** sort_and_resolve_references, on the trace's span list. */
  method SortAndResolveReferences(spans: seq<Span>) returns (resolved: seq<Span>)
    ensures resolved == Resolve(spans)
  {
    var sorted := SortByStart(spans);
    var index := IdIndex(sorted);
    var roots := Roots(sorted);
    var visited: set<string> := {};
    resolved := [];
    for i := 0 to |roots|
      invariant VisitRoots(index, roots[i..], Walk(visited, resolved))
             == VisitRoots(index, roots, Walk({}, []))
    {
      assert roots[i..][1..] == roots[i + 1..];
      visited, resolved := VisitSpan(index, roots[i].spanID, visited, resolved);
    }
  }
}
