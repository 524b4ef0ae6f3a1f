/** The two duration lists every analysis fills: `durations['SUCCESS']` and `durations['FAILURE']`. */
module Durations {

  /** The response-time ceiling, in microseconds. */
  const MaxDuration: int := 60000000

  /** Which of the two lists a value goes to. */
  datatype Outcome = Success | Failure

  /** The `{'SUCCESS': [...], 'FAILURE': [...]}` dictionary. */
  datatype Buckets = Buckets(success: seq<real>, failure: seq<real>)

  const NoDurations := Buckets([], [])

  /** The number of values in both lists. */
  function Total(b: Buckets): nat {
    |b.success| + |b.failure|
  }

  /** `durations[outcome].append(v)`. */
  function Append(b: Buckets, o: Outcome, v: real): (r: Buckets)
    ensures Total(r) == Total(b) + 1
  {
    match o
    case Success => b.(success := b.success + [v])
    case Failure => b.(failure := b.failure + [v])
  }

  /** Appends each (outcome, value) pair in turn. */
  function AppendAll(b: Buckets, vs: seq<(Outcome, real)>): (r: Buckets)
    ensures Total(r) == Total(b) + |vs|
    decreases vs
  {
    if vs == [] then b else AppendAll(Append(b, vs[0].0, vs[0].1), vs[1..])
  }

  /** `b'` is `b` with values appended to either list. */
  ghost predicate Extends(b: Buckets, b': Buckets) {
    b.success <= b'.success && b.failure <= b'.failure
  }

  lemma {:induction false} AppendAllConcat(b: Buckets, vs: seq<(Outcome, real)>, ws: seq<(Outcome, real)>)
    ensures AppendAll(b, vs + ws) == AppendAll(AppendAll(b, vs), ws)
    decreases vs
  {
    if vs == [] {
      assert vs + ws == ws;
    } else {
      assert (vs + ws)[1..] == vs[1..] + ws;
      AppendAllConcat(Append(b, vs[0].0, vs[0].1), vs[1..], ws);
    }
  }

  /** Appending only adds values: each list keeps its old values as a prefix. */
  lemma {:induction false} AppendAllExtends(b: Buckets, vs: seq<(Outcome, real)>)
    ensures Extends(b, AppendAll(b, vs))
    ensures forall v :: v in AppendAll(b, vs).success ==> v in b.success || (Success, v) in vs
    ensures forall v :: v in AppendAll(b, vs).failure ==> v in b.failure || (Failure, v) in vs
    decreases vs
  {
    if vs != [] {
      var b1 := Append(b, vs[0].0, vs[0].1);
      AppendAllExtends(b1, vs[1..]);
      assert forall p :: p in vs[1..] ==> p in vs;
    }
  }
}
