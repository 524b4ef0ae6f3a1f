/**
 * The asynchronous protocols (Kafka async, RabbitMQ async): the send and receive
 * times of each trace are collected per trace id, then every collected entry is
 * turned into list values.
 */
module AsyncCorrelation {
  import opened Wrappers
  import opened SpanModel
  import opened Durations

  /** The state of a `start` or `end` key of an entry: absent, `None`, or a number. */
  datatype Field = Missing | Null | Num(v: real)

  /** The `{'start': ..., 'end': ...}` dictionary kept for one trace id. */
  datatype Entry = Entry(start: Field, end: Field)

  /** The operation names of the send span and of the receive span. */
  datatype AsyncNames = AsyncNames(send: string, receive: string)

  const KafkaNames := AsyncNames("events.requests send", "events.responses receive")
  const RabbitNames := AsyncNames("events/requests send", "responses receive")

  /** The `async_spans` dictionary: its keys in insertion order, and its entries. */
  datatype AsyncTable = AsyncTable(keys: seq<string>, entries: map<string, Entry>)

  const EmptyTable := AsyncTable([], map[])

  /** The keys list each dictionary key exactly once. */
  ghost predicate TableValid(tab: AsyncTable) {
    && (forall t :: t in tab.keys <==> t in tab.entries)
    && (forall i, j :: 0 <= i < j < |tab.keys| ==> tab.keys[i] != tab.keys[j])
  }

  /** The `start` value taken from the second span: its start in milliseconds, or `None`. */
  function SendField(span: Span, names: AsyncNames): (f: Field)
    ensures f.Num? <==> span.operationName == names.send
    ensures !f.Num? ==> f == Null
    ensures f.Num? ==> f.v * 1000.0 == span.startTime as real
  {
    if span.operationName == names.send then Num(span.startTime as real / 1000.0) else Null
  }

  /** The `end` value taken from the fifth span: its end in milliseconds, or `None`. */
  function ReceiveField(span: Span, names: AsyncNames): (f: Field)
    ensures f.Num? <==> span.operationName == names.receive
    ensures !f.Num? ==> f == Null
    ensures f.Num? ==> f.v * 1000.0 == (span.startTime + span.duration) as real
  {
    if span.operationName == names.receive then Num((span.startTime + span.duration) as real / 1000.0) else Null
  }

  /** `async_spans[id] = e`, where a new id goes to the end of the insertion order. */
  function Put(tab: AsyncTable, id: string, e: Entry): AsyncTable {
    AsyncTable(if id in tab.entries then tab.keys else tab.keys + [id], tab.entries[id := e])
  }

  /** The entry of `id`, with both keys absent when the id is new. */
  function EntryOf(tab: AsyncTable, id: string): Entry {
    if id in tab.entries then tab.entries[id] else Entry(Missing, Missing)
  }

  /** One iteration of the collecting loop. */
  function CollectStep(tab: AsyncTable, t: Trace, names: AsyncNames): AsyncTable {
    if |t.spans| < 2 then tab
    else if |t.spans| < 5 then Put(tab, t.traceID, EntryOf(tab, t.traceID).(end := Null))
    else Put(tab, t.traceID, Entry(SendField(t.spans[1], names), ReceiveField(t.spans[4], names)))
  }

  /** The dictionary after the collecting loop ran over `traces`. */
  function Collect(traces: seq<Trace>, names: AsyncNames): AsyncTable
    decreases |traces|
  {
    if traces == [] then EmptyTable
    else CollectStep(Collect(traces[..|traces| - 1], names), traces[|traces| - 1], names)
  }

  /** `k` is the last trace of id `t` with at least `n` spans. */
  ghost predicate LastWith(traces: seq<Trace>, t: string, n: nat, k: int) {
    && 0 <= k < |traces| && traces[k].traceID == t && |traces[k].spans| >= n
    && forall k' :: k < k' < |traces| && traces[k'].traceID == t ==> |traces[k'].spans| < n
  }

  /** The ids of the traces with at least two spans, in order of first appearance. */
  function FirstSeen(traces: seq<Trace>): (ids: seq<string>)
    decreases |traces|
  {
    if traces == [] then []
    else
      var ids := FirstSeen(traces[..|traces| - 1]);
      var t := traces[|traces| - 1];
      if |t.spans| >= 2 && t.traceID !in ids then ids + [t.traceID] else ids
  }

  lemma {:induction false} CollectKeys(traces: seq<Trace>, names: AsyncNames)
    ensures TableValid(Collect(traces, names))
    ensures Collect(traces, names).keys == FirstSeen(traces)
    ensures forall t :: t in Collect(traces, names).entries <==>
              exists k :: 0 <= k < |traces| && traces[k].traceID == t && |traces[k].spans| >= 2
    decreases |traces|
  {
    if traces != [] {
      var init := traces[..|traces| - 1];
      CollectKeys(init, names);
      assert forall k :: 0 <= k < |init| ==> init[k] == traces[k];
    }
  }

  lemma {:induction false} CollectStartMissing(traces: seq<Trace>, names: AsyncNames)
    ensures forall t :: t in Collect(traces, names).entries ==>
              (Collect(traces, names).entries[t].start.Missing? <==>
                 forall k :: 0 <= k < |traces| && traces[k].traceID == t ==> |traces[k].spans| < 5)
    decreases |traces|
  {
    if traces != [] {
      var init := traces[..|traces| - 1];
      CollectStartMissing(init, names);
      CollectKeys(init, names);
      assert forall k :: 0 <= k < |init| ==> init[k] == traces[k];
    }
  }

  lemma {:induction false} CollectStartValue(traces: seq<Trace>, names: AsyncNames)
    ensures forall t, k :: LastWith(traces, t, 5, k) ==>
              t in Collect(traces, names).entries
              && Collect(traces, names).entries[t].start == SendField(traces[k].spans[1], names)
    decreases |traces|
  {
    if traces != [] {
      var n := |traces| - 1;
      var init := traces[..n];
      CollectStartValue(init, names);
      CollectKeys(init, names);
      assert forall k :: 0 <= k < n ==> init[k] == traces[k];
      forall t, k | LastWith(traces, t, 5, k) && k < n
        ensures LastWith(init, t, 5, k)
      {
      }
    }
  }

  lemma {:induction false} CollectEndValue(traces: seq<Trace>, names: AsyncNames)
    ensures forall t, k :: LastWith(traces, t, 2, k) ==>
              t in Collect(traces, names).entries
              && Collect(traces, names).entries[t].end ==
                   if |traces[k].spans| < 5 then Null else ReceiveField(traces[k].spans[4], names)
    decreases |traces|
  {
    if traces != [] {
      var n := |traces| - 1;
      var init := traces[..n];
      CollectEndValue(init, names);
      CollectKeys(init, names);
      assert forall k :: 0 <= k < n ==> init[k] == traces[k];
      forall t, k | LastWith(traces, t, 2, k) && k < n
        ensures LastWith(init, t, 2, k)
      {
      }
    }
  }

  /**
   * What the collecting loop leaves for a trace id: `start` comes from its last trace
   * with five or more spans (absent if none has that many); `end` comes from its last
   * trace with two or more spans, and is `None` when that trace has fewer than five.
   */
  lemma CollectEntries(traces: seq<Trace>, names: AsyncNames)
    ensures forall t :: t in Collect(traces, names).entries ==>
              (Collect(traces, names).entries[t].start.Missing? <==>
                 forall k :: 0 <= k < |traces| && traces[k].traceID == t ==> |traces[k].spans| < 5)
    ensures forall t, k :: LastWith(traces, t, 5, k) ==>
              t in Collect(traces, names).entries
              && Collect(traces, names).entries[t].start == SendField(traces[k].spans[1], names)
    ensures forall t, k :: LastWith(traces, t, 2, k) ==>
              t in Collect(traces, names).entries
              && Collect(traces, names).entries[t].end ==
                   if |traces[k].spans| < 5 then Null else ReceiveField(traces[k].spans[4], names)
  {
    CollectStartMissing(traces, names);
    CollectStartValue(traces, names);
    CollectEndValue(traces, names);
  }

  /** The value an entry with a (current or carried) difference `total` yields. */
  function Check(total: real): (Outcome, real) {
    if 0.0 < total < MaxDuration as real then (Success, total) else (Failure, (MaxDuration + 1) as real)
  }

  /** Both keys present and both numbers. */
  predicate BothNum(e: Entry) {
    e.start.Num? && e.end.Num?
  }

  /** Both keys present, exactly one of them `None`: the subtraction raises TypeError. */
  predicate OneNull(e: Entry) {
    !e.start.Missing? && !e.end.Missing? && (e.start.Null? != e.end.Null?)
  }

  /**
   * One iteration of calculate_async_durations: the values appended for `e` and the
   * `total_duration` left for the next iteration. After the TypeError, the comparison
   * still runs on the `total_duration` of an earlier entry; when there is none the
   * name is unbound and the loop stops with that error.
   */
  function EntryValues(e: Entry, carried: Option<real>): (r: Result<(seq<(Outcome, real)>, Option<real>), string>)
    ensures r.Err? <==> OneNull(e) && carried.None?
    ensures r.Ok? && BothNum(e) ==> r.value == ([Check(e.end.v - e.start.v)], Some(e.end.v - e.start.v))
    ensures r.Ok? && OneNull(e) ==>
              r.value == ([(Failure, (MaxDuration + 1) as real), Check(carried.value)], carried)
    ensures r.Ok? && !BothNum(e) && !OneNull(e) ==> r.value == ([(Failure, (MaxDuration + 1) as real)], carried)
  {
    if e.start != Missing && e.end != Missing then
      if e.end != Null || e.start != Null then
        if e.end.Num? && e.start.Num? then
          var total := e.end.v - e.start.v;
          Ok(([Check(total)], Some(total)))
        else if carried.None? then
          Err("UnboundLocalError")
        else
          Ok(([(Failure, (MaxDuration + 1) as real), Check(carried.value)], carried))
      else
        Ok(([(Failure, (MaxDuration + 1) as real)], carried))
    else
      Ok(([(Failure, (MaxDuration + 1) as real)], carried))
  }

  /** The values appended for the entries of `keys`, in order, or the error that stops the loop. */
  function Correlation(keys: seq<string>, entries: map<string, Entry>, carried: Option<real>): Result<seq<(Outcome, real)>, string>
    requires forall t :: t in keys ==> t in entries
    decreases |keys|
  {
    if keys == [] then Ok([])
    else
      match EntryValues(entries[keys[0]], carried)
      case Err(e) => Err(e)
      case Ok((vs, c)) =>
        match Correlation(keys[1..], entries, c)
        case Err(e) => Err(e)
        case Ok(rest) => Ok(vs + rest)
  }

  /** The lists after the values of `keys` were appended to `b`. */
  function Completed(keys: seq<string>, entries: map<string, Entry>, carried: Option<real>, b: Buckets): Result<Buckets, string>
    requires forall t :: t in keys ==> t in entries
  {
    match Correlation(keys, entries, carried)
    case Err(e) => Err(e)
    case Ok(vs) => Ok(AppendAll(b, vs))
  }

  lemma CompletedStep(keys: seq<string>, entries: map<string, Entry>, carried: Option<real>, b: Buckets)
    requires keys != [] && forall t :: t in keys ==> t in entries
    ensures EntryValues(entries[keys[0]], carried).Err? ==> Completed(keys, entries, carried, b).Err?
    ensures EntryValues(entries[keys[0]], carried).Ok? ==>
              var (vs, c) := EntryValues(entries[keys[0]], carried).value;
              Completed(keys, entries, carried, b) == Completed(keys[1..], entries, c, AppendAll(b, vs))
  {
    if EntryValues(entries[keys[0]], carried).Ok? {
      var (vs, c) := EntryValues(entries[keys[0]], carried).value;
      if Correlation(keys[1..], entries, c).Ok? {
        AppendAllConcat(b, vs, Correlation(keys[1..], entries, c).value);
      }
    }
  }

  /** calculate_async_durations, over the entries in the dictionary's insertion order. */
  method CalculateAsyncDurations(keys: seq<string>, entries: map<string, Entry>, b: Buckets) returns (r: Result<Buckets, string>)
    requires forall t :: t in keys ==> t in entries
    ensures r == Completed(keys, entries, None, b)
  {
    var durations := b;
    var totalDuration: Option<real> := None;
    var i := 0;
    while i < |keys|
      invariant 0 <= i <= |keys|
      invariant Completed(keys[i..], entries, totalDuration, durations) == Completed(keys, entries, None, b)
    {
      CompletedStep(keys[i..], entries, totalDuration, durations);
      assert keys[i..][1..] == keys[i + 1..];
      var times := entries[keys[i]];
      ghost var before := durations;
      if times.start != Missing && times.end != Missing {
        if times.end != Null || times.start != Null {
          if times.end.Num? && times.start.Num? {
            totalDuration := Some(times.end.v - times.start.v);
          } else {
            durations := durations.(failure := durations.failure + [(MaxDuration + 1) as real]);
          }
          if totalDuration.None? {
            return Err("UnboundLocalError");
          }
          ghost var middle := durations;
          if 0.0 < totalDuration.value < MaxDuration as real {
            durations := durations.(success := durations.success + [totalDuration.value]);
          } else {
            durations := durations.(failure := durations.failure + [(MaxDuration + 1) as real]);
          }
          assert durations == Append(middle, Check(totalDuration.value).0, Check(totalDuration.value).1);
          if times.end.Num? && times.start.Num? {
            assert durations == AppendAll(before, [Check(totalDuration.value)]);
          } else {
            assert middle == Append(before, Failure, (MaxDuration + 1) as real);
            assert [(Failure, (MaxDuration + 1) as real), Check(totalDuration.value)][1..] == [Check(totalDuration.value)];
            assert AppendAll(middle, [Check(totalDuration.value)]) == durations;
            assert durations == AppendAll(before, [(Failure, (MaxDuration + 1) as real), Check(totalDuration.value)]);
          }
        } else {
          durations := durations.(failure := durations.failure + [(MaxDuration + 1) as real]);
          assert durations == AppendAll(before, [(Failure, (MaxDuration + 1) as real)]);
        }
      } else {
        durations := durations.(failure := durations.failure + [(MaxDuration + 1) as real]);
        assert durations == AppendAll(before, [(Failure, (MaxDuration + 1) as real)]);
      }
      i := i + 1;
    }
    assert keys[i..] == [];
    r := Ok(durations);
  }

  /**
   * The loop stops with an error exactly when some entry has one `None` key and no
   * earlier entry had two numbers (so no `total_duration` exists yet).
   */
  lemma {:induction false} CorrelationErr(keys: seq<string>, entries: map<string, Entry>, carried: Option<real>)
    requires forall t :: t in keys ==> t in entries
    ensures Correlation(keys, entries, carried).Err? <==>
              carried.None? && exists i :: 0 <= i < |keys| && OneNull(entries[keys[i]])
                                           && forall j :: 0 <= j < i ==> !BothNum(entries[keys[j]])
    decreases |keys|
  {
    if keys != [] {
      var e := entries[keys[0]];
      if EntryValues(e, carried).Ok? {
        var (vs, c) := EntryValues(e, carried).value;
        CorrelationErr(keys[1..], entries, c);
        if carried.None? && !BothNum(e) {
          assert c.None?;
          forall i | 0 < i < |keys| && OneNull(entries[keys[i]]) && (forall j :: 0 <= j < i ==> !BothNum(entries[keys[j]]))
            ensures OneNull(entries[keys[1..][i - 1]]) && forall j :: 0 <= j < i - 1 ==> !BothNum(entries[keys[1..][j]])
          {
            assert forall j :: 0 <= j < i - 1 ==> keys[1..][j] == keys[j + 1];
          }
          forall i | 0 <= i < |keys[1..]| && OneNull(entries[keys[1..][i]]) && (forall j :: 0 <= j < i ==> !BothNum(entries[keys[1..][j]]))
            ensures OneNull(entries[keys[i + 1]]) && forall j :: 0 <= j < i + 1 ==> !BothNum(entries[keys[j]])
          {
            assert forall j :: 0 < j < i + 1 ==> keys[j] == keys[1..][j - 1];
          }
        }
      }
    }
  }

  /** The number of entries of `keys` with exactly one `None` key. */
  function OneNullCount(keys: seq<string>, entries: map<string, Entry>): (n: nat)
    requires forall t :: t in keys ==> t in entries
    ensures n <= |keys|
    decreases |keys|
  {
    if keys == [] then 0 else (if OneNull(entries[keys[0]]) then 1 else 0) + OneNullCount(keys[1..], entries)
  }

  /**
   * Every entry adds one value, and an entry with one `None` key adds a second one; a
   * success lies strictly between 0 and the ceiling, and every failure is the ceiling plus one.
   */
  lemma {:induction false} CorrelationValues(keys: seq<string>, entries: map<string, Entry>, carried: Option<real>)
    requires forall t :: t in keys ==> t in entries
    ensures Correlation(keys, entries, carried).Ok? ==>
              |Correlation(keys, entries, carried).value| == |keys| + OneNullCount(keys, entries)
    ensures Correlation(keys, entries, carried).Ok? ==>
              forall p :: p in Correlation(keys, entries, carried).value ==>
                (p.0 == Success ==> 0.0 < p.1 < MaxDuration as real)
                && (p.0 == Failure ==> p.1 == (MaxDuration + 1) as real)
    decreases |keys|
  {
    if keys != [] {
      var e := entries[keys[0]];
      if EntryValues(e, carried).Ok? {
        var (vs, c) := EntryValues(e, carried).value;
        CorrelationValues(keys[1..], entries, c);
      }
    }
  }

  /** The dictionary the handler builds and the lists it then produces. */
  function AsyncResult(traces: seq<Trace>, names: AsyncNames, b: Buckets): Result<Buckets, string> {
    var tab := Collect(traces, names);
    CollectKeys(traces, names);
    Completed(tab.keys, tab.entries, None, b)
  }

  /** The collecting loop of handle_kafka_async and handle_rabbitmq_async, which differ only in `names`. */
  method CollectAsync(traces: seq<Trace>, names: AsyncNames) returns (keys: seq<string>, entries: map<string, Entry>)
    ensures AsyncTable(keys, entries) == Collect(traces, names)
  {
    keys, entries := [], map[];
    for i := 0 to |traces|
      invariant AsyncTable(keys, entries) == Collect(traces[..i], names)
    {
      assert traces[..i + 1][..i] == traces[..i];
      var trace := traces[i];
      if |trace.spans| < 2 {
        continue;
      }
      var traceId := trace.traceID;
      var startSpan := trace.spans[1];
      if |trace.spans| < 5 {
        if traceId !in entries {
          keys, entries := keys + [traceId], entries[traceId := Entry(Missing, Missing)];
        }
        entries := entries[traceId := entries[traceId].(end := Null)];
        continue;
      }
      var endSpan := trace.spans[4];
      if traceId !in entries {
        keys, entries := keys + [traceId], entries[traceId := Entry(Missing, Missing)];
      }
      if startSpan.operationName == names.send {
        entries := entries[traceId := entries[traceId].(start := Num(startSpan.startTime as real / 1000.0))];
      } else {
        entries := entries[traceId := entries[traceId].(start := Null)];
      }
      if endSpan.operationName == names.receive {
        entries := entries[traceId := entries[traceId].(end := Num((endSpan.startTime + endSpan.duration) as real / 1000.0))];
      } else {
        entries := entries[traceId := entries[traceId].(end := Null)];
      }
    }
    assert traces[..|traces|] == traces;
  }

  /** handle_kafka_async (with `KafkaNames`) and handle_rabbitmq_async (with `RabbitNames`). */
  method HandleAsync(traces: seq<Trace>, names: AsyncNames, b: Buckets) returns (r: Result<Buckets, string>)
    ensures r == AsyncResult(traces, names, b)
  {
    var keys, entries := CollectAsync(traces, names);
    CollectKeys(traces, names);
    r := CalculateAsyncDurations(keys, entries, b);
  }

  /**
   * The values are milliseconds compared against a microsecond ceiling: a RabbitMQ
   * request sent at 1000 and answered by a receive span starting at 2000 and lasting
   * 500 (all microseconds) is recorded as 1.5.
   */
  lemma RabbitExample(p: Process)
    ensures var filler := Span("t", "x", "other", 0, 0, [], [], p, []);
            var send := Span("t", "s", "events/requests send", 1000, 10, [], [], p, []);
            var receive := Span("t", "r", "responses receive", 2000, 500, [], [], p, []);
            AsyncResult([Trace("t", [filler, send, filler, filler, receive])], RabbitNames, NoDurations)
              == Ok(Buckets([1.5], []))
  {
    var filler := Span("t", "x", "other", 0, 0, [], [], p, []);
    var send := Span("t", "s", "events/requests send", 1000, 10, [], [], p, []);
    var receive := Span("t", "r", "responses receive", 2000, 500, [], [], p, []);
    var traces := [Trace("t", [filler, send, filler, filler, receive])];
    assert traces[..0] == [];
    assert Collect(traces[..0], RabbitNames) == EmptyTable;
    assert SendField(send, RabbitNames) == Num(1.0);
    assert ReceiveField(receive, RabbitNames) == Num(2.5);
    var tab := Collect(traces, RabbitNames);
    assert tab == AsyncTable(["t"], map["t" := Entry(Num(1.0), Num(2.5))]);
    assert EntryValues(tab.entries["t"], None) == Ok(([(Success, 1.5)], Some(1.5)));
    assert tab.keys[1..] == [];
    assert Correlation(tab.keys[1..], tab.entries, Some(1.5)) == Ok([]);
    assert Correlation(tab.keys, tab.entries, None) == Ok([(Success, 1.5)] + []);
    assert AppendAll(NoDurations, [(Success, 1.5)]) == AppendAll(Buckets([] + [1.5], []), []);
    assert [] + [1.5] == [1.5];
    assert Completed(tab.keys, tab.entries, None, NoDurations) == Ok(Buckets([1.5], []));
  }
}
