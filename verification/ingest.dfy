/**
 * The collection side of the trace export: each search hit is projected into a span
 * record (format_span) and grouped under its trace id, and every trace's spans are
 * then put in resolved order.
 */
module Ingest {
  import opened Wrappers
  import opened SpanModel
  import opened SpanOrder

  /** A tag as stored by the tracing backend; its `type` is dropped by format_span. */
  datatype RawTag = RawTag(key: string, tagType: string, value: string)

  /** The `_source` document of one search hit; `tags` and `logs` may be absent. */
  datatype RawSpan = RawSpan(
    traceID: string,
    spanID: string,
    operationName: string,
    startTime: int,
    duration: int,
    tags: Option<seq<RawTag>>,
    logs: Option<seq<seq<KeyValue>>>,
    process: Process,
    references: seq<Ref>)

  /** `[{"key": tag['key'], "value": tag.get('value')} for tag in tags]`. */
  function TagPairs(tags: seq<RawTag>): (r: seq<KeyValue>)
    ensures |r| == |tags|
    ensures forall i :: 0 <= i < |tags| ==> r[i] == (tags[i].key, tags[i].value)
  {
    if tags == [] then [] else [(tags[0].key, tags[0].value)] + TagPairs(tags[1..])
  }

  /** format_span: projects a stored span into a span record. */
  function FormatSpan(raw: RawSpan): (s: Span)
    ensures s.traceID == raw.traceID && s.spanID == raw.spanID && s.operationName == raw.operationName
    ensures s.startTime == raw.startTime && s.duration == raw.duration
    ensures s.process == raw.process && s.references == raw.references
    ensures raw.tags.None? ==> s.tags == []
    ensures raw.tags.Some? ==> |s.tags| == |raw.tags.value|
                               && forall i :: 0 <= i < |s.tags| ==> s.tags[i] == (raw.tags.value[i].key, raw.tags.value[i].value)
    ensures s.logs == raw.logs.GetOr([])
  {
    Span(raw.traceID, raw.spanID, raw.operationName, raw.startTime, raw.duration,
         TagPairs(raw.tags.GetOr([])), raw.logs.GetOr([]), raw.process, raw.references)
  }

  /** One trace of the export: its spans and the process of each service seen in it. */
  datatype TraceData = TraceData(spans: seq<Span>, processes: map<string, Process>)

  /** The span records of the hits that belong to trace `t`, in arrival order. */
  function SpansOf(hits: seq<RawSpan>, t: string): seq<Span> {
    if hits == [] then []
    else (if hits[0].traceID == t then [FormatSpan(hits[0])] else []) + SpansOf(hits[1..], t)
  }

  /** The process of the first hit of trace `t` whose service is `svc`, if any. */
  function FirstProcess(hits: seq<RawSpan>, t: string, svc: string): (r: Option<Process>)
    ensures r.Some? ==> r.value.serviceName == svc
    ensures r.None? <==> forall i :: 0 <= i < |hits| ==> hits[i].traceID != t || hits[i].process.serviceName != svc
    ensures r.Some? ==> exists i :: 0 <= i < |hits| && hits[i].traceID == t && hits[i].process.serviceName == svc
                                   && r.value == hits[i].process
                                   && forall j :: 0 <= j < i ==> !(hits[j].traceID == t && hits[j].process.serviceName == svc)
  {
    if hits == [] then None
    else if hits[0].traceID == t && hits[0].process.serviceName == svc then Some(hits[0].process)
    else
      assert forall i :: 1 <= i < |hits| ==> hits[i] == hits[1..][i - 1];
      FirstProcess(hits[1..], t, svc)
  }

  /** The trace ids of `hits` not in `known`, each once, in order of first appearance. */
  function NewTraceIds(known: set<string>, hits: seq<RawSpan>): seq<string>
    decreases |hits|
  {
    if hits == [] then []
    else if hits[0].traceID in known then NewTraceIds(known, hits[1..])
    else [hits[0].traceID] + NewTraceIds(known + {hits[0].traceID}, hits[1..])
  }

  lemma {:induction false} SpansOfSnoc(hits: seq<RawSpan>, h: RawSpan, t: string)
    ensures SpansOf(hits + [h], t) == SpansOf(hits, t) + (if h.traceID == t then [FormatSpan(h)] else [])
  {
    if hits == [] {
      assert [] + [h] == [h];
    } else {
      var head := if hits[0].traceID == t then [FormatSpan(hits[0])] else [];
      var last := if h.traceID == t then [FormatSpan(h)] else [];
      assert (hits + [h])[0] == hits[0] && (hits + [h])[1..] == hits[1..] + [h];
      calc {
        SpansOf(hits + [h], t);
        head + SpansOf(hits[1..] + [h], t);
        { SpansOfSnoc(hits[1..], h, t); }
        head + (SpansOf(hits[1..], t) + last);
        (head + SpansOf(hits[1..], t)) + last;
      }
    }
  }

  lemma {:induction false} FirstProcessSnoc(hits: seq<RawSpan>, h: RawSpan, t: string, svc: string)
    ensures FirstProcess(hits + [h], t, svc)
         == if FirstProcess(hits, t, svc).Some? then FirstProcess(hits, t, svc)
            else if h.traceID == t && h.process.serviceName == svc then Some(h.process)
            else None
  {
    if hits == [] {
      assert [] + [h] == [h];
    } else {
      assert (hits + [h])[1..] == hits[1..] + [h];
      FirstProcessSnoc(hits[1..], h, t, svc);
    }
  }

  lemma {:induction false} NewTraceIdsFacts(known: set<string>, hits: seq<RawSpan>)
    ensures forall t :: t in NewTraceIds(known, hits) <==> t !in known && exists i :: 0 <= i < |hits| && hits[i].traceID == t
    ensures forall i, j :: 0 <= i < j < |NewTraceIds(known, hits)| ==> NewTraceIds(known, hits)[i] != NewTraceIds(known, hits)[j]
    decreases |hits|
  {
    if hits != [] {
      var k := if hits[0].traceID in known then known else known + {hits[0].traceID};
      NewTraceIdsFacts(k, hits[1..]);
      assert forall i :: 1 <= i < |hits| ==> hits[i] == hits[1..][i - 1];
    }
  }

  lemma {:induction false} NewTraceIdsSnoc(known: set<string>, hits: seq<RawSpan>, h: RawSpan)
    ensures NewTraceIds(known, hits + [h])
         == NewTraceIds(known, hits)
            + (if h.traceID in known || h.traceID in NewTraceIds(known, hits) then [] else [h.traceID])
    decreases |hits|
  {
    if hits == [] {
      assert [] + [h] == [h];
    } else {
      assert (hits + [h])[1..] == hits[1..] + [h];
      var k := if hits[0].traceID in known then known else known + {hits[0].traceID};
      NewTraceIdsSnoc(k, hits[1..], h);
    }
  }

  /** The spans already stored for `t`, or none. */
  function SpansIn(traces: map<string, TraceData>, t: string): seq<Span> {
    if t in traces then traces[t].spans else []
  }

  /** The processes already stored for `t`, or none. */
  function ProcessesIn(traces: map<string, TraceData>, t: string): map<string, Process> {
    if t in traces then traces[t].processes else map[]
  }

  /** `order` lists each stored trace once; each process is stored under its own service name. */
  ghost predicate WellFormed(order: seq<string>, traces: map<string, TraceData>) {
    && (forall t :: t in order <==> t in traces)
    && (forall i, j :: 0 <= i < j < |order| ==> order[i] != order[j])
    && (forall t, svc :: t in traces && svc in traces[t].processes ==> traces[t].processes[svc].serviceName == svc)
  }

  /** Replacing the span list of a stored trace keeps the export well formed. */
  lemma SpansUpdateWellFormed(order: seq<string>, traces: map<string, TraceData>, t: string, spans: seq<Span>)
    requires WellFormed(order, traces) && t in traces
    ensures WellFormed(order, traces[t := traces[t].(spans := spans)])
  {
  }

  /** New trace ids are appended to `order0` in order of first appearance in `hits`. */
  ghost predicate GroupedOrder(order0: seq<string>, traces0: map<string, TraceData>, hits: seq<RawSpan>,
                               order: seq<string>, traces: map<string, TraceData>)
  {
    && order == order0 + NewTraceIds(traces0.Keys, hits)
    && (forall t :: t in traces <==> t in traces0 || t in NewTraceIds(traces0.Keys, hits))
  }

  /** Each trace's span list is extended by its hits' span records, in arrival order. */
  ghost predicate GroupedSpans(traces0: map<string, TraceData>, hits: seq<RawSpan>, traces: map<string, TraceData>) {
    forall t :: t in traces ==> traces[t].spans == SpansIn(traces0, t) + SpansOf(hits, t)
  }

  /** A service's process is the one stored before, or else the first one among `hits`. */
  ghost predicate GroupedProcesses(traces0: map<string, TraceData>, hits: seq<RawSpan>, traces: map<string, TraceData>) {
    && (forall t, svc :: t in traces ==>
          (svc in traces[t].processes <==> svc in ProcessesIn(traces0, t) || FirstProcess(hits, t, svc).Some?))
    && (forall t, svc :: t in traces && svc in traces[t].processes ==>
          traces[t].processes[svc] == if svc in ProcessesIn(traces0, t) then ProcessesIn(traces0, t)[svc]
                                      else FirstProcess(hits, t, svc).value)
  }

  /** Every hit's trace is stored. */
  ghost predicate HitsStored(hits: seq<RawSpan>, traces: map<string, TraceData>) {
    forall i :: 0 <= i < |hits| ==> hits[i].traceID in traces
  }

  /** `order` and `traces` are what grouping `hits` into `order0` and `traces0` yields. */
  ghost predicate Grouped(order0: seq<string>, traces0: map<string, TraceData>, hits: seq<RawSpan>,
                          order: seq<string>, traces: map<string, TraceData>)
  {
    && WellFormed(order, traces)
    && HitsStored(hits, traces)
    && (forall t :: t in traces0 ==> t in traces)
    && GroupedOrder(order0, traces0, hits, order, traces)
    && GroupedSpans(traces0, hits, traces)
    && GroupedProcesses(traces0, hits, traces)
  }

  /** The trace map after one iteration of the grouping loop. */
  ghost function AddHit(traces: map<string, TraceData>, h: RawSpan): map<string, TraceData> {
    var procs := ProcessesIn(traces, h.traceID);
    traces[h.traceID := TraceData(SpansIn(traces, h.traceID) + [FormatSpan(h)],
                                  if h.process.serviceName in procs then procs
                                  else procs[h.process.serviceName := h.process])]
  }

  lemma GroupedStart(order0: seq<string>, traces0: map<string, TraceData>)
    requires WellFormed(order0, traces0)
    ensures Grouped(order0, traces0, [], order0, traces0)
  {
  }

  lemma {:induction false} SpansOfAbsent(hits: seq<RawSpan>, t: string)
    requires forall i :: 0 <= i < |hits| ==> hits[i].traceID != t
    ensures SpansOf(hits, t) == []
  {
    if hits != [] {
      assert forall i :: 0 <= i < |hits[1..]| ==> hits[1..][i] == hits[i + 1];
      SpansOfAbsent(hits[1..], t);
    }
  }

  lemma StepWellFormed(order: seq<string>, traces: map<string, TraceData>, h: RawSpan)
    requires WellFormed(order, traces)
    ensures WellFormed(if h.traceID in traces then order else order + [h.traceID], AddHit(traces, h))
  {
  }

  lemma StepOrder(order0: seq<string>, traces0: map<string, TraceData>, hits: seq<RawSpan>, h: RawSpan,
                  order: seq<string>, traces: map<string, TraceData>)
    requires forall t :: t in order <==> t in traces
    requires GroupedOrder(order0, traces0, hits, order, traces)
    ensures var order' := if h.traceID in traces then order else order + [h.traceID];
            GroupedOrder(order0, traces0, hits + [h], order', AddHit(traces, h))
  {
    var n := NewTraceIds(traces0.Keys, hits);
    NewTraceIdsSnoc(traces0.Keys, hits, h);
    assert h.traceID in traces <==> h.traceID in traces0.Keys || h.traceID in n;
    if h.traceID !in traces {
      assert (order0 + n) + [h.traceID] == order0 + (n + [h.traceID]);
    }
  }

  lemma StepSpans(traces0: map<string, TraceData>, hits: seq<RawSpan>, h: RawSpan, traces: map<string, TraceData>)
    requires GroupedSpans(traces0, hits, traces) && HitsStored(hits, traces)
    requires forall t :: t in traces0 ==> t in traces
    ensures GroupedSpans(traces0, hits + [h], AddHit(traces, h))
  {
    forall u | u in AddHit(traces, h) ensures AddHit(traces, h)[u].spans == SpansIn(traces0, u) + SpansOf(hits + [h], u) {
      SpansOfSnoc(hits, h, u);
      if u !in traces {
        SpansOfAbsent(hits, u);
      }
    }
  }

  lemma StepProcesses(traces0: map<string, TraceData>, hits: seq<RawSpan>, h: RawSpan, traces: map<string, TraceData>)
    requires GroupedProcesses(traces0, hits, traces) && HitsStored(hits, traces)
    requires forall t :: t in traces0 ==> t in traces
    ensures GroupedProcesses(traces0, hits + [h], AddHit(traces, h))
  {
    var next := AddHit(traces, h);
    forall u, svc | u in next
      ensures svc in next[u].processes <==> svc in ProcessesIn(traces0, u) || FirstProcess(hits + [h], u, svc).Some?
      ensures svc in next[u].processes ==>
                next[u].processes[svc] == if svc in ProcessesIn(traces0, u) then ProcessesIn(traces0, u)[svc]
                                          else FirstProcess(hits + [h], u, svc).value
    {
      FirstProcessSnoc(hits, h, u, svc);
    }
  }

  lemma StepStored(traces0: map<string, TraceData>, hits: seq<RawSpan>, h: RawSpan, traces: map<string, TraceData>)
    requires HitsStored(hits, traces) && forall t :: t in traces0 ==> t in traces
    ensures HitsStored(hits + [h], AddHit(traces, h)) && forall t :: t in traces0 ==> t in AddHit(traces, h)
  {
    assert forall i :: 0 <= i < |hits| ==> (hits + [h])[i] == hits[i];
  }

  /** One iteration of the grouping loop keeps `Grouped`, now over one more hit. */
  lemma GroupedStep(order0: seq<string>, traces0: map<string, TraceData>, hits: seq<RawSpan>, h: RawSpan,
                    order: seq<string>, traces: map<string, TraceData>)
    requires Grouped(order0, traces0, hits, order, traces)
    ensures Grouped(order0, traces0, hits + [h], if h.traceID in traces then order else order + [h.traceID], AddHit(traces, h))
  {
    StepWellFormed(order, traces, h);
    StepOrder(order0, traces0, hits, h, order, traces);
    StepSpans(traces0, hits, h, traces);
    StepProcesses(traces0, hits, h, traces);
    StepStored(traces0, hits, h, traces);
  }

  lemma TakeSnoc<T>(s: seq<T>, i: nat)
    requires i < |s|
    ensures s[..i + 1] == s[..i] + [s[i]]
  {
  }

  /** A trace with its span list in resolved order. */
  function Resolved(d: TraceData): TraceData {
    d.(spans := Resolve(d.spans))
  }

  /**
   * The `traces` dictionary of the export, with its insertion order kept in `order`:
   * the output lists the traces in that order.
   */
  class TraceStore {
    var order: seq<string>
    var traces: map<string, TraceData>

    ghost predicate Valid()
      reads this
    {
      WellFormed(order, traces)
    }

    constructor ()
      ensures Valid() && order == [] && traces == map[]
    {
      order, traces := [], map[];
    }

    /**
     * One iteration of the loop over a page of hits: the span record is appended to
     * its trace's span list (a new trace id is appended to the order first), and its
     * process is stored only when the trace has none for that service yet.
     */
    method Add(h: RawSpan)
      requires Valid()
      modifies this
      ensures Valid()
      ensures order == if h.traceID in old(traces) then old(order) else old(order) + [h.traceID]
      ensures traces == AddHit(old(traces), h)
    {
      StepWellFormed(order, traces, h);
      var span := FormatSpan(h);
      var traceId := span.traceID;
      var data := TraceData([], map[]);
      if traceId in traces {
        data := traces[traceId];
      } else {
        order := order + [traceId];
      }
      data := data.(spans := data.spans + [span]);
      var serviceName := span.process.serviceName;
      if serviceName !in data.processes {
        data := data.(processes := data.processes[serviceName := span.process]);
      }
      traces := traces[traceId := data];
    }

    /** The loop over one page of hits. */
    method Ingest(hits: seq<RawSpan>)
      requires Valid()
      modifies this
      ensures Valid()
      ensures Grouped(old(order), old(traces), hits, order, traces)
    {
      ghost var order0, traces0 := order, traces;
      GroupedStart(order0, traces0);
      assert hits[..0] == [];
      var i := 0;
      while i < |hits|
        invariant 0 <= i <= |hits|
        invariant Grouped(order0, traces0, hits[..i], order, traces)
      {
        ghost var order1, traces1 := order, traces;
        Add(hits[i]);
        TakeSnoc(hits, i);
        GroupedStep(order0, traces0, hits[..i], hits[i], order1, traces1);
        i := i + 1;
      }
      assert hits[..i] == hits;
    }

    /** `for trace in traces.values(): sort_and_resolve_references(trace)`. */
    method ResolveAll()
      requires Valid()
      modifies this
      ensures Valid()
      ensures order == old(order) && traces.Keys == old(traces).Keys
      ensures forall t :: t in traces ==> traces[t] == Resolved(old(traces)[t])
    {
      var i := 0;
      while i < |order|
        invariant 0 <= i <= |order|
        invariant order == old(order) && traces.Keys == old(traces).Keys
        invariant Valid()
        invariant forall t :: t in traces ==> traces[t] == if t in order[..i] then Resolved(old(traces)[t]) else old(traces)[t]
      {
        var t := order[i];
        assert t !in order[..i] by {
          forall k | 0 <= k < i ensures order[..i][k] != t {
          }
        }
        var resolved := SortAndResolveReferences(traces[t].spans);
        SpansUpdateWellFormed(order, traces, t, resolved);
        traces := traces[t := traces[t].(spans := resolved)];
        TakeSnoc(order, i);
        i := i + 1;
      }
      assert order[..i] == order;
    }
  }
}
