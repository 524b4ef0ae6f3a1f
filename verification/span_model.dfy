/** The span records shared by the trace tools: one Jaeger span as the tools read it. */
module SpanModel {
  import opened Wrappers

  /** A `{key, value}` entry of a tag list or of a log's field list. */
  type KeyValue = (string, string)

  /** A `{refType, spanID}` reference to another span of the same trace. */
  datatype Ref = Ref(refType: string, spanID: string)

  /** The emitting process: its service name and its own tags. */
  datatype Process = Process(serviceName: string, tags: seq<KeyValue>)

  /** A span; each log is represented by its list of fields. */
  datatype Span = Span(
    traceID: string,
    spanID: string,
    operationName: string,
    startTime: int,
    duration: int,
    tags: seq<KeyValue>,
    logs: seq<seq<KeyValue>>,
    process: Process,
    references: seq<Ref>)

  /** One trace of an export file: its id and its spans, in stored order. */
  datatype Trace = Trace(traceID: string, spans: seq<Span>)

  /** `i` is the position of the first entry whose key is `key`. */
  ghost predicate FirstKeyAt(kvs: seq<KeyValue>, key: string, i: int) {
    0 <= i < |kvs| && kvs[i].0 == key && forall j :: 0 <= j < i ==> kvs[j].0 != key
  }

  /** `next((kv['value'] for kv in kvs if kv['key'] == key), None)`. */
  function FirstValue(kvs: seq<KeyValue>, key: string): (r: Option<string>)
    ensures r.None? <==> forall i :: 0 <= i < |kvs| ==> kvs[i].0 != key
    ensures forall i :: FirstKeyAt(kvs, key, i) ==> r == Some(kvs[i].1)
    ensures r.Some? ==> exists i :: FirstKeyAt(kvs, key, i) && kvs[i].1 == r.value
  {
    if |kvs| == 0 then None
    else if kvs[0].0 == key then
      assert FirstKeyAt(kvs, key, 0);
      Some(kvs[0].1)
    else
      var r := FirstValue(kvs[1..], key);
      assert forall i :: FirstKeyAt(kvs, key, i) ==> i > 0 && FirstKeyAt(kvs[1..], key, i - 1);
      assert forall i :: FirstKeyAt(kvs[1..], key, i) ==> FirstKeyAt(kvs, key, i + 1);
      r
  }
}
