/**
 * The synchronous protocols: each trace's second span is the client call; when its
 * operation and service match the protocol, its duration goes to one of the two lists.
 */
module Classify {
  import opened Wrappers
  import opened SpanModel
  import opened Durations

  const TransportException := "org.apache.thrift.transport.TTransportException"

  /** The (operation name, service name) a protocol's client call must have; `None` for any other protocol. */
  function ClientCall(protocol: string): Option<(string, string)> {
    if protocol == "rest" then Some(("http get", "microservice1"))
    else if protocol == "grpc" then Some(("ExperimentService/getResponse", "microservice1"))
    else if protocol == "thrift" then Some(("thrift client getPayload", "microservice1"))
    else if protocol == "RabbitMQ sync" then Some(("rabbit rpc request", "microservice1"))
    else if protocol == "Kafka sync" then Some(("kafka-producer#get-payload", "microservice1"))
    else None
  }

  /**
   * The rule of classify_by_outcome (key `outcome`, default `FAILURE`, success value
   * `SUCCESS`) and of classify_by_grpc_status (key `grpc.status_code`, default `UNKNOWN`,
   * success value `OK`): the value of the first tag with `key`, or `absent` when there
   * is none, compared with `good`.
   */
  function ByFirstTag(span: Span, key: string, absent: string, good: string): (o: Outcome)
    ensures o == Success <==>
              (exists i :: FirstKeyAt(span.tags, key, i) && span.tags[i].1 == good)
              || ((forall i :: 0 <= i < |span.tags| ==> span.tags[i].0 != key) && absent == good)
  {
    if FirstValue(span.tags, key).GetOr(absent) == good then Success else Failure
  }

  /** classify_by_error_tag: the first `error` tag, `false` when there is none, and the ceiling. */
  function ByErrorTag(span: Span): (o: Outcome)
    ensures o == Success <==>
              (forall i :: FirstKeyAt(span.tags, "error", i) ==> span.tags[i].1 == "false") && span.duration <= MaxDuration
  {
    if FirstValue(span.tags, "error").GetOr("false") == "false" && span.duration <= MaxDuration then Success else Failure
  }

  /** Some field of `fields` is the thrift transport exception. */
  function FieldsHaveTransportException(fields: seq<KeyValue>): (r: bool)
    ensures r <==> exists f :: 0 <= f < |fields| && fields[f] == ("exception.type", TransportException)
  {
    if fields == [] then false
    else fields[0] == ("exception.type", TransportException) || FieldsHaveTransportException(fields[1..])
  }

  /** The `any(...)` over every field of every log. */
  function HasTransportException(logs: seq<seq<KeyValue>>): (r: bool)
    ensures r <==> exists l, f :: 0 <= l < |logs| && 0 <= f < |logs[l]| && logs[l][f] == ("exception.type", TransportException)
  {
    if logs == [] then false
    else
      var here := FieldsHaveTransportException(logs[0]);
      var rest := HasTransportException(logs[1..]);
      assert rest ==> exists l, f :: 0 <= l < |logs| && 0 <= f < |logs[l]| && logs[l][f] == ("exception.type", TransportException) by {
        if rest {
          var l, f :| 0 <= l < |logs[1..]| && 0 <= f < |logs[1..][l]| && logs[1..][l][f] == ("exception.type", TransportException);
          assert logs[l + 1][f] == ("exception.type", TransportException);
        }
      }
      here || rest
  }

  /** The thrift rule: a failure when over the ceiling or when the first span logged the transport exception. */
  function ByThriftLogs(first: Span, span: Span): (o: Outcome)
    ensures o == Failure <==>
              span.duration > MaxDuration
              || exists l, f :: 0 <= l < |first.logs| && 0 <= f < |first.logs[l]|
                                && first.logs[l][f] == ("exception.type", TransportException)
  {
    if span.duration > MaxDuration || HasTransportException(first.logs) then Failure else Success
  }

  /** classify_span as a value: the outcome and duration it appends, or `None` when it appends nothing. */
  function Classify(t: Trace, protocol: string): (r: Option<(Outcome, real)>)
    ensures r.None? <==>
              |t.spans| < 2 || ClientCall(protocol) != Some((t.spans[1].operationName, t.spans[1].process.serviceName))
    ensures r.Some? ==> r.value.1 == t.spans[1].duration as real
    ensures r.Some? && protocol == "rest" ==>
              (r.value.0 == Success <==> exists i :: FirstKeyAt(t.spans[1].tags, "outcome", i) && t.spans[1].tags[i].1 == "SUCCESS")
    ensures r.Some? && protocol == "grpc" ==>
              (r.value.0 == Success <==> exists i :: FirstKeyAt(t.spans[1].tags, "grpc.status_code", i) && t.spans[1].tags[i].1 == "OK")
    ensures r.Some? && (protocol == "RabbitMQ sync" || protocol == "Kafka sync") ==>
              (r.value.0 == Success <==>
                 (forall i :: FirstKeyAt(t.spans[1].tags, "error", i) ==> t.spans[1].tags[i].1 == "false")
                 && t.spans[1].duration <= MaxDuration)
    ensures r.Some? && protocol == "thrift" ==>
              (r.value.0 == Failure <==>
                 t.spans[1].duration > MaxDuration
                 || exists l, f :: 0 <= l < |t.spans[0].logs| && 0 <= f < |t.spans[0].logs[l]|
                                   && t.spans[0].logs[l][f] == ("exception.type", TransportException))
  {
    if |t.spans| < 2 then None
    else
      var span := t.spans[1];
      if ClientCall(protocol) != Some((span.operationName, span.process.serviceName)) then None
      else
        var o := if protocol == "rest" then ByFirstTag(span, "outcome", "FAILURE", "SUCCESS")
                 else if protocol == "grpc" then ByFirstTag(span, "grpc.status_code", "UNKNOWN", "OK")
                 else if protocol == "thrift" then ByThriftLogs(t.spans[0], span)
                 else ByErrorTag(span);
        Some((o, span.duration as real))
  }

  /** The lists after `classify_span` appended what `Classify` says. */
  function Record(b: Buckets, c: Option<(Outcome, real)>): Buckets {
    match c
    case None => b
    case Some((o, v)) => Append(b, o, v)
  }

  /** The lists after handle_standard_protocols ran over `traces`. */
  function Standard(traces: seq<Trace>, protocol: string, b: Buckets): Buckets
    decreases |traces|
  {
    if traces == [] then b
    else Record(Standard(traces[..|traces| - 1], protocol, b), Classify(traces[|traces| - 1], protocol))
  }

  /** The number of traces that classify_span appends a value for. */
  function ClassifiedCount(traces: seq<Trace>, protocol: string): (n: nat)
    ensures n <= |traces|
    decreases |traces|
  {
    if traces == [] then 0
    else ClassifiedCount(traces[..|traces| - 1], protocol) + if Classify(traces[|traces| - 1], protocol).Some? then 1 else 0
  }

  /** classify_span: appends the second span's duration to the list its protocol's rule picks. */
  method ClassifySpan(t: Trace, protocol: string, b: Buckets) returns (b': Buckets)
    ensures b' == Record(b, Classify(t, protocol))
  {
    b' := b;
    if |t.spans| < 2 {
      return;
    }
    var span := t.spans[1];
    var operation, service := span.operationName, span.process.serviceName;
    var value := span.duration as real;
    if protocol == "rest" && operation == "http get" && service == "microservice1" {
      b' := Append(b', ByFirstTag(span, "outcome", "FAILURE", "SUCCESS"), value);
    } else if protocol == "grpc" && operation == "ExperimentService/getResponse" && service == "microservice1" {
      b' := Append(b', ByFirstTag(span, "grpc.status_code", "UNKNOWN", "OK"), value);
    } else if protocol == "thrift" && operation == "thrift client getPayload" && service == "microservice1" {
      var isFailure := HasTransportException(t.spans[0].logs);
      if span.duration > MaxDuration || isFailure {
        b' := b'.(failure := b'.failure + [value]);
      } else {
        b' := b'.(success := b'.success + [value]);
      }
    } else if protocol == "RabbitMQ sync" && operation == "rabbit rpc request" && service == "microservice1" {
      b' := Append(b', ByErrorTag(span), value);
    } else if protocol == "Kafka sync" && operation == "kafka-producer#get-payload" && service == "microservice1" {
      b' := Append(b', ByErrorTag(span), value);
    }
  }

  /** handle_standard_protocols: classify_span on every trace, in order. */
  method HandleStandardProtocols(traces: seq<Trace>, protocol: string, b: Buckets) returns (b': Buckets)
    ensures b' == Standard(traces, protocol, b)
  {
    b' := b;
    for i := 0 to |traces|
      invariant b' == Standard(traces[..i], protocol, b)
    {
      assert traces[..i + 1][..i] == traces[..i];
      b' := ClassifySpan(traces[i], protocol, b');
    }
    assert traces[..|traces|] == traces;
  }

  /**
   * Each trace adds at most one value, and only the traces `Classify` accepts add one;
   * the old values stay in front.
   */
  lemma {:induction false} StandardCount(traces: seq<Trace>, protocol: string, b: Buckets)
    ensures Total(Standard(traces, protocol, b)) == Total(b) + ClassifiedCount(traces, protocol)
    ensures Extends(b, Standard(traces, protocol, b))
    decreases |traces|
  {
    if traces != [] {
      StandardCount(traces[..|traces| - 1], protocol, b);
    }
  }

  /** Every value added to a list is the duration of some trace's second span, classified into that list. */
  lemma {:induction false} StandardValues(traces: seq<Trace>, protocol: string, b: Buckets)
    ensures forall v :: v in Standard(traces, protocol, b).success ==>
              v in b.success || exists k :: 0 <= k < |traces| && Classify(traces[k], protocol) == Some((Success, v))
    ensures forall v :: v in Standard(traces, protocol, b).failure ==>
              v in b.failure || exists k :: 0 <= k < |traces| && Classify(traces[k], protocol) == Some((Failure, v))
    decreases |traces|
  {
    if traces != [] {
      var init := traces[..|traces| - 1];
      StandardValues(init, protocol, b);
      assert forall k :: 0 <= k < |init| ==> init[k] == traces[k];
    }
  }

  /** An unknown protocol name, `RabbitMQ async` and `Kafka async` included, leaves both lists alone. */
  lemma {:induction false} StandardUnknownProtocol(traces: seq<Trace>, protocol: string, b: Buckets)
    requires ClientCall(protocol).None?
    ensures Standard(traces, protocol, b) == b
    decreases |traces|
  {
    if traces != [] {
      StandardUnknownProtocol(traces[..|traces| - 1], protocol, b);
    }
  }

  /** Under the two error-tag rules and the thrift rule, no value above the ceiling is a success. */
  lemma {:induction false} StandardSuccessBounded(traces: seq<Trace>, protocol: string, b: Buckets)
    requires protocol in {"thrift", "RabbitMQ sync", "Kafka sync"}
    requires forall v :: v in b.success ==> v <= MaxDuration as real
    ensures forall v :: v in Standard(traces, protocol, b).success ==> v <= MaxDuration as real
  {
    StandardValues(traces, protocol, b);
  }
}
