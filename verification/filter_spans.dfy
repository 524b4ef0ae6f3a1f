/** filter_spans: the entry point that picks the analysis for a protocol name. */
module FilterSpans {
  import opened Wrappers
  import opened SpanModel
  import opened Durations
  import opened Classify
  import opened AsyncCorrelation

  /** The two lists filter_spans returns for `traces`, or the error it raises. */
  function Filtered(traces: seq<Trace>, protocol: string): Result<Buckets, string> {
    if protocol == "RabbitMQ async" then AsyncResult(traces, RabbitNames, NoDurations)
    else if protocol == "Kafka async" then AsyncResult(traces, KafkaNames, NoDurations)
    else Ok(Standard(traces, protocol, NoDurations))
  }

  /** filter_spans: starts from two empty lists and runs the analysis the protocol name selects. */
  method FilterSpans(traces: seq<Trace>, protocol: string) returns (r: Result<Buckets, string>)
    ensures r == Filtered(traces, protocol)
  {
    var durations := NoDurations;
    if protocol == "RabbitMQ async" {
      r := HandleAsync(traces, RabbitNames, durations);
    } else if protocol == "Kafka async" {
      r := HandleAsync(traces, KafkaNames, durations);
    } else {
      durations := HandleStandardProtocols(traces, protocol, durations);
      r := Ok(durations);
    }
  }

  /**
   * Only the asynchronous analyses can fail; a synchronous protocol yields one value per
   * accepted trace, and an unknown protocol name yields two empty lists.
   */
  lemma FilteredOutcome(traces: seq<Trace>, protocol: string)
    ensures Filtered(traces, protocol).Err? ==> protocol == "RabbitMQ async" || protocol == "Kafka async"
    ensures protocol != "RabbitMQ async" && protocol != "Kafka async" ==>
              Filtered(traces, protocol).Ok? && Total(Filtered(traces, protocol).value) == ClassifiedCount(traces, protocol)
    ensures ClientCall(protocol).None? && protocol != "RabbitMQ async" && protocol != "Kafka async" ==>
              Filtered(traces, protocol) == Ok(NoDurations)
  {
    StandardCount(traces, protocol, NoDurations);
    if ClientCall(protocol).None? {
      StandardUnknownProtocol(traces, protocol, NoDurations);
    }
  }
}
