# Trace analysis for a communication-protocol benchmark, in Dafny

The repository measures microservices that talk over REST, gRPC, Thrift,
RabbitMQ and Kafka. It has four parts, and this project models each of them:

- `elastic.py` exports the Jaeger spans of an experiment from Elasticsearch.
  - Each search hit is projected into a span record (`format_span`).
  - The records are grouped per trace id, keeping one process per service.
  - Every trace's span list is then put into "resolved" order (`sort_and_resolve_references`).
- `traces.py` reads such exports and fills two lists of response times per protocol, `SUCCESS` and `FAILURE`.
  - For the synchronous protocols it looks at the second span of each trace.
  - For the two asynchronous protocols it correlates the send and receive spans of each trace id.
  - It then reports count, minimum, maximum, mean and percentiles in an automatically chosen unit.
- `cpu_usage_all_new.py` scans a load generator's simulation log for the first request start and the last request end.
- `merge_traces.py` concatenates the `data` lists of the export files in a directory.

Each module holds specification functions plus the procedures the source runs step by step.
- Those procedures are methods with loops, or, for the export's `traces` dictionary, a class with fields.
- Each method is proved equal to its specification function.
- Lemmas then prove what the source promises about those functions.

Modules:
- `Wrappers`: `Option`, and `Result` for a Python exception that ends a run.
- `SpanModel`: span records and tag lookup.
- `SpanSort`: the stable sort by start time.
- `SpanOrder` and `SpanOrderProofs`: the resolved order.
- `Ingest`: formatting and grouping of hits; `TraceStore` is the export's `traces` dictionary.
- `Durations`: the two lists.
- `Classify`: the synchronous rules.
- `AsyncCorrelation`: the asynchronous rules.
- `FilterSpans`: the dispatch on the protocol name.
- `Statistics` and `Report`: the summary that `generate_report` prints.
- `SimulationLog`: the log scan.
- `MergeTraces`: the merge.

## What the code does, as modelled

Where the code differs from what its comments suggest, the model follows the code.

- **The resolved order is parents first, and nearly every span is a root.**
  - A span counts as a root unless one of its own references names its own id (`elastic.py:72`), so almost every span is a root.
  - `visit` marks a span, then visits the targets of its `CHILD_OF` references, and only then appends the span (`elastic.py:59-69`).
  - A `CHILD_OF` target is the parent, so parents come before their children.
  - A span whose reference names itself is reached only through some other span that names it as a `CHILD_OF` target.
  - Resolving twice gives the same order as resolving once, provided span ids and start times are distinct and no span names itself.
- **Asynchronous values are in milliseconds** (`startTime / 1000.0`), but they are compared against the microsecond ceiling of 60 000 000.
  - A send at 1000 µs answered by a receive starting at 2000 µs and lasting 500 µs is recorded as the success 1.5, not 1500.
- **The `TypeError` fall-through** (`traces.py:121-128`).
  - When exactly one of `start` and `end` is `None`, the code appends a failure.
  - It then still compares `total_duration`, which is the value left by an earlier entry.
  - When no earlier entry had two numbers, the name is unbound and the whole analysis stops with `UnboundLocalError`.
  - The model returns `Err("UnboundLocalError")` in that case.
- **Unreachable line.** The last line of `choose_unit` (`traces.py:25`) cannot be reached.
- **Zero is "no value yet" in the log scan.**
  - `first_request_time` and `last_request_time` serve directly as conditions (`cpu_usage_all_new.py:42-43`), so 0 reads as false.
  - So a start or end of 0 is forgotten by the next request.
- **The RabbitMQ async log rule reads fields 5 and 6.**
  - It is guarded only by `len(parts) > 3`.
  - A request line with 4 or 5 fields raises `IndexError`, which is not caught.
  - So does a line with exactly 6 fields whose field 5 is an integer.
  - When field 5 is not an integer, the `ValueError` is caught first and the line gives no value.

## Model

| member | source | states |
|---|---|---|
| `SpanModel.FirstValue` | traces.py:166 | `None` exactly when no entry has the key; otherwise the value of the first entry with that key |
| `SpanSort.SortByStartFacts` | elastic.py:52 | the sort by `startTime` returns a sorted permutation of the spans |
| `SpanSort.SortByStartStable` | elastic.py:52 | the sort is stable: spans with equal start times keep their relative order |
| `SpanSort.SortedWithDistinctStartsUnique` | elastic.py:52 | when start times are distinct, there is only one sorted arrangement of a multiset of spans |
| `SpanOrder.IdIndex` | elastic.py:55 | the id map has exactly the ids of the spans as keys and maps each id to a span of the list with that id; the last span with an id is the one kept |
| `SpanOrder.Roots` | elastic.py:72 | a span is in the root list exactly when it is in the trace and none of its references names its own id |
| `SpanOrder.Visit` | elastic.py:59-69 | a visit marks its id before recursing and only adds marks; it terminates on every reference graph, cycles included |
| `SpanOrder.VisitSpan` | elastic.py:59-69 | the recursive `visit` with its reference loop computes exactly the walk `Visit` specifies |
| `SpanOrder.SortAndResolveReferences` | elastic.py:50-79 | the procedure's output is the resolved order `Resolve` of the span list |
| `SpanOrderProofs.ResolveIdsUnique` | elastic.py:55-79 | every span id occurs at most once in the resolved list, and every span in it comes from the trace |
| `SpanOrderProofs.ResolvePermutes` | elastic.py:50-79 | with distinct ids and no span naming itself, the resolved list is a permutation of the trace's spans |
| `SpanOrderProofs.ResolveParentsFirst` | elastic.py:63-69 | for acyclic CHILD_OF references, every CHILD_OF target of a resolved span that is in the trace appears earlier in the list |
| `SpanOrderProofs.ResolveSelfReferencing` | elastic.py:72-76 | when span ids are distinct, a span that names its own id is output only when some other output span names it as a CHILD_OF target |
| `SpanOrderProofs.VisitRefsIgnoresUnfollowed` | elastic.py:66-68 | references that are not CHILD_OF, or whose target is not a span of the trace, have no effect on the visit |
| `SpanOrderProofs.ResolveWithoutReferences` | elastic.py:50-79 | with distinct ids, no span naming itself and no CHILD_OF reference inside the trace, the resolved order is the start-time order |
| `SpanOrderProofs.ResolveIdempotent` | elastic.py:50-79 | with distinct ids and start times and no self-reference, resolving a resolved list changes nothing |
| `Ingest.TagPairs` | elastic.py:43 | each stored tag becomes the pair of its key and value, position by position |
| `Ingest.FormatSpan` | elastic.py:36-47 | every field is copied from the hit; absent tags or logs become empty lists; tags keep only key and value |
| `Ingest.FirstProcess` | elastic.py:94-96 | the process kept for a service is that of the first hit with that trace id and service; there is none exactly when no such hit exists |
| `Ingest.NewTraceIdsFacts` | elastic.py:90-92 | the trace ids added by a page are exactly the unseen ids of its hits, each listed once |
| `Ingest.GroupedStep` | elastic.py:88-96 | one more hit keeps the grouping invariant: order, span lists and processes are those of grouping the longer prefix |
| `Ingest.TraceStore.constructor` | elastic.py:33 | the export starts with no trace |
| `Ingest.TraceStore.Add` | elastic.py:89-96 | one hit: a new trace id is appended to the order, the span record to its trace, and the process is stored only for a new service |
| `Ingest.TraceStore.Ingest` | elastic.py:88-96 | after a page, the trace order gains the new ids in order of first appearance; each trace's spans gain its hits' records in arrival order; each service keeps its first process |
| `Ingest.TraceStore.ResolveAll` | elastic.py:102-103 | every trace, and no other, gets its span list replaced by its resolved order; the trace order and ids stay |
| `Classify.ByFirstTag` | traces.py:165-172 | success exactly when the first tag with the rule's key has the success value, or when there is no such tag and the default is the success value (never, for `outcome`/`FAILURE` and `grpc.status_code`/`UNKNOWN`) |
| `Classify.ByErrorTag` | traces.py:175-180 | success exactly when the first `error` tag, if any, is `false` and the duration is within the ceiling |
| `Classify.HasTransportException` | traces.py:150-154 | true exactly when some field of some log is the Thrift transport exception |
| `Classify.ByThriftLogs` | traces.py:149-158 | failure exactly when the duration exceeds the ceiling or the first span logged the transport exception |
| `Classify.Classify` | traces.py:140-162 | no value exactly when the trace has under two spans or its second span is not the protocol's client call; otherwise the second span's duration, in the list the protocol's rule picks |
| `Classify.ClassifySpan` | traces.py:140-162 | `classify_span` appends exactly what `Classify` says, to the list it says |
| `Classify.HandleStandardProtocols` | traces.py:135-137 | the loop's lists are the fold of `classify_span` over the traces in order |
| `Classify.StandardCount` | traces.py:135-137 | each accepted trace adds exactly one value and the others none; the old values stay in front |
| `Classify.StandardValues` | traces.py:140-162 | every value added to a list is the duration of some trace classified into that list |
| `Classify.StandardUnknownProtocol` | traces.py:145-162 | a protocol name without a client call, the two async names included, leaves both lists unchanged |
| `Classify.StandardSuccessBounded` | traces.py:155-180 | under the Thrift and error-tag rules, no success exceeds the ceiling |
| `AsyncCorrelation.CollectKeys` | traces.py:78-112 | the dictionary's keys are the trace ids of traces with two or more spans, each once, in order of first such trace |
| `AsyncCorrelation.CollectEntries` | traces.py:78-112 | `start` comes from the id's last trace with five or more spans and is absent if there is none; `end` comes from its last trace with two or more spans, `None` when that trace has fewer than five |
| `AsyncCorrelation.SendField` | traces.py:96-103 | a number exactly when the span is the protocol's send operation, and then its start time in milliseconds; `None` otherwise |
| `AsyncCorrelation.ReceiveField` | traces.py:105-112 | a number exactly when the span is the protocol's receive operation, and then its end time (start plus duration) in milliseconds; `None` otherwise |
| `AsyncCorrelation.CollectAsync` | traces.py:78-112 | the collecting loop builds exactly the dictionary `Collect` specifies |
| `AsyncCorrelation.EntryValues` | traces.py:119-132 | two numbers give one value checked against the ceiling; one `None` gives a failure, then the carried total checked, or `UnboundLocalError` when there is none; otherwise one failure |
| `AsyncCorrelation.CalculateAsyncDurations` | traces.py:117-132 | the loop appends, entry by entry in insertion order, exactly the values `EntryValues` gives, or stops with its error |
| `AsyncCorrelation.CorrelationErr` | traces.py:121-125 | the loop fails exactly when some entry has one `None` key and no earlier entry had two numbers |
| `AsyncCorrelation.CorrelationValues` | traces.py:117-132 | each entry adds one value, plus one for an entry with one `None`; successes lie strictly between 0 and the ceiling; failures are the ceiling plus one |
| `AsyncCorrelation.HandleAsync` | traces.py:39-75 | the Kafka and RabbitMQ handlers give the collected dictionary's correlation values |
| `AsyncCorrelation.RabbitExample` | traces.py:96-108 | a send at 1000 µs with a receive from 2000 µs lasting 500 µs yields the single success 1.5 |
| `FilterSpans.FilterSpans` | traces.py:28-36 | `filter_spans` starts from two empty lists and runs the analysis its protocol name selects |
| `FilterSpans.FilteredOutcome` | traces.py:28-36 | only the async analyses can fail; a synchronous protocol yields one value per accepted trace; an unknown name yields two empty lists |
| `Statistics.Percentile` | traces.py:188 | `np.percentile` in linear mode: percentile 0 is the first sorted value and percentile 100 the last |
| `Statistics.Mean` | traces.py:193 | the mean times the number of values is their sum |
| `Statistics.OneToTenPercentiles` | traces.py:188 | for the values 1 to 10 the median is 5.5 and the 95th percentile 9.55, as `np.percentile` gives |
| `Statistics.SortFacts` | traces.py:188 | the percentile sort returns a sorted permutation |
| `Statistics.PercentileMonotone` | traces.py:188 | interpolated percentiles never decrease with `p` and lie between the smallest and the largest value |
| `Statistics.MeanBetween` | traces.py:193 | the mean lies between any lower and upper bound of the values |
| `Statistics.ComputeStatistics` | traces.py:183-199 | "no data" exactly for an empty list; otherwise the count is the length, min and max are values of the list bounding all others, the mean is `Mean` of the values, the four percentiles are the linearly interpolated `Percentile` of the sorted values, min ≤ p50 ≤ p75 ≤ p95 ≤ p99 ≤ max, and min ≤ mean ≤ max |
| `Report.ChooseUnit` | traces.py:15-25 | µs for an empty list or a mean under 1000; s exactly when the mean is at least 1 000 000; ms otherwise |
| `Report.ChooseUnitScaledMean` | traces.py:15-25 | in the chosen unit the mean is under 1000 unless the unit is s, and at least 1 unless it is µs |
| `Report.Scale` | traces.py:204-205 | each value is divided by the unit factor, position by position |
| `Report.StatisticsScale` | traces.py:204-205 | summarising the scaled values equals scaling the summary of the values |
| `Report.GenerateReport` | traces.py:202-206 | one unit chosen from both lists together; request count is the number of all values; both summaries are the unscaled ones divided by the unit factor |
| `SimulationLog.SplitFacts` | cpu_usage_all_new.py:18 | `split()` yields non-empty fields without whitespace that together hold exactly the line's non-whitespace characters |
| `SimulationLog.SplitJoin` | cpu_usage_all_new.py:18 | splitting whitespace-free fields joined by single spaces gives the fields back |
| `SimulationLog.ParseInt` | cpu_usage_all_new.py:22-23 | `int` succeeds exactly on an optional sign (`+` or `-`) followed by one or more decimal digits; a value without `-` is not negative |
| `SimulationLog.ParseShow` | cpu_usage_all_new.py:22-23 | reading the decimal rendering of an integer gives the integer back |
| `SimulationLog.ExtractTimestamp` | cpu_usage_all_new.py:17-36 | a non-request line gives nothing; the RabbitMQ async rule raises on request lines too short for its fields; a pair exactly when both fields exist and parse, holding their values |
| `SimulationLog.Contains` | cpu_usage_all_new.py:39 | `word in s` exactly when the word occurs at some position |
| `SimulationLog.RequestLineContainsRequest` | cpu_usage_all_new.py:38-40 | a line that `extract_timestamp` accepts or fails on contains `REQUEST` |
| `SimulationLog.FilterKeepsRequests` | cpu_usage_all_new.py:38-40 | the `REQUEST` substring filter drops no line that matters: filtered and unfiltered scans agree |
| `SimulationLog.KeepMin` | cpu_usage_all_new.py:42 | an unset (`None` or 0) first request time takes the new start; otherwise it becomes the smaller of the two |
| `SimulationLog.KeepMax` | cpu_usage_all_new.py:43 | an unset (`None` or 0) last request time takes the new end; otherwise it becomes the larger of the two |
| `SimulationLog.Fold` | cpu_usage_all_new.py:41-43 | the first and last request times stay `None` exactly when no line gave a pair |
| `SimulationLog.ScanRequestTimes` | cpu_usage_all_new.py:38-43 | the scanning loop yields the fold of the parsed pairs, or the exception of the first failing line |
| `SimulationLog.FoldBounds` | cpu_usage_all_new.py:42-43 | without zero starts the first time is the smallest start; without zero ends the last time is the largest end |
| `SimulationLog.ZeroStartForgotten` | cpu_usage_all_new.py:42 | after starts 0 and 5 the first request time is 5 |
| `MergeTraces.IsTraceFile` | merge_traces.py:8 | a file is selected exactly when its name starts with `traces-` and ends with `.json` |
| `MergeTraces.MergeJaegerTraces` | merge_traces.py:4-15 | the merge loop yields the concatenated `data` lists of the selected files and warns for each selected file without `data` |
| `MergeTraces.MergedDataConcat` | merge_traces.py:7-15 | merging two listings one after the other equals merging their concatenation, for data and warnings |
| `MergeTraces.MergedDataFacts` | merge_traces.py:7-13 | the merged length is the sum of the selected lists' lengths, and every merged trace comes from a selected file with `data` |

## Left out

- Reading and writing files, printing, the Elasticsearch client and its `search_after` pagination (`elastic.py:6-33`, `82-87`, `97-98`, `107-115`) are not modelled.
  - `TraceStore.Ingest` models one page of hits.
  - The output order of the traces is `TraceStore.order`.
- Directory listing, `glob`, `json.load` and `json.dump` are not modelled.
  - Listings and parsed files are given to the model as sequences.
  - A listing's order is whatever the operating system returns.
- Floating point is not modelled.
  - Durations, means and percentiles are exact reals.
  - `round(…, 2)` is not modelled.
  - The standard deviation is not modelled, because it needs a square root.
- The text of the report and the requests-per-second line (`traces.py:208-224`) are not modelled.
- `process_protocol` and `main` in `traces.py` and in `cpu_usage_all_new.py` are left out. They handle path building, run loops, aggregation with `extend`, and plotting.
- `calculate_average_cpu_usage` (pandas) is left out.
- The datetime and timezone conversion and the `+ 10 s` at the end of `extract_times_from_simulation_log` (`cpu_usage_all_new.py:45-52`) are left out. That includes the `TypeError` raised there when no request was found.
- `structure_json.py` is not part of this model.
- `None` values in span records are not modelled.
  - These cover a missing `traceID`, `spanID`, `startTime`, `duration`, `references` or tag value returned by `.get`.
  - References are always a list, so the `'references' in span` test is always true.
- Tag values are strings.
  - A boolean or numeric `error`, `outcome` or `grpc.status_code` value never equals the compared string in Python.
  - A rendering that differs from `false`, `SUCCESS` and `OK` gives the same outcome.
- `KeyError` and `IndexError` on malformed records are not modelled, e.g. a span without `logs` under the Thrift rule or a hit without `process`.
- Python `int()` also accepts surrounding whitespace, underscores and non-ASCII digits. `SimulationLog.ParseInt` models an optional sign followed by ASCII digits only.
- `str.split()` also splits on non-ASCII whitespace. `SimulationLog.Split` recognises ASCII whitespace and the separators `\x1c`-`\x1f`.
- When an exception ends an analysis, the lists it had already filled are not kept: the result is the `Err` alone.
- The `durations` dictionary is shared by reference in Python. Here the lists are values passed in and returned.
- The in-place `trace['spans'].sort(...)` and reassignment are modelled on sequences, so aliasing of span dictionaries is not modelled.
- The recursive `visit` (`elastic.py:59-69`) raises `RecursionError` on `CHILD_OF` chains deeper than Python's recursion limit. The model has no such limit: its visit always terminates with the full order.
- `SpanOrderProofs.ResolveParentsFirst`: acyclicity of the CHILD_OF references is stated through a ranking of span ids, not as a graph property; the two are equivalent for finite traces.
- `SpanOrderProofs.ResolvePermutes`: states the permutation only when span ids are distinct and no span names itself. Without those conditions, duplicates collapse into one span and self-referencing spans may be dropped.
- `SimulationLog.FoldBounds`: states the minimum and maximum only when no start (respectively end) is 0. The zero case is shown by `SimulationLog.ZeroStartForgotten`.
