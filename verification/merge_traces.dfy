/** merge_jaeger_traces: the trace lists of the export files in one directory, concatenated. */
module MergeTraces {
  import opened Wrappers

  /** A directory entry: its file name and the `data` list of its JSON object, `None` when the key is absent. */
  datatype DirEntry<T> = DirEntry(name: string, data: Option<seq<T>>)

  /** The merged `data` list and the files reported as having no `data` key. */
  datatype Merged<T> = Merged(data: seq<T>, warnings: seq<string>)

  /** `filename.startswith("traces-") and filename.endswith(".json")`. */
  predicate IsTraceFile(name: string): (b: bool)
    ensures b <==> (exists rest :: name == "traces-" + rest) && (exists front :: name == front + ".json")
  {
    if |name| >= 7 && name[..7] == "traces-" && |name| >= 5 && name[|name| - 5..] == ".json" then
      assert name == "traces-" + name[7..];
      assert name == name[..|name| - 5] + ".json";
      true
    else
      assert forall rest :: name == "traces-" + rest ==> |name| >= 7 && name[..7] == "traces-";
      assert forall front :: name == front + ".json" ==> |name| >= 5 && name[|name| - 5..] == ".json";
      false
  }

  /** The `data` lists of the selected files, concatenated in listing order. */
  function MergedData<T>(entries: seq<DirEntry<T>>): seq<T>
    decreases |entries|
  {
    if entries == [] then []
    else
      var e := entries[|entries| - 1];
      MergedData(entries[..|entries| - 1]) + if IsTraceFile(e.name) && e.data.Some? then e.data.value else []
  }

  /** The selected files without a `data` key, in listing order. */
  function Warned<T>(entries: seq<DirEntry<T>>): seq<string>
    decreases |entries|
  {
    if entries == [] then []
    else
      var e := entries[|entries| - 1];
      Warned(entries[..|entries| - 1]) + if IsTraceFile(e.name) && e.data.None? then [e.name] else []
  }

  /** The loop of merge_jaeger_traces over the directory listing. */
  method MergeJaegerTraces<T>(entries: seq<DirEntry<T>>) returns (m: Merged<T>)
    ensures m == Merged(MergedData(entries), Warned(entries))
  {
    var merged: seq<T> := [];
    var warnings: seq<string> := [];
    for i := 0 to |entries|
      invariant merged == MergedData(entries[..i]) && warnings == Warned(entries[..i])
    {
      assert entries[..i + 1][..i] == entries[..i];
      var entry := entries[i];
      if IsTraceFile(entry.name) {
        if entry.data.Some? {
          merged := merged + entry.data.value;
        } else {
          warnings := warnings + [entry.name];
        }
      }
    }
    assert entries[..|entries|] == entries;
    m := Merged(merged, warnings);
  }

  /** Merging two listings one after the other is merging their concatenation. */
  lemma {:induction false} MergedDataConcat<T>(a: seq<DirEntry<T>>, b: seq<DirEntry<T>>)
    ensures MergedData(a + b) == MergedData(a) + MergedData(b)
    ensures Warned(a + b) == Warned(a) + Warned(b)
    decreases |b|
  {
    if b == [] {
      assert a + b == a;
    } else {
      assert (a + b)[..|a + b| - 1] == a + b[..|b| - 1];
      MergedDataConcat(a, b[..|b| - 1]);
    }
  }

  /** The total number of trace entries in the selected files that have a `data` key. */
  function SelectedCount<T>(entries: seq<DirEntry<T>>): nat
    decreases |entries|
  {
    if entries == [] then 0
    else (if IsTraceFile(entries[0].name) && entries[0].data.Some? then |entries[0].data.value| else 0)
         + SelectedCount(entries[1..])
  }

  /**
   * Every merged trace comes from a selected file with a `data` key, the merged length is
   * the sum of those files' list lengths, and a file that is not selected contributes
   * nothing.
   */
  lemma {:induction false} MergedDataFacts<T>(entries: seq<DirEntry<T>>)
    ensures |MergedData(entries)| == SelectedCount(entries)
    ensures forall x :: x in MergedData(entries) ==>
              exists k :: 0 <= k < |entries| && IsTraceFile(entries[k].name) && entries[k].data.Some?
                          && x in entries[k].data.value
    decreases |entries|
  {
    if entries != [] {
      var rest := entries[1..];
      MergedDataFacts(rest);
      assert entries == [entries[0]] + rest;
      MergedDataConcat([entries[0]], rest);
      assert [entries[0]][..0] == [];
      assert MergedData([entries[0]]) == if IsTraceFile(entries[0].name) && entries[0].data.Some? then entries[0].data.value else [];
      forall x | x in MergedData(entries)
        ensures exists k :: 0 <= k < |entries| && IsTraceFile(entries[k].name) && entries[k].data.Some?
                            && x in entries[k].data.value
      {
        if x !in MergedData([entries[0]]) {
          var k :| 0 <= k < |rest| && IsTraceFile(rest[k].name) && rest[k].data.Some? && x in rest[k].data.value;
          assert entries[k + 1] == rest[k];
        }
      }
    }
  }
}
