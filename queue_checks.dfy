/**
 * The checks `config_xps` and `config_rps` of net.py run on a parsed map before touching the
 * device, and `_format_cpu_lines`, which lays a CPU list out 19 numbers to a line.
 */
module QueueChecks {
  import opened Results
  import opened Text
  import opened Sorting

  // ---------------------------------------------------------------------------------------------
  // Queue bounds

  /**
   * The bound check over `sorted(map.keys())`: the keys in increasing order when every one is
   * below the queue count, otherwise the error for the least key that is not.
   */
  method CheckQueuesInRange(keys: set<nat>, total: nat) returns (r: Result<seq<nat>>)
    ensures r.Ok? <==> forall q :: q in keys ==> q < total
    ensures r.Ok? ==> r.value == SortedSet(keys)
    ensures r.Err? ==> r.error.QueueOutOfRange? && r.error.total == total
    ensures r.Err? ==> r.error.queue in keys && r.error.queue >= total
    ensures r.Err? ==> forall q :: q in keys && q < r.error.queue ==> q < total
  {
    var target := SortedSet(keys);
    for i := 0 to |target|
      invariant forall j :: 0 <= j < i ==> target[j] < total
    {
      if target[i] >= total {
        EarlierBelow(target, i, total);
        assert target[i] in Elems(target);
        assert target[i] in keys && !(target[i] < total);
        return Err(QueueOutOfRange(target[i], total));
      }
    }
    forall q | q in keys
      ensures q < total
    {
      assert q in Elems(target);
    }
    return Ok(target);
  }

  /** In increasing order, every id smaller than `xs[i]` comes before index `i`. */
  lemma EarlierBelow(xs: seq<nat>, i: nat, total: nat)
    requires Increasing(xs) && i < |xs|
    requires forall j :: 0 <= j < i ==> xs[j] < total
    ensures forall q :: q in Elems(xs) && q < xs[i] ==> q < total
  {
    forall q | q in Elems(xs) && q < xs[i]
      ensures q < total
    {
      var j :| 0 <= j < |xs| && xs[j] == q;
      assert j < i;
    }
  }

  // ---------------------------------------------------------------------------------------------
  // CPU map and flow map agreement

  /**
   * With both a CPU map and a flow map, their queue sets must be equal; otherwise the error
   * lists the queues missing a flow count and the queues with a flow count but no CPUs.
   */
  function KeySetMismatch(cpuKeys: set<nat>, flowKeys: set<nat>): (r: Option<Error>)
    ensures r.None? <==> cpuKeys == flowKeys
    ensures r.Some? ==> r.value.FlowQueueMismatch?
    ensures r.Some? ==> forall q :: q in r.value.missing <==> q in cpuKeys && q !in flowKeys
    ensures r.Some? ==> forall q :: q in r.value.extra <==> q in flowKeys && q !in cpuKeys
  {
    if flowKeys == cpuKeys then None
    else Some(FlowQueueMismatch(cpuKeys - flowKeys, flowKeys - cpuKeys))
  }

  /** The reported difference is exact: adding the missing queues and dropping the extra ones reconciles the flow queues with the CPU queues. */
  lemma MismatchReconciles(cpuKeys: set<nat>, flowKeys: set<nat>)
    requires KeySetMismatch(cpuKeys, flowKeys).Some?
    ensures var e := KeySetMismatch(cpuKeys, flowKeys).value;
      (flowKeys - e.extra) + e.missing == cpuKeys && (e.missing != {} || e.extra != {})
  {
    var e := KeySetMismatch(cpuKeys, flowKeys).value;
    assert (flowKeys - e.extra) + e.missing == cpuKeys;
  }

  // ---------------------------------------------------------------------------------------------
  // _format_cpu_lines

  /** The most numbers printed on one line. */
  const LineWidth: nat := 19

  /** `[cpus[i:i+19] for i in range(0, len(cpus), 19)]`. */
  function Chunks(cpus: seq<nat>): (chunks: seq<seq<nat>>)
    ensures forall i :: 0 <= i < |chunks| ==> 0 < |chunks[i]| <= LineWidth
    ensures forall i :: 0 <= i < |chunks| - 1 ==> |chunks[i]| == LineWidth
    ensures |chunks| == (|cpus| + LineWidth - 1) / LineWidth
    decreases |cpus|
  {
    if cpus == [] then []
    else if |cpus| <= LineWidth then [cpus]
    else
      var rest := Chunks(cpus[LineWidth..]);
      [cpus[..LineWidth]] + rest
  }

  /** The chunks laid end to end. */
  function Flatten(chunks: seq<seq<nat>>): seq<nat> {
    if chunks == [] then [] else chunks[0] + Flatten(chunks[1..])
  }

  /** The chunks hold every CPU once, in the original order. */
  lemma {:induction false} ChunksFlatten(cpus: seq<nat>)
    ensures Flatten(Chunks(cpus)) == cpus
    decreases |cpus|
  {
    if cpus != [] && |cpus| > LineWidth {
      ChunksFlatten(cpus[LineWidth..]);
      var chunks := Chunks(cpus);
      assert chunks[1..] == Chunks(cpus[LineWidth..]);
      assert cpus[..LineWidth] + cpus[LineWidth..] == cpus;
    } else if cpus != [] {
      assert Chunks(cpus)[1..] == [];
    }
  }

  /** `map(str, chunk)`. */
  function Decimals(chunk: seq<nat>): (words: seq<string>)
    ensures |words| == |chunk|
    ensures forall j :: 0 <= j < |words| ==> IsDigits(words[j])
  {
    seq(|chunk|, j requires 0 <= j < |chunk| => DecimalString(chunk[j]))
  }

  /** `' '.join(map(str, chunk))` for a non-empty chunk. */
  function Line(chunk: seq<nat>): string
    requires chunk != []
  {
    Join(Decimals(chunk), ' ')
  }

  /** `_format_cpu_lines`: one space-separated line per chunk, nothing for no CPUs. */
  function FormatCpuLines(cpus: seq<nat>): (lines: seq<string>)
    ensures cpus == [] ==> lines == []
  {
    var chunks := Chunks(cpus);
    seq(|chunks|, i requires 0 <= i < |chunks| => Line(chunks[i]))
  }

  /** A line splits on spaces back into its numbers, and each word reads back as its CPU. */
  lemma LineWords(chunk: seq<nat>)
    requires chunk != []
    ensures Split(Line(chunk), ' ') == Decimals(chunk)
    ensures forall j :: 0 <= j < |chunk| ==> NatOf(Split(Line(chunk), ' ')[j]) == chunk[j]
  {
    var words := Decimals(chunk);
    forall j | 0 <= j < |words|
      ensures ' ' !in words[j]
    {
      assert !IsDigit(' ');
    }
    SplitOfJoin(words, ' ');
    forall j | 0 <= j < |chunk|
      ensures NatOf(words[j]) == chunk[j]
    {
      NatOfDecimal(chunk[j]);
    }
  }

  /**
   * The printed lines: one per 19 CPUs (rounded up), at most 19 numbers each, and reading the
   * numbers back line by line gives the CPU list in its order.
   */
  lemma FormatCpuLinesReadBack(cpus: seq<nat>)
    ensures |FormatCpuLines(cpus)| == (|cpus| + LineWidth - 1) / LineWidth
    ensures forall i :: 0 <= i < |FormatCpuLines(cpus)| ==>
      |Split(FormatCpuLines(cpus)[i], ' ')| <= LineWidth
    ensures forall i :: 0 <= i < |FormatCpuLines(cpus)| ==>
      Split(FormatCpuLines(cpus)[i], ' ') == Decimals(Chunks(cpus)[i])
    ensures Flatten(Chunks(cpus)) == cpus
  {
    var chunks := Chunks(cpus);
    forall i | 0 <= i < |chunks|
      ensures Split(FormatCpuLines(cpus)[i], ' ') == Decimals(chunks[i])
    {
      LineWords(chunks[i]);
    }
    ChunksFlatten(cpus);
  }
}
