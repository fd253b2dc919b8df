/**
 * The integer part of `calculate_speed` in q.py: per queue, the counter difference between two
 * samples of the ethtool statistics, allowing for one wrap of a 32-bit counter.
 */
module RateSampler {
  import opened Sorting

  /** `2**32`, the range of the hardware counters the correction assumes. */
  const CounterSpan: int := 0x1_0000_0000

  /** `stats.get(queue, 0)`: a queue missing from a sample counts as zero. */
  function Sampled(stats: map<nat, nat>, queue: nat): (v: nat)
    ensures queue !in stats ==> v == 0
    ensures queue in stats ==> v == stats[queue]
  {
    if queue in stats then stats[queue] else 0
  }

  /**
   * The difference of one counter, taken as a wrap of the 32-bit counter when it went down:
   * it is the plain difference, or that plus one span exactly when the plain one is negative.
   */
  function CounterDiff(prev: nat, curr: nat): (d: int)
    ensures d == curr - prev || d == curr - prev + CounterSpan
    ensures d == curr - prev + CounterSpan <==> curr < prev
  {
    var diff := curr - prev;
    if diff < 0 then curr + (CounterSpan - prev) else diff
  }

  /**
   * The loop over `sorted(all_queues)`: one difference per queue seen in either sample, each
   * with a missing sample read as zero. `order` is the key order of the returned dict, which
   * keeps insertion order: every queue once, ascending.
   */
  method CalculateDiffs(prev: map<nat, nat>, curr: map<nat, nat>) returns (diffs: map<nat, int>, order: seq<nat>)
    ensures diffs.Keys == prev.Keys + curr.Keys
    ensures forall q :: q in diffs ==> diffs[q] == CounterDiff(Sampled(prev, q), Sampled(curr, q))
    ensures Increasing(order) && forall q :: q in order <==> q in diffs
  {
    var all := prev.Keys + curr.Keys;
    var queues := SortedSet(all);
    diffs, order := DiffsOver(queues, prev, curr);
    forall q
      ensures q in diffs.Keys <==> q in all
    {
      assert q in queues <==> q in Elems(queues);
    }
  }

  /**
   * The loop body over a given queue order: each queue gets its difference. `order` is the
   * dict's key order: a queue takes its place when first inserted and keeps it when assigned
   * again, so visiting distinct queues in order fills the dict in that order.
   */
  method DiffsOver(queues: seq<nat>, prev: map<nat, nat>, curr: map<nat, nat>)
    returns (diffs: map<nat, int>, order: seq<nat>)
    ensures forall q :: q in diffs <==> q in queues
    ensures forall q :: q in diffs ==> diffs[q] == CounterDiff(Sampled(prev, q), Sampled(curr, q))
    ensures forall q :: q in order <==> q in diffs
    ensures forall j, k :: 0 <= j < k < |order| ==> order[j] != order[k]
    ensures Increasing(queues) ==> order == queues
  {
    diffs := map[];
    order := [];
    for i := 0 to |queues|
      invariant forall q :: q in diffs <==> q in queues[..i]
      invariant forall q :: q in diffs ==> diffs[q] == CounterDiff(Sampled(prev, q), Sampled(curr, q))
      invariant forall q :: q in order <==> q in diffs
      invariant forall j, k :: 0 <= j < k < |order| ==> order[j] != order[k]
      invariant Increasing(queues) ==> order == queues[..i]
    {
      var queue := queues[i];
      var prevVal := if queue in prev then prev[queue] else 0;
      var currVal := if queue in curr then curr[queue] else 0;
      var diff := currVal - prevVal;
      if diff < 0 {
        diff := currVal + (CounterSpan - prevVal);
      }
      assert diff == CounterDiff(Sampled(prev, queue), Sampled(curr, queue));
      assert queues[..i + 1] == queues[..i] + [queue];
      assert Increasing(queues) ==> queue !in queues[..i];
      if queue !in diffs {
        order := order + [queue];
      }
      diffs := diffs[queue := diff];
    }
    assert queues[..|queues|] == queues;
  }

  /**
   * For counters that really are 32-bit, the corrected difference is the difference modulo
   * 2**32: never negative, below one span, and adding it to the earlier sample modulo 2**32
   * gives back the later one.
   */
  lemma WrappedDiff(prev: nat, curr: nat)
    requires prev < CounterSpan && curr < CounterSpan
    ensures 0 <= CounterDiff(prev, curr) < CounterSpan
    ensures CounterDiff(prev, curr) == (curr - prev) % CounterSpan
    ensures (prev + CounterDiff(prev, curr)) % CounterSpan == curr
  {
    var d := CounterDiff(prev, curr);
    if curr < prev {
      assert curr - prev == d - CounterSpan;
      assert (d - CounterSpan) % CounterSpan == d % CounterSpan;
      assert prev + d == curr + CounterSpan;
    } else {
      assert prev + d == curr;
    }
  }

  /** A counter that wrapped from 4294967290 to 5 advanced by 11. */
  lemma WrapExample()
    ensures CounterDiff(4294967290, 5) == 11
  {
  }

  /**
   * A queue present in only one sample: one only in the later sample counts its whole value;
   * one only in the earlier sample with a non-zero count is read as a wrap down to zero.
   */
  lemma OneSidedQueue(prev: map<nat, nat>, curr: map<nat, nat>, queue: nat)
    requires queue in prev.Keys + curr.Keys
    ensures queue !in prev ==> CounterDiff(Sampled(prev, queue), Sampled(curr, queue)) == curr[queue]
    ensures queue !in curr && prev[queue] > 0 ==>
      CounterDiff(Sampled(prev, queue), Sampled(curr, queue)) == CounterSpan - prev[queue]
  {
  }
}
