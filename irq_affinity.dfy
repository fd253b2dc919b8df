/**
 * `IrqCpuBinder` of msix.py: how the NIC's MSI-X interrupts are classified by their
 * /proc/interrupts label, which CPUs a CPU range names, which interrupts get bound to which CPU,
 * how an affinity list reads back, and how the per-CPU counters are compared and grouped.
 * Reads of /proc and /sys are parameters here.
 */
module IrqAffinity {
  import opened Results
  import opened Text
  import opened Sorting
  import opened RangeParser

  // ---------------------------------------------------------------------------------------------
  // Label classification

  /** is_virtio_irq: the label mentions "virtio" in any letter case. */
  predicate IsVirtioIrq(desc: string) {
    Contains(Lower(desc), "virtio")
  }

  /** What get_virtio_irq_type reports for a label. */
  datatype IrqKind = InputIrq | OutputIrq | UnknownIrq

  /** get_virtio_irq_type: "input" is looked for first, then "output", both in any letter case. */
  function VirtioIrqKind(desc: string): IrqKind {
    var lower := Lower(desc);
    if Contains(lower, "input") then InputIrq
    else if Contains(lower, "output") then OutputIrq
    else UnknownIrq
  }

  /**
   * The kind by occurrence: input whenever "input" occurs anywhere (so a label with both words is
   * input), output when only "output" occurs, unknown when neither does.
   */
  lemma VirtioIrqKindOccurs(desc: string)
    ensures VirtioIrqKind(desc) == InputIrq <==> exists i :: OccursAt(Lower(desc), "input", i)
    ensures VirtioIrqKind(desc) == OutputIrq <==>
      (!exists i :: OccursAt(Lower(desc), "input", i)) && exists i :: OccursAt(Lower(desc), "output", i)
    ensures VirtioIrqKind(desc) == UnknownIrq <==>
      (!exists i :: OccursAt(Lower(desc), "input", i)) && !exists i :: OccursAt(Lower(desc), "output", i)
  {
    ContainsIff(Lower(desc), "input");
    ContainsIff(Lower(desc), "output");
  }

  /** Lower-casing twice is lower-casing once. */
  lemma LowerIdempotent(s: string)
    ensures Lower(Lower(s)) == Lower(s)
  {
    forall i | 0 <= i < |s|
      ensures Lower(Lower(s))[i] == Lower(s)[i]
    {
      var c := s[i];
      if 'A' <= c <= 'Z' {
        assert Lower(s)[i] == (c as int + 32) as char;
      }
    }
  }

  /** Classification ignores letter case: a label and its lower-cased form classify alike. */
  lemma ClassificationIgnoresCase(desc: string)
    ensures IsVirtioIrq(Lower(desc)) == IsVirtioIrq(desc)
    ensures VirtioIrqKind(Lower(desc)) == VirtioIrqKind(desc)
  {
    LowerIdempotent(desc);
  }

  // ---------------------------------------------------------------------------------------------
  // validate_cpu_range

  /**
   * One item of the validator's pattern, `[0-9]+(-[0-9]+)?`: a number, or two numbers around the
   * first dash.
   */
  predicate CpuItem(p: string) {
    IsDigits(p) || ('-' in p && RangeAt(p, IndexOf(p, '-')))
  }

  /** The items of the pattern are exactly the strings with digits around some single dash, or digits alone. */
  lemma CpuItemIff(p: string)
    ensures CpuItem(p) <==> IsDigits(p) || exists i :: 0 <= i < |p| && RangeAt(p, i)
  {
    if exists i :: 0 <= i < |p| && RangeAt(p, i) {
      var i :| 0 <= i < |p| && RangeAt(p, i);
      RangeAtFirstDash(p, i);
    }
  }

  /** The pattern `^item(,item)*$` over the whole of `t`. */
  predicate CpuListSyntax(t: string) {
    forall j :: 0 <= j < |Split(t, ',')| ==> CpuItem(Split(t, ',')[j])
  }

  /** re.match of the pattern: `$` also matches just before one trailing newline. */
  predicate MatchesCpuPattern(text: string) {
    CpuListSyntax(text) || (text != [] && text[|text| - 1] == '\n' && CpuListSyntax(text[..|text| - 1]))
  }

  /**
   * The comma pieces the validator reads. With a trailing newline the last piece keeps it, and
   * int() ignores it, so the values are those of the text without the newline.
   */
  function CpuPieces(text: string): (pieces: seq<string>)
    requires MatchesCpuPattern(text)
    ensures pieces != [] && forall j :: 0 <= j < |pieces| ==> CpuItem(pieces[j])
  {
    if CpuListSyntax(text) then Split(text, ',') else Split(text[..|text| - 1], ',')
  }

  /** The CPUs one item adds to `cpu_list`, or the reversed-range error. */
  function ItemCpus(p: string): (r: Result<seq<nat>>)
    requires CpuItem(p)
    ensures r.Ok? ==> r.value != []
  {
    if '-' in p then
      var i := IndexOf(p, '-');
      var start := NatOf(p[..i]);
      var end := NatOf(p[i + 1..]);
      if start > end then Err(CpuRangeReversed(start, end)) else Ok(RangeSeq(start, end))
    else Ok([NatOf(p)])
  }

  /** `cpu_list` after the loop over the items, or the first reversed range's error. */
  function ExpandCpus(pieces: seq<string>): (r: Result<seq<nat>>)
    requires forall j :: 0 <= j < |pieces| ==> CpuItem(pieces[j])
    ensures r.Ok? && pieces != [] ==> r.value != []
  {
    if pieces == [] then Ok([])
    else
      var first :- ItemCpus(pieces[0]);
      var rest :- ExpandCpus(pieces[1..]);
      Ok(first + rest)
  }

  /** `acc` followed by the CPUs of a later result, or that result's error. */
  function Appended(acc: seq<nat>, r: Result<seq<nat>>): Result<seq<nat>> {
    if r.Ok? then Ok(acc + r.value) else r
  }

  lemma AppendedNothing(r: Result<seq<nat>>)
    ensures Appended([], r) == r
  {
    if r.Ok? {
      assert [] + r.value == r.value;
    }
  }

  lemma AppendedTwice(a: seq<nat>, b: seq<nat>, r: Result<seq<nat>>)
    ensures Appended(a, Appended(b, r)) == Appended(a + b, r)
  {
    if r.Ok? {
      assert a + (b + r.value) == (a + b) + r.value;
    }
  }

  /** The first loop of validate_cpu_range: every item's CPUs in turn, stopping at a reversed range. */
  method ExpandCpuList(pieces: seq<string>) returns (r: Result<seq<nat>>)
    requires forall j :: 0 <= j < |pieces| ==> CpuItem(pieces[j])
    ensures r == ExpandCpus(pieces)
  {
    var cpuList: seq<nat> := [];
    assert pieces[0..] == pieces;
    AppendedNothing(ExpandCpus(pieces));
    for k := 0 to |pieces|
      invariant ExpandCpus(pieces) == Appended(cpuList, ExpandCpus(pieces[k..]))
    {
      var part := pieces[k];
      assert pieces[k..][0] == part && pieces[k..][1..] == pieces[k + 1..];
      if '-' in part {
        var i := IndexOf(part, '-');
        var start := NatOf(part[..i]);
        var end := NatOf(part[i + 1..]);
        if start > end {
          return Err(CpuRangeReversed(start, end));
        }
        AppendedTwice(cpuList, RangeSeq(start, end), ExpandCpus(pieces[k + 1..]));
        cpuList := cpuList + RangeSeq(start, end);
      } else {
        AppendedTwice(cpuList, [NatOf(part)], ExpandCpus(pieces[k + 1..]));
        cpuList := cpuList + [NatOf(part)];
      }
    }
    assert pieces[|pieces|..] == [];
    assert cpuList + [] == cpuList;
    return Ok(cpuList);
  }

  /** The lowest CPU, the highest CPU, and the distinct CPUs in order: what the validator returns. */
  datatype CpuSpan = CpuSpan(first: nat, last: nat, cpus: seq<nat>)

  /**
   * validate_cpu_range with the processor count as a parameter: refuses text outside the
   * pattern, a reversed range and any CPU not below the count; otherwise returns the least and
   * greatest CPU named and the named CPUs sorted without duplicates.
   */
  method ValidateCpuRange(text: string, cpuCount: nat) returns (r: Result<CpuSpan>)
    ensures !MatchesCpuPattern(text) ==> r == Err(BadCpuRangeFormat)
    ensures MatchesCpuPattern(text) && ExpandCpus(CpuPieces(text)).Err? ==> r == Err(ExpandCpus(CpuPieces(text)).error)
    ensures r.Ok? <==> (MatchesCpuPattern(text) && ExpandCpus(CpuPieces(text)).Ok?
      && forall c :: c in ExpandCpus(CpuPieces(text)).value ==> c < cpuCount)
    ensures r.Err? && MatchesCpuPattern(text) && ExpandCpus(CpuPieces(text)).Ok? ==> r == Err(CpuBeyondSystem(cpuCount))
    ensures r.Ok? ==> Increasing(r.value.cpus) && Elems(r.value.cpus) == Elems(ExpandCpus(CpuPieces(text)).value)
    ensures r.Ok? ==> r.value.cpus != [] && r.value.first == r.value.cpus[0] && r.value.last == r.value.cpus[|r.value.cpus| - 1]
  {
    if !MatchesCpuPattern(text) {
      return Err(BadCpuRangeFormat);
    }
    var pieces := CpuPieces(text);
    var cpuList :- ExpandCpuList(pieces);
    var inRange := AllBelow(cpuList, cpuCount);
    if !inRange {
      return Err(CpuBeyondSystem(cpuCount));
    }
    var sorted := SortedSet(Elems(cpuList));
    ElemsEmpty(cpuList);
    ElemsEmpty(sorted);
    return Ok(CpuSpan(sorted[0], sorted[|sorted| - 1], sorted));
  }

  /** The second loop of validate_cpu_range: whether every CPU named is below the count. */
  method AllBelow(cpuList: seq<nat>, cpuCount: nat) returns (inRange: bool)
    ensures inRange <==> forall c :: c in cpuList ==> c < cpuCount
  {
    for j := 0 to |cpuList|
      invariant forall m :: 0 <= m < j ==> cpuList[m] < cpuCount
    {
      if cpuList[j] >= cpuCount {
        assert cpuList[j] in cpuList;
        return false;
      }
    }
    return true;
  }

  /** A reversed range is the only way the expansion fails, and the error carries its two ends. */
  lemma {:induction false} ExpandCpusError(pieces: seq<string>)
    requires forall j :: 0 <= j < |pieces| ==> CpuItem(pieces[j])
    requires ExpandCpus(pieces).Err?
    ensures ExpandCpus(pieces).error.CpuRangeReversed?
    ensures ExpandCpus(pieces).error.start > ExpandCpus(pieces).error.end
  {
    if ItemCpus(pieces[0]).Ok? {
      ExpandCpusError(pieces[1..]);
    }
  }

  /** An item is its own strip, and the validator and parse_range treat it alike. */
  lemma ItemAgrees(p: string)
    requires CpuItem(p)
    ensures Strip(p) == p
    ensures ItemCpus(p).Ok? <==> TokenValues(p).Ok?
    ensures ItemCpus(p).Ok? ==> Elems(ItemCpus(p).value) == TokenValues(p).value
  {
    if '-' in p {
      var i := IndexOf(p, '-');
      assert p[0] == p[..i][0] && p[|p| - 1] == p[i + 1..][|p| - i - 2];
      assert !IsDigits(p);
    } else {
      ElemsSingleton(NatOf(p));
    }
    StripUnchanged(p);
  }

  /** Item by item, the expansion fails exactly when parse_range does, and names the same CPUs. */
  lemma {:induction false} PiecesAgree(pieces: seq<string>)
    requires forall j :: 0 <= j < |pieces| ==> CpuItem(pieces[j])
    ensures NonBlank(pieces) == pieces
    ensures ExpandCpus(pieces).Ok? <==> TokensValues(pieces).Ok?
    ensures ExpandCpus(pieces).Ok? ==> Elems(ExpandCpus(pieces).value) == TokensValues(pieces).value
  {
    if pieces != [] {
      ItemAgrees(pieces[0]);
      PiecesAgree(pieces[1..]);
      assert pieces[0] != [];
      assert NonBlank(pieces) == [pieces[0]] + NonBlank(pieces[1..]);
      assert [pieces[0]] + pieces[1..] == pieces;
      if ExpandCpus(pieces).Ok? {
        ElemsAppend(ItemCpus(pieces[0]).value, ExpandCpus(pieces[1..]).value);
      }
    }
  }

  /**
   * On text that fits the validator's pattern, validate_cpu_range and parse_range agree: one
   * accepts exactly when the other does, and the sorted distinct CPUs are the same list.
   */
  lemma ValidatorAgreesWithParseRange(text: string)
    requires CpuListSyntax(text)
    ensures ExpandCpus(CpuPieces(text)).Ok? <==> RangeList(text).Ok?
    ensures ExpandCpus(CpuPieces(text)).Ok? ==>
      SortedSet(Elems(ExpandCpus(CpuPieces(text)).value)) == RangeList(text).value
  {
    PiecesAgree(Split(text, ','));
  }

  /** The accepted CPUs are exactly those some item names: its number, or any CPU within its range. */
  lemma ExpandCpusNamed(pieces: seq<string>)
    requires forall j :: 0 <= j < |pieces| ==> CpuItem(pieces[j])
    requires ExpandCpus(pieces).Ok?
    ensures forall x :: x in ExpandCpus(pieces).value <==> NamedBySome(pieces, x)
  {
    PiecesAgree(pieces);
    TokensIdsNamed(pieces);
    assert forall x :: x in ExpandCpus(pieces).value <==> x in Elems(ExpandCpus(pieces).value);
  }

  // ---------------------------------------------------------------------------------------------
  // bind_irq_to_cpu: which interrupts are bound, and to which CPU

  /** One item of the `irq_map` dict, in the dict's order: an MSI-X interrupt and its label. */
  datatype IrqEntry = IrqEntry(irq: nat, desc: string)

  /** `driver_type.lower() == 'virtio_net'`. */
  predicate IsVirtioDriver(driver: string) {
    Lower(driver) == "virtio_net"
  }

  /** Under the virtio_net driver only interrupts of kind input are bound; under any other, all. */
  predicate Keeps(virtioDriver: bool, e: IrqEntry) {
    !virtioDriver || VirtioIrqKind(e.desc) == InputIrq
  }

  /** `valid_irqs`: the kept interrupts in map order. */
  function Bindable(entries: seq<IrqEntry>, virtioDriver: bool): seq<nat>
    decreases |entries|
  {
    if entries == [] then []
    else
      var last := entries[|entries| - 1];
      Bindable(entries[..|entries| - 1], virtioDriver) + (if Keeps(virtioDriver, last) then [last.irq] else [])
  }

  /** Which side had more than could be paired: the two warnings bind_irq_to_cpu prints. */
  datatype Surplus = Balanced | ExtraIrqs | ExtraCpus

  /** The binding plan: nothing when no interrupt qualifies, otherwise the (irq, cpu) pairs written. */
  datatype BindPlan = NoValidIrqs | Plan(pairs: seq<(nat, nat)>, surplus: Surplus)

  /**
   * The pairing: the first min(#irqs, #cpus) interrupts with the first as many CPUs, position by
   * position; the surplus on either side is dropped, never wrapped round.
   */
  function PairUp(valid: seq<nat>, cpus: seq<nat>): (plan: BindPlan)
    ensures plan.NoValidIrqs? <==> valid == []
    ensures plan.Plan? ==> |plan.pairs| <= |valid| && |plan.pairs| <= |cpus|
    ensures plan.Plan? ==> |plan.pairs| == |valid| || |plan.pairs| == |cpus|
    ensures plan.Plan? ==> forall i :: 0 <= i < |plan.pairs| ==> plan.pairs[i] == (valid[i], cpus[i])
    ensures plan.Plan? ==> (plan.surplus == ExtraIrqs <==> |valid| > |cpus|)
    ensures plan.Plan? ==> (plan.surplus == ExtraCpus <==> |cpus| > |valid|)
  {
    if valid == [] then NoValidIrqs
    else
      var n := if |valid| < |cpus| then |valid| else |cpus|;
      var surplus := if |valid| > |cpus| then ExtraIrqs else if |cpus| > |valid| then ExtraCpus else Balanced;
      Plan(seq(n, i requires 0 <= i < n => (valid[i], cpus[i])), surplus)
  }

  /**
   * bind_irq_to_cpu up to the writes: the filter loop over the map, then the pairing. The sysfs
   * write and read-back of each pair are not part of this model.
   */
  method PlanIrqBinding(entries: seq<IrqEntry>, cpus: seq<nat>, driver: string) returns (plan: BindPlan)
    ensures plan == PairUp(Bindable(entries, IsVirtioDriver(driver)), cpus)
  {
    var virtioDriver := Lower(driver) == "virtio_net";
    var valid: seq<nat> := [];
    for i := 0 to |entries|
      invariant valid == Bindable(entries[..i], virtioDriver)
    {
      assert entries[..i + 1][..i] == entries[..i];
      if virtioDriver {
        if VirtioIrqKind(entries[i].desc) == InputIrq {
          valid := valid + [entries[i].irq];
        }
      } else {
        valid := valid + [entries[i].irq];
      }
    }
    assert entries[..|entries|] == entries;
    if |valid| == 0 {
      return NoValidIrqs;
    }
    var minCount := if |valid| < |cpus| then |valid| else |cpus|;
    var targetIrqs := valid[..minCount];
    var targetCpus := cpus[..minCount];
    var surplus := Balanced;
    if |valid| > |cpus| {
      surplus := ExtraIrqs;
    } else if |cpus| > |valid| {
      surplus := ExtraCpus;
    }
    var pairs: seq<(nat, nat)> := [];
    for k := 0 to minCount
      invariant |pairs| == k && forall j :: 0 <= j < k ==> pairs[j] == (targetIrqs[j], targetCpus[j])
    {
      pairs := pairs + [(targetIrqs[k], targetCpus[k])];
    }
    return Plan(pairs, surplus);
  }

  /** Under a driver other than virtio_net every interrupt is kept, in map order. */
  lemma {:induction false} BindableAll(entries: seq<IrqEntry>)
    ensures |Bindable(entries, false)| == |entries|
    ensures forall i :: 0 <= i < |entries| ==> Bindable(entries, false)[i] == entries[i].irq
    decreases |entries|
  {
    if entries != [] {
      BindableAll(entries[..|entries| - 1]);
    }
  }

  /** Under virtio_net exactly the interrupts whose label is of kind input are kept. */
  lemma {:induction false} BindableInputs(entries: seq<IrqEntry>)
    ensures forall x :: x in Bindable(entries, true) <==>
      exists i :: 0 <= i < |entries| && entries[i].irq == x && VirtioIrqKind(entries[i].desc) == InputIrq
    decreases |entries|
  {
    if entries != [] {
      var front := entries[..|entries| - 1];
      BindableInputs(front);
      forall x
        ensures x in Bindable(entries, true) <==>
          exists i :: 0 <= i < |entries| && entries[i].irq == x && VirtioIrqKind(entries[i].desc) == InputIrq
      {
        if exists i :: 0 <= i < |entries| && entries[i].irq == x && VirtioIrqKind(entries[i].desc) == InputIrq {
          var i :| 0 <= i < |entries| && entries[i].irq == x && VirtioIrqKind(entries[i].desc) == InputIrq;
          if i < |front| {
            assert front[i] == entries[i];
          }
        }
        if x in Bindable(front, true) {
          var i :| 0 <= i < |front| && front[i].irq == x && VirtioIrqKind(front[i].desc) == InputIrq;
          assert entries[i] == front[i];
        }
      }
    }
  }

  /** With no CPUs at all the plan binds nothing, and says the interrupts were in surplus. */
  lemma PairUpWithoutCpus(valid: seq<nat>)
    requires valid != []
    ensures PairUp(valid, []) == Plan([], ExtraIrqs)
  {
  }

  // ---------------------------------------------------------------------------------------------
  // get_irq_cpus: reading an smp_affinity_list back

  /** int() of a text without '-' is never negative. */
  lemma IntOfUnsigned(t: string)
    requires '-' !in t && IntOf(t).Some?
    ensures IntOf(t).value >= 0
  {
    var u := Strip(t);
    if u != [] && u[0] == '-' {
      StripWithin(t, '-');
    }
  }

  /** int() of a dash-free text, as a CPU number. */
  function CpuOf(t: string): (r: Option<nat>)
    requires '-' !in t
    ensures r.Some? <==> IntOf(t).Some?
    ensures r.Some? ==> r.value == IntOf(t).value
  {
    match IntOf(t)
    case None => None
    case Some(v) => IntOfUnsigned(t); Some(v)
  }

  /** `range(s, e + 1)`: empty when s > e. */
  function Span(s: nat, e: nat): (r: seq<nat>)
    ensures forall x :: x in r <==> s <= x <= e
  {
    if s > e then []
    else
      var r := RangeSeq(s, e);
      assert forall x :: x in r <==> x in Elems(r);
      r
  }

  /**
   * One comma entry of the list: "s-e" adds s..e (nothing if s > e), a number adds itself, and a
   * dash that does not split into exactly two numbers, or a number int() refuses, raises.
   */
  function EntryCpus(part: string): Result<seq<nat>> {
    if '-' in part then
      var halves := Split(part, '-');
      SplitPiecesFree(part, '-');
      if |halves| != 2 then Err(BadAffinityEntry(part))
      else
        match (CpuOf(halves[0]), CpuOf(halves[1]))
        case (Some(s), Some(e)) => Ok(Span(s, e))
        case _ => Err(BadAffinityEntry(part))
    else
      match CpuOf(part)
      case Some(c) => Ok([c])
      case None => Err(BadAffinityEntry(part))
  }

  /** `cpus` after the loop: every entry's CPUs in order, or the first bad entry's error. */
  function EntriesCpus(parts: seq<string>): Result<seq<nat>> {
    if parts == [] then Ok([])
    else
      var first :- EntryCpus(parts[0]);
      var rest :- EntriesCpus(parts[1..]);
      Ok(first + rest)
  }

  /**
   * get_irq_cpus on the file's content (`None` when the file does not exist): the CPUs of every
   * entry, sorted, duplicates kept.
   */
  method GetIrqCpus(content: Option<string>) returns (r: Result<seq<nat>>)
    ensures content.None? ==> r == Ok([])
    ensures content.Some? ==> (r.Ok? <==> EntriesCpus(Split(Strip(content.value), ',')).Ok?)
    ensures content.Some? && r.Err? ==> r == EntriesCpus(Split(Strip(content.value), ','))
    ensures content.Some? && r.Ok? ==> SortedBy(r.value, Identity)
    ensures content.Some? && r.Ok? ==>
      multiset(r.value) == multiset(EntriesCpus(Split(Strip(content.value), ',')).value)
  {
    if content.None? {
      return Ok([]);
    }
    var parts := Split(Strip(content.value), ',');
    var cpus: seq<nat> := [];
    assert parts[0..] == parts;
    AppendedNothing(EntriesCpus(parts));
    for k := 0 to |parts|
      invariant EntriesCpus(parts) == Appended(cpus, EntriesCpus(parts[k..]))
    {
      var part := parts[k];
      assert parts[k..][0] == part && parts[k..][1..] == parts[k + 1..];
      var added :- EntryCpus(part);
      AppendedTwice(cpus, added, EntriesCpus(parts[k + 1..]));
      cpus := cpus + added;
    }
    assert parts[|parts|..] == [];
    assert cpus + [] == cpus;
    SortByPermutes(cpus, Identity);
    return Ok(SortBy(cpus, Identity));
  }

  /** A reversed entry such as "3-1" adds nothing, and is not an error. */
  lemma ReversedEntryEmpty(s: nat, e: nat)
    requires s > e
    ensures EntryCpus(DecimalString(s) + "-" + DecimalString(e)) == Ok([])
  {
    var part := DecimalString(s) + "-" + DecimalString(e);
    assert !IsDigit('-');
    assert '-' !in DecimalString(s) && '-' !in DecimalString(e);
    SplitAround(DecimalString(s), DecimalString(e), '-');
    assert part == DecimalString(s) + ['-'] + DecimalString(e);
    SplitWithoutSeparator(DecimalString(s), '-');
    SplitWithoutSeparator(DecimalString(e), '-');
    assert part[|DecimalString(s)|] == '-';
    IntOfDigits(DecimalString(s));
    IntOfDigits(DecimalString(e));
    NatOfDecimal(s);
    NatOfDecimal(e);
  }

  /** Overlapping entries are not merged: "0-1,1" reads back as 0, 1, 1. */
  lemma OverlapKept()
    ensures EntriesCpus(["0-1", "1"]) == Ok([0, 1, 1])
  {
    EntryExamples();
    assert ["0-1", "1"][1..] == ["1"];
    assert ["1"][1..] == [];
    assert [1] + [] == [1];
    assert EntriesCpus(["1"]) == Ok([1]);
    assert [0, 1] + [1] == [0, 1, 1];
  }

  lemma EntryExamples()
    ensures EntryCpus("0-1") == Ok([0, 1]) && EntryCpus("1") == Ok([1])
  {
    assert "0-1" == "0" + ['-'] + "1";
    SplitAround("0", "1", '-');
    SplitWithoutSeparator("0", '-');
    SplitWithoutSeparator("1", '-');
    assert Split("0-1", '-') == ["0", "1"];
    IntOfDigits("0");
    IntOfDigits("1");
    assert NatOf("0") == 0 && NatOf("1") == 1;
    assert RangeSeq(0, 1) == [0, 1];
  }

  // ---------------------------------------------------------------------------------------------
  // get_irq_map: the label of each interrupt

  /** `line.strip().startswith(f"{irq}:")`: the /proc/interrupts line of `irq`. */
  predicate IsIrqLine(line: string, irq: nat) {
    HasPrefix(Strip(line), DecimalString(irq) + ":")
  }

  /** The last word of the first line of `irq`, or "" when there is no such line. */
  function FoundDesc(lines: seq<string>, irq: nat): string {
    if lines == [] then ""
    else if IsIrqLine(lines[0], irq) then
      var parts := Words(Strip(lines[0]));
      if parts != [] then parts[|parts| - 1] else ""
    else FoundDesc(lines[1..], irq)
  }

  /** The label get_irq_map stores: the found word, or "irq-N" when nothing was found. */
  function IrqLabel(lines: seq<string>, irq: nat): string {
    var found := FoundDesc(lines, irq);
    if found != "" then found else "irq-" + DecimalString(irq)
  }

  /** The inner loop of get_irq_map: scan the lines, stop at the first line of `irq`. */
  method LookUpLabel(lines: seq<string>, irq: nat) returns (desc: string)
    ensures desc == IrqLabel(lines, irq)
  {
    for i := 0 to |lines|
      invariant FoundDesc(lines, irq) == FoundDesc(lines[i..], irq)
    {
      assert lines[i..][0] == lines[i] && lines[i..][1..] == lines[i + 1..];
      if HasPrefix(Strip(lines[i]), DecimalString(irq) + ":") {
        var found := "";
        var parts := Words(Strip(lines[i]));
        if parts != [] {
          found := parts[|parts| - 1];
        }
        return if found != "" then found else "irq-" + DecimalString(irq);
      }
    }
    assert lines[|lines|..] == [];
    return "irq-" + DecimalString(irq);
  }

  /**
   * When the k-th line is the first line of `irq`, the label is that line's last word, which is
   * never empty: the "irq-N" fallback is not taken.
   */
  lemma {:induction false} LabelFromFirstLine(lines: seq<string>, irq: nat, k: nat)
    requires k < |lines| && IsIrqLine(lines[k], irq)
    requires forall j :: 0 <= j < k ==> !IsIrqLine(lines[j], irq)
    ensures Words(Strip(lines[k])) != []
    ensures IrqLabel(lines, irq) == Words(Strip(lines[k]))[|Words(Strip(lines[k]))| - 1]
    ensures IsWord(IrqLabel(lines, irq))
  {
    var t := Strip(lines[k]);
    assert t[0] == (DecimalString(irq) + ":")[0] == DecimalString(irq)[0];
    assert !IsSpace(t[0]);
    WordsOfNonBlankStart(t);
    FoundAt(lines, irq, k);
    assert Words(t)[|Words(t)| - 1] in Words(t);
  }

  lemma {:induction false} FoundAt(lines: seq<string>, irq: nat, k: nat)
    requires k < |lines| && IsIrqLine(lines[k], irq)
    requires forall j :: 0 <= j < k ==> !IsIrqLine(lines[j], irq)
    ensures FoundDesc(lines, irq) == FoundDesc(lines[k..], irq)
  {
    if k > 0 {
      assert lines[1..][k - 1..] == lines[k..];
      FoundAt(lines[1..], irq, k - 1);
    }
  }

  /** With no line for `irq` the label is "irq-N". */
  lemma {:induction false} LabelFallback(lines: seq<string>, irq: nat)
    requires forall j :: 0 <= j < |lines| ==> !IsIrqLine(lines[j], irq)
    ensures IrqLabel(lines, irq) == "irq-" + DecimalString(irq)
    ensures FoundDesc(lines, irq) == ""
  {
    if lines != [] {
      LabelFallback(lines[1..], irq);
    }
  }

  /** `irq_list` before sorting: the names that are all digits, as numbers, in listing order. */
  function NumericNames(names: seq<string>): seq<nat>
    decreases |names|
  {
    if names == [] then []
    else
      var last := names[|names| - 1];
      NumericNames(names[..|names| - 1]) + (if IsDigits(last) then [NatOf(last)] else [])
  }

  /** The numbers listed are exactly the values of the all-digit names. */
  lemma {:induction false} NumericNamesMembers(names: seq<string>)
    ensures forall x :: x in NumericNames(names) <==>
      exists j :: 0 <= j < |names| && IsDigits(names[j]) && NatOf(names[j]) == x
    decreases |names|
  {
    if names != [] {
      var front := names[..|names| - 1];
      NumericNamesMembers(front);
      forall x | exists j :: 0 <= j < |names| && IsDigits(names[j]) && NatOf(names[j]) == x
        ensures x in NumericNames(names)
      {
        var j :| 0 <= j < |names| && IsDigits(names[j]) && NatOf(names[j]) == x;
        if j < |front| {
          assert front[j] == names[j];
        }
      }
      forall x | x in NumericNames(front)
        ensures exists j :: 0 <= j < |names| && IsDigits(names[j]) && NatOf(names[j]) == x
      {
        var j :| 0 <= j < |front| && IsDigits(front[j]) && NatOf(front[j]) == x;
        assert names[j] == front[j];
      }
    }
  }

  /** The interrupt numbers of a map, in its order. */
  function IrqsOf(entries: seq<IrqEntry>): (irqs: seq<nat>)
    ensures |irqs| == |entries| && forall i :: 0 <= i < |entries| ==> irqs[i] == entries[i].irq
  {
    seq(|entries|, i requires 0 <= i < |entries| => entries[i].irq)
  }

  /**
   * get_irq_map with the msi_irqs directory listing and the lines of /proc/interrupts as
   * parameters: the numeric names, ascending, each with its label; no numeric name is an error.
   * A sorted list with a repeated number fills the dict once per number, in ascending order.
   */
  method GetIrqMap(names: seq<string>, lines: seq<string>) returns (r: Result<seq<IrqEntry>>)
    ensures r.Err? <==> NumericNames(names) == []
    ensures r.Err? ==> r.error == NoMsiIrqs
    ensures r.Ok? ==> IrqsOf(r.value) == SortedSet(Elems(NumericNames(names)))
    ensures r.Ok? ==> forall i :: 0 <= i < |r.value| ==> r.value[i].desc == IrqLabel(lines, r.value[i].irq)
  {
    var irqList: seq<nat> := [];
    for j := 0 to |names|
      invariant irqList == NumericNames(names[..j])
    {
      assert names[..j + 1][..j] == names[..j];
      if IsDigits(names[j]) {
        irqList := irqList + [NatOf(names[j])];
      }
    }
    assert names[..|names|] == names;
    if |irqList| == 0 {
      return Err(NoMsiIrqs);
    }
    var entries := LabelIrqs(SortedSet(Elems(irqList)), lines);
    return Ok(entries);
  }

  /** The outer loop of get_irq_map: each interrupt in turn, with its label. */
  method LabelIrqs(irqs: seq<nat>, lines: seq<string>) returns (entries: seq<IrqEntry>)
    ensures IrqsOf(entries) == irqs
    ensures forall i :: 0 <= i < |entries| ==> entries[i].desc == IrqLabel(lines, entries[i].irq)
  {
    entries := [];
    for i := 0 to |irqs|
      invariant |entries| == i
      invariant forall m :: 0 <= m < i ==> entries[m] == IrqEntry(irqs[m], IrqLabel(lines, irqs[m]))
    {
      var desc := LookUpLabel(lines, irqs[i]);
      entries := entries + [IrqEntry(irqs[i], desc)];
    }
  }

  // ---------------------------------------------------------------------------------------------
  // _measure_irq_speed: per-CPU counter deltas

  /**
   * The delta of one interrupt's per-CPU counters between two snapshots: none when either is
   * missing or their lengths differ, otherwise element by element, without any wrap correction.
   */
  function CounterDelta(initial: Option<seq<int>>, final: Option<seq<int>>): (r: Option<seq<int>>)
    ensures r.None? <==> initial.None? || final.None? || |initial.value| != |final.value|
    ensures r.Some? ==> |r.value| == |initial.value|
    ensures r.Some? ==> forall i :: 0 <= i < |r.value| ==> initial.value[i] + r.value[i] == final.value[i]
  {
    if initial.None? || final.None? || |initial.value| != |final.value| then None
    else Some(seq(|initial.value|, i requires 0 <= i < |initial.value| => final.value[i] - initial.value[i]))
  }

  /** A counter that went down gives a negative delta: no wrap-around correction here. */
  lemma CounterDeltaNegative()
    ensures CounterDelta(Some([10, 7]), Some([15, 3])) == Some([5, -4])
  {
    var d := CounterDelta(Some([10, 7]), Some([15, 3])).value;
    assert |d| == 2 && d[0] == 5 && d[1] == -4;
    assert d == [5, -4];
  }

  /** The loop filling `speed_data`: one delta per interrupt of the map. */
  method MeasureDeltas(irqs: seq<nat>, initial: map<nat, Option<seq<int>>>, final: map<nat, Option<seq<int>>>)
    returns (speed: map<nat, Option<seq<int>>>)
    requires forall irq :: irq in irqs ==> irq in initial && irq in final
    ensures forall irq :: irq in speed <==> irq in irqs
    ensures forall irq :: irq in speed ==> speed[irq] == CounterDelta(initial[irq], final[irq])
  {
    speed := map[];
    for k := 0 to |irqs|
      invariant forall irq :: irq in speed <==> irq in irqs[..k]
      invariant forall irq :: irq in speed ==> speed[irq] == CounterDelta(initial[irq], final[irq])
    {
      assert irqs[..k + 1] == irqs[..k] + [irqs[k]];
      var irq := irqs[k];
      var first := initial[irq];
      var last := final[irq];
      if first.None? || last.None? || |first.value| != |last.value| {
        speed := speed[irq := None];
      } else {
        speed := speed[irq := Some(seq(|first.value|, i requires 0 <= i < |first.value| => last.value[i] - first.value[i]))];
      }
    }
    assert irqs[..|irqs|] == irqs;
  }

  // ---------------------------------------------------------------------------------------------
  // _read_bind_relation / _measure_irq_speed: grouping for display

  /** The three display groups. */
  datatype IrqGroup = InputGroup | OutputGroup | OtherGroup

  /** A virtio label goes by its kind; unknown kinds and labels without "virtio" are others. */
  function GroupOf(desc: string): IrqGroup {
    if !IsVirtioIrq(desc) then OtherGroup
    else match VirtioIrqKind(desc)
      case InputIrq => InputGroup
      case OutputIrq => OutputGroup
      case UnknownIrq => OtherGroup
  }

  /** The sort key `lambda x: x[0]`. */
  function IrqKey(e: IrqEntry): int {
    e.irq
  }

  /** The entries of group `g`, in map order: what the bucket loop appends to that list. */
  function InGroup(entries: seq<IrqEntry>, g: IrqGroup): seq<IrqEntry>
    decreases |entries|
  {
    if entries == [] then []
    else
      var last := entries[|entries| - 1];
      InGroup(entries[..|entries| - 1], g) + (if GroupOf(last.desc) == g then [last] else [])
  }

  /** The group of the last entry gains it; the other two groups are unchanged. */
  lemma InGroupLast(entries: seq<IrqEntry>, g: IrqGroup)
    requires entries != []
    ensures GroupOf(entries[|entries| - 1].desc) == g ==>
      InGroup(entries, g) == InGroup(entries[..|entries| - 1], g) + [entries[|entries| - 1]]
    ensures GroupOf(entries[|entries| - 1].desc) != g ==>
      InGroup(entries, g) == InGroup(entries[..|entries| - 1], g)
  {
  }

  /** Each group holds exactly the entries of that group. */
  lemma {:induction false} InGroupMembers(entries: seq<IrqEntry>, g: IrqGroup)
    ensures forall e :: e in InGroup(entries, g) <==> e in entries && GroupOf(e.desc) == g
    decreases |entries|
  {
    if entries != [] {
      var front := entries[..|entries| - 1];
      var last := entries[|entries| - 1];
      InGroupMembers(front, g);
      InGroupLast(entries, g);
      FrontLast(entries);
    }
  }

  /** The three groups together hold every entry exactly once. */
  lemma {:induction false} InGroupCount(entries: seq<IrqEntry>)
    ensures multiset(InGroup(entries, InputGroup)) + multiset(InGroup(entries, OutputGroup))
      + multiset(InGroup(entries, OtherGroup)) == multiset(entries)
    decreases |entries|
  {
    if entries != [] {
      var front := entries[..|entries| - 1];
      var last := entries[|entries| - 1];
      InGroupCount(front);
      InGroupCountStep(entries);
      FrontLast(entries);
    }
  }

  /** Adding one entry adds it to exactly one of the three groups. */
  lemma InGroupCountStep(entries: seq<IrqEntry>)
    requires entries != []
    ensures var front := entries[..|entries| - 1];
      multiset(InGroup(entries, InputGroup)) + multiset(InGroup(entries, OutputGroup))
        + multiset(InGroup(entries, OtherGroup))
      == multiset(InGroup(front, InputGroup)) + multiset(InGroup(front, OutputGroup))
        + multiset(InGroup(front, OtherGroup)) + multiset{entries[|entries| - 1]}
  {
    var front := entries[..|entries| - 1];
    var last := entries[|entries| - 1];
    var a, b, c := InGroup(front, InputGroup), InGroup(front, OutputGroup), InGroup(front, OtherGroup);
    InGroupLast(entries, InputGroup);
    InGroupLast(entries, OutputGroup);
    InGroupLast(entries, OtherGroup);
    match GroupOf(last.desc)
    case InputGroup =>
      assert multiset(a + [last]) == multiset(a) + multiset{last};
    case OutputGroup =>
      assert multiset(b + [last]) == multiset(b) + multiset{last};
    case OtherGroup =>
      assert multiset(c + [last]) == multiset(c) + multiset{last};
  }

  /**
   * The bucket loop and the three sorts: inputs, outputs and others, each ordered by interrupt
   * number and holding exactly the entries of its group, every entry in exactly one list.
   * Without any virtio label the source prints all entries sorted, which is the others list.
   */
  method PartitionIrqs(entries: seq<IrqEntry>) returns (inputs: seq<IrqEntry>, outputs: seq<IrqEntry>, others: seq<IrqEntry>)
    ensures SortedBy(inputs, IrqKey) && SortedBy(outputs, IrqKey) && SortedBy(others, IrqKey)
    ensures forall e :: e in inputs <==> e in entries && GroupOf(e.desc) == InputGroup
    ensures forall e :: e in outputs <==> e in entries && GroupOf(e.desc) == OutputGroup
    ensures forall e :: e in others <==> e in entries && GroupOf(e.desc) == OtherGroup
    ensures multiset(inputs) + multiset(outputs) + multiset(others) == multiset(entries)
    ensures (forall e :: e in entries ==> !IsVirtioIrq(e.desc)) ==>
      inputs == [] && outputs == [] && others == SortBy(entries, IrqKey)
  {
    var virtioInput, virtioOutput, rest := BucketIrqs(entries);
    InGroupMembers(entries, InputGroup);
    InGroupMembers(entries, OutputGroup);
    InGroupMembers(entries, OtherGroup);
    InGroupCount(entries);
    inputs := SortBy(virtioInput, IrqKey);
    outputs := SortBy(virtioOutput, IrqKey);
    others := SortBy(rest, IrqKey);
    SortedGroup(virtioInput, inputs);
    SortedGroup(virtioOutput, outputs);
    SortedGroup(rest, others);
    if forall e :: e in entries ==> !IsVirtioIrq(e.desc) {
      assert forall i :: 0 <= i < |entries| ==> entries[i] in entries;
      NoVirtioAllOthers(entries);
    }
  }

  /** The bucket loop: each entry, in map order, goes to the list of its group. */
  method BucketIrqs(entries: seq<IrqEntry>) returns (virtioInput: seq<IrqEntry>, virtioOutput: seq<IrqEntry>, rest: seq<IrqEntry>)
    ensures virtioInput == InGroup(entries, InputGroup)
    ensures virtioOutput == InGroup(entries, OutputGroup)
    ensures rest == InGroup(entries, OtherGroup)
  {
    virtioInput, virtioOutput, rest := [], [], [];
    for i := 0 to |entries|
      invariant virtioInput == InGroup(entries[..i], InputGroup)
      invariant virtioOutput == InGroup(entries[..i], OutputGroup)
      invariant rest == InGroup(entries[..i], OtherGroup)
    {
      var e := entries[i];
      assert entries[..i + 1][..i] == entries[..i] && entries[..i + 1][i] == e;
      InGroupLast(entries[..i + 1], InputGroup);
      InGroupLast(entries[..i + 1], OutputGroup);
      InGroupLast(entries[..i + 1], OtherGroup);
      if IsVirtioIrq(e.desc) {
        var kind := VirtioIrqKind(e.desc);
        if kind == InputIrq {
          virtioInput := virtioInput + [e];
        } else if kind == OutputIrq {
          virtioOutput := virtioOutput + [e];
        } else {
          rest := rest + [e];
        }
      } else {
        rest := rest + [e];
      }
    }
    assert entries[..|entries|] == entries;
  }

  /** Sorting a group keeps its members and their multiplicities. */
  lemma SortedGroup(group: seq<IrqEntry>, sorted: seq<IrqEntry>)
    requires sorted == SortBy(group, IrqKey)
    ensures multiset(sorted) == multiset(group)
    ensures forall e :: e in sorted <==> e in group
  {
    SortByPermutes(group, IrqKey);
    assert forall e :: e in sorted <==> e in multiset(sorted);
    assert forall e :: e in group <==> e in multiset(group);
  }

  /** Without any virtio label, every entry lands in others, in map order. */
  lemma {:induction false} NoVirtioAllOthers(entries: seq<IrqEntry>)
    requires forall i :: 0 <= i < |entries| ==> !IsVirtioIrq(entries[i].desc)
    ensures InGroup(entries, OtherGroup) == entries
    ensures InGroup(entries, InputGroup) == [] && InGroup(entries, OutputGroup) == []
    decreases |entries|
  {
    if entries != [] {
      var front := entries[..|entries| - 1];
      var last := entries[|entries| - 1];
      assert forall i :: 0 <= i < |front| ==> front[i] == entries[i];
      NoVirtioAllOthers(front);
      assert GroupOf(last.desc) == OtherGroup;
      InGroupLast(entries, OtherGroup);
      InGroupLast(entries, InputGroup);
      InGroupLast(entries, OutputGroup);
      FrontLast(entries);
    }
  }
}
