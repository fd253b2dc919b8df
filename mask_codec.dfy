/**
 * The kernel's CPU affinity mask text, as `NicQueueConfig.generate_mask` writes it and
 * `NicQueueConfig.mask_to_cpus` reads it (net.py): comma-separated 32-bit words in
 * hexadecimal, the rightmost word holding CPUs 0-31, the next one CPUs 32-63, and so on.
 */
module MaskCodec {
  import opened Results
  import opened Text
  import opened Sorting
  import opened Bits

  /** Comma pieces that are each exactly eight hexadecimal digits: `([0-9a-fA-F]{8},)*[0-9a-fA-F]{8}`. */
  predicate SegmentedHex(s: string) {
    forall p :: p in Split(s, ',') ==> |p| == 8 && IsHexDigits(p)
  }

  /**
   * The template check of generate_mask; `re.match` with a final `$` also accepts the
   * text followed by one newline.
   */
  predicate IsMaskTemplate(t: string) {
    || SegmentedHex(t)
    || (t != [] && t[|t| - 1] == '\n' && SegmentedHex(t[..|t| - 1]))
  }

  /** CPU `c` fits a mask of `n` words. */
  predicate Inside(c: int, n: nat) {
    0 <= c < 32 * n
  }

  /** The first CPU, in list order, that does not fit a mask of `n` words. */
  function FirstOutside(cpus: seq<int>, n: nat): (r: Option<int>)
    ensures r.Some? ==> r.value in cpus && !Inside(r.value, n)
    ensures r.None? <==> forall c :: c in cpus ==> Inside(c, n)
  {
    if cpus == [] then None
    else if !Inside(cpus[0], n) then Some(cpus[0])
    else FirstOutside(cpus[1..], n)
  }

  /** The word of CPU group `g` (CPUs 32g .. 32g+31): bit c % 32 set for each such c in `cpus`. */
  function GroupWord(cpus: seq<int>, g: nat): nat {
    if cpus == [] then 0
    else
      var w := GroupWord(cpus[..|cpus| - 1], g);
      var c := cpus[|cpus| - 1];
      if c >= 0 && c / 32 == g then WithBit(w, c % 32) else w
  }

  /** Bit b of group g's word is set exactly when CPU 32g + b is listed. */
  lemma {:induction false} GroupWordBit(cpus: seq<int>, g: nat, b: nat)
    requires b < 32
    ensures TestBit(GroupWord(cpus, g), b) <==> 32 * g + b in cpus
  {
    if cpus == [] {
      NoBitOfZero(b);
    } else {
      var init := cpus[..|cpus| - 1];
      var c := cpus[|cpus| - 1];
      GroupWordBit(init, g, b);
      assert cpus == init + [c];
      if c >= 0 && c / 32 == g {
        TestWithBit(GroupWord(init, g), c % 32, b);
      }
    }
  }

  /** Every group word fits in 32 bits. */
  lemma {:induction false} GroupWordBound(cpus: seq<int>, g: nat)
    ensures GroupWord(cpus, g) < TwoTo32
  {
    Pow2Of32();
    if cpus != [] {
      var init := cpus[..|cpus| - 1];
      var c := cpus[|cpus| - 1];
      GroupWordBound(init, g);
      if c >= 0 && c / 32 == g {
        WithBitBelow(GroupWord(init, g), 32, c % 32);
      }
    }
  }

  /** The text of each of `n` words, leftmost (highest CPUs) first: `f"{val:08x}"`. */
  function MaskSegments(cpus: seq<int>, n: nat): (segs: seq<string>)
    ensures |segs| == n
  {
    seq(n, i requires 0 <= i < n => Hex(GroupWord(cpus, n - 1 - i), 8))
  }

  /** What generate_mask returns for a CPU list and a template mask. */
  function MaskText(cpus: seq<int>, template: string): Result<string> {
    if !IsMaskTemplate(template) then Err(BadMask(template))
    else
      var n := |Split(template, ',')|;
      match FirstOutside(cpus, n)
      case Some(c) => Err(CpuBeyondMask(c, (n - 1) * 32 + 31))
      case None => Ok(Join(MaskSegments(cpus, n), ','))
  }

  /** The first CPU at position k is the first one that does not fit, if all before it fit. */
  lemma {:induction false} FirstOutsideAt(cpus: seq<int>, n: nat, k: nat)
    requires k < |cpus| && !Inside(cpus[k], n)
    requires forall j :: 0 <= j < k ==> Inside(cpus[j], n)
    ensures FirstOutside(cpus, n) == Some(cpus[k])
  {
    if k > 0 {
      FirstOutsideAt(cpus[1..], n, k - 1);
    }
  }

  /** generate_mask: the template's word count, a bit per listed CPU, template bits dropped. */
  method GenerateMask(cpus: seq<int>, template: string) returns (r: Result<string>)
    ensures r == MaskText(cpus, template)
  {
    var segs := Split(template, ',');
    if !IsMaskTemplate(template) {
      return Err(BadMask(template));
    }
    var values :- SegmentWords(cpus, |segs|);
    r := Ok(Join(HexWords(values), ','));
    assert HexWords(values) == MaskSegments(cpus, |segs|);
  }

  /** The words of `n` groups, leftmost (highest CPUs) first. */
  function GroupWords(cpus: seq<int>, n: nat): (words: seq<nat>)
    ensures |words| == n
    ensures forall i :: 0 <= i < n ==> words[i] == GroupWord(cpus, n - 1 - i)
  {
    seq(n, i requires 0 <= i < n => GroupWord(cpus, n - 1 - i))
  }

  /** The `seg_values[seg_idx] |= 1 << bit_pos` loop of generate_mask, on an array of `n` words. */
  method SegmentWords(cpus: seq<int>, n: nat) returns (r: Result<seq<nat>>)
    ensures r == match FirstOutside(cpus, n)
      case Some(c) => Err(CpuBeyondMask(c, (n - 1) * 32 + 31))
      case None => Ok(GroupWords(cpus, n))
  {
    var words := new nat[n](i => 0);
    for k := 0 to |cpus|
      invariant forall j :: 0 <= j < k ==> Inside(cpus[j], n)
      invariant forall i :: 0 <= i < n ==> words[i] == GroupWord(cpus[..k], n - 1 - i)
    {
      var c := cpus[k];
      var group := c / 32;
      var bit := c % 32;
      var index := n - 1 - group;
      if index < 0 || index >= n {
        FirstOutsideAt(cpus, n, k);
        return Err(CpuBeyondMask(c, (n - 1) * 32 + 31));
      }
      words[index] := WithBit(words[index], bit);
      forall i | 0 <= i < n
        ensures words[i] == GroupWord(cpus[..k + 1], n - 1 - i)
      {
        GroupWordStep(cpus, k, n - 1 - i);
      }
    }
    assert cpus[..|cpus|] == cpus;
    assert forall c :: c in cpus ==> Inside(c, n);
    assert words[..] == GroupWords(cpus, n);
    r := Ok(words[..]);
  }

  /** `[f"{val:08x}" for val in seg_values]`. */
  function HexWords(values: seq<nat>): (texts: seq<string>)
    ensures |texts| == |values|
    ensures forall i :: 0 <= i < |values| ==> texts[i] == Hex(values[i], 8)
  {
    seq(|values|, i requires 0 <= i < |values| => Hex(values[i], 8))
  }

  /** Adding the CPU at position k to the prefix before it sets its bit in its own group's word only. */
  lemma GroupWordStep(cpus: seq<int>, k: nat, g: nat)
    requires k < |cpus|
    ensures GroupWord(cpus[..k + 1], g)
      == if cpus[k] >= 0 && cpus[k] / 32 == g then WithBit(GroupWord(cpus[..k], g), cpus[k] % 32)
         else GroupWord(cpus[..k], g)
  {
    assert cpus[..k + 1][..k] == cpus[..k];
  }

  /** The values of the last `g` segments, rightmost first, as int(seg, 16) reads them. */
  function SegmentValues(segs: seq<string>, g: nat): (r: Result<seq<int>>)
    requires g <= |segs|
    ensures r.Ok? ==> |r.value| == g
  {
    if g == 0 then Ok([])
    else
      var init :- SegmentValues(segs, g - 1);
      var seg := segs[|segs| - g];
      match IntOfHex(seg)
      case None => Err(BadMaskSegment(seg))
      case Some(v) => Ok(init + [v])
  }

  /** The CPUs a list of group words names, group 0 first: bit b of word g is CPU 32g + b. */
  function CpuSet(values: seq<int>): set<nat> {
    set c: nat | c < 32 * |values| && SegmentBit(values[c / 32], c % 32)
  }

  /** What mask_to_cpus returns: the named CPUs in increasing order, or the first bad segment from the right. */
  function MaskCpus(mask: string): Result<seq<nat>> {
    var segs := Split(mask, ',');
    var values :- SegmentValues(segs, |segs|);
    Ok(SortedSet(CpuSet(values)))
  }

  /** The CPUs of group `g` whose bit is below `b` and set in `v`. */
  function BitsBelow(v: int, g: nat, b: nat): set<nat> {
    set x: nat | x < 32 * g + b && InGroup(v, g, x)
  }

  /** CPU `x` belongs to group `g` and its bit is set in the group's value `v`. */
  predicate InGroup(v: int, g: nat, x: nat) {
    32 * g <= x && SegmentBit(v, x - 32 * g)
  }

  /** The inner loop of mask_to_cpus: the CPUs of one segment value, in increasing order. */
  method SegmentCpus(v: int, g: nat) returns (cpus: seq<nat>)
    ensures Increasing(cpus) && Elems(cpus) == BitsBelow(v, g, 32)
    ensures forall x :: x in cpus ==> 32 * g <= x < 32 * g + 32
  {
    cpus := [];
    for b := 0 to 32
      invariant Increasing(cpus) && Elems(cpus) == BitsBelow(v, g, b)
      invariant forall x :: x in cpus ==> 32 * g <= x < 32 * g + b
    {
      if SegmentBit(v, b) {
        IncreasingAppend(cpus, [g * 32 + b]);
        ElemsConcat(cpus, [g * 32 + b]);
        cpus := cpus + [g * 32 + b];
      }
      BitsBelowStep(v, g, b);
    }
  }

  lemma BitsBelowStep(v: int, g: nat, b: nat)
    ensures BitsBelow(v, g, b + 1) == BitsBelow(v, g, b) + (if SegmentBit(v, b) then {g * 32 + b} else {})
  {
    assert InGroup(v, g, g * 32 + b) == SegmentBit(v, b);
  }

  /** A further segment value adds the CPUs of the next group. */
  lemma CpuSetAppend(values: seq<int>, v: int)
    ensures CpuSet(values + [v]) == CpuSet(values) + BitsBelow(v, |values|, 32)
  {
    var g := |values|;
    forall x: nat
      ensures x in CpuSet(values + [v]) <==> x in CpuSet(values) || x in BitsBelow(v, g, 32)
    {
      if x < 32 * g {
        assert (values + [v])[x / 32] == values[x / 32];
      } else if x < 32 * g + 32 {
        assert x / 32 == g && x % 32 == x - 32 * g;
      }
    }
  }

  /** One more segment from the right: its value is appended, or its text becomes the error. */
  lemma SegmentValuesNext(segs: seq<string>, g: nat, values: seq<int>)
    requires g < |segs| && SegmentValues(segs, g) == Ok(values)
    ensures SegmentValues(segs, g + 1) == match IntOfHex(segs[|segs| - 1 - g])
      case None => Err(BadMaskSegment(segs[|segs| - 1 - g]))
      case Some(v) => Ok(values + [v])
  {
  }

  /** Once a segment fails to parse, the whole mask fails with that segment. */
  lemma {:induction false} SegmentErrorStays(segs: seq<string>, g: nat, h: nat)
    requires g <= h <= |segs| && SegmentValues(segs, g).Err?
    ensures SegmentValues(segs, h).Err? && SegmentValues(segs, h).error == SegmentValues(segs, g).error
    decreases h - g
  {
    if g < h {
      SegmentErrorStays(segs, g, h - 1);
    }
  }

  /** mask_to_cpus: reads the segments from the right, 32 CPUs per segment, and returns them sorted. */
  method MaskToCpus(mask: string) returns (r: Result<seq<nat>>)
    ensures r == MaskCpus(mask)
  {
    var segs := Split(mask, ',');
    var cpus: seq<nat> := [];
    ghost var values: seq<int> := [];
    for g := 0 to |segs|
      invariant SegmentValues(segs, g) == Ok(values)
      invariant Increasing(cpus) && Elems(cpus) == CpuSet(values)
      invariant forall x :: x in cpus ==> x < 32 * g
    {
      var seg := segs[|segs| - 1 - g];
      var parsed := IntOfHex(seg);
      SegmentValuesNext(segs, g, values);
      if parsed.None? {
        SegmentErrorStays(segs, g + 1, |segs|);
        return Err(BadMaskSegment(seg));
      }
      var more := SegmentCpus(parsed.value, g);
      GroupAppend(cpus, more, values, parsed.value);
      cpus := cpus + more;
      values := values + [parsed.value];
    }
    SortIncreasing(cpus);
    r := Ok(SortBy(cpus, Identity));
  }

  /** The collected CPUs stay increasing and name exactly the bits of the segments read so far. */
  lemma GroupAppend(cpus: seq<nat>, more: seq<nat>, values: seq<int>, v: int)
    requires Increasing(cpus) && Elems(cpus) == CpuSet(values)
    requires forall x :: x in cpus ==> x < 32 * |values|
    requires Increasing(more) && Elems(more) == BitsBelow(v, |values|, 32)
    requires forall x :: x in more ==> 32 * |values| <= x < 32 * |values| + 32
    ensures Increasing(cpus + more) && Elems(cpus + more) == CpuSet(values + [v])
    ensures forall x :: x in cpus + more ==> x < 32 * (|values| + 1)
  {
    IncreasingAppend(cpus, more);
    ElemsConcat(cpus, more);
    CpuSetAppend(values, v);
  }

  /** `sorted()` of an increasing list of CPUs is the list, and the sorted set of its members. */
  lemma SortIncreasing(cpus: seq<nat>)
    requires Increasing(cpus)
    ensures SortBy(cpus, Identity) == cpus == SortedSet(Elems(cpus))
  {
    IncreasingSortedBy(cpus);
    SortBySorted(cpus, Identity);
    SortedSetOfIncreasing(cpus);
  }

  /** The ids among `cpus` that are non-negative: `set(S)` for a list of CPU numbers. */
  function NatsOf(cpus: seq<int>): set<nat> {
    set c: nat | c in cpus
  }

  /** An accepted request: every CPU fits, and the text is the joined segments of the template's width. */
  lemma MaskTextOk(cpus: seq<int>, template: string)
    requires MaskText(cpus, template).Ok?
    ensures |Split(template, ',')| >= 1
    ensures forall c :: c in cpus ==> Inside(c, |Split(template, ',')|)
    ensures MaskText(cpus, template).value == Join(MaskSegments(cpus, |Split(template, ',')|), ',')
  {
  }

  /** The generated text has the template's number of segments, each eight lowercase hex digits. */
  lemma MaskShape(cpus: seq<int>, template: string)
    requires MaskText(cpus, template).Ok?
    ensures |Split(MaskText(cpus, template).value, ',')| == |Split(template, ',')|
    ensures forall p :: p in Split(MaskText(cpus, template).value, ',') ==>
      |p| == 8 && forall i :: 0 <= i < 8 ==> IsLowerHexDigit(p[i])
  {
    var n := |Split(template, ',')|;
    MaskTextOk(cpus, template);
    SegmentsSplit(cpus, n);
    SegmentsShape(cpus, n);
  }

  lemma SegmentsShape(cpus: seq<int>, n: nat)
    ensures forall p :: p in MaskSegments(cpus, n) ==>
      |p| == 8 && forall i :: 0 <= i < 8 ==> IsLowerHexDigit(p[i])
  {
    var segs := MaskSegments(cpus, n);
    forall p | p in segs
      ensures |p| == 8 && forall i :: 0 <= i < 8 ==> IsLowerHexDigit(p[i])
    {
      var j :| 0 <= j < n && segs[j] == p;
      SegmentShape(cpus, n, j);
    }
  }

  /** Segment `j` of a generated mask is eight lowercase hex digits. */
  lemma SegmentShape(cpus: seq<int>, n: nat, j: nat)
    requires j < n
    ensures |MaskSegments(cpus, n)[j]| == 8
    ensures forall i :: 0 <= i < 8 ==> IsLowerHexDigit(MaskSegments(cpus, n)[j][i])
  {
    var v := GroupWord(cpus, n - 1 - j);
    assert MaskSegments(cpus, n)[j] == Hex(v, 8);
    GroupWordBound(cpus, n - 1 - j);
    Pow2Of32();
    assert 4 * 8 == 32;
    HexLength(v, 8);
  }

  /** The segments of a generated mask are what splitting its text at the commas gives back. */
  lemma SegmentsSplit(cpus: seq<int>, n: nat)
    requires n >= 1
    ensures Split(Join(MaskSegments(cpus, n), ','), ',') == MaskSegments(cpus, n)
  {
    var segs := MaskSegments(cpus, n);
    forall j | 0 <= j < n
      ensures ',' !in segs[j]
    {
      SegmentShape(cpus, n, j);
      assert forall k :: 0 <= k < 8 ==> segs[j][k] != ',';
    }
    SplitOfJoin(segs, ',');
  }

  /**
   * CPU c is bit c % 32 of segment `n - 1 - c / 32`: bit b of segment i of the generated text is
   * set exactly when CPU 32 * (n - 1 - i) + b is listed, whatever the template's own bits were.
   */
  lemma MaskPlacement(cpus: seq<int>, template: string, n: nat, i: nat, b: nat)
    requires MaskText(cpus, template).Ok? && n == |Split(template, ',')|
    requires i < |Split(MaskText(cpus, template).value, ',')| && b < 32
    ensures IntOfHex(Split(MaskText(cpus, template).value, ',')[i]).Some?
    ensures SegmentBit(IntOfHex(Split(MaskText(cpus, template).value, ',')[i]).value, b)
      <==> 32 * (n - 1 - i) + b in cpus
  {
    MaskTextOk(cpus, template);
    SegmentsSplit(cpus, n);
    SegmentPlacement(cpus, n, i, b);
  }

  lemma SegmentPlacement(cpus: seq<int>, n: nat, i: nat, b: nat)
    requires i < n && b < 32
    ensures IntOfHex(MaskSegments(cpus, n)[i]).Some?
    ensures SegmentBit(IntOfHex(MaskSegments(cpus, n)[i]).value, b) <==> 32 * (n - 1 - i) + b in cpus
  {
    SegmentValue(cpus, n, i);
    WordBit(cpus, n - 1 - i, b);
  }

  lemma SegmentValue(cpus: seq<int>, n: nat, i: nat)
    requires i < n
    ensures IntOfHex(MaskSegments(cpus, n)[i]) == Some(GroupWord(cpus, n - 1 - i) as int)
  {
    var v := GroupWord(cpus, n - 1 - i);
    assert MaskSegments(cpus, n)[i] == Hex(v, 8);
    IntOfHexOfHex(v, 8);
  }

  lemma WordBit(cpus: seq<int>, g: nat, b: nat)
    requires b < 32
    ensures SegmentBit(GroupWord(cpus, g), b) <==> 32 * g + b in cpus
  {
    GroupWordBound(cpus, g);
    SmallMod(GroupWord(cpus, g), TwoTo32);
    GroupWordBit(cpus, g, b);
  }

  lemma SmallMod(v: nat, m: nat)
    requires v < m
    ensures v % m == v
  {
  }

  /** The group words, group 0 first. */
  function LowWords(cpus: seq<int>, g: nat): (values: seq<int>)
    ensures |values| == g
  {
    seq(g, j requires 0 <= j < g => GroupWord(cpus, j) as int)
  }

  /** Reading the generated segments from the right gives back the group words. */
  lemma {:induction false} ValuesOfSegments(cpus: seq<int>, n: nat, g: nat)
    requires g <= n
    ensures SegmentValues(MaskSegments(cpus, n), g) == Ok(LowWords(cpus, g))
  {
    if g > 0 {
      ValuesOfSegments(cpus, n, g - 1);
      SegmentValue(cpus, n, n - g);
      SegmentValuesParsed(MaskSegments(cpus, n), g, LowWords(cpus, g - 1), GroupWord(cpus, g - 1));
      LowWordsStep(cpus, g);
    }
  }

  /** One more segment that parses to `v` extends the values by `v`. */
  lemma SegmentValuesParsed(segs: seq<string>, g: nat, values: seq<int>, v: int)
    requires 0 < g <= |segs| && SegmentValues(segs, g - 1) == Ok(values)
    requires IntOfHex(segs[|segs| - g]) == Some(v)
    ensures SegmentValues(segs, g) == Ok(values + [v])
  {
  }

  lemma LowWordsStep(cpus: seq<int>, g: nat)
    requires g > 0
    ensures LowWords(cpus, g - 1) + [GroupWord(cpus, g - 1) as int] == LowWords(cpus, g)
  {
    var prev := LowWords(cpus, g - 1);
    var next := prev + [GroupWord(cpus, g - 1) as int];
    forall j | 0 <= j < g
      ensures next[j] == LowWords(cpus, g)[j]
    {
      if j < g - 1 {
        assert next[j] == prev[j];
      }
    }
  }

  /** The CPUs the group words name are exactly the listed CPUs, when all of them fit. */
  lemma CpuSetOfWords(cpus: seq<int>, n: nat)
    requires forall c :: c in cpus ==> Inside(c, n)
    ensures CpuSet(LowWords(cpus, n)) == NatsOf(cpus)
  {
    Pow2Of32();
    var values := LowWords(cpus, n);
    forall x: nat
      ensures x in CpuSet(values) <==> x in cpus
    {
      if x < 32 * n {
        var g, b := x / 32, x % 32;
        GroupWordBound(cpus, g);
        GroupWordBit(cpus, g, b);
        SmallMod(GroupWord(cpus, g), TwoTo32);
        assert 32 * g + b == x;
      }
    }
  }

  /** mask_to_cpus(generate_mask(S, M)) == sorted(set(S)). */
  lemma MaskRoundTrip(cpus: seq<int>, template: string)
    requires MaskText(cpus, template).Ok?
    ensures MaskCpus(MaskText(cpus, template).value) == Ok(SortedSet(NatsOf(cpus)))
  {
    var n := |Split(template, ',')|;
    SegmentsSplit(cpus, n);
    ValuesOfSegments(cpus, n, n);
    CpuSetOfWords(cpus, n);
  }

  /** generate_mask fails exactly on a malformed template or a CPU outside the template's span. */
  lemma MaskTextFails(cpus: seq<int>, template: string)
    ensures MaskText(cpus, template).Err? <==>
      !IsMaskTemplate(template) || exists c :: c in cpus && !Inside(c, |Split(template, ',')|)
  {
  }
}
