/**
 * The queue/CPU mapping grammar of net.py: round-robin assignment of CPUs to queues
 * (`assign_cpus_to_queues`), the clause scanner and map builder of `parse_queue_cpu_map`,
 * the flow-count map of `parse_queue_flow_map`, the queue bound and key-set checks of
 * `config_xps`/`config_rps`, and the line chunking of `_format_cpu_lines`.
 */
module QueueMapping {
  import opened Results
  import opened Text
  import opened Sorting
  import opened RangeParser

  // ---------------------------------------------------------------------------------------------
  // assign_cpus_to_queues

  /**
   * The dict the round-robin loop has built once it has paired every queue of `queues`:
   * queue `queues[i]` gets `[cpus[i % len(cpus)]]`, a later repeat of a queue overwriting.
   */
  function RoundRobin(queues: seq<nat>, cpus: seq<nat>): map<nat, seq<nat>>
    requires cpus != []
  {
    if queues == [] then map[]
    else
      var k := |queues| - 1;
      RoundRobin(queues[..k], cpus)[queues[k] := [cpus[k % |cpus|]]]
  }

  /** The keys are exactly the queues. */
  lemma {:induction false} RoundRobinKeys(queues: seq<nat>, cpus: seq<nat>)
    requires cpus != []
    ensures RoundRobin(queues, cpus).Keys == Elems(queues)
  {
    if queues != [] {
      var k := |queues| - 1;
      RoundRobinKeys(queues[..k], cpus);
      assert queues == queues[..k] + [queues[k]];
      ElemsConcat(queues[..k], [queues[k]]);
    }
  }

  /** The last occurrence of a queue decides its CPU: `cpus[i % len(cpus)]`. */
  lemma {:induction false} RoundRobinValue(queues: seq<nat>, cpus: seq<nat>, i: nat)
    requires cpus != [] && i < |queues| && queues[i] !in queues[i + 1..]
    ensures queues[i] in RoundRobin(queues, cpus)
    ensures RoundRobin(queues, cpus)[queues[i]] == [cpus[i % |cpus|]]
  {
    var k := |queues| - 1;
    if i < k {
      assert queues[k] in queues[i + 1..];
      assert queues[..k][i + 1..] == queues[i + 1..k];
      assert queues[i + 1..] == queues[i + 1..k] + [queues[k]];
      RoundRobinValue(queues[..k], cpus, i);
    }
  }

  /** {0: [10], 1: [20], 2: [10]} for queues [0, 1, 2] over CPUs [10, 20]. */
  lemma RoundRobinExample()
    ensures RoundRobin([0, 1, 2], [10, 20]) == map[0 := [10], 1 := [20], 2 := [10]]
  {
    assert [0, 1, 2][..2] == [0, 1];
    assert [0, 1][..1] == [0];
    assert [0][..0] == [];
  }

  /** assign_cpus_to_queues: an error for an empty CPU list, otherwise the round-robin dict. */
  method AssignCpusToQueues(queues: seq<nat>, cpus: seq<nat>) returns (r: Result<map<nat, seq<nat>>>)
    ensures cpus == [] ==> r == Err(EmptyCpuRange)
    ensures cpus != [] ==> r == Ok(RoundRobin(queues, cpus))
  {
    if |cpus| == 0 {
      return Err(EmptyCpuRange);
    }
    var paired: map<nat, seq<nat>> := map[];
    for i := 0 to |queues|
      invariant paired == RoundRobin(queues[..i], cpus)
    {
      assert queues[..i + 1][..i] == queues[..i];
      paired := paired[queues[i] := [cpus[i % |cpus|]]];
    }
    assert queues[..|queues|] == queues;
    return Ok(paired);
  }

  // ---------------------------------------------------------------------------------------------
  // The clause scanner: re.finditer(r'([^:]+?)(:{1,2})([^,]+(?:,[^,]+)*)', map_str)

  /** One match: group(1) the queue text, group(2) ":" or "::", group(3) the CPU text. */
  datatype Clause = Clause(queuePart: string, double: bool, cpuPart: string)

  /** match.group(0). */
  function ClauseText(c: Clause): string {
    c.queuePart + (if c.double then "::" else ":") + c.cpuPart
  }

  /** A match and the index just past it. */
  datatype Match = Match(clause: Clause, end: nat)

  /** The first ':' at or after `p`. */
  function ColonFrom(s: string, p: nat): (r: Option<nat>)
    ensures r.Some? ==> p <= r.value < |s| && s[r.value] == ':'
    ensures r.Some? ==> forall k :: p <= k < r.value ==> s[k] != ':'
    ensures r.None? ==> forall k :: p <= k < |s| ==> s[k] != ':'
    decreases |s| - p
  {
    if p >= |s| then None else if s[p] == ':' then Some(p) else ColonFrom(s, p + 1)
  }

  /** The end of the run of non-commas starting at `q`. */
  function RunEnd(s: string, q: nat): (r: nat)
    requires q <= |s|
    ensures q <= r <= |s| && (r < |s| ==> s[r] == ',')
    ensures forall k :: q <= k < r ==> s[k] != ','
    decreases |s| - q
  {
    if q == |s| || s[q] == ',' then q else RunEnd(s, q + 1)
  }

  /**
   * The end of `[^,]+(?:,[^,]+)*` matched greedily at `q`: runs of non-commas joined by single
   * commas, stopping before a comma that ends the text or is followed by another comma.
   */
  function CpuEnd(s: string, q: nat): (r: nat)
    requires q < |s| && s[q] != ','
    ensures q < r <= |s|
    decreases |s| - q
  {
    var e := RunEnd(s, q + 1);
    if e + 1 < |s| && s[e + 1] != ',' then CpuEnd(s, e + 1) else e
  }

  /**
   * The match that starts exactly at `p`, if any. The lazy queue group can only end at the
   * first colon; "::" is tried before ":", and ":" is the fallback when nothing may follow "::".
   */
  function MatchAt(s: string, p: nat): (r: Option<Match>)
    ensures r.Some? ==> p < r.value.end <= |s|
  {
    match ColonFrom(s, p)
    case None => None
    case Some(c) =>
      if c == p then None
      else if c + 2 < |s| && s[c + 1] == ':' && s[c + 2] != ',' then
        var e := CpuEnd(s, c + 2);
        Some(Match(Clause(s[p..c], true, s[c + 2..e]), e))
      else if c + 1 < |s| && s[c + 1] != ',' then
        var e := CpuEnd(s, c + 1);
        Some(Match(Clause(s[p..c], false, s[c + 1..e]), e))
      else None
  }

  /** re.finditer: the matches from `p` on, moving one character on where no match starts. */
  function Clauses(s: string, p: nat): seq<Clause>
    decreases |s| - p
  {
    if p >= |s| then []
    else
      match MatchAt(s, p)
      case None => Clauses(s, p + 1)
      case Some(m) => [m.clause] + Clauses(s, m.end)
  }

  /** What a match holds: the text it spans, a non-empty colon-free queue text, a non-empty CPU text. */
  lemma MatchParts(s: string, p: nat)
    requires MatchAt(s, p).Some?
    ensures var m := MatchAt(s, p).value;
      s[p..m.end] == ClauseText(m.clause) && m.clause.queuePart != [] && ':' !in m.clause.queuePart
      && m.clause.cpuPart != []
  {
    var m := MatchAt(s, p).value;
    var c := ColonFrom(s, p).value;
    var sep := if m.clause.double then "::" else ":";
    assert s[p..m.end] == s[p..c] + sep + s[c + |sep|..m.end];
  }

  /** A text without a colon holds no match, so finditer yields nothing. */
  lemma {:induction false} ClausesWithoutColon(s: string, p: nat)
    requires forall k :: p <= k < |s| ==> s[k] != ':'
    ensures Clauses(s, p) == []
    decreases |s| - p
  {
    if p < |s| {
      assert MatchAt(s, p).None?;
      ClausesWithoutColon(s, p + 1);
    }
  }

  /** The shape group(3) consumes whole: runs of non-commas joined by single commas. */
  predicate IsCpuRun(c: string) {
    c != [] && c[0] != ',' && c[|c| - 1] != ','
    && forall k :: 0 <= k < |c| - 1 && c[k] == ',' ==> c[k + 1] != ','
  }

  /** group(3) takes all of a trailing CPU run. */
  lemma {:induction false} CpuEndAll(s: string, q: nat)
    requires q < |s| && IsCpuRun(s[q..])
    ensures CpuEnd(s, q) == |s|
    decreases |s| - q
  {
    var e := RunEnd(s, q + 1);
    if e < |s| {
      assert s[q..][|s| - 1 - q] == s[|s| - 1];
      assert e < |s| - 1;
      assert s[q..][e - q] == ',';
      assert s[e + 1] == s[q..][e - q + 1];
      var t := s[e + 1..];
      assert forall k :: 0 <= k < |t| ==> t[k] == s[q..][e + 1 - q + k];
      CpuEndAll(s, e + 1);
    }
  }

  /** The first colon of `q + ":" + ...` is the one after `q` when `q` has none. */
  lemma ColonAfter(s: string, q: string)
    requires |q| < |s| && s[..|q|] == q && ':' !in q && s[|q|] == ':'
    ensures ColonFrom(s, 0) == Some(|q|)
  {
    assert forall k :: 0 <= k < |q| ==> s[k] == q[k];
  }

  /** A lone well-formed clause is scanned as exactly that clause. */
  lemma OneClause(q: string, double: bool, c: string)
    requires q != [] && ':' !in q && IsCpuRun(c) && (!double ==> c[0] != ':')
    ensures Clauses(ClauseText(Clause(q, double, c)), 0) == [Clause(q, double, c)]
  {
    var s := ClauseText(Clause(q, double, c));
    OneClauseMatch(q, double, c);
    assert Clauses(s, |s|) == [];
  }

  /** The match at the start of a lone well-formed clause spans all of it. */
  lemma OneClauseMatch(q: string, double: bool, c: string)
    requires q != [] && ':' !in q && IsCpuRun(c) && (!double ==> c[0] != ':')
    ensures MatchAt(ClauseText(Clause(q, double, c)), 0) == Some(Match(Clause(q, double, c), |ClauseText(Clause(q, double, c))|))
  {
    var s := ClauseText(Clause(q, double, c));
    var start := if double then |q| + 2 else |q| + 1;
    assert s[..|q|] == q && s[|q|] == ':';
    ColonAfter(s, q);
    assert s[start..] == c;
    CpuEndAll(s, start);
    if double {
      DoubleMatch(s, q, c);
    } else {
      SingleMatch(s, q, c);
    }
  }

  /** The "::" case of a lone clause. */
  lemma DoubleMatch(s: string, q: string, c: string)
    requires q != [] && c != [] && c[0] != ',' && s == q + "::" + c
    requires ColonFrom(s, 0) == Some(|q|) && CpuEnd(s, |q| + 2) == |s|
    ensures MatchAt(s, 0) == Some(Match(Clause(q, true, c), |s|))
  {
    var n := |q|;
    assert s[n + 1] == ':' && s[n + 2] == c[0];
    assert s[0..n] == q;
    assert s[n + 2..|s|] == c;
  }

  /** The ":" case of a lone clause whose CPU text does not start with a colon. */
  lemma SingleMatch(s: string, q: string, c: string)
    requires q != [] && c != [] && c[0] != ',' && c[0] != ':' && s == q + ":" + c
    requires ColonFrom(s, 0) == Some(|q|) && CpuEnd(s, |q| + 1) == |s|
    ensures MatchAt(s, 0) == Some(Match(Clause(q, false, c), |s|))
  {
    var n := |q|;
    assert s[n + 1] == c[0];
    assert s[0..n] == q;
    assert s[n + 1..|s|] == c;
  }

  // ---------------------------------------------------------------------------------------------
  // parse_queue_cpu_map

  /** The first of `queues` that already has an entry: the queue the `if q in ...` check rejects. */
  function FirstTaken<V>(m: map<nat, V>, queues: seq<nat>): (r: Option<nat>)
    ensures r.Some? ==> r.value in queues && r.value in m
    ensures r.None? <==> forall q :: q in queues ==> q !in m
  {
    if queues == [] then None
    else if queues[0] in m then Some(queues[0])
    else
      var r := FirstTaken(m, queues[1..]);
      assert forall q :: q in queues ==> q == queues[0] || q in queues[1..];
      r
  }

  /** `m` extended by `sub`'s entry for each of `queues`. */
  function Extend<V>(m: map<nat, V>, queues: seq<nat>, sub: map<nat, V>): map<nat, V>
    requires forall q :: q in queues ==> q in sub
  {
    m + map q | q in queues :: sub[q]
  }

  /**
   * The duplicate-checked loop `for q in queues: if q in m: raise ...; m[q] = sub[q]`, for
   * distinct queues: the first queue already present, or the extended map.
   */
  method ClaimQueues<V>(m: map<nat, V>, queues: seq<nat>, sub: map<nat, V>)
    returns (taken: Option<nat>, claimed: map<nat, V>)
    requires Increasing(queues) && forall q :: q in queues ==> q in sub
    ensures taken == FirstTaken(m, queues)
    ensures taken.None? ==> claimed == Extend(m, queues, sub)
  {
    claimed := m;
    for i := 0 to |queues|
      invariant FirstTaken(m, queues) == FirstTaken(m, queues[i..])
      invariant claimed == Extend(m, queues[..i], sub)
    {
      var q := queues[i];
      ClaimStep(m, queues, i, sub);
      if q in claimed {
        return Some(q), claimed;
      }
      claimed := claimed[q := sub[q]];
    }
    assert queues[..|queues|] == queues;
    assert queues[|queues|..] == [];
    taken := None;
  }

  /**
   * One loop step of the claim: the next queue is already in the map being built exactly when
   * it was in the starting map, in which case it is the first taken one; otherwise the search
   * moves on and the map gains its entry.
   */
  lemma ClaimStep<V>(m: map<nat, V>, queues: seq<nat>, i: nat, sub: map<nat, V>)
    requires Increasing(queues) && forall q :: q in queues ==> q in sub
    requires i < |queues|
    ensures queues[i] in Extend(m, queues[..i], sub) <==> queues[i] in m
    ensures queues[i] in m ==> FirstTaken(m, queues[i..]) == Some(queues[i])
    ensures queues[i] !in m ==> FirstTaken(m, queues[i..]) == FirstTaken(m, queues[i + 1..])
    ensures Extend(m, queues[..i + 1], sub) == Extend(m, queues[..i], sub)[queues[i] := sub[queues[i]]]
  {
    var q := queues[i];
    assert queues[i..][0] == q && queues[i..][1..] == queues[i + 1..];
    IncreasingFresh(queues, i);
    ExtendHas(m, queues[..i], sub, q);
    ExtendStep(m, queues, i, sub);
  }

  /** An element of an increasing sequence does not occur before its own index. */
  lemma IncreasingFresh(xs: seq<nat>, i: nat)
    requires Increasing(xs) && i < |xs|
    ensures xs[i] !in xs[..i]
  {
    assert forall j :: 0 <= j < i ==> xs[..i][j] < xs[i];
  }

  /** One more loop step: the prefix through `queues[i]` adds that queue's entry. */
  lemma ExtendStep<V>(m: map<nat, V>, queues: seq<nat>, i: nat, sub: map<nat, V>)
    requires forall x :: x in queues ==> x in sub
    requires i < |queues|
    ensures forall x :: x in queues[..i] ==> x in sub
    ensures Extend(m, queues[..i + 1], sub) == Extend(m, queues[..i], sub)[queues[i] := sub[queues[i]]]
  {
    var q := queues[i];
    assert queues[..i + 1] == queues[..i] + [q];
    var a := Extend(m, queues[..i + 1], sub);
    var b := Extend(m, queues[..i], sub)[q := sub[q]];
    assert forall x :: x in queues[..i + 1] <==> x in queues[..i] || x == q;
    assert a.Keys == b.Keys;
    forall x | x in a
      ensures a[x] == b[x]
    {
    }
  }

  lemma ExtendHas<V>(m: map<nat, V>, queues: seq<nat>, sub: map<nat, V>, x: nat)
    requires forall q :: q in queues ==> q in sub
    ensures x in Extend(m, queues, sub) <==> x in m || x in queues
  {
  }

  /** Every queue given the same CPU list, as the "::" branch does. */
  function Broadcast<V>(queues: seq<nat>, v: V): (sub: map<nat, V>)
    ensures forall q :: q in sub <==> q in queues
    ensures forall q :: q in sub ==> sub[q] == v
  {
    map q | q in queues :: v
  }

  /** The duplicate-checked insertion of `sub`'s entries for `queues`. */
  function Claim(m: map<nat, seq<nat>>, queues: seq<nat>, sub: map<nat, seq<nat>>): Result<map<nat, seq<nat>>>
    requires forall q :: q in queues ==> q in sub
  {
    match FirstTaken(m, queues)
    case Some(q) => Err(DuplicateQueue(q))
    case None => Ok(Extend(m, queues, sub))
  }

  /** One match applied to the dict built so far: the body of the `for match in matches` loop. */
  function ApplyClause(m: map<nat, seq<nat>>, c: Clause): Result<map<nat, seq<nat>>> {
    var queuePart := Strip(c.queuePart);
    var cpuPart := Strip(c.cpuPart);
    if queuePart == [] || cpuPart == [] then Err(BadMapping(ClauseText(c)))
    else
      var queues :- RangeList(queuePart);
      var cpus :- RangeList(cpuPart);
      if c.double then Claim(m, queues, Broadcast(queues, cpus))
      else if |queues| == 1 then Ok(m[queues[0] := cpus])
      else if cpus == [] then Err(EmptyCpuRange)
      else
        RoundRobinKeys(queues, cpus);
        Claim(m, queues, RoundRobin(queues, cpus))
  }

  /** The matches applied in order, stopping at the first error. */
  function ApplyClauses(m: map<nat, seq<nat>>, cs: seq<Clause>): Result<map<nat, seq<nat>>>
    decreases |cs|
  {
    if cs == [] then Ok(m)
    else
      var next :- ApplyClause(m, cs[0]);
      ApplyClauses(next, cs[1..])
  }

  /** What parse_queue_cpu_map returns for `s`. */
  function QueueCpuMap(s: string): Result<map<nat, seq<nat>>> {
    var m :- ApplyClauses(map[], Clauses(s, 0));
    if m == map[] then Err(NoMapping) else Ok(m)
  }

  /** parse_queue_cpu_map: the loop over the scanner's matches. */
  method ParseQueueCpuMap(s: string) returns (r: Result<map<nat, seq<nat>>>)
    ensures r == QueueCpuMap(s)
  {
    var clauses := Clauses(s, 0);
    var built: map<nat, seq<nat>> := map[];
    for k := 0 to |clauses|
      invariant ApplyClauses(map[], clauses) == ApplyClauses(built, clauses[k..])
    {
      var c := clauses[k];
      assert clauses[k..][0] == c && clauses[k..][1..] == clauses[k + 1..];
      var queuePart := Strip(c.queuePart);
      var cpuPart := Strip(c.cpuPart);
      if queuePart == [] || cpuPart == [] {
        return Err(BadMapping(ClauseText(c)));
      }
      var queues :- ParseRange(queuePart);
      var cpus :- ParseRange(cpuPart);
      if c.double {
        var taken, claimed := ClaimQueues(built, queues, Broadcast(queues, cpus));
        if taken.Some? {
          return Err(DuplicateQueue(taken.value));
        }
        built := claimed;
      } else if |queues| == 1 {
        built := built[queues[0] := cpus];
      } else {
        var sub :- AssignCpusToQueues(queues, cpus);
        RoundRobinKeys(queues, cpus);
        var taken, claimed := ClaimQueues(built, queues, sub);
        if taken.Some? {
          return Err(DuplicateQueue(taken.value));
        }
        built := claimed;
      }
    }
    assert clauses[|clauses|..] == [];
    if built == map[] {
      return Err(NoMapping);
    }
    return Ok(built);
  }

  /**
   * Assign once: the insertion fails exactly when some queue already has an entry, naming one;
   * otherwise every queue gets its entry and every earlier entry stays as it was.
   */
  lemma ClaimFacts(m: map<nat, seq<nat>>, queues: seq<nat>, sub: map<nat, seq<nat>>)
    requires forall q :: q in queues ==> q in sub
    ensures Claim(m, queues, sub).Ok? <==> forall q :: q in queues ==> q !in m
    ensures Claim(m, queues, sub).Err? ==> exists q :: q in queues && q in m && Claim(m, queues, sub) == Err(DuplicateQueue(q))
    ensures Claim(m, queues, sub).Ok? ==> forall q :: q in Claim(m, queues, sub).value <==> q in m || q in queues
    ensures Claim(m, queues, sub).Ok? ==> forall q :: q in queues ==> Claim(m, queues, sub).value[q] == sub[q]
    ensures Claim(m, queues, sub).Ok? ==> forall q :: q in m ==> Claim(m, queues, sub).value[q] == m[q]
  {
    var t := FirstTaken(m, queues);
    if t.Some? {
      assert Claim(m, queues, sub) == Err(DuplicateQueue(t.value));
    }
  }

  /**
   * With a single queue, ":" overwrites that queue's entry unchecked, while "::" refuses a queue
   * that already has one.
   */
  lemma SingleQueueClause(m: map<nat, seq<nat>>, queuePart: string, cpuPart: string, q: nat, cpus: seq<nat>)
    requires Strip(queuePart) != [] && Strip(cpuPart) != []
    requires RangeList(Strip(queuePart)) == Ok([q]) && RangeList(Strip(cpuPart)) == Ok(cpus)
    ensures ApplyClause(m, Clause(queuePart, false, cpuPart)) == Ok(m[q := cpus])
    ensures ApplyClause(m, Clause(queuePart, true, cpuPart))
      == if q in m then Err(DuplicateQueue(q)) else Ok(m[q := cpus])
  {
    var sub := Broadcast([q], cpus);
    assert ApplyClause(m, Clause(queuePart, true, cpuPart)) == Claim(m, [q], sub);
    if q !in m {
      ExtendSingle(m, q, sub);
    } else {
      assert FirstTaken(m, [q]) == Some(q);
    }
  }

  /**
   * ":" with several queues pairs them round-robin: an error without CPUs; otherwise, when none
   * of them is taken yet, `queues[i]` gets `[cpus[i % len(cpus)]]` and earlier entries stay
   * (RoundRobinTaken covers a clause with a taken queue).
   */
  lemma RoundRobinClause(m: map<nat, seq<nat>>, queuePart: string, cpuPart: string, queues: seq<nat>, cpus: seq<nat>)
    requires Strip(queuePart) != [] && Strip(cpuPart) != []
    requires RangeList(Strip(queuePart)) == Ok(queues) && RangeList(Strip(cpuPart)) == Ok(cpus)
    requires |queues| != 1
    ensures cpus == [] ==> ApplyClause(m, Clause(queuePart, false, cpuPart)) == Err(EmptyCpuRange)
    ensures cpus != [] && (forall q :: q in queues ==> q !in m) ==>
      var r := ApplyClause(m, Clause(queuePart, false, cpuPart));
      r.Ok? && (forall i :: 0 <= i < |queues| ==> r.value[queues[i]] == [cpus[i % |cpus|]])
      && forall q :: q in m ==> r.value[q] == m[q]
  {
    if cpus != [] && forall q :: q in queues ==> q !in m {
      RoundRobinKeys(queues, cpus);
      var sub := RoundRobin(queues, cpus);
      assert ApplyClause(m, Clause(queuePart, false, cpuPart)) == Claim(m, queues, sub);
      ClaimFacts(m, queues, sub);
      RangeListIncreasing(Strip(queuePart));
      var r := Claim(m, queues, sub).value;
      forall i | 0 <= i < |queues|
        ensures queues[i] in r && r[queues[i]] == [cpus[i % |cpus|]]
      {
        IncreasingNotLater(queues, i);
        RoundRobinValue(queues, cpus, i);
        assert queues[i] in queues;
      }
    }
  }

  /**
   * ":" with several queues and some CPUs refuses the whole clause when one of its queues is
   * already taken, naming a taken queue of the clause.
   */
  lemma RoundRobinTaken(m: map<nat, seq<nat>>, queuePart: string, cpuPart: string, queues: seq<nat>, cpus: seq<nat>, q: nat)
    requires Strip(queuePart) != [] && Strip(cpuPart) != []
    requires RangeList(Strip(queuePart)) == Ok(queues) && RangeList(Strip(cpuPart)) == Ok(cpus)
    requires |queues| != 1 && cpus != [] && q in queues && q in m
    ensures var r := ApplyClause(m, Clause(queuePart, false, cpuPart));
      r.Err? && r.error.DuplicateQueue? && r.error.queue in queues && r.error.queue in m
  {
    RoundRobinKeys(queues, cpus);
    var sub := RoundRobin(queues, cpus);
    assert ApplyClause(m, Clause(queuePart, false, cpuPart)) == Claim(m, queues, sub);
    ClaimFacts(m, queues, sub);
  }

  /** parse_range's list is strictly increasing. */
  lemma RangeListIncreasing(s: string)
    requires RangeList(s).Ok?
    ensures Increasing(RangeList(s).value)
  {
  }

  /** An element of an increasing sequence does not occur after its own index. */
  lemma IncreasingNotLater(xs: seq<nat>, i: nat)
    requires Increasing(xs) && i < |xs|
    ensures xs[i] !in xs[i + 1..]
  {
    assert forall j :: i + 1 <= j < |xs| ==> xs[i] < xs[j];
  }

  /** Without a colon nothing matches, so the result is the "no mapping" error (the `if not matches` check never fires). */
  lemma NoColonNoMapping(s: string)
    requires ':' !in s
    ensures QueueCpuMap(s) == Err(NoMapping)
  {
    ClausesWithoutColon(s, 0);
  }

  lemma ExtendSingle<V>(m: map<nat, V>, q: nat, sub: map<nat, V>)
    requires q in sub
    ensures Extend(m, [q], sub) == m[q := sub[q]]
  {
    var a := Extend(m, [q], sub);
    assert forall x :: x in [q] <==> x == q;
    assert a.Keys == m.Keys + {q};
  }

  /**
   * A single "::" clause such as "0-62::0-55,112-167" gives every named queue the whole CPU
   * list.
   */
  lemma BroadcastMapping(q: string, c: string, queues: seq<nat>, cpus: seq<nat>)
    requires q != [] && ':' !in q && IsCpuRun(c) && Strip(c) != []
    requires RangeList(Strip(q)) == Ok(queues) && queues != [] && RangeList(Strip(c)) == Ok(cpus)
    ensures QueueCpuMap(q + "::" + c) == Ok(Broadcast(queues, cpus))
  {
    var clause := Clause(q, true, c);
    OneClause(q, true, c);
    assert ClauseText(clause) == q + "::" + c;
    var sub := Broadcast(queues, cpus);
    BroadcastClause(q, c, queues, cpus);
    assert queues[0] in sub;
    SingleClauseMap(q + "::" + c, clause, sub);
  }

  /** The "::" branch applied to an empty dict. */
  lemma BroadcastClause(q: string, c: string, queues: seq<nat>, cpus: seq<nat>)
    requires Strip(c) != []
    requires RangeList(Strip(q)) == Ok(queues) && queues != [] && RangeList(Strip(c)) == Ok(cpus)
    ensures ApplyClause(map[], Clause(q, true, c)) == Ok(Broadcast(queues, cpus))
  {
    if Strip(q) == [] {
      BlankRange(Strip(q));
    }
    BroadcastFresh(queues, cpus);
  }

  /** A text that scans to one clause maps to what that clause makes of an empty dict. */
  lemma SingleClauseMap(s: string, clause: Clause, m: map<nat, seq<nat>>)
    requires Clauses(s, 0) == [clause] && ApplyClause(map[], clause) == Ok(m) && m != map[]
    ensures QueueCpuMap(s) == Ok(m)
  {
    assert [clause][1..] == [];
    assert ApplyClauses(map[], [clause]) == ApplyClauses(m, []);
  }

  /** Two CPU runs joined by one comma are one CPU run. */
  lemma CpuRunJoin(a: string, b: string)
    requires IsCpuRun(a) && IsCpuRun(b)
    ensures IsCpuRun(a + "," + b)
  {
    var s := a + "," + b;
    forall k | 0 <= k < |s| - 1 && s[k] == ','
      ensures s[k + 1] != ','
    {
      if k < |a| - 1 {
        assert s[k] == a[k] && s[k + 1] == a[k + 1];
      } else if k > |a| {
        assert s[k] == b[k - |a| - 1] && s[k + 1] == b[k - |a|];
      }
    }
  }

  /**
   * The CPU text runs on over single commas, so in "0-1:5,1:6" the second clause is swallowed
   * by the first: its CPU text "5,1:6" holds a colon, parse_range refuses it, and the result is
   * that parse error, never a duplicate-queue error.
   */
  lemma NextClauseSwallowed(q: string, c: string, rest: string)
    requires q != [] && ':' !in q && IsCpuRun(c) && c[0] != ':' && IsCpuRun(rest) && ':' in rest
    ensures Clauses(q + ":" + c + "," + rest, 0) == [Clause(q, false, c + "," + rest)]
    ensures QueueCpuMap(q + ":" + c + "," + rest).Err?
    ensures !QueueCpuMap(q + ":" + c + "," + rest).error.DuplicateQueue?
  {
    var cpuText := c + "," + rest;
    CpuRunJoin(c, rest);
    assert cpuText[0] == c[0];
    var clause := Clause(q, false, cpuText);
    OneClause(q, false, cpuText);
    assert ClauseText(clause) == q + ":" + c + "," + rest;
    assert ':' in cpuText by {
      var k :| 0 <= k < |rest| && rest[k] == ':';
      assert cpuText[|c| + 1 + k] == ':';
    }
    ColonInCpuText(map[], clause);
    SingleClauseError(q + ":" + c + "," + rest, clause);
  }

  /** A colon in the CPU text makes a clause fail, and never as a duplicate queue. */
  lemma ColonInCpuText(m: map<nat, seq<nat>>, clause: Clause)
    requires ':' in clause.cpuPart
    ensures ApplyClause(m, clause).Err? && !ApplyClause(m, clause).error.DuplicateQueue?
  {
    StripKeeps(clause.cpuPart, ':');
    RangeListRejects(Strip(clause.cpuPart), ':');
    RangeListError(Strip(clause.cpuPart));
    if Strip(clause.queuePart) != [] && RangeList(Strip(clause.queuePart)).Err? {
      RangeListError(Strip(clause.queuePart));
    }
  }

  /** A text that scans to one failing clause fails with that clause's error. */
  lemma SingleClauseError(s: string, clause: Clause)
    requires Clauses(s, 0) == [clause] && ApplyClause(map[], clause).Err?
    ensures QueueCpuMap(s) == Err(ApplyClause(map[], clause).error)
  {
  }

  /** Into an empty dict, the duplicate-checked insertion of a broadcast is the broadcast itself. */
  lemma BroadcastFresh(queues: seq<nat>, cpus: seq<nat>)
    ensures Claim(map[], queues, Broadcast(queues, cpus)) == Ok(Broadcast(queues, cpus))
  {
    var sub := Broadcast(queues, cpus);
    var none: map<nat, seq<nat>> := map[];
    assert FirstTaken(none, queues) == None;
    var e := Extend(none, queues, sub);
    assert e.Keys == sub.Keys;
    assert forall x :: x in e ==> e[x] == sub[x];
    assert e == sub;
  }

  // ---------------------------------------------------------------------------------------------
  // parse_queue_flow_map

  /** The text after the first ':' of a flow part: `part.split(':', 1)[1]`. */
  function FlowText(part: string): (flow: string)
    requires ':' in part
    ensures |flow| < |part| && flow == part[|part| - |flow|..]
  {
    part[IndexOf(part, ':') + 1..]
  }

  /** One stripped, non-blank comma part applied to the dict built so far. */
  function ApplyFlowPart(m: map<nat, nat>, part: string): Result<map<nat, nat>> {
    if ':' !in part then Err(BadFlowPart(part))
    else
      var queues :- RangeList(QueueText(part));
      var flow := FlowText(part);
      if !IsDigits(flow) then Err(FlowNotNumber(flow))
      else
        var sub := Broadcast(queues, NatOf(flow));
        match FirstTaken(m, queues)
        case Some(q) => Err(DuplicateFlowQueue(q))
        case None => Ok(Extend(m, queues, sub))
  }

  /** The parts applied in order, stopping at the first error. */
  function ApplyFlowParts(m: map<nat, nat>, parts: seq<string>): Result<map<nat, nat>>
    decreases |parts|
  {
    if parts == [] then Ok(m)
    else
      var next :- ApplyFlowPart(m, parts[0]);
      ApplyFlowParts(next, parts[1..])
  }

  /** What parse_queue_flow_map returns for `s`. */
  function FlowMap(s: string): Result<map<nat, nat>> {
    var m :- ApplyFlowParts(map[], Tokens(s));
    if m == map[] then Err(NoFlowMapping) else Ok(m)
  }

  /** parse_queue_flow_map: the loop over the stripped non-blank comma parts. */
  method ParseQueueFlowMap(s: string) returns (r: Result<map<nat, nat>>)
    ensures r == FlowMap(s)
  {
    var parts := Tokens(s);
    var built: map<nat, nat> := map[];
    for k := 0 to |parts|
      invariant ApplyFlowParts(map[], parts) == ApplyFlowParts(built, parts[k..])
    {
      var part := parts[k];
      assert parts[k..][0] == part && parts[k..][1..] == parts[k + 1..];
      if ':' !in part {
        return Err(BadFlowPart(part));
      }
      var colon := IndexOf(part, ':');
      var queues :- ParseRange(part[..colon]);
      var flow := part[colon + 1..];
      if !IsDigits(flow) {
        return Err(FlowNotNumber(flow));
      }
      var taken, claimed := ClaimQueues(built, queues, Broadcast(queues, NatOf(flow)));
      if taken.Some? {
        return Err(DuplicateFlowQueue(taken.value));
      }
      built := claimed;
    }
    assert parts[|parts|..] == [];
    if built == map[] {
      return Err(NoFlowMapping);
    }
    return Ok(built);
  }

  /** The text before the first ':' of a flow part: the queue list. */
  function QueueText(part: string): (queues: string)
    requires ':' in part
    ensures ':' !in queues
  {
    part[..IndexOf(part, ':')]
  }

  /**
   * A part is refused when it has no ':', and, once its queues parse, when the text after the
   * first ':' is not all digits; spaces around that text are not stripped.
   */
  lemma FlowPartErrors(m: map<nat, nat>, part: string)
    ensures ':' !in part ==> ApplyFlowPart(m, part) == Err(BadFlowPart(part))
    ensures ':' in part && RangeList(QueueText(part)).Ok? && !IsDigits(FlowText(part))
      ==> ApplyFlowPart(m, part) == Err(FlowNotNumber(FlowText(part)))
    ensures ApplyFlowPart(m, part).Ok? ==> ':' in part && IsDigits(FlowText(part)) && RangeList(QueueText(part)).Ok?
  {
  }

  /**
   * An accepted part gives each of its queues the count, none of which had one before, and
   * leaves every earlier entry as it was.
   */
  lemma FlowPartEntries(m: map<nat, nat>, part: string, queues: seq<nat>)
    requires ':' in part && RangeList(QueueText(part)) == Ok(queues) && ApplyFlowPart(m, part).Ok?
    ensures forall q :: q in queues ==> q !in m
    ensures forall q :: q in ApplyFlowPart(m, part).value <==> q in m || q in queues
    ensures forall q :: q in queues ==> ApplyFlowPart(m, part).value[q] == NatOf(FlowText(part))
    ensures forall q :: q in m ==> ApplyFlowPart(m, part).value[q] == m[q]
  {
    var sub := Broadcast(queues, NatOf(FlowText(part)));
    assert FirstTaken(m, queues).None?;
    assert ApplyFlowPart(m, part) == Ok(Extend(m, queues, sub));
  }

  /** A queue that already has a count makes the part fail with a duplicate naming such a queue. */
  lemma FlowPartDuplicate(m: map<nat, nat>, part: string, queues: seq<nat>, q: nat)
    requires ':' in part && RangeList(QueueText(part)) == Ok(queues) && IsDigits(FlowText(part))
    requires q in queues && q in m
    ensures ApplyFlowPart(m, part).Err? && ApplyFlowPart(m, part).error.DuplicateFlowQueue?
    ensures ApplyFlowPart(m, part).error.queue in queues && ApplyFlowPart(m, part).error.queue in m
  {
    var t := FirstTaken(m, queues);
    assert t.Some?;
    assert ApplyFlowPart(m, part) == Err(DuplicateFlowQueue(t.value));
  }

  /**
   * Whenever the parts are accepted, each of them had a ':' followed by digits only, and every
   * entry present at the start survives unchanged: a count is never overwritten.
   */
  lemma {:induction false} FlowPartsAccepted(m: map<nat, nat>, parts: seq<string>)
    requires ApplyFlowParts(m, parts).Ok?
    decreases |parts|
    ensures forall i :: 0 <= i < |parts| ==> ':' in parts[i] && IsDigits(FlowText(parts[i]))
    ensures forall q :: q in m ==> q in ApplyFlowParts(m, parts).value && ApplyFlowParts(m, parts).value[q] == m[q]
  {
    if parts != [] {
      FlowPartErrors(m, parts[0]);
      var next := ApplyFlowPart(m, parts[0]).value;
      FlowPartEntries(m, parts[0], RangeList(QueueText(parts[0])).value);
      assert ApplyFlowParts(m, parts) == ApplyFlowParts(next, parts[1..]);
      FlowPartsAccepted(next, parts[1..]);
      forall i | 0 <= i < |parts|
        ensures ':' in parts[i] && IsDigits(FlowText(parts[i]))
      {
        if i > 0 {
          assert parts[i] == parts[1..][i - 1];
        }
      }
    }
  }

  /** A part such as ":5" names no queue, so on its own it ends at the "no flow mapping" error. */
  lemma FlowBlankQueue(d: string)
    requires IsDigits(d)
    ensures FlowMap(":" + d) == Err(NoFlowMapping)
  {
    var part := ":" + d;
    assert ',' !in part && part[|part| - 1] == d[|d| - 1];
    TokensOfOne(part);
    assert IndexOf(part, ':') == 0;
    assert QueueText(part) == [];
    BlankRange([]);
    assert FlowText(part) == d;
    var none: map<nat, nat> := map[];
    assert ApplyFlowPart(none, part) == Ok(Extend(none, [], Broadcast([], NatOf(d))));
    assert Extend(none, [], Broadcast([], NatOf(d))) == none;
    assert [part][1..] == [];
    assert ApplyFlowParts(none, [part]) == ApplyFlowParts(none, []);
    assert Tokens(part) == [part];
  }

  /** The same accepted part given twice, as in "0-1:4,0-1:4", is refused as a duplicate. */
  lemma FlowRepeatedPart(part: string)
    requires part != [] && !IsSpace(part[0]) && !IsSpace(part[|part| - 1]) && ',' !in part
    requires FlowMap(part).Ok?
    ensures FlowMap(part + "," + part).Err? && FlowMap(part + "," + part).error.DuplicateFlowQueue?
  {
    TokensOfOne(part);
    TokensAround(part, part);
    assert part + "," + part == part + [','] + part;
    assert [part][1..] == [];
    var none: map<nat, nat> := map[];
    var first := ApplyFlowPart(none, part).value;
    assert ApplyFlowParts(none, [part]) == ApplyFlowParts(first, []);
    assert first != map[];
    FlowPartErrors(none, part);
    var queues := RangeList(QueueText(part)).value;
    FlowPartEntries(none, part, queues);
    var q :| q in first;
    FlowPartDuplicate(first, part, queues, q);
    assert [part, part][1..] == [part];
    assert ApplyFlowParts(none, [part, part]) == ApplyFlowParts(first, [part]);
  }
}
