/**
 * `NicQueueConfig.parse_range` of net.py: a CPU or queue list such as "0-3,5" becomes the
 * sorted list of distinct ids it names.
 */
module RangeParser {
  import opened Results
  import opened Text
  import opened Sorting

  /** Stripped pieces that are not blank: `[p.strip() for p in parts if p.strip()]`. */
  function NonBlank(parts: seq<string>): (ts: seq<string>)
    ensures |ts| <= |parts|
  {
    if parts == [] then []
    else
      var t := Strip(parts[0]);
      (if t == [] then [] else [t]) + NonBlank(parts[1..])
  }

  lemma {:induction false} NonBlankConcat(a: seq<string>, b: seq<string>)
    ensures NonBlank(a + b) == NonBlank(a) + NonBlank(b)
  {
    if a == [] {
      assert a + b == b;
      assert NonBlank(a) == [];
      assert [] + NonBlank(b) == NonBlank(b);
    } else {
      var ab := a + b;
      assert ab[0] == a[0] && ab[1..] == a[1..] + b;
      NonBlankConcat(a[1..], b);
      var head := if Strip(a[0]) == [] then [] else [Strip(a[0])];
      assert NonBlank(ab) == head + NonBlank(a[1..] + b);
      assert NonBlank(a) == head + NonBlank(a[1..]);
      ConcatAssoc(head, NonBlank(a[1..]), NonBlank(b));
    }
  }

  lemma ConcatAssoc<T>(x: seq<T>, y: seq<T>, z: seq<T>)
    ensures x + (y + z) == (x + y) + z
  {
  }

  /** The tokens of a range string: its non-blank comma pieces, stripped. */
  function Tokens(s: string): seq<string> {
    NonBlank(Split(s, ','))
  }

  /** A comma between two strings separates their tokens. */
  lemma TokensAround(a: string, b: string)
    ensures Tokens(a + [','] + b) == Tokens(a) + Tokens(b)
  {
    SplitAround(a, b, ',');
    NonBlankConcat(Split(a, ','), Split(b, ','));
  }

  /** The ids from `lo` to `hi` inclusive. */
  function Interval(lo: nat, hi: nat): (r: set<nat>)
    ensures forall x: nat :: x in r <==> lo <= x <= hi
    decreases hi - lo
  {
    if lo > hi then {} else {lo} + Interval(lo + 1, hi)
  }

  /** Python's `list(range(lo, hi + 1))`. */
  function RangeSeq(lo: nat, hi: nat): (r: seq<nat>)
    requires lo <= hi
    ensures Elems(r) == Interval(lo, hi)
  {
    var r := seq(hi - lo + 1, j requires 0 <= j <= hi - lo => lo + j);
    assert forall x :: x in Interval(lo, hi) ==> r[x - lo] == x;
    r
  }

  /** The ids one token contributes, or the error it raises. */
  function TokenValues(t: string): Result<set<nat>> {
    if '-' in t then
      var i := IndexOf(t, '-');
      if IsDigits(t[..i]) && IsDigits(t[i + 1..]) then
        var lo := NatOf(t[..i]);
        var hi := NatOf(t[i + 1..]);
        if lo > hi then Err(StartAfterEnd(t)) else Ok(Interval(lo, hi))
      else Err(BadRangeToken(t))
    else if IsDigits(t) then Ok({NatOf(t)})
    else Err(BadNumber(t))
  }

  /** The ids of a token sequence, or the error of its first bad token. */
  function TokensValues(ts: seq<string>): Result<set<nat>> {
    if ts == [] then Ok({})
    else
      var first :- TokenValues(ts[0]);
      var rest :- TokensValues(ts[1..]);
      Ok(first + rest)
  }

  /** What parse_range returns for `s`: the distinct ids, ascending, or the first token's error. */
  function RangeList(s: string): Result<seq<nat>> {
    var values :- RangeIds(s);
    Ok(SortedSet(values))
  }

  /** The set of ids `s` names, or the first token's error. */
  function RangeIds(s: string): Result<set<nat>> {
    TokensValues(Tokens(s))
  }

  /** parse_range's result depends only on the set of ids named. */
  lemma RangeListOfIds(s: string, t: string)
    requires RangeIds(s) == RangeIds(t)
    ensures RangeList(s) == RangeList(t)
  {
  }

  function Prefixed(acc: set<nat>, r: Result<set<nat>>): Result<set<nat>> {
    if r.Ok? then Ok(acc + r.value) else r
  }

  lemma PrefixedEmpty(r: Result<set<nat>>)
    ensures Prefixed({}, r) == r
  {
    if r.Ok? {
      assert {} + r.value == r.value;
    }
  }

  lemma PrefixedTwice(a: set<nat>, b: set<nat>, r: Result<set<nat>>)
    ensures Prefixed(a, Prefixed(b, r)) == Prefixed(a + b, r)
  {
    if r.Ok? {
      assert a + (b + r.value) == (a + b) + r.value;
    }
  }

  lemma TokensValuesCons(ts: seq<string>)
    requires ts != []
    ensures TokensValues(ts) == if TokenValues(ts[0]).Err? then Err(TokenValues(ts[0]).error)
      else Prefixed(TokenValues(ts[0]).value, TokensValues(ts[1..]))
  {
  }

  /** One pass of parse_range's loop: the ids of one stripped, non-blank token. */
  method TokenIds(part: string) returns (r: Result<seq<nat>>)
    ensures r.Ok? <==> TokenValues(part).Ok?
    ensures r.Ok? ==> Elems(r.value) == TokenValues(part).value
    ensures r.Err? ==> r == Err(TokenValues(part).error)
  {
    if '-' in part {
      var i := IndexOf(part, '-');
      if !(IsDigits(part[..i]) && IsDigits(part[i + 1..])) {
        return Err(BadRangeToken(part));
      }
      var start := NatOf(part[..i]);
      var end := NatOf(part[i + 1..]);
      if start > end {
        return Err(StartAfterEnd(part));
      }
      r := Ok(RangeSeq(start, end));
    } else {
      if !IsDigits(part) {
        return Err(BadNumber(part));
      }
      ElemsSingleton(NatOf(part));
      r := Ok([NatOf(part)]);
    }
  }

  /** parse_range's loop: the ids of every token in turn, or the first token's error. */
  method CollectIds(parts: seq<string>) returns (r: Result<seq<nat>>)
    ensures r.Ok? <==> TokensValues(parts).Ok?
    ensures r.Ok? ==> Elems(r.value) == TokensValues(parts).value
    ensures r.Err? ==> r == Err(TokensValues(parts).error)
  {
    var res: seq<nat> := [];
    var k := 0;
    assert parts[k..] == parts && Elems(res) == {};
    PrefixedEmpty(TokensValues(parts));
    while k < |parts|
      invariant 0 <= k <= |parts|
      invariant TokensValues(parts) == Prefixed(Elems(res), TokensValues(parts[k..]))
    {
      assert parts[k..][0] == parts[k] && parts[k..][1..] == parts[k + 1..];
      TokensValuesCons(parts[k..]);
      var ids :- TokenIds(parts[k]);
      ElemsAppend(res, ids);
      PrefixedTwice(Elems(res), Elems(ids), TokensValues(parts[k + 1..]));
      res := res + ids;
      k := k + 1;
    }
    assert parts[k..] == [];
    assert Elems(res) + {} == Elems(res);
    r := Ok(res);
  }

  /** parse_range: the ids of the stripped non-blank tokens, sorted and without duplicates. */
  method ParseRange(s: string) returns (r: Result<seq<nat>>)
    ensures r == RangeList(s)
    ensures r.Ok? ==> Increasing(r.value)
  {
    var parts := Tokens(s);
    var res :- CollectIds(parts);
    r := Ok(SortedSet(Elems(res)));
  }

  lemma ElemsSingleton(v: nat)
    ensures Elems([v]) == {v}
  {
    assert v in Elems([v]);
  }

  lemma ElemsAppend(a: seq<nat>, b: seq<nat>)
    ensures Elems(a + b) == Elems(a) + Elems(b)
  {
  }

  /** The regular expression `^(\d+)-(\d+)$` matches `t` with its dash at index `i`. */
  predicate RangeAt(t: string, i: int) {
    0 <= i < |t| && t[i] == '-' && IsDigits(t[..i]) && IsDigits(t[i + 1..])
  }

  /** The token grammar: a number, or an increasing `start-end` pair. */
  predicate ValidToken(t: string) {
    IsDigits(t) || exists i :: 0 <= i < |t| && RangeAt(t, i) && NatOf(t[..i]) <= NatOf(t[i + 1..])
  }

  /** Every token fits the grammar. */
  predicate AllValid(ts: seq<string>) {
    forall j :: 0 <= j < |ts| ==> ValidToken(ts[j])
  }

  /** Some token of `ts` names id `x`. */
  predicate NamedBySome(ts: seq<string>, x: nat) {
    exists j :: 0 <= j < |ts| && Names(ts[j], x)
  }

  /** Token `t` names id `x`. */
  predicate Names(t: string, x: nat) {
    (IsDigits(t) && x == NatOf(t)) || exists i :: 0 <= i < |t| && RangeAt(t, i) && NatOf(t[..i]) <= x <= NatOf(t[i + 1..])
  }

  /** The first dash of a range token is the one the regular expression splits at. */
  lemma RangeAtFirstDash(t: string, i: int)
    requires RangeAt(t, i)
    ensures '-' in t && IndexOf(t, '-') == i
  {
    assert t[i] in t;
    var j := IndexOf(t, '-');
    assert forall k :: 0 <= k < i ==> t[k] != '-' by {
      forall k | 0 <= k < i ensures t[k] != '-' {
        assert t[k] == t[..i][k];
      }
    }
    assert forall k :: 0 <= k < j ==> t[k] != '-' by {
      forall k | 0 <= k < j ensures t[k] != '-' {
        assert t[..j][k] in t[..j];
      }
    }
  }

  /** A token is accepted exactly when it fits the grammar. */
  lemma TokenAccepted(t: string)
    ensures TokenValues(t).Ok? <==> ValidToken(t)
  {
    if '-' in t {
      var i := IndexOf(t, '-');
      assert !IsDigits(t);
      forall j | 0 <= j < |t| && RangeAt(t, j) ensures j == i {
        RangeAtFirstDash(t, j);
      }
    }
  }

  /** An accepted token yields exactly the ids it names. */
  lemma TokenIdsNamed(t: string)
    requires TokenValues(t).Ok?
    ensures forall x :: x in TokenValues(t).value <==> Names(t, x)
  {
    if '-' in t {
      var i := IndexOf(t, '-');
      assert !IsDigits(t);
      forall j | 0 <= j < |t| && RangeAt(t, j) ensures j == i {
        RangeAtFirstDash(t, j);
      }
    }
  }

  /** A token sequence is accepted exactly when every token fits the grammar. */
  lemma {:induction false} TokensAccepted(ts: seq<string>)
    ensures TokensValues(ts).Ok? <==> AllValid(ts)
  {
    if ts != [] {
      TokenAccepted(ts[0]);
      TokensAccepted(ts[1..]);
      if forall j :: 0 <= j < |ts| ==> ValidToken(ts[j]) {
        forall j | 0 <= j < |ts[1..]|
          ensures ValidToken(ts[1..][j])
        {
          assert ts[1..][j] == ts[j + 1];
        }
      }
      if TokenValues(ts[0]).Ok? && !TokensValues(ts[1..]).Ok? {
        var j :| 0 <= j < |ts[1..]| && !ValidToken(ts[1..][j]);
        assert !ValidToken(ts[j + 1]);
      }
    }
  }

  /** The ids of an accepted token sequence are those that some token names. */
  lemma {:induction false} TokensIdsNamed(ts: seq<string>)
    requires TokensValues(ts).Ok?
    ensures forall x :: x in TokensValues(ts).value <==> NamedBySome(ts, x)
  {
    if ts != [] {
      TokenIdsNamed(ts[0]);
      TokensIdsNamed(ts[1..]);
      forall x | x in TokensValues(ts).value
        ensures NamedBySome(ts, x)
      {
        if x !in TokenValues(ts[0]).value {
          var j :| 0 <= j < |ts[1..]| && Names(ts[1..][j], x);
          assert Names(ts[j + 1], x);
        } else {
          assert Names(ts[0], x);
        }
      }
      forall x | NamedBySome(ts, x)
        ensures x in TokensValues(ts).value
      {
        var j :| 0 <= j < |ts| && Names(ts[j], x);
        if j > 0 {
          assert Names(ts[1..][j - 1], x);
        }
      }
    }
  }

  /** A bad token raises its own error when every token before it is good. */
  lemma {:induction false} FirstBadToken(ts: seq<string>, j: nat)
    requires j < |ts| && !ValidToken(ts[j])
    requires forall k :: 0 <= k < j ==> ValidToken(ts[k])
    ensures TokensValues(ts) == Err(TokenValues(ts[j]).error)
  {
    TokenAccepted(ts[j]);
    if j > 0 {
      TokenAccepted(ts[0]);
      FirstBadToken(ts[1..], j - 1);
    }
  }

  /** parse_range succeeds exactly when every non-blank token fits the grammar. */
  lemma RangeListAccepted(s: string)
    ensures RangeList(s).Ok? <==> AllValid(Tokens(s))
  {
    TokensAccepted(Tokens(s));
  }

  /** The errors parse_range raises: a malformed range, a reversed range, a bad number. */
  predicate IsTokenError(e: Error) {
    e.BadRangeToken? || e.StartAfterEnd? || e.BadNumber?
  }

  /** parse_range raises nothing but token errors. */
  lemma {:induction false} TokensValuesError(ts: seq<string>)
    requires TokensValues(ts).Err?
    ensures IsTokenError(TokensValues(ts).error)
  {
    if TokenValues(ts[0]).Ok? {
      TokensValuesError(ts[1..]);
    }
  }

  lemma RangeListError(s: string)
    requires RangeList(s).Err?
    ensures IsTokenError(RangeList(s).error)
  {
    TokensValuesError(Tokens(s));
  }

  /** A stripped non-blank piece keeps its non-blank characters among the tokens. */
  lemma {:induction false} NonBlankHas(parts: seq<string>, i: nat, c: char)
    requires i < |parts| && c in parts[i] && !IsSpace(c)
    ensures exists j :: 0 <= j < |NonBlank(parts)| && c in NonBlank(parts)[j]
  {
    var t := Strip(parts[0]);
    var head := if t == [] then [] else [t];
    assert NonBlank(parts) == head + NonBlank(parts[1..]);
    if i == 0 {
      StripKeeps(parts[0], c);
      assert NonBlank(parts)[0] == t;
    } else {
      NonBlankHas(parts[1..], i - 1, c);
      var j :| 0 <= j < |NonBlank(parts[1..])| && c in NonBlank(parts[1..])[j];
      assert NonBlank(parts)[|head| + j] == NonBlank(parts[1..])[j];
    }
  }

  /** A token of the grammar holds only digits and a dash. */
  lemma ValidTokenChars(t: string, c: char)
    requires ValidToken(t) && c in t
    ensures IsDigit(c) || c == '-'
  {
    if !IsDigits(t) {
      var i :| 0 <= i < |t| && RangeAt(t, i) && NatOf(t[..i]) <= NatOf(t[i + 1..]);
      var k :| 0 <= k < |t| && t[k] == c;
      if k < i {
        assert t[k] == t[..i][k];
      } else if k > i {
        assert t[k] == t[i + 1..][k - i - 1];
      }
    }
  }

  /** Any character outside digits, dashes, commas and blanks makes parse_range fail. */
  lemma RangeListRejects(s: string, c: char)
    requires c in s && c != ',' && !IsSpace(c) && !IsDigit(c) && c != '-'
    ensures RangeList(s).Err?
  {
    SplitKeeps(s, ',', c);
    var i :| 0 <= i < |Split(s, ',')| && c in Split(s, ',')[i];
    NonBlankHas(Split(s, ','), i, c);
    var j :| 0 <= j < |Tokens(s)| && c in Tokens(s)[j];
    if ValidToken(Tokens(s)[j]) {
      ValidTokenChars(Tokens(s)[j], c);
    }
    RangeListAccepted(s);
  }

  /** On success parse_range returns exactly the ids the tokens name (and `ParseRange`: strictly increasing). */
  lemma RangeListIds(s: string)
    requires RangeList(s).Ok?
    ensures forall x :: x in RangeList(s).value <==> NamedBySome(Tokens(s), x)
  {
    var v := TokensValues(Tokens(s)).value;
    TokensIdsNamed(Tokens(s));
    assert forall x :: x in SortedSet(v) <==> x in Elems(SortedSet(v));
  }

  /** The ids of two token runs in a row: the first error, else the union. */
  function Combine(x: Result<set<nat>>, y: Result<set<nat>>): Result<set<nat>> {
    if x.Err? then x else if y.Err? then y else Ok(x.value + y.value)
  }

  lemma {:induction false} TokensValuesConcat(a: seq<string>, b: seq<string>)
    ensures TokensValues(a + b) == Combine(TokensValues(a), TokensValues(b))
  {
    if a != [] {
      assert (a + b)[0] == a[0] && (a + b)[1..] == a[1..] + b;
      TokensValuesConcat(a[1..], b);
      var x, y := TokenValues(a[0]), TokensValues(b);
      if x.Ok? && TokensValues(a[1..]).Ok? && y.Ok? {
        assert x.value + (TokensValues(a[1..]).value + y.value)
          == (x.value + TokensValues(a[1..]).value) + y.value;
      }
    } else {
      assert a + b == b;
      if TokensValues(b).Ok? {
        assert {} + TokensValues(b).value == TokensValues(b).value;
      }
    }
  }

  /** "a,b" names the ids of `a` and of `b`; its error is the first one met, reading left to right. */
  lemma RangeIdsAround(a: string, b: string)
    ensures RangeIds(a + [','] + b) == Combine(RangeIds(a), RangeIds(b))
  {
    TokensAround(a, b);
    TokensValuesConcat(Tokens(a), Tokens(b));
  }

  /** The order of the comma pieces does not matter when the string is accepted: "a,b" and "b,a" name the same ids. */
  lemma RangeIdsOrderFree(a: string, b: string)
    requires RangeIds(a + [','] + b).Ok?
    ensures RangeIds(b + [','] + a) == RangeIds(a + [','] + b)
  {
    RangeIdsAround(a, b);
    RangeIdsAround(b, a);
    var x, y := RangeIds(a), RangeIds(b);
    assert x.value + y.value == y.value + x.value;
  }

  /** ... and so parse_range gives the same list for both orders. */
  lemma RangeListOrderFree(a: string, b: string)
    requires RangeList(a + [','] + b).Ok?
    ensures RangeList(b + [','] + a) == RangeList(a + [','] + b)
  {
    RangeIdsOrderFree(a, b);
    RangeListOfIds(a + [','] + b, b + [','] + a);
  }

  /** A comma-free token with non-blank ends is its own single token. */
  lemma TokensOfOne(t: string)
    requires t != [] && !IsSpace(t[0]) && !IsSpace(t[|t| - 1]) && ',' !in t
    ensures Tokens(t) == [t]
  {
    SplitWithoutSeparator(t, ',');
    StripUnchanged(t);
  }

  /** A blank piece between two commas changes nothing: "1,,2" names what "1,2" names ... */
  lemma BlankPieceIds(a: string, blank: string, b: string)
    requires RangeIds(blank) == Ok({})
    ensures RangeIds(a + [','] + blank + [','] + b) == RangeIds(a + [','] + b)
  {
    EmptyPieceIds(a, blank);
    SameIdsAround(a + [','] + blank, a, b);
  }

  lemma EmptyPieceIds(a: string, blank: string)
    requires RangeIds(blank) == Ok({})
    ensures RangeIds(a + [','] + blank) == RangeIds(a)
  {
    RangeIdsAround(a, blank);
    CombineNothing(RangeIds(a));
  }

  lemma CombineNothing(x: Result<set<nat>>)
    ensures Combine(x, Ok({})) == x
  {
    if x.Ok? {
      assert x.value + {} == x.value;
    }
  }

  lemma SameIdsAround(a: string, a': string, b: string)
    requires RangeIds(a) == RangeIds(a')
    ensures RangeIds(a + [','] + b) == RangeIds(a' + [','] + b)
  {
    RangeIdsAround(a, b);
    RangeIdsAround(a', b);
  }

  /** ... and so parse_range reads "1,,2" as "1,2". */
  lemma BlankPieceSkipped(a: string, blank: string, b: string)
    requires forall i :: 0 <= i < |blank| ==> IsSpace(blank[i])
    ensures RangeList(a + [','] + blank + [','] + b) == RangeList(a + [','] + b)
  {
    BlankIds(blank);
    BlankPieceIds(a, blank, b);
    RangeListOfIds(a + [','] + blank + [','] + b, a + [','] + b);
  }

  lemma BlankIds(s: string)
    requires forall i :: 0 <= i < |s| ==> IsSpace(s[i])
    ensures RangeIds(s) == Ok({})
  {
    assert ',' !in s by {
      assert !IsSpace(',');
    }
    SplitWithoutSeparator(s, ',');
    StripBlank(s);
    assert NonBlank([s]) == [];
  }

  /** An empty or blank string names no ids. */
  lemma BlankRange(s: string)
    requires forall i :: 0 <= i < |s| ==> IsSpace(s[i])
    ensures RangeList(s) == Ok([])
  {
    BlankIds(s);
  }
}
