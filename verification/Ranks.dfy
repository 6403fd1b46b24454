/** Tie-averaged ranks: the counting characterisation of average_ranks. */
module Ranks {
  import opened Ordering

  /** How many values lie strictly below x. */
  function Below(values: seq<real>, x: real): nat {
    if values == [] then 0 else (if values[0] < x then 1 else 0) + Below(values[1..], x)
  }

  /** How many values equal x. */
  function Ties(values: seq<real>, x: real): nat {
    if values == [] then 0 else (if values[0] == x then 1 else 0) + Ties(values[1..], x)
  }

  /** The average rank of x among the values: everything below it, plus the middle of its tie block. */
  function RankOf(values: seq<real>, x: real): real {
    Below(values, x) as real + (Ties(values, x) as real + 1.0) / 2.0
  }

  // ---- average_ranks ----

  datatype Item = Item(index: nat, value: real)

  /** The sort key (value, index). */
  predicate ItemLe(a: Item, b: Item) {
    a.value < b.value || (a.value == b.value && a.index <= b.index)
  }

  function Enumerate(values: seq<real>): (r: seq<Item>) {
    seq(|values|, i requires 0 <= i < |values| => Item(i, values[i]))
  }

  function Values(items: seq<Item>): seq<real> {
    if items == [] then [] else [items[0].value] + Values(items[1..])
  }

  lemma {:induction false} ValuesAt(items: seq<Item>)
    ensures |Values(items)| == |items| && forall k :: 0 <= k < |items| ==> Values(items)[k] == items[k].value
  {
    if items != [] { ValuesAt(items[1..]); }
  }

  lemma {:induction false} CountsConcat(a: seq<real>, b: seq<real>, x: real)
    ensures Below(a + b, x) == Below(a, x) + Below(b, x)
    ensures Ties(a + b, x) == Ties(a, x) + Ties(b, x)
  {
    if a == [] {
      assert a + b == b;
    } else {
      assert (a + b)[1..] == a[1..] + b;
      CountsConcat(a[1..], b, x);
    }
  }

  lemma {:induction false} InsertCounts(item: Item, items: seq<Item>, x: real)
    ensures Below(Values(Insert(item, items, ItemLe)), x) == (if item.value < x then 1 else 0) + Below(Values(items), x)
    ensures Ties(Values(Insert(item, items, ItemLe)), x) == (if item.value == x then 1 else 0) + Ties(Values(items), x)
  {
    if items != [] && !ItemLe(item, items[0]) { InsertCounts(item, items[1..], x); }
    else { assert ([item] + items)[1..] == items; }
  }

  lemma {:induction false} SortCounts(items: seq<Item>, x: real)
    ensures Below(Values(Sort(items, ItemLe)), x) == Below(Values(items), x)
    ensures Ties(Values(Sort(items, ItemLe)), x) == Ties(Values(items), x)
  {
    if items != [] {
      SortCounts(items[1..], x);
      InsertCounts(items[0], Sort(items[1..], ItemLe), x);
    }
  }

  lemma {:induction false} AllBelow(values: seq<real>, x: real)
    requires forall v :: v in values ==> v < x
    ensures Below(values, x) == |values| && Ties(values, x) == 0
  {
    if values != [] {
      assert values[0] in values && forall v :: v in values[1..] ==> v in values;
      AllBelow(values[1..], x);
    }
  }

  lemma {:induction false} AllTied(values: seq<real>, x: real)
    requires forall v :: v in values ==> v == x
    ensures Below(values, x) == 0 && Ties(values, x) == |values|
  {
    if values != [] {
      assert values[0] in values && forall v :: v in values[1..] ==> v in values;
      AllTied(values[1..], x);
    }
  }

  lemma {:induction false} AllAbove(values: seq<real>, x: real)
    requires forall v :: v in values ==> v > x
    ensures Below(values, x) == 0 && Ties(values, x) == 0
  {
    if values != [] {
      assert values[0] in values && forall v :: v in values[1..] ==> v in values;
      AllAbove(values[1..], x);
    }
  }

  /** In ascending values a maximal block of equal values sits right after everything below it. */
  lemma BlockCounts(low: seq<real>, mid: seq<real>, high: seq<real>, x: real)
    requires (forall v :: v in low ==> v < x) && (forall v :: v in mid ==> v == x) && (forall v :: v in high ==> v > x)
    ensures Below(low + mid + high, x) == |low| && Ties(low + mid + high, x) == |mid|
  {
    CountsConcat(low + mid, high, x);
    CountsConcat(low, mid, x);
    AllBelow(low, x);
    AllTied(mid, x);
    AllAbove(high, x);
  }

  lemma ItemOrder()
    ensures Order(ItemLe)
  {}

  ghost predicate Occurs(s: seq<Item>, i: nat) {
    exists k :: 0 <= k < |s| && s[k].index == i
  }

  /** Items sorted by value, each naming its original position, every position present. */
  ghost predicate Arrangement(values: seq<real>, s: seq<Item>) {
    && (forall i, j :: 0 <= i < j < |s| ==> s[i].value <= s[j].value)
    && (forall k :: 0 <= k < |s| ==> s[k].index < |values| && s[k].value == values[s[k].index])
    && (forall i: nat :: i < |values| ==> Occurs(s, i))
    && (forall x :: RankOf(Values(s), x) == RankOf(values, x))
  }

  lemma SortedEnumeration(values: seq<real>)
    ensures Arrangement(values, Sort(Enumerate(values), ItemLe))
  {
    var e := Enumerate(values);
    var s := Sort(e, ItemLe);
    ItemOrder();
    SortSorted(e, ItemLe);
    SortMembers(e, ItemLe);
    forall k | 0 <= k < |s| ensures s[k].index < |values| && s[k].value == values[s[k].index] {
      assert s[k] in e;
    }
    forall i: nat | i < |values| ensures Occurs(s, i) {
      assert e[i] in s;
      var k :| 0 <= k < |s| && s[k] == e[i];
    }
    forall x ensures RankOf(Values(s), x) == RankOf(values, x) {
      SortCounts(e, x);
      ValuesAt(e);
      assert Values(e) == values;
    }
  }

  lemma ArrangementNames(values: seq<real>, s: seq<Item>)
    requires Arrangement(values, s)
    ensures forall k :: 0 <= k < |s| ==> s[k].index < |values| && s[k].value == values[s[k].index]
    ensures forall i, j :: 0 <= i < j < |s| ==> s[i].value <= s[j].value
  {}

  lemma ArrangementCovers(values: seq<real>, s: seq<Item>, i: nat)
    requires Arrangement(values, s) && i < |values|
    ensures exists k :: 0 <= k < |s| && s[k].index == i
  {
    assert Occurs(s, i);
  }

  /** The rank the loop assigns to the block [start, end). */
  lemma BlockRank(values: seq<real>, s: seq<Item>, start: nat, end: nat)
    requires Arrangement(values, s) && start < end <= |s|
    requires forall k :: start <= k < end ==> s[k].value == s[start].value
    requires start > 0 ==> s[start - 1].value < s[start].value
    requires end < |s| ==> s[end].value != s[start].value
    ensures ((start + 1) + end) as real / 2.0 == RankOf(values, s[start].value)
  {
    hide Below, Ties, Values;
    var v, x := Values(s), s[start].value;
    ValuesAt(s);
    var low, mid, high := v[..start], v[start..end], v[end..];
    assert v == low + mid + high;
    forall k | 0 <= k < start ensures s[k].value < x {
      assert s[k].value <= s[start - 1].value;
    }
    forall k | end <= k < |s| ensures s[k].value > x {
      assert s[end].value <= s[k].value;
    }
    BlockCounts(low, mid, high, x);
  }

  /** average_ranks: walk the sorted enumeration block by block, writing into a buffer by original position. */
  method AverageRanks(values: seq<real>) returns (ranks: seq<real>)
    ensures |ranks| == |values|
    ensures forall i :: 0 <= i < |values| ==> ranks[i] == RankOf(values, values[i])
  {
    hide Below, Ties, Sort, Arrangement;
    var indexed := Sort(Enumerate(values), ItemLe);
    SortedEnumeration(values);
    ArrangementNames(values, indexed);
    var buffer := new real[|values|];
    var index := 0;
    while index < |indexed|
      invariant 0 <= index <= |indexed|
      invariant 0 < index < |indexed| ==> indexed[index - 1].value < indexed[index].value
      invariant forall k :: 0 <= k < index ==> buffer[indexed[k].index] == RankOf(values, indexed[k].value)
    {
      var end := index + 1;
      while end < |indexed| && indexed[end].value == indexed[index].value
        invariant index < end <= |indexed|
        invariant forall k :: index <= k < end ==> indexed[k].value == indexed[index].value
      {
        end := end + 1;
      }
      BlockRank(values, indexed, index, end);
      var rank := ((index + 1) + end) as real / 2.0;
      for k := index to end
        invariant forall j :: 0 <= j < k ==> buffer[indexed[j].index] == RankOf(values, indexed[j].value)
      {
        buffer[indexed[k].index] := rank;
      }
      index := end;
    }
    ranks := buffer[..];
    forall i | 0 <= i < |values| ensures ranks[i] == RankOf(values, values[i]) {
      ArrangementCovers(values, indexed, i);
    }
  }

  // ---- What the ranks mean ----

  /** The rank vector. */
  function RankVector(values: seq<real>): seq<real> {
    seq(|values|, i requires 0 <= i < |values| => RankOf(values, values[i]))
  }

  function Score(values: seq<real>, x: real): int {
    2 * Below(values, x) + Ties(values, x)
  }

  /** Sum of the scores of xs against values. */
  function ScoreSum(xs: seq<real>, values: seq<real>): int {
    if xs == [] then 0 else Score(values, xs[0]) + ScoreSum(xs[1..], values)
  }

  lemma {:induction false} ScoreSumColumn(xs: seq<real>, y: real, values: seq<real>)
    ensures ScoreSum(xs, [y] + values) == 2 * |xs| - Score(xs, y) + ScoreSum(xs, values)
  {
    assert ([y] + values)[1..] == values;
    if xs != [] {
      ScoreSumColumn(xs[1..], y, values);
    }
  }

  /** Each unordered pair of positions contributes two to the total score, each position one to itself. */
  lemma {:induction false} ScoreTotal(values: seq<real>)
    ensures ScoreSum(values, values) == |values| * |values|
  {
    if values != [] {
      var y, rest := values[0], values[1..];
      ScoreTotal(rest);
      assert values == [y] + rest;
      ScoreSumColumn(rest, y, rest);
      assert |values| * |values| == |rest| * |rest| + 2 * |rest| + 1;
    }
  }

  function Sum(xs: seq<real>): real {
    if xs == [] then 0.0 else xs[0] + Sum(xs[1..])
  }

  lemma {:induction false} RankSumAgainst(xs: seq<real>, values: seq<real>)
    ensures 2.0 * Sum(seq(|xs|, i requires 0 <= i < |xs| => RankOf(values, xs[i])))
      == (ScoreSum(xs, values) + |xs|) as real
  {
    var ranks := seq(|xs|, i requires 0 <= i < |xs| => RankOf(values, xs[i]));
    if xs != [] {
      var rest := xs[1..];
      assert ranks[1..] == seq(|rest|, i requires 0 <= i < |rest| => RankOf(values, rest[i]));
      RankSumAgainst(rest, values);
    }
  }

  /** Ranks sum to n(n+1)/2 whatever the ties. */
  lemma RanksSum(values: seq<real>)
    ensures Sum(RankVector(values)) == (|values| * (|values| + 1)) as real / 2.0
  {
    RankSumAgainst(values, values);
    ScoreTotal(values);
  }

  lemma {:induction false} ScoreMonotone(values: seq<real>, x: real, y: real)
    requires x < y
    ensures Score(values, y) >= Score(values, x) + Ties(values, x) + Ties(values, y)
  {
    if values != [] { ScoreMonotone(values[1..], x, y); }
  }

  lemma {:induction false} TiesPositive(values: seq<real>, i: nat)
    requires i < |values|
    ensures Ties(values, values[i]) >= 1
  {
    if i > 0 { TiesPositive(values[1..], i - 1); }
  }

  /** Ranks order positions exactly as the values do. */
  lemma RanksPreserveOrder(values: seq<real>, i: nat, j: nat)
    requires i < |values| && j < |values|
    ensures RankOf(values, values[i]) < RankOf(values, values[j]) <==> values[i] < values[j]
    ensures RankOf(values, values[i]) == RankOf(values, values[j]) <==> values[i] == values[j]
  {
    TiesPositive(values, i);
    TiesPositive(values, j);
    if values[i] < values[j] { ScoreMonotone(values, values[i], values[j]); }
    if values[j] < values[i] { ScoreMonotone(values, values[j], values[i]); }
  }

  /** Two vectors with the same order pattern. */
  ghost predicate SamePattern(a: seq<real>, b: seq<real>) {
    |a| == |b| && forall i, j :: 0 <= i < |a| && 0 <= j < |a| ==> (a[i] < a[j] <==> b[i] < b[j])
  }

  ghost predicate OppositePattern(a: seq<real>, b: seq<real>) {
    |a| == |b| && forall i, j :: 0 <= i < |a| && 0 <= j < |a| ==> (a[i] < a[j] <==> b[j] < b[i])
  }

  lemma {:induction false} PatternCounts(a: seq<real>, b: seq<real>, x: real, y: real)
    requires |a| == |b| && forall i :: 0 <= i < |a| ==> (a[i] < x <==> b[i] < y) && (x < a[i] <==> y < b[i])
    ensures Below(a, x) == Below(b, y) && Ties(a, x) == Ties(b, y)
  {
    if a != [] {
      assert forall i :: 0 <= i < |a| - 1 ==> a[1..][i] == a[i + 1] && b[1..][i] == b[i + 1];
      PatternCounts(a[1..], b[1..], x, y);
    }
  }

  lemma {:induction false} OppositeCounts(a: seq<real>, b: seq<real>, x: real, y: real)
    requires |a| == |b| && forall i :: 0 <= i < |a| ==> (a[i] < x <==> y < b[i]) && (x < a[i] <==> b[i] < y)
    ensures Below(a, x) + Below(b, y) + Ties(a, x) == |a| && Ties(a, x) == Ties(b, y)
  {
    if a != [] {
      assert forall i :: 0 <= i < |a| - 1 ==> a[1..][i] == a[i + 1] && b[1..][i] == b[i + 1];
      OppositeCounts(a[1..], b[1..], x, y);
    }
  }

  /** Ranks depend on the order pattern only. */
  lemma RanksDependOnOrder(a: seq<real>, b: seq<real>)
    requires SamePattern(a, b)
    ensures RankVector(a) == RankVector(b)
  {
    forall i | 0 <= i < |a| ensures RankOf(a, a[i]) == RankOf(b, b[i]) {
      PatternCounts(a, b, a[i], b[i]);
    }
  }

  /** Reversing the order pattern reflects every rank about (n+1)/2. */
  lemma RanksReflect(a: seq<real>, b: seq<real>)
    requires OppositePattern(a, b)
    ensures |RankVector(b)| == |RankVector(a)|
    ensures forall i :: 0 <= i < |a| ==> RankVector(b)[i] == (|a| + 1) as real - RankVector(a)[i]
  {
    forall i | 0 <= i < |a| ensures RankOf(b, b[i]) == (|a| + 1) as real - RankOf(a, a[i]) {
      OppositeCounts(a, b, a[i], b[i]);
    }
  }

  lemma {:induction false} RemoveCounts(values: seq<real>, i: nat, x: real)
    requires i < |values|
    ensures Below(values, x) == Below(values[..i] + values[i + 1..], x) + (if values[i] < x then 1 else 0)
    ensures Ties(values, x) == Ties(values[..i] + values[i + 1..], x) + (if values[i] == x then 1 else 0)
  {
    assert values == values[..i] + values[i..];
    CountsConcat(values[..i], values[i..], x);
    CountsConcat(values[..i], values[i + 1..], x);
    assert values[i..][1..] == values[i + 1..];
  }

  lemma {:induction false} CountsPermute(a: seq<real>, b: seq<real>, x: real)
    requires multiset(a) == multiset(b)
    ensures Below(a, x) == Below(b, x) && Ties(a, x) == Ties(b, x)
  {
    if a == [] {
      EmptyMatch(b);
    } else {
      var i := DropMatching(a, b);
      CountsPermute(a[1..], b[..i] + b[i + 1..], x);
      RemoveCounts(b, i, x);
    }
  }

  /** Reordering the input leaves the rank of every value unchanged, so ranks permute with the input. */
  lemma RanksPermute(a: seq<real>, b: seq<real>, x: real)
    requires multiset(a) == multiset(b)
    ensures RankOf(a, x) == RankOf(b, x)
  {
    CountsPermute(a, b, x);
  }
}
