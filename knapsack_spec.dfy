/**
 * The 0/1 knapsack problem that the branch-and-bound search solves:
 * items with a weight and a value, selections of items, the ratio order
 * the search sorts by, and the fractional (greedy) relaxation whose value
 * bounds every selection from above.
 */
module KnapsackSpec {

  /** An item of the knapsack instance (struct Item). */
  datatype Item = Item(weight: int, value: int)

  predicate PositiveWeights(items: seq<Item>) {
    forall i :: 0 <= i < |items| ==> items[i].weight > 0
  }

  predicate NonNegativeValues(items: seq<Item>) {
    forall i :: 0 <= i < |items| ==> items[i].value >= 0
  }

  /** Value per unit of weight, computed exactly. */
  function Ratio(it: Item): (r: real)
    requires it.weight > 0
  {
    it.value as real / it.weight as real
  }

  /** A selection assigns "taken" or "left" to every item, position by position. */
  function PackValue(items: seq<Item>, s: seq<bool>): (v: int)
    requires |s| == |items|
  {
    if |s| == 0 then 0
    else (if s[0] then items[0].value else 0) + PackValue(items[1..], s[1..])
  }

  function PackWeight(items: seq<Item>, s: seq<bool>): (w: int)
    requires |s| == |items|
  {
    if |s| == 0 then 0
    else (if s[0] then items[0].weight else 0) + PackWeight(items[1..], s[1..])
  }

  /** A selection whose taken items fit in capacity W. */
  predicate IsPacking(items: seq<Item>, W: int, s: seq<bool>) {
    |s| == |items| && PackWeight(items, s) <= W
  }

  /** The selection that takes nothing. */
  function NoneTaken(n: nat): (s: seq<bool>)
    ensures |s| == n && forall i :: 0 <= i < n ==> !s[i]
  {
    if n == 0 then [] else [false] + NoneTaken(n - 1)
  }

  lemma {:induction false} NoneTakenIsEmpty(items: seq<Item>)
    ensures PackValue(items, NoneTaken(|items|)) == 0
    ensures PackWeight(items, NoneTaken(|items|)) == 0
    decreases |items|
  {
    if |items| > 0 {
      assert NoneTaken(|items|)[1..] == NoneTaken(|items| - 1);
      NoneTakenIsEmpty(items[1..]);
    }
  }

  /** Value and weight of a selection split along a concatenation of the items. */
  lemma {:induction false} PackConcat(a: seq<Item>, b: seq<Item>, s: seq<bool>, t: seq<bool>)
    requires |s| == |a| && |t| == |b|
    ensures PackValue(a + b, s + t) == PackValue(a, s) + PackValue(b, t)
    ensures PackWeight(a + b, s + t) == PackWeight(a, s) + PackWeight(b, t)
    decreases |a|
  {
    if |a| == 0 {
      assert a + b == b && s + t == t;
    } else {
      assert (a + b)[1..] == a[1..] + b;
      assert (s + t)[1..] == s[1..] + t;
      PackConcat(a[1..], b, s[1..], t);
    }
  }

  /** Value and weight of the prefix extended by one decision. */
  lemma ExtendSelection(items: seq<Item>, p: seq<bool>, b: bool)
    requires |p| < |items|
    ensures PackValue(items[..|p| + 1], p + [b])
         == PackValue(items[..|p|], p) + (if b then items[|p|].value else 0)
    ensures PackWeight(items[..|p| + 1], p + [b])
         == PackWeight(items[..|p|], p) + (if b then items[|p|].weight else 0)
  {
    assert items[..|p| + 1] == items[..|p|] + [items[|p|]];
    PackConcat(items[..|p|], [items[|p|]], p, [b]);
  }

  /** A selection is its prefix decisions followed by its suffix decisions. */
  lemma SplitSelection(items: seq<Item>, s: seq<bool>, k: nat)
    requires |s| == |items| && k <= |s|
    ensures PackValue(items, s) == PackValue(items[..k], s[..k]) + PackValue(items[k..], s[k..])
    ensures PackWeight(items, s) == PackWeight(items[..k], s[..k]) + PackWeight(items[k..], s[k..])
  {
    assert items == items[..k] + items[k..];
    assert s == s[..k] + s[k..];
    PackConcat(items[..k], items[k..], s[..k], s[k..]);
  }

  lemma {:induction false} PackWeightNonNegative(items: seq<Item>, s: seq<bool>)
    requires PositiveWeights(items) && |s| == |items|
    ensures PackWeight(items, s) >= 0
    ensures PackWeight(items, s) == 0 ==> PackValue(items, s) == 0
    decreases |items|
  {
    if |items| > 0 {
      PackWeightNonNegative(items[1..], s[1..]);
    }
  }

  /** Removing position k of a sequence removes one copy of its element from the multiset. */
  lemma RemoveAt(b: seq<Item>, k: nat)
    requires k < |b|
    ensures multiset(b[..k] + b[k + 1..]) == multiset(b) - multiset{b[k]}
  {
    assert b == b[..k] + [b[k]] + b[k + 1..];
    assert multiset(b) == multiset(b[..k]) + multiset{b[k]} + multiset(b[k + 1..]);
  }

  /** Re-inserting a decision for position k of b into a selection over b without that position. */
  lemma InsertDecision(b: seq<Item>, k: nat, t': seq<bool>, d: bool)
    requires k < |b| && |t'| == |b| - 1
    ensures PackValue(b, t'[..k] + [d] + t'[k..])
         == PackValue(b[..k] + b[k + 1..], t') + (if d then b[k].value else 0)
    ensures PackWeight(b, t'[..k] + [d] + t'[k..])
         == PackWeight(b[..k] + b[k + 1..], t') + (if d then b[k].weight else 0)
  {
    var x := b[k];
    assert t'[..k] + [d] + t'[k..] == t'[..k] + ([d] + t'[k..]);
    assert b == b[..k] + ([x] + b[k + 1..]);
    assert t' == t'[..k] + t'[k..];
    PackConcat(b[..k], [x] + b[k + 1..], t'[..k], [d] + t'[k..]);
    PackConcat([x], b[k + 1..], [d], t'[k..]);
    PackConcat(b[..k], b[k + 1..], t'[..k], t'[k..]);
  }

  /** The first item of a has a copy at some position k of its permutation b; the rests still match. */
  lemma MatchFirst(a: seq<Item>, b: seq<Item>) returns (k: nat)
    requires multiset(a) == multiset(b) && |a| > 0
    ensures k < |b| && b[k] == a[0]
    ensures multiset(a[1..]) == multiset(b[..k] + b[k + 1..])
  {
    assert a[0] in multiset(b);
    k :| 0 <= k < |b| && b[k] == a[0];
    RemoveAt(b, k);
    assert a == [a[0]] + a[1..];
  }

  /**
   * Reordering the items does not change which (value, weight) pairs can be
   * packed: every selection over a has a counterpart over any permutation b.
   */
  lemma {:induction false} TransferSelection(a: seq<Item>, b: seq<Item>, s: seq<bool>) returns (t: seq<bool>)
    requires multiset(a) == multiset(b) && |s| == |a|
    ensures |t| == |b|
    ensures PackValue(b, t) == PackValue(a, s) && PackWeight(b, t) == PackWeight(a, s)
    decreases |a|
  {
    if |a| == 0 {
      assert |b| == |multiset(b)| == 0;
      t := [];
    } else {
      var k := MatchFirst(a, b);
      var t' := TransferSelection(a[1..], b[..k] + b[k + 1..], s[1..]);
      t := t'[..k] + [s[0]] + t'[k..];
      InsertDecision(b, k, t', s[0]);
    }
  }

  // ---------------------------------------------------------------------
  // The ratio order (cmp) and the fractional relaxation (bound)
  // ---------------------------------------------------------------------

  /** `cmp`: a strictly before b when a has the larger value/weight ratio. */
  function Cmp(a: Item, b: Item): (r: bool)
    requires a.weight > 0 && b.weight > 0
    ensures r <==> a.value * b.weight > b.value * a.weight
  {
    CrossMultiply(a, b);
    Ratio(a) > Ratio(b)
  }

  lemma CrossMultiply(a: Item, b: Item)
    requires a.weight > 0 && b.weight > 0
    ensures Ratio(a) > Ratio(b) <==> a.value * b.weight > b.value * a.weight
  {}

  /** Sorted the way `sort(..., cmp)` leaves items: no item has a larger ratio than one before it. */
  predicate SortedByRatio(items: seq<Item>)
    requires PositiveWeights(items)
  {
    forall i, j :: 0 <= i < j < |items| ==> Ratio(items[j]) <= Ratio(items[i])
  }

  /**
   * The greedy fractional fill from the first item on: whole items while they
   * fit, then the fitting fraction of the first item that does not.
   */
  function Greedy(items: seq<Item>, cap: int): (g: real)
    requires PositiveWeights(items)
  {
    if |items| == 0 then 0.0
    else if items[0].weight <= cap then items[0].value as real + Greedy(items[1..], cap - items[0].weight)
    else (cap as real * items[0].value as real) / items[0].weight as real
  }

  /** The ratio of the item the greedy fill cuts (0 when every item fits whole). */
  function CriticalRatio(items: seq<Item>, cap: int): (rho: real)
    requires PositiveWeights(items)
  {
    if |items| == 0 then 0.0
    else if items[0].weight <= cap then CriticalRatio(items[1..], cap - items[0].weight)
    else Ratio(items[0])
  }

  lemma RatioScale(it: Item, rho: real)
    requires it.weight > 0
    ensures Ratio(it) <= rho ==> it.value as real <= rho * it.weight as real
    ensures Ratio(it) >= rho ==> it.value as real >= rho * it.weight as real
  {}

  lemma {:induction false} CriticalRatioAtMost(items: seq<Item>, cap: int, hi: real)
    requires PositiveWeights(items) && NonNegativeValues(items) && 0.0 <= hi
    requires forall i :: 0 <= i < |items| ==> Ratio(items[i]) <= hi
    ensures 0.0 <= CriticalRatio(items, cap) <= hi
    decreases |items|
  {
    if |items| > 0 {
      if items[0].weight <= cap {
        CriticalRatioAtMost(items[1..], cap - items[0].weight, hi);
      } else {
        assert items[0].value as real >= 0.0 && items[0].weight as real > 0.0;
      }
    }
  }

  lemma {:induction false} CriticalRatioNonNegative(items: seq<Item>, cap: int)
    requires PositiveWeights(items) && NonNegativeValues(items)
    ensures CriticalRatio(items, cap) >= 0.0
    decreases |items|
  {
    if |items| > 0 {
      if items[0].weight <= cap {
        CriticalRatioNonNegative(items[1..], cap - items[0].weight);
      } else {
        assert items[0].value as real >= 0.0 && items[0].weight as real > 0.0;
      }
    }
  }

  /** Every item at ratio at most rho: a selection's value is at most rho times its weight. */
  lemma {:induction false} ValueAtMostRatioTimesWeight(items: seq<Item>, s: seq<bool>, rho: real)
    requires PositiveWeights(items) && |s| == |items|
    requires forall i :: 0 <= i < |items| ==> Ratio(items[i]) <= rho
    ensures PackValue(items, s) as real <= rho * PackWeight(items, s) as real
    decreases |items|
  {
    if |items| > 0 {
      ValueAtMostRatioTimesWeight(items[1..], s[1..], rho);
      RatioScale(items[0], rho);
      var w0 := if s[0] then items[0].weight else 0;
      var w' := PackWeight(items[1..], s[1..]);
      assert rho * (w0 + w') as real == rho * w0 as real + rho * w' as real;
    }
  }

  /**
   * The exchange inequality for s: measured against the critical ratio rho
   * of the greedy fill, value(s) - rho * weight(s) <= Greedy - rho * cap.
   */
  ghost predicate ExchangeBound(items: seq<Item>, cap: int, s: seq<bool>)
    requires PositiveWeights(items) && |s| == |items|
  {
    Exchange(PackValue(items, s) as real, PackWeight(items, s) as real, Greedy(items, cap),
      CriticalRatio(items, cap), cap as real)
  }

  /** value - rho * weight <= greedy - rho * cap. */
  ghost predicate Exchange(value: real, weight: real, greedy: real, rho: real, cap: real) {
    value - rho * weight <= greedy - rho * cap
  }

  /** Arithmetic of one "item fits" step of the exchange argument. */
  lemma ExchangeFitStep(take: bool, value: real, weight: real, greedy: real, xv: real, xw: real,
                        v': real, w': real, g': real, rho: real, cap: real, restCap: real)
    requires greedy == xv + g'
    requires value == (if take then xv + v' else v')
    requires weight == (if take then xw + w' else w')
    requires restCap == cap - xw
    requires rho * xw <= xv
    requires Exchange(v', w', g', rho, restCap)
    ensures Exchange(value, weight, greedy, rho, cap)
  {}

  /** Arithmetic of the "item is cut" step: the fraction taken is worth rho * cap. */
  lemma FractionValue(value: real, weight: real, fraction: real, cap: real, v: real, w: real, rho: real)
    requires w > 0.0 && rho == v / w && fraction == (cap * v) / w
    requires value <= rho * weight
    ensures value - rho * weight <= fraction - rho * cap
  {}

  lemma ItemsAfterFirstAtMostFirst(items: seq<Item>)
    requires |items| > 0 && PositiveWeights(items) && NonNegativeValues(items) && SortedByRatio(items)
    ensures forall i :: 0 <= i < |items| ==> Ratio(items[i]) <= Ratio(items[0])
    ensures Ratio(items[0]) >= 0.0
  {}

  /** When the first item fits, the ratio the rest of the fill cuts at is at most its own. */
  lemma FitRatio(items: seq<Item>, cap: int)
    requires |items| > 0 && PositiveWeights(items) && NonNegativeValues(items) && SortedByRatio(items)
    ensures CriticalRatio(items[1..], cap - items[0].weight) * items[0].weight as real <= items[0].value as real
  {
    ItemsAfterFirstAtMostFirst(items);
    CriticalRatioAtMost(items[1..], cap - items[0].weight, Ratio(items[0]));
    RatioScale(items[0], CriticalRatio(items[1..], cap - items[0].weight));
  }

  /** The exchange inequality for items whose first item fits, given it for the rest. */
  lemma ExchangeFit(items: seq<Item>, cap: int, s: seq<bool>)
    requires |items| > 0 && PositiveWeights(items)
    requires |s| == |items| && items[0].weight <= cap
    requires CriticalRatio(items[1..], cap - items[0].weight) * items[0].weight as real <= items[0].value as real
    requires ExchangeBound(items[1..], cap - items[0].weight, s[1..])
    ensures ExchangeBound(items, cap, s)
  {
    var x, rest, rc := items[0], items[1..], cap - items[0].weight;
    assert CriticalRatio(items, cap) == CriticalRatio(rest, rc);
    ExchangeFitStep(s[0], PackValue(items, s) as real, PackWeight(items, s) as real, Greedy(items, cap),
      x.value as real, x.weight as real, PackValue(rest, s[1..]) as real, PackWeight(rest, s[1..]) as real,
      Greedy(rest, rc), CriticalRatio(items, cap), cap as real, rc as real);
  }

  /** The exchange inequality when the first item is the one the fill cuts. */
  lemma ExchangeCut(items: seq<Item>, cap: int, s: seq<bool>)
    requires |items| > 0 && PositiveWeights(items) && NonNegativeValues(items) && SortedByRatio(items)
    requires |s| == |items| && items[0].weight > cap
    ensures ExchangeBound(items, cap, s)
  {
    var x := items[0];
    ItemsAfterFirstAtMostFirst(items);
    ValueAtMostRatioTimesWeight(items, s, Ratio(x));
    FractionValue(PackValue(items, s) as real, PackWeight(items, s) as real, Greedy(items, cap),
      cap as real, x.value as real, x.weight as real, CriticalRatio(items, cap));
  }

  /**
   * The exchange argument behind the fractional bound: measured against the
   * critical ratio rho, no selection beats the greedy fill,
   * value(s) - rho * weight(s) <= Greedy - rho * cap.
   */
  lemma {:induction false} GreedyExchange(items: seq<Item>, cap: int, s: seq<bool>)
    requires PositiveWeights(items) && NonNegativeValues(items) && SortedByRatio(items)
    requires |s| == |items|
    ensures ExchangeBound(items, cap, s)
    decreases |items|
  {
    if |items| == 0 {
      assert CriticalRatio(items, cap) * cap as real == 0.0;
    } else if items[0].weight <= cap {
      GreedyExchange(items[1..], cap - items[0].weight, s[1..]);
      FitRatio(items, cap);
      ExchangeFit(items, cap, s);
    } else {
      ExchangeCut(items, cap, s);
    }
  }

  /** Arithmetic closing Dantzig's bound: rho >= 0 and weight <= cap. */
  lemma CloseBound(value: real, weight: real, greedy: real, rho: real, cap: real)
    requires rho >= 0.0 && weight <= cap
    requires value - rho * weight <= greedy - rho * cap
    ensures value <= greedy
  {}

  /**
   * Dantzig's bound: when the items are sorted by ratio, the greedy fractional
   * fill is worth at least as much as any 0/1 selection that fits in cap.
   */
  lemma GreedyDominates(items: seq<Item>, cap: int, s: seq<bool>)
    requires PositiveWeights(items) && NonNegativeValues(items) && SortedByRatio(items)
    requires IsPacking(items, cap, s)
    ensures PackValue(items, s) as real <= Greedy(items, cap)
  {
    GreedyExchange(items, cap, s);
    CriticalRatioNonNegative(items, cap);
    CloseBound(PackValue(items, s) as real, PackWeight(items, s) as real, Greedy(items, cap),
      CriticalRatio(items, cap), cap as real);
  }
}
