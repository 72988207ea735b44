/**
 * The cutting-stock column-generation skeleton: a restricted master problem
 * that prices every pattern with the dual values, a greedy pricing step that
 * builds one new cutting pattern, and the loop that keeps appending that
 * pattern while its reduced cost is below -epsilon. `double` values are exact
 * reals here; `int` values are unbounded.
 */
module ColumnGeneration {

  /** A piece type: how many pieces are demanded and how long each one is. */
  datatype Item = Item(demand: int, length: int)

  /** A cutting pattern: how many pieces of each type one roll yields, and the roll length they use. */
  datatype Pattern = Pattern(cuts: seq<int>, rollUsage: int)

  // ---------------------------------------------------------------------
  // Restricted master problem
  // ---------------------------------------------------------------------

  /** The dual worth of the first n cut counts: cuts[0]*duals[0] + ... + cuts[n-1]*duals[n-1]. */
  function DualWorth(cuts: seq<int>, duals: seq<real>, n: nat): (w: real)
    requires n <= |cuts| && n <= |duals|
  {
    if n == 0 then 0.0 else DualWorth(cuts, duals, n - 1) + cuts[n - 1] as real * duals[n - 1]
  }

  /** Every pattern has a cut count for each of the first n items. */
  predicate WellShaped(patterns: seq<Pattern>, n: nat) {
    forall i :: 0 <= i < |patterns| ==> n <= |patterns[i].cuts|
  }

  /** The summed dual worth, over n items, of the first m patterns. */
  function RmpObjective(patterns: seq<Pattern>, duals: seq<real>, n: nat, m: nat): (obj: real)
    requires m <= |patterns| && n <= |duals| && WellShaped(patterns, n)
  {
    if m == 0 then 0.0 else RmpObjective(patterns, duals, n, m - 1) + DualWorth(patterns[m - 1].cuts, duals, n)
  }

  /**
   * `solveRMP`: for every pattern, the sum of its cut counts weighted by the
   * duals, all added up. Neither the patterns nor the duals are changed.
   */
  method SolveRMP(patterns: seq<Pattern>, items: seq<Item>, dualValues: seq<real>) returns (objectiveValue: real)
    requires |items| <= |dualValues| && WellShaped(patterns, |items|)
    ensures objectiveValue == RmpObjective(patterns, dualValues, |items|, |patterns|)
  {
    var numItems := |items|;
    var numPatterns := |patterns|;
    objectiveValue := 0.0;
    for i := 0 to numPatterns
      invariant objectiveValue == RmpObjective(patterns, dualValues, numItems, i)
    {
      var patternCost := 0.0;
      for j := 0 to numItems
        invariant patternCost == DualWorth(patterns[i].cuts, dualValues, j)
      {
        patternCost := patternCost + patterns[i].cuts[j] as real * dualValues[j];
      }
      objectiveValue := objectiveValue + patternCost;
    }
  }

  /** Appending a pattern adds exactly its dual worth to the objective. */
  lemma RmpObjectiveAppend(patterns: seq<Pattern>, p: Pattern, duals: seq<real>, n: nat)
    requires n <= |duals| && WellShaped(patterns, n) && n <= |p.cuts|
    ensures WellShaped(patterns + [p], n)
    ensures RmpObjective(patterns + [p], duals, n, |patterns| + 1)
         == RmpObjective(patterns, duals, n, |patterns|) + DualWorth(p.cuts, duals, n)
  {
    RmpObjectivePrefix(patterns + [p], patterns, duals, n, |patterns|);
  }

  /** The objective over m patterns depends only on the first m of them. */
  lemma {:induction false} RmpObjectivePrefix(a: seq<Pattern>, b: seq<Pattern>, duals: seq<real>, n: nat, m: nat)
    requires m <= |a| && m <= |b| && a[..m] == b[..m]
    requires n <= |duals| && WellShaped(a, n) && WellShaped(b, n)
    ensures RmpObjective(a, duals, n, m) == RmpObjective(b, duals, n, m)
  {
    if m > 0 {
      assert a[m - 1] == a[..m][m - 1] == b[..m][m - 1] == b[m - 1];
      assert a[..m - 1] == a[..m][..m - 1];
      assert b[..m - 1] == b[..m][..m - 1];
      RmpObjectivePrefix(a, b, duals, n, m - 1);
    }
  }

  /** With non-negative cut counts and duals, the objective is non-negative. */
  lemma {:induction false} RmpObjectiveNonNegative(patterns: seq<Pattern>, duals: seq<real>, n: nat, m: nat)
    requires m <= |patterns| && n <= |duals| && WellShaped(patterns, n)
    requires forall j :: 0 <= j < n ==> duals[j] >= 0.0
    requires forall i, j :: 0 <= i < |patterns| && 0 <= j < n ==> patterns[i].cuts[j] >= 0
    ensures RmpObjective(patterns, duals, n, m) >= 0.0
  {
    if m > 0 {
      RmpObjectiveNonNegative(patterns, duals, n, m - 1);
      DualWorthNonNegative(patterns[m - 1].cuts, duals, n);
    }
  }

  lemma {:induction false} DualWorthNonNegative(cuts: seq<int>, duals: seq<real>, n: nat)
    requires n <= |cuts| && n <= |duals|
    requires forall j :: 0 <= j < n ==> duals[j] >= 0.0 && cuts[j] >= 0
    ensures DualWorth(cuts, duals, n) >= 0.0
  {
    if n > 0 {
      DualWorthNonNegative(cuts, duals, n - 1);
      assert cuts[n - 1] as real * duals[n - 1] >= 0.0;
    }
  }

  // ---------------------------------------------------------------------
  // Pricing
  // ---------------------------------------------------------------------

  /** The pricing step admits an item when its dual is positive and one more piece still fits. */
  predicate Admits(item: Item, dual: real, usage: int, rollWidth: int) {
    dual > 0.0 && usage + item.length <= rollWidth
  }

  /**
   * The pattern the greedy pricing step has built after the first n items:
   * an admitted item gets floor(dual) pieces and adds their length to the
   * usage; any other item gets none.
   */
  function Greedy(items: seq<Item>, rollWidth: int, duals: seq<real>, n: nat): (p: Pattern)
    requires n <= |items| && n <= |duals|
    ensures |p.cuts| == n
  {
    if n == 0 then Pattern([], 0)
    else
      var p := Greedy(items, rollWidth, duals, n - 1);
      if Admits(items[n - 1], duals[n - 1], p.rollUsage, rollWidth)
      then Pattern(p.cuts + [duals[n - 1].Floor], p.rollUsage + duals[n - 1].Floor * items[n - 1].length)
      else Pattern(p.cuts + [0], p.rollUsage)
  }

  /**
   * `generatePattern`: starts from all-zero cuts and no usage, and gives each
   * admitted item floor(dual) pieces, in item order.
   */
  method GeneratePattern(items: seq<Item>, rollWidth: int, dualValues: seq<real>) returns (newPattern: Pattern)
    requires |items| <= |dualValues|
    ensures newPattern == Greedy(items, rollWidth, dualValues, |items|)
  {
    var numItems := |items|;
    newPattern := Pattern(seq(numItems, _ => 0), 0);
    for i := 0 to numItems
      invariant |newPattern.cuts| == numItems
      invariant newPattern.cuts[..i] == Greedy(items, rollWidth, dualValues, i).cuts
      invariant forall k :: i <= k < numItems ==> newPattern.cuts[k] == 0
      invariant newPattern.rollUsage == Greedy(items, rollWidth, dualValues, i).rollUsage
    {
      if dualValues[i] > 0.0 && newPattern.rollUsage + items[i].length <= rollWidth {
        newPattern := newPattern.(cuts := newPattern.cuts[i := dualValues[i].Floor]);
        newPattern := newPattern.(rollUsage := newPattern.rollUsage + newPattern.cuts[i] * items[i].length);
      }
      assert newPattern.cuts[..i + 1] == newPattern.cuts[..i] + [newPattern.cuts[i]];
    }
    assert newPattern.cuts[..numItems] == newPattern.cuts;
  }

  /** Later items never change the cut counts of earlier ones. */
  lemma {:induction false} GreedyPrefix(items: seq<Item>, rollWidth: int, duals: seq<real>, i: nat, n: nat)
    requires i <= n <= |items| && n <= |duals|
    ensures Greedy(items, rollWidth, duals, n).cuts[..i] == Greedy(items, rollWidth, duals, i).cuts
  {
    if i < n {
      GreedyPrefix(items, rollWidth, duals, i, n - 1);
      var c := Greedy(items, rollWidth, duals, n).cuts;
      assert c[..n - 1] == Greedy(items, rollWidth, duals, n - 1).cuts;
      assert c[..i] == c[..n - 1][..i];
    }
  }

  /**
   * Item i gets floor(dual) pieces when it is admitted at the usage reached
   * before it, and none otherwise (no positive dual, or no room for a piece).
   */
  lemma GreedyCut(items: seq<Item>, rollWidth: int, duals: seq<real>, n: nat, i: nat)
    requires i < n <= |items| && n <= |duals|
    ensures Greedy(items, rollWidth, duals, n).cuts[i]
         == if Admits(items[i], duals[i], Greedy(items, rollWidth, duals, i).rollUsage, rollWidth)
            then duals[i].Floor else 0
  {
    GreedyPrefix(items, rollWidth, duals, i + 1, n);
    assert Greedy(items, rollWidth, duals, n).cuts[i] == Greedy(items, rollWidth, duals, n).cuts[..i + 1][i];
  }

  /** Every cut count is non-negative; it is zero for an item whose dual is not positive. */
  lemma GreedyCutsNonNegative(items: seq<Item>, rollWidth: int, duals: seq<real>, n: nat)
    requires n <= |items| && n <= |duals|
    ensures forall i :: 0 <= i < n ==> Greedy(items, rollWidth, duals, n).cuts[i] >= 0
    ensures forall i :: 0 <= i < n && duals[i] <= 0.0 ==> Greedy(items, rollWidth, duals, n).cuts[i] == 0
  {
    forall i | 0 <= i < n
      ensures Greedy(items, rollWidth, duals, n).cuts[i] >= 0
      ensures duals[i] <= 0.0 ==> Greedy(items, rollWidth, duals, n).cuts[i] == 0
    {
      GreedyCut(items, rollWidth, duals, n, i);
    }
  }

  /** The roll length the first n cut counts use: cuts[0]*length[0] + ... + cuts[n-1]*length[n-1]. */
  function Usage(cuts: seq<int>, items: seq<Item>, n: nat): (u: int)
    requires n <= |cuts| && n <= |items|
  {
    if n == 0 then 0 else Usage(cuts, items, n - 1) + cuts[n - 1] * items[n - 1].length
  }

  lemma {:induction false} UsagePrefix(a: seq<int>, b: seq<int>, items: seq<Item>, n: nat)
    requires n <= |a| && n <= |b| && n <= |items| && a[..n] == b[..n]
    ensures Usage(a, items, n) == Usage(b, items, n)
  {
    if n > 0 {
      assert a[n - 1] == a[..n][n - 1];
      assert b[n - 1] == b[..n][n - 1];
      assert a[..n - 1] == a[..n][..n - 1];
      assert b[..n - 1] == b[..n][..n - 1];
      UsagePrefix(a, b, items, n - 1);
    }
  }

  /** The usage the pricing step accumulates is the length its cut counts take up. */
  lemma {:induction false} GreedyUsage(items: seq<Item>, rollWidth: int, duals: seq<real>, n: nat)
    requires n <= |items| && n <= |duals|
    ensures Greedy(items, rollWidth, duals, n).rollUsage == Usage(Greedy(items, rollWidth, duals, n).cuts, items, n)
  {
    if n > 0 {
      var p, q := Greedy(items, rollWidth, duals, n - 1), Greedy(items, rollWidth, duals, n);
      GreedyUsage(items, rollWidth, duals, n - 1);
      assert q.cuts[..n - 1] == p.cuts;
      assert p.cuts[..n - 1] == p.cuts;
      UsagePrefix(q.cuts, p.cuts, items, n - 1);
    }
  }

  /**
   * Each admitted item is checked for room for one piece only. So when no
   * dual's floor exceeds 1, the pattern fits on the roll (or uses nothing).
   */
  lemma {:induction false} GreedyFits(items: seq<Item>, rollWidth: int, duals: seq<real>, n: nat)
    requires n <= |items| && n <= |duals|
    requires forall i :: 0 <= i < n ==> duals[i].Floor <= 1
    ensures Greedy(items, rollWidth, duals, n).rollUsage <= rollWidth || Greedy(items, rollWidth, duals, n).rollUsage == 0
  {
    if n > 0 {
      GreedyFits(items, rollWidth, duals, n - 1);
      var u := Greedy(items, rollWidth, duals, n - 1).rollUsage;
      if Admits(items[n - 1], duals[n - 1], u, rollWidth) {
        assert duals[n - 1].Floor == 0 || duals[n - 1].Floor == 1;
      }
    }
  }

  /**
   * Without the floor bound the pattern can overrun the roll: one item of
   * length 60 with dual 2.0 on a roll of 100 gets two pieces, using 120.
   */
  lemma GreedyOverfills()
    ensures Greedy([Item(1, 60)], 100, [2.0], 1) == Pattern([2], 120)
  {
    assert 2.0.Floor == 2;
  }

  /** The reduced cost of a pattern: its dual worth less the roll length it uses. */
  function ReducedCostOf(p: Pattern, duals: seq<real>, n: nat): (rc: real)
    requires n <= |p.cuts| && n <= |duals|
  {
    DualWorth(p.cuts, duals, n) - p.rollUsage as real
  }

  /** The reduced-cost loop in the body of the column-generation loop. */
  method ReducedCost(newPattern: Pattern, items: seq<Item>, dualValues: seq<real>) returns (reducedCost: real)
    requires |items| <= |newPattern.cuts| && |items| <= |dualValues|
    ensures reducedCost == ReducedCostOf(newPattern, dualValues, |items|)
  {
    reducedCost := 0.0;
    for i := 0 to |items|
      invariant reducedCost == DualWorth(newPattern.cuts, dualValues, i)
    {
      reducedCost := reducedCost + newPattern.cuts[i] as real * dualValues[i];
    }
    reducedCost := reducedCost - newPattern.rollUsage as real;
  }

  /** With no positive dual the pricing step yields the empty pattern, whose reduced cost is 0. */
  lemma {:induction false} NoPositiveDual(items: seq<Item>, rollWidth: int, duals: seq<real>, n: nat)
    requires n <= |items| && n <= |duals|
    requires forall i :: 0 <= i < n ==> duals[i] <= 0.0
    ensures Greedy(items, rollWidth, duals, n) == Pattern(seq(n, _ => 0), 0)
    ensures ReducedCostOf(Greedy(items, rollWidth, duals, n), duals, n) == 0.0
  {
    if n > 0 {
      NoPositiveDual(items, rollWidth, duals, n - 1);
      assert seq(n, _ => 0) == seq(n - 1, _ => 0) + [0];
    }
    DualWorthOfZeros(seq(n, _ => 0), duals, n);
  }

  lemma {:induction false} DualWorthOfZeros(cuts: seq<int>, duals: seq<real>, n: nat)
    requires n <= |cuts| && n <= |duals| && forall j :: 0 <= j < n ==> cuts[j] == 0
    ensures DualWorth(cuts, duals, n) == 0.0
  {
    if n > 0 {
      DualWorthOfZeros(cuts, duals, n - 1);
    }
  }

  // ---------------------------------------------------------------------
  // The column-generation loop
  // ---------------------------------------------------------------------

  /**
   * The `while (true)` loop of `main`, run for at most fuel rounds. Each round
   * solves the master problem, prices a pattern and stops when its reduced
   * cost is at least -epsilon; otherwise it appends the pattern. The duals are
   * never updated, so every round prices the same pattern: the loop stops in
   * its first round or never, and the patterns only grow, by copies of that
   * pattern.
   */
  method GenerateColumns(items: seq<Item>, rollWidth: int, dualValues: seq<real>, patterns0: seq<Pattern>,
                         epsilon: real, fuel: nat)
    returns (patterns: seq<Pattern>, converged: bool)
    requires |items| <= |dualValues| && WellShaped(patterns0, |items|)
    ensures WellShaped(patterns, |items|)
    ensures |patterns0| <= |patterns| && patterns[..|patterns0|] == patterns0
    ensures forall k :: |patterns0| <= k < |patterns| ==> patterns[k] == Greedy(items, rollWidth, dualValues, |items|)
    ensures converged <==> fuel > 0 && ReducedCostOf(Greedy(items, rollWidth, dualValues, |items|), dualValues, |items|) >= -epsilon
    ensures |patterns| == |patterns0| +
      if ReducedCostOf(Greedy(items, rollWidth, dualValues, |items|), dualValues, |items|) >= -epsilon then 0 else fuel
  {
    ghost var g := Greedy(items, rollWidth, dualValues, |items|);
    patterns := patterns0;
    converged := false;
    var round := 0;
    while round < fuel
      invariant round <= fuel
      invariant WellShaped(patterns, |items|)
      invariant |patterns| == |patterns0| + round && patterns[..|patterns0|] == patterns0
      invariant forall k :: |patterns0| <= k < |patterns| ==> patterns[k] == g
      invariant round > 0 ==> ReducedCostOf(g, dualValues, |items|) < -epsilon
    {
      var objValue := SolveRMP(patterns, items, dualValues);
      var newPattern := GeneratePattern(items, rollWidth, dualValues);
      var reducedCost := ReducedCost(newPattern, items, dualValues);
      if reducedCost >= -epsilon {
        converged := true;
        break;
      }
      patterns := patterns + [newPattern];
      round := round + 1;
    }
  }

  /** The data `main` hard-codes. */
  const RollWidth := 110
  const HardCodedItems := [Item(5, 20), Item(7, 45), Item(4, 50)]
  const HardCodedPatterns := [Pattern([5, 0, 0], 100), Pattern([0, 2, 0], 90), Pattern([0, 0, 2], 100)]
  const UnitDuals := [1.0, 1.0, 1.0]
  const Epsilon := 0.01

  /** With the hard-coded data the pricing step cuts one 20 and one 45: usage 65, reduced cost -63. */
  lemma HardCodedPricing()
    ensures Greedy(HardCodedItems, RollWidth, UnitDuals, 3) == Pattern([1, 1, 0], 65)
    ensures ReducedCostOf(Pattern([1, 1, 0], 65), UnitDuals, 3) == -63.0
  {
    assert 1.0.Floor == 1;
    assert Greedy(HardCodedItems, RollWidth, UnitDuals, 1) == Pattern([1], 20);
    assert Greedy(HardCodedItems, RollWidth, UnitDuals, 2) == Pattern([1, 1], 65);
  }

  /** Copies of one pattern after the first m0 add its worth once per copy. */
  lemma {:induction false} RmpObjectiveRepeat(patterns: seq<Pattern>, p: Pattern, duals: seq<real>, n: nat, m0: nat, m: nat)
    requires m0 <= m <= |patterns| && n <= |duals| && WellShaped(patterns, n) && n <= |p.cuts|
    requires forall k :: m0 <= k < |patterns| ==> patterns[k] == p
    ensures RmpObjective(patterns, duals, n, m)
         == RmpObjective(patterns, duals, n, m0) + (m - m0) as real * DualWorth(p.cuts, duals, n)
  {
    if m > m0 {
      RmpObjectiveRepeat(patterns, p, duals, n, m0, m - 1);
      var d := DualWorth(p.cuts, duals, n);
      assert (m - m0) as real * d == (m - 1 - m0) as real * d + d;
    }
  }

  /**
   * `main`'s loop on its own data never stops: every round appends the pattern
   * [1, 1, 0] with usage 65, so after fuel rounds there are 3 + fuel patterns
   * and the master objective has grown from 9 by 2 per round.
   */
  method RunHardCoded(fuel: nat) returns (patterns: seq<Pattern>, converged: bool)
    ensures !converged
    ensures |patterns| == 3 + fuel && patterns[..3] == HardCodedPatterns
    ensures forall k :: 3 <= k < |patterns| ==> patterns[k] == Pattern([1, 1, 0], 65)
    ensures WellShaped(patterns, 3)
    ensures RmpObjective(patterns, UnitDuals, 3, |patterns|) == 9.0 + 2.0 * fuel as real
  {
    HardCodedPricing();
    patterns, converged := GenerateColumns(HardCodedItems, RollWidth, UnitDuals, HardCodedPatterns, Epsilon, fuel);
    RmpObjectiveRepeat(patterns, Pattern([1, 1, 0], 65), UnitDuals, 3, 3, |patterns|);
    RmpObjectivePrefix(patterns, HardCodedPatterns, UnitDuals, 3, 3);
  }
}
