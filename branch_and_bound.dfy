/**
 * Breadth-first branch-and-bound for the 0/1 knapsack problem: sort the
 * items by value/weight ratio, then explore a FIFO queue of partial
 * decisions, pruning every node whose fractional bound cannot beat the best
 * profit found so far.
 */
module BranchAndBound {
  import opened KnapsackSpec

  /**
   * A node of the search tree (struct Node): the items items[0..level] have
   * been decided, giving profit and weight; bound is the node's fractional bound.
   */
  datatype Node = Node(level: int, profit: int, weight: int, bound: real)

  /** What `bound` computes for u: 0 when u is already full, else its profit plus the greedy fill of the rest. */
  function NodeBound(u: Node, W: int, items: seq<Item>): (b: real)
    requires PositiveWeights(items) && -1 <= u.level < |items|
  {
    if u.weight >= W then 0.0 else u.profit as real + Greedy(items[u.level + 1..], W - u.weight)
  }

  lemma SuffixKeepsOrder(items: seq<Item>, k: nat)
    requires PositiveWeights(items) && k <= |items|
    ensures PositiveWeights(items[k..])
    ensures SortedByRatio(items) ==> SortedByRatio(items[k..])
    ensures NonNegativeValues(items) ==> NonNegativeValues(items[k..])
  {
    if SortedByRatio(items) {
      forall i, j | 0 <= i < j < |items[k..]| ensures Ratio(items[k..][j]) <= Ratio(items[k..][i]) {
        assert items[k..][i] == items[k + i] && items[k..][j] == items[k + j];
      }
    }
  }

  /**
   * The bound of a node that is not full is at least the profit of any 0/1
   * completion by the items after it that fits in the remaining capacity.
   */
  lemma BoundDominatesCompletions(items: seq<Item>, W: int, u: Node, t: seq<bool>)
    requires PositiveWeights(items) && NonNegativeValues(items) && SortedByRatio(items)
    requires -1 <= u.level < |items| && u.weight < W
    requires |t| == |items| - (u.level + 1)
    requires u.weight + PackWeight(items[u.level + 1..], t) <= W
    ensures u.profit as real + PackValue(items[u.level + 1..], t) as real <= NodeBound(u, W, items)
  {
    SuffixKeepsOrder(items, u.level + 1);
    GreedyDominates(items[u.level + 1..], W - u.weight, t);
  }

  /** `bound(u, n, W, items)`. */
  method ComputeBound(u: Node, n: int, W: int, items: seq<Item>) returns (r: real)
    requires n == |items| && PositiveWeights(items) && -1 <= u.level < n
    ensures r == NodeBound(u, W, items)
  {
    if u.weight >= W {
      return 0.0;
    }
    var profitBound := u.profit as real;
    var j := u.level + 1;
    var totWeight := u.weight;
    while j < n && totWeight + items[j].weight <= W
      invariant u.level + 1 <= j <= n
      invariant u.weight <= totWeight <= W
      invariant profitBound + Greedy(items[j..], W - totWeight) == NodeBound(u, W, items)
    {
      assert items[j..][1..] == items[j + 1..];
      totWeight := totWeight + items[j].weight;
      profitBound := profitBound + items[j].value as real;
      j := j + 1;
    }
    if j < n {
      profitBound := profitBound + ((W - totWeight) as real * items[j].value as real) / items[j].weight as real;
    }
    r := profitBound;
  }

  /** a[..i+1] while a[j] sinks into place: sorted apart from position j, and a[j] outranks everything after it. */
  ghost predicate Sinking(s: seq<Item>, i: int, j: int)
    requires PositiveWeights(s) && 0 <= j <= i < |s|
  {
    (forall k, l :: 0 <= k < l <= i && k != j && l != j ==> Ratio(s[l]) <= Ratio(s[k]))
    && (forall l :: j < l <= i ==> Ratio(s[l]) <= Ratio(s[j]))
  }

  ghost predicate SortedUpTo(s: seq<Item>, i: int)
    requires PositiveWeights(s) && 0 <= i <= |s|
  {
    forall k, l :: 0 <= k < l < i ==> Ratio(s[l]) <= Ratio(s[k])
  }

  lemma StartSinking(s: seq<Item>, i: int)
    requires PositiveWeights(s) && 0 <= i < |s| && SortedUpTo(s, i)
    ensures Sinking(s, i, i)
  {}

  lemma SwapDown(s: seq<Item>, i: int, j: int)
    requires PositiveWeights(s) && 0 < j <= i < |s| && Sinking(s, i, j)
    requires Ratio(s[j]) > Ratio(s[j - 1])
    ensures PositiveWeights(s[j - 1 := s[j]][j := s[j - 1]])
    ensures Sinking(s[j - 1 := s[j]][j := s[j - 1]], i, j - 1)
  {}

  lemma StopSinking(s: seq<Item>, i: int, j: int)
    requires PositiveWeights(s) && 0 <= j <= i < |s| && Sinking(s, i, j)
    requires j == 0 || Ratio(s[j]) <= Ratio(s[j - 1])
    ensures SortedUpTo(s, i + 1)
  {}

  /** Sinks a[i] past every earlier item of smaller ratio, so that a[..i+1] is sorted. */
  method Sink(a: array<Item>, i: int)
    requires 0 <= i < a.Length && PositiveWeights(a[..]) && SortedUpTo(a[..], i)
    modifies a
    ensures multiset(a[..]) == multiset(old(a[..]))
    ensures PositiveWeights(a[..]) && SortedUpTo(a[..], i + 1)
    ensures a[i + 1..] == old(a[i + 1..])
  {
    StartSinking(a[..], i);
    var j := i;
    while j > 0 && Cmp(a[j], a[j - 1])
      invariant 0 <= j <= i
      invariant multiset(a[..]) == multiset(old(a[..]))
      invariant PositiveWeights(a[..])
      invariant Sinking(a[..], i, j)
      invariant a[i + 1..] == old(a[i + 1..])
    {
      SwapDown(a[..], i, j);
      a[j - 1], a[j] := a[j], a[j - 1];
      j := j - 1;
    }
    StopSinking(a[..], i, j);
  }

  /** The sort at the start of `knapsack`: the whole vector, ordered by `cmp`, here as an insertion sort in place. */
  method SortByRatio(a: array<Item>)
    requires PositiveWeights(a[..])
    modifies a
    ensures multiset(a[..]) == multiset(old(a[..]))
    ensures PositiveWeights(a[..])
    ensures SortedByRatio(a[..])
  {
    var i := 0;
    while i < a.Length
      invariant 0 <= i <= a.Length
      invariant multiset(a[..]) == multiset(old(a[..]))
      invariant PositiveWeights(a[..])
      invariant SortedUpTo(a[..], i)
    {
      Sink(a, i);
      i := i + 1;
    }
  }

  // ---------------------------------------------------------------------
  // Bookkeeping for the search: decision paths, coverage, termination
  // ---------------------------------------------------------------------

  /** Node u is the outcome of the decisions path on items[0..u.level]. */
  ghost predicate Tracks(items: seq<Item>, u: Node, path: seq<bool>) {
    -1 <= u.level < |items| && |path| == u.level + 1
    && u.profit == PackValue(items[..u.level + 1], path)
    && u.weight == PackWeight(items[..u.level + 1], path)
  }

  /** Every packing that starts with the decisions path is worth at most m. */
  ghost predicate Settled(items: seq<Item>, W: int, path: seq<bool>, m: int) {
    forall s :: IsPacking(items, W, s) && path <= s ==> PackValue(items, s) <= m
  }

  /** Every packing worth more than m starts with the decisions of some queued node. */
  ghost predicate Covered(items: seq<Item>, W: int, paths: seq<seq<bool>>, m: int) {
    forall s :: IsPacking(items, W, s) ==>
      PackValue(items, s) <= m || exists k :: 0 <= k < |paths| && paths[k] <= s
  }

  /** Padding a prefix of decisions with "left" keeps its value and weight. */
  lemma PadSelection(items: seq<Item>, c: seq<bool>, none: seq<bool>)
    requires |c| <= |items| && none == NoneTaken(|items| - |c|)
    ensures PackValue(items, c + none) == PackValue(items[..|c|], c)
    ensures PackWeight(items, c + none) == PackWeight(items[..|c|], c)
  {
    var k := |c|;
    var a, b := items[..k], items[k..];
    assert items == a + b;
    PackConcat(a, b, c, none);
    NoneTakenIsEmpty(b);
  }

  /** A node decided on every item is settled once its profit is accounted for. */
  lemma LeafSettled(items: seq<Item>, W: int, u: Node, path: seq<bool>, m: int)
    requires Tracks(items, u, path) && u.level == |items| - 1 && u.profit <= m
    ensures Settled(items, W, path, m)
  {
    assert items[..|items|] == items;
    forall s | IsPacking(items, W, s) && path <= s ensures PackValue(items, s) <= m {
      assert s == path;
    }
  }

  /**
   * A child that is not queued is settled: either its bound is at most m, or
   * it is already full and its own profit is at most m.
   */
  lemma ChildSettled(items: seq<Item>, W: int, child: Node, path: seq<bool>, m: int)
    requires PositiveWeights(items) && NonNegativeValues(items) && SortedByRatio(items)
    requires Tracks(items, child, path)
    requires child.weight <= W ==> child.profit <= m
    requires NodeBound(child, W, items) <= m as real
    ensures Settled(items, W, path, m)
  {
    forall s | IsPacking(items, W, s) && path <= s ensures PackValue(items, s) <= m {
      var L := |path|;
      SplitSelection(items, s, L);
      assert s[..L] == path;
      SuffixKeepsOrder(items, L);
      PackWeightNonNegative(items[L..], s[L..]);
      if child.weight < W {
        BoundDominatesCompletions(items, W, child, s[L..]);
      }
    }
  }

  /** A settled path can leave the coverage set. */
  lemma DropSettled(items: seq<Item>, W: int, paths: seq<seq<bool>>, p: seq<bool>, rest: seq<seq<bool>>, m: int)
    requires Covered(items, W, paths + ([p] + rest), m) && Settled(items, W, p, m)
    ensures Covered(items, W, paths + rest, m)
  {
    var all, next := paths + ([p] + rest), paths + rest;
    forall s | IsPacking(items, W, s)
      ensures PackValue(items, s) <= m || exists k :: 0 <= k < |next| && next[k] <= s
    {
      if PackValue(items, s) > m {
        var k :| 0 <= k < |all| && all[k] <= s;
        if k < |paths| {
          assert next[k] == all[k];
        } else if k > |paths| {
          assert next[k - 1] == all[k];
        }
      }
    }
  }

  /** A covering path can be replaced by its two one-decision extensions. */
  lemma SplitCovered(items: seq<Item>, W: int, paths: seq<seq<bool>>, p: seq<bool>, m: int)
    requires |p| < |items| && Covered(items, W, paths + [p], m)
    ensures Covered(items, W, paths + [p + [true], p + [false]], m)
  {
    var all, next := paths + [p], paths + [p + [true], p + [false]];
    forall s | IsPacking(items, W, s)
      ensures PackValue(items, s) <= m || exists k :: 0 <= k < |next| && next[k] <= s
    {
      if PackValue(items, s) > m {
        var k :| 0 <= k < |all| && all[k] <= s;
        if k < |paths| {
          assert next[k] == all[k];
        } else {
          assert p + [s[|p|]] == s[..|p| + 1];
          if s[|p|] {
            assert next[|paths|] <= s;
          } else {
            assert next[|paths| + 1] <= s;
          }
        }
      }
    }
  }

  /**
   * The invariant of the queue loop. Q and the ghost paths agree node by node:
   * each queued node tracks its path, is worth at most the best profit m, and
   * is not full unless it is the root. m >= 0, and best is a packing worth m
   * whenever one can exist. With non-negative values, every packing worth more
   * than m extends a queued path or a pending one (popped, children not yet
   * queued or settled).
   */
  ghost predicate Searching(items: seq<Item>, W: int, Q: seq<Node>, paths: seq<seq<bool>>,
                            pending: seq<seq<bool>>, m: int, best: seq<bool>)
  {
    |paths| == |Q|
    && (forall k {:trigger Tracks(items, Q[k], paths[k])} :: 0 <= k < |Q| ==>
          Tracks(items, Q[k], paths[k]) && Q[k].profit <= m && (Q[k].level >= 0 ==> Q[k].weight < W))
    && m >= 0
    && ((m > 0 || W >= 0) ==> IsPacking(items, W, best) && PackValue(items, best) == m)
    && (NonNegativeValues(items) ==> Covered(items, W, paths + pending, m))
  }

  lemma SearchStart(items: seq<Item>, W: int)
    ensures Searching(items, W, [Node(-1, 0, 0, 0.0)], [[]], [], 0, NoneTaken(|items|))
  {
    NoneTakenIsEmpty(items);
    assert items[..0] == [];
    var paths: seq<seq<bool>> := [[]];
    forall s | IsPacking(items, W, s)
      ensures PackValue(items, s) <= 0 || exists k :: 0 <= k < |paths + []| && (paths + [])[k] <= s
    {
      assert (paths + [])[0] <= s;
    }
  }

  /** Popping the front node makes its path pending. */
  lemma SearchPop(items: seq<Item>, W: int, Q: seq<Node>, paths: seq<seq<bool>>, m: int, best: seq<bool>)
    requires Searching(items, W, Q, paths, [], m, best) && |Q| > 0
    ensures Tracks(items, Q[0], paths[0]) && Q[0].profit <= m && (Q[0].level >= 0 ==> Q[0].weight < W)
    ensures Searching(items, W, Q[1..], paths[1..], [paths[0]], m, best)
  {
    assert Tracks(items, Q[0], paths[0]);
    forall k | 0 <= k < |Q| - 1
      ensures Tracks(items, Q[1..][k], paths[1..][k]) && Q[1..][k].profit <= m
      ensures Q[1..][k].level >= 0 ==> Q[1..][k].weight < W
    {
      assert Q[1..][k] == Q[k + 1] && paths[1..][k] == paths[k + 1];
      assert Tracks(items, Q[k + 1], paths[k + 1]);
    }
    if NonNegativeValues(items) {
      var all, next := paths + [], paths[1..] + [paths[0]];
      forall s | IsPacking(items, W, s)
        ensures PackValue(items, s) <= m || exists k :: 0 <= k < |next| && next[k] <= s
      {
        if PackValue(items, s) > m {
          var k :| 0 <= k < |all| && all[k] <= s;
          if k == 0 {
            assert next[|paths| - 1] == all[0];
          } else {
            assert next[k - 1] == all[k];
          }
        }
      }
    }
  }

  /** A popped node decided on every item is dropped. */
  lemma SearchLeaf(items: seq<Item>, W: int, Q: seq<Node>, paths: seq<seq<bool>>, p: seq<bool>,
                   m: int, best: seq<bool>, u: Node)
    requires Searching(items, W, Q, paths, [p], m, best)
    requires Tracks(items, u, p) && u.level == |items| - 1 && u.profit <= m
    ensures Searching(items, W, Q, paths, [], m, best)
  {
    if NonNegativeValues(items) {
      LeafSettled(items, W, u, p, m);
      assert paths + ([p] + []) == paths + [p];
      DropSettled(items, W, paths, p, [], m);
      assert Covered(items, W, paths + [], m);
    }
  }

  /** A popped node that is not a leaf leaves its two children pending. */
  lemma SearchSplit(items: seq<Item>, W: int, Q: seq<Node>, paths: seq<seq<bool>>, p: seq<bool>,
                    m: int, best: seq<bool>)
    requires Searching(items, W, Q, paths, [p], m, best) && |p| < |items|
    ensures Searching(items, W, Q, paths, [p + [true], p + [false]], m, best)
  {
    if NonNegativeValues(items) {
      SplitCovered(items, W, paths, p, m);
    }
  }

  /** A child that fits and beats m becomes the new best. */
  lemma SearchRaise(items: seq<Item>, W: int, Q: seq<Node>, paths: seq<seq<bool>>, pending: seq<seq<bool>>,
                    m: int, best: seq<bool>, c: Node, pc: seq<bool>)
    requires Searching(items, W, Q, paths, pending, m, best)
    requires Tracks(items, c, pc) && c.weight <= W && c.profit > m
    ensures Searching(items, W, Q, paths, pending, c.profit, pc + NoneTaken(|items| - |pc|))
  {
    PadSelection(items, pc, NoneTaken(|items| - |pc|));
    forall k | 0 <= k < |Q|
      ensures Tracks(items, Q[k], paths[k]) && Q[k].profit <= c.profit && (Q[k].level >= 0 ==> Q[k].weight < W)
    {
      assert Tracks(items, Q[k], paths[k]);
    }
    if NonNegativeValues(items) {
      assert Covered(items, W, paths + pending, m);
    }
  }

  /** A pending child whose bound beats m joins the back of the queue. */
  lemma SearchEnqueue(items: seq<Item>, W: int, Q: seq<Node>, paths: seq<seq<bool>>, pc: seq<bool>,
                      rest: seq<seq<bool>>, m: int, best: seq<bool>, c: Node)
    requires PositiveWeights(items)
    requires Searching(items, W, Q, paths, [pc] + rest, m, best)
    requires Tracks(items, c, pc) && (c.weight <= W ==> c.profit <= m)
    requires NodeBound(c, W, items) > m as real
    ensures Searching(items, W, Q + [c], paths + [pc], rest, m, best)
  {
    QueuedNotFull(items, W, c, m);
    forall k | 0 <= k < |Q| + 1
      ensures Tracks(items, (Q + [c])[k], (paths + [pc])[k]) && (Q + [c])[k].profit <= m
      ensures (Q + [c])[k].level >= 0 ==> (Q + [c])[k].weight < W
    {
      if k < |Q| {
        assert (Q + [c])[k] == Q[k] && (paths + [pc])[k] == paths[k];
        assert Tracks(items, Q[k], paths[k]);
      } else {
        assert (Q + [c])[k] == c && (paths + [pc])[k] == pc;
      }
    }
    assert (paths + [pc]) + rest == paths + ([pc] + rest);
  }

  /** A pending child whose bound does not beat m is settled and dropped. */
  lemma SearchDiscard(items: seq<Item>, W: int, Q: seq<Node>, paths: seq<seq<bool>>, pc: seq<bool>,
                      rest: seq<seq<bool>>, m: int, best: seq<bool>, c: Node)
    requires PositiveWeights(items) && SortedByRatio(items)
    requires Searching(items, W, Q, paths, [pc] + rest, m, best)
    requires Tracks(items, c, pc) && (c.weight <= W ==> c.profit <= m)
    requires NodeBound(c, W, items) <= m as real
    ensures Searching(items, W, Q, paths, rest, m, best)
  {
    if NonNegativeValues(items) {
      ChildSettled(items, W, c, pc, m);
      DropSettled(items, W, paths, pc, rest, m);
    }
  }

  /** A queued node with a bound above m >= 0 is not full. */
  lemma QueuedNotFull(items: seq<Item>, W: int, v: Node, m: int)
    requires PositiveWeights(items) && -1 <= v.level < |items| && m >= 0
    requires NodeBound(v, W, items) > m as real
    ensures v.weight < W
  {}

  function Pow2(k: nat): (r: nat)
    ensures r >= 1
  {
    if k == 0 then 1 else 2 * Pow2(k - 1)
  }

  /** The most nodes the subtree under u can still enqueue, u included. */
  function NodePotential(u: Node, n: int): (p: nat) {
    if -1 <= u.level < n then Pow2((n - u.level) as nat) - 1 else 0
  }

  function Potential(q: seq<Node>, n: int): (p: nat) {
    if q == [] then 0 else NodePotential(q[0], n) + Potential(q[1..], n)
  }

  lemma {:induction false} PotentialAppend(a: seq<Node>, b: seq<Node>, n: int)
    ensures Potential(a + b, n) == Potential(a, n) + Potential(b, n)
    decreases |a|
  {
    if a == [] {
      assert a + b == b;
    } else {
      assert (a + b)[1..] == a[1..] + b;
      PotentialAppend(a[1..], b, n);
    }
  }

  lemma ChildPotential(u: Node, c: Node, n: int)
    requires -1 <= u.level < n - 1 && c.level == u.level + 1
    ensures NodePotential(u, n) == 2 * NodePotential(c, n) + 1
  {}

  // ---------------------------------------------------------------------
  // The search
  // ---------------------------------------------------------------------

  /**
   * The step `knapsack` runs for each child of a popped node: give the child
   * its bound, and queue it at the back when that bound exceeds the incumbent
   * profit. The child's pending path pc is queued with it or, when it is
   * pruned, settled. The second ensures follows from the first, since
   * NodeBound does not read the bound field; it is stated separately because
   * callers use it directly, which keeps their proofs cheap.
   */
  method Offer(v: Node, Q: seq<Node>, maxProfit: int, W: int, items: seq<Item>,
               ghost paths: seq<seq<bool>>, ghost pc: seq<bool>, ghost rest: seq<seq<bool>>, ghost best: seq<bool>)
    returns (v': Node, Q': seq<Node>, ghost paths': seq<seq<bool>>, ghost pushed: bool)
    requires PositiveWeights(items) && SortedByRatio(items)
    requires Searching(items, W, Q, paths, [pc] + rest, maxProfit, best)
    requires Tracks(items, v, pc) && (v.weight <= W ==> v.profit <= maxProfit)
    ensures v' == v.(bound := NodeBound(v, W, items))
    ensures v' == Node(v.level, v.profit, v.weight, v'.bound) && v'.bound == NodeBound(v', W, items)
    ensures pushed <==> v'.bound > maxProfit as real
    ensures Q' == if pushed then Q + [v'] else Q
    ensures Searching(items, W, Q', paths', rest, maxProfit, best)
    ensures Potential(Q', |items|) == Potential(Q, |items|) + (if pushed then NodePotential(v, |items|) else 0)
  {
    var b := ComputeBound(v, |items|, W, items);
    v' := v.(bound := b);
    Q', paths', pushed := Q, paths, false;
    if v'.bound > maxProfit as real {
      SearchEnqueue(items, W, Q, paths, pc, rest, maxProfit, best, v');
      PotentialAppend(Q, [v'], |items|);
      Q', paths', pushed := Q + [v'], paths + [pc], true;
    } else {
      SearchDiscard(items, W, Q, paths, pc, rest, maxProfit, best, v');
    }
  }

  /**
   * The first half of the loop body for a popped node u: v becomes the child
   * that takes item u.level + 1, and it raises the best profit when it fits
   * and beats it.
   */
  method TakeChild(u: Node, v: Node, maxProfit: int, W: int, items: seq<Item>, ghost Q: seq<Node>,
                   ghost paths: seq<seq<bool>>, ghost path: seq<bool>, ghost best: seq<bool>)
    returns (v': Node, maxProfit': int, ghost best': seq<bool>)
    requires PositiveWeights(items)
    requires Searching(items, W, Q, paths, [path + [true], path + [false]], maxProfit, best)
    requires Tracks(items, u, path) && u.level < |items| - 1
    ensures v' == Node(u.level + 1, u.profit + items[u.level + 1].value, u.weight + items[u.level + 1].weight, v.bound)
    ensures maxProfit' == (if v'.weight <= W && v'.profit > maxProfit then v'.profit else maxProfit)
    ensures Tracks(items, v', path + [true]) && (v'.weight <= W ==> v'.profit <= maxProfit')
    ensures Searching(items, W, Q, paths, [path + [true], path + [false]], maxProfit', best')
  {
    ExtendSelection(items, path, true);
    best' := best;
    maxProfit' := maxProfit;
    v' := v.(level := u.level + 1);
    v' := v'.(weight := u.weight + items[v'.level].weight);
    v' := v'.(profit := u.profit + items[v'.level].value);
    if v'.weight <= W && v'.profit > maxProfit' {
      SearchRaise(items, W, Q, paths, [path + [true], path + [false]], maxProfit', best', v', path + [true]);
      maxProfit' := v'.profit;
      best' := (path + [true]) + NoneTaken(|items| - |path + [true]|);
    }
  }

  /**
   * The body of the queue loop of `knapsack` for a popped node u that is not
   * a leaf: the child that takes item u.level + 1 may raise the best profit,
   * then each child is offered to the queue in turn, the taking one first.
   * The taking child copies u's decisions plus item u.level + 1; the leaving
   * child (returned as v') copies u's profit and weight. Each gets its bound,
   * and is queued at the back, taking child first, exactly when that bound
   * exceeds the (possibly raised) best profit. The loop's invariant is kept,
   * and the two children together hold less potential than u.
   */
  method Branch(u: Node, v: Node, Q: seq<Node>, maxProfit: int, W: int, items: seq<Item>,
                ghost paths: seq<seq<bool>>, ghost path: seq<bool>, ghost best: seq<bool>)
    returns (Q': seq<Node>, v': Node, maxProfit': int, ghost paths': seq<seq<bool>>, ghost best': seq<bool>,
             ghost taken: Node, ghost pushTaken: bool, ghost pushLeft: bool)
    requires PositiveWeights(items) && SortedByRatio(items)
    requires Searching(items, W, Q, paths, [path], maxProfit, best)
    requires Tracks(items, u, path) && u.profit <= maxProfit && u.level < |items| - 1
    ensures Searching(items, W, Q', paths', [], maxProfit', best')
    ensures maxProfit' == (if u.weight + items[u.level + 1].weight <= W && u.profit + items[u.level + 1].value > maxProfit
                           then u.profit + items[u.level + 1].value else maxProfit)
    ensures taken == Node(u.level + 1, u.profit + items[u.level + 1].value, u.weight + items[u.level + 1].weight, taken.bound)
    ensures taken.bound == NodeBound(taken, W, items)
    ensures v' == Node(u.level + 1, u.profit, u.weight, v'.bound) && v'.bound == NodeBound(v', W, items)
    ensures pushTaken <==> taken.bound > maxProfit' as real
    ensures pushLeft <==> v'.bound > maxProfit' as real
    ensures Q' == Q + (if pushTaken then [taken] else []) + (if pushLeft then [v'] else [])
    ensures Potential(Q', |items|) < Potential(Q, |items|) + NodePotential(u, |items|)
  {
    var n := |items|;
    SearchSplit(items, W, Q, paths, path, maxProfit, best);
    ExtendSelection(items, path, false);
    paths' := paths;
    v', maxProfit', best' := TakeChild(u, v, maxProfit, W, items, Q, paths, path, best);
    ChildPotential(u, v', n);
    assert [path + [true], path + [false]] == [path + [true]] + [path + [false]];
    v', Q', paths', pushTaken := Offer(v', Q, maxProfit', W, items, paths', path + [true], [path + [false]], best');
    taken := v';
    ghost var Q1 := Q';

    // leave item u.level + 1
    v' := v'.(weight := u.weight);
    v' := v'.(profit := u.profit);
    assert [path + [false]] == [path + [false]] + [];
    v', Q', paths', pushLeft := Offer(v', Q', maxProfit', W, items, paths', path + [false], [], best');
    assert Q1 == Q + (if pushTaken then [taken] else []);
  }

  /**
   * The queue loop of `knapsack` over items already sorted by ratio. The
   * result is the profit of some packing (when any packing fits), and with
   * non-negative values it is the largest such profit; at most
   * 2^(n+1) - 1 nodes are ever enqueued.
   */
  method Explore(W: int, items: seq<Item>) returns (maxProfit: int, ghost enqueued: nat)
    requires PositiveWeights(items) && SortedByRatio(items)
    ensures maxProfit >= 0
    ensures (maxProfit > 0 || W >= 0) ==> exists s :: IsPacking(items, W, s) && PackValue(items, s) == maxProfit
    ensures NonNegativeValues(items) ==> forall s :: IsPacking(items, W, s) ==> PackValue(items, s) <= maxProfit
    ensures enqueued <= Pow2(|items| + 1) - 1
  {
    var n := |items|;
    var Q: seq<Node> := [Node(-1, 0, 0, 0.0)];
    maxProfit := 0;
    var v := Node(0, 0, 0, 0.0);
    ghost var paths: seq<seq<bool>> := [[]];
    ghost var best := NoneTaken(n);
    ghost var popped := 0;
    enqueued := 1;
    SearchStart(items, W);
    while Q != []
      invariant Searching(items, W, Q, paths, [], maxProfit, best)
      invariant enqueued == popped + |Q|
      invariant popped + Potential(Q, n) <= Pow2(n + 1) - 1
      decreases Pow2(n + 1) - popped
    {
      SearchPop(items, W, Q, paths, maxProfit, best);
      var u := Q[0];
      ghost var path := paths[0];
      assert Q == [u] + Q[1..];
      PotentialAppend([u], Q[1..], n);
      Q := Q[1..];
      paths := paths[1..];
      popped := popped + 1;

      if u.level == -1 {
        v := v.(level := 0);
      }
      if u.level == n - 1 {
        SearchLeaf(items, W, Q, paths, path, maxProfit, best, u);
        continue;
      }
      ghost var old_Q := Q;
      ghost var taken: Node, pushTaken: bool, pushLeft: bool;
      Q, v, maxProfit, paths, best, taken, pushTaken, pushLeft := Branch(u, v, Q, maxProfit, W, items, paths, path, best);
      enqueued := enqueued + |Q| - |old_Q|;
    }
    assert paths + [] == [];
    assert IsPacking(items, W, best) ==> exists s :: IsPacking(items, W, s) && PackValue(items, s) == PackValue(items, best);
  }

  lemma PermutationKeepsItemProperties(a: seq<Item>, b: seq<Item>)
    requires multiset(a) == multiset(b)
    ensures PositiveWeights(a) ==> PositiveWeights(b)
    ensures NonNegativeValues(a) ==> NonNegativeValues(b)
  {
    forall i | 0 <= i < |b| ensures b[i] in a {
      assert b[i] in multiset(b);
    }
  }

  /**
   * `knapsack(W, items)`: sorts the caller's items in place by ratio and
   * returns the search's profit, stated against the items as they were passed.
   */
  method Knapsack(W: int, items: array<Item>) returns (maxProfit: int, ghost enqueued: nat)
    requires PositiveWeights(items[..])
    modifies items
    ensures multiset(items[..]) == multiset(old(items[..]))
    ensures PositiveWeights(items[..]) && SortedByRatio(items[..])
    ensures maxProfit >= 0
    ensures (maxProfit > 0 || W >= 0) ==>
      exists s :: IsPacking(old(items[..]), W, s) && PackValue(old(items[..]), s) == maxProfit
    ensures NonNegativeValues(old(items[..])) ==>
      forall s :: IsPacking(old(items[..]), W, s) ==> PackValue(old(items[..]), s) <= maxProfit
    ensures enqueued <= Pow2(items.Length + 1) - 1
  {
    ghost var input := items[..];
    SortByRatio(items);
    maxProfit, enqueued := Explore(W, items[..]);
    ghost var sorted := items[..];
    if maxProfit > 0 || W >= 0 {
      ghost var s :| IsPacking(sorted, W, s) && PackValue(sorted, s) == maxProfit;
      ghost var t := TransferSelection(sorted, input, s);
      assert IsPacking(input, W, t);
    }
    if NonNegativeValues(input) {
      PermutationKeepsItemProperties(input, sorted);
      forall s | IsPacking(input, W, s) ensures PackValue(input, s) <= maxProfit {
        var t := TransferSelection(input, sorted, s);
        assert IsPacking(sorted, W, t);
      }
    }
  }

  /** An instance with a negative value. */
  const NegativeExample: seq<Item> := [Item(1, 10), Item(1, 10), Item(1, -15)]

  /**
   * With a negative value the pruning can lose the optimum. On items
   * (weight, value) = (1,10), (1,10), (1,-15), already in ratio order, with
   * W = 3, the taking child of the root raises the incumbent to 10, and then
   * both children of the root have bounds (5 and -5) that do not exceed 10, so
   * neither is queued, so by the source's own trace the search ends with 10;
   * this lemma proves the two bounds and the packing, not that result. Yet
   * taking the first two items fits and is worth 20.
   */
  lemma NegativeValuePrunesOptimum()
    ensures PositiveWeights(NegativeExample) && SortedByRatio(NegativeExample)
    ensures NodeBound(Node(0, 10, 1, 0.0), 3, NegativeExample) == 5.0
    ensures NodeBound(Node(0, 0, 0, 0.0), 3, NegativeExample) == -5.0
    ensures IsPacking(NegativeExample, 3, [true, true, false]) && PackValue(NegativeExample, [true, true, false]) == 20
  {
    var it := NegativeExample;
    assert it[1..] == [Item(1, 10), Item(1, -15)] && it[1..][1..] == [Item(1, -15)];
    assert Greedy([Item(1, -15)], 1) == -15.0;
    assert Greedy([Item(1, -15)], 2) == -15.0;
    assert Greedy(it[1..], 2) == -5.0;
    assert Greedy(it[1..], 3) == -5.0;
    assert [true, true, false][1..] == [true, false] && [true, false][1..] == [false];
  }

  /** The instance in the comment of `main`: (weight, value) = (10,60), (20,100), (30,120), W = 50. */
  const ExampleItems: seq<Item> := [Item(10, 60), Item(20, 100), Item(30, 120)]

  /** Value and weight of a selection over the example, item by item. */
  lemma ExampleSums(s: seq<bool>)
    requires |s| == 3
    ensures PackValue(ExampleItems, s) == (if s[0] then 60 else 0) + (if s[1] then 100 else 0) + (if s[2] then 120 else 0)
    ensures PackWeight(ExampleItems, s) == (if s[0] then 10 else 0) + (if s[1] then 20 else 0) + (if s[2] then 30 else 0)
  {
    var it := ExampleItems;
    var it1, it2, it3 := it[1..], it[1..][1..], it[1..][1..][1..];
    assert it1 == [Item(20, 100), Item(30, 120)] && it2 == [Item(30, 120)] && it3 == [];
    var s1, s2, s3 := s[1..], s[1..][1..], s[1..][1..][1..];
    assert PackValue(it3, s3) == 0 && PackWeight(it3, s3) == 0;
    assert PackValue(it2, s2) == (if s[2] then 120 else 0) && PackWeight(it2, s2) == (if s[2] then 30 else 0);
    assert PackValue(it1, s1) == (if s[1] then 100 else 0) + PackValue(it2, s2);
    assert PackWeight(it1, s1) == (if s[1] then 20 else 0) + PackWeight(it2, s2);
  }

  /** The example's optimum: take the second and third items, for 220. */
  lemma ExampleOptimum()
    ensures IsPacking(ExampleItems, 50, [false, true, true])
    ensures PackValue(ExampleItems, [false, true, true]) == 220
    ensures forall s :: IsPacking(ExampleItems, 50, s) ==> PackValue(ExampleItems, s) <= 220
  {
    ExampleSums([false, true, true]);
    forall s | IsPacking(ExampleItems, 50, s) ensures PackValue(ExampleItems, s) <= 220 {
      ExampleSums(s);
    }
  }

  /** `knapsack` on that instance returns 220. */
  method KnapsackExample() returns (maxProfit: int)
    ensures maxProfit == 220
  {
    var items := new Item[3][Item(10, 60), Item(20, 100), Item(30, 120)];
    assert items[..] == ExampleItems;
    ghost var enqueued: nat;
    maxProfit, enqueued := Knapsack(50, items);
    ExampleOptimum();
    assert NonNegativeValues(ExampleItems);
  }
}
