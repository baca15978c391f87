/** BranchProbabilityInfo: which blocks must end in unreachable code or meet a cold call, and weights that fit 32 bits. */
module BranchWeights {
  import opened Graphs

  const MAX_32: nat := 0xffff_ffff
  const UR_TAKEN_WEIGHT: nat := 1
  const UR_NONTAKEN_WEIGHT: nat := 1024 * 1024 - 1
  const CC_TAKEN_WEIGHT: nat := 4
  const CC_NONTAKEN_WEIGHT: nat := 64
  const NORMAL_WEIGHT: nat := 16
  const MIN_WEIGHT: nat := 1
  const DEFAULT_WEIGHT: nat := 16

  type Word = w: nat | w <= MAX_32

  /** `unreachable` are the blocks that end in unreachable, `cold` those with a cold call, `branches` those that end in a
      branch or switch. `profile` holds recorded weights; a negative one is not a constant. */
  datatype Code = Code(g: Graph, unreachable: set<nat>, cold: set<nat>, branches: set<nat>, profile: map<nat, seq<int>>)

  predicate CodeOk(c: Code) {
    forall b | 0 <= b < |c.g| ::
      |c.g[b]| <= 0x800_0000 && (b in c.branches ==> c.g[b] != []) && forall s | s in c.g[b] :: s < |c.g|
  }

  function Max(x: nat, y: nat): nat { if x > y then x else y }

  // Marking

  /** Blocks that lead to marked blocks only, or that end in unreachable themselves. */
  predicate Doomed(c: Code, b: nat, marked: set<nat>)
    requires b < |c.g|
  {
    if c.g[b] == [] then b in c.unreachable else forall s | s in c.g[b] :: s in marked
  }

  /** The marks once the first k blocks are visited. */
  function Marked(c: Code, order: seq<nat>, k: nat): set<nat>
    requires k <= |order| && forall i | 0 <= i < |order| :: order[i] < |c.g|
  {
    if k == 0 then {}
    else
      var before := Marked(c, order, k - 1);
      if Doomed(c, order[k - 1], before) then before + {order[k - 1]} else before
  }

  /** Every path from b is bounded, and where it cannot go on it is unreachable. */
  ghost predicate EndsWithin(c: Code, b: nat, n: nat) {
    forall p | IsPath(c.g, p) && p[0] == b :: |p| <= n && (c.g[p[|p| - 1]] == [] ==> p[|p| - 1] in c.unreachable)
  }

  ghost predicate Ends(c: Code, b: nat) { exists n :: EndsWithin(c, b, n) }

  /** A depth-first post-order: an edge to a block not yet visited goes to one that leads back. */
  ghost predicate PostOrder(c: Code, order: seq<nat>) {
    && (forall i | 0 <= i < |order| :: order[i] < |c.g|)
    && forall i, s | 0 <= i < |order| && s in c.g[order[i]] :: s in order[..i] || Reaches(c.g, s, order[i])
  }

  lemma PathTail(g: Graph, p: seq<nat>)
    requires IsPath(g, p) && |p| > 1
    ensures IsPath(g, p[1..]) && Edge(g, p[0], p[1]) && p[1..][0] == p[1] && p[1..][|p| - 2] == p[|p| - 1]
  {
    assert Edge(g, p[0], p[0 + 1]);
    forall i | 0 <= i < |p[1..]| - 1 ensures Edge(g, p[1..][i], p[1..][i + 1]) { assert Edge(g, p[i + 1], p[i + 1 + 1]); }
  }

  lemma PathPush(g: Graph, a: nat, p: seq<nat>)
    requires IsPath(g, p) && Edge(g, a, p[0])
    ensures IsPath(g, [a] + p)
  {
    var r := [a] + p;
    forall i | 0 <= i < |r| - 1 ensures Edge(g, r[i], r[i + 1]) {
      if i > 0 { assert Edge(g, p[i - 1], p[i - 1 + 1]); }
    }
  }

  /** What is marked does end: after k visits within k blocks. */
  lemma {:induction false} MarkedEnds(c: Code, order: seq<nat>, k: nat, b: nat, p: seq<nat>)
    requires k <= |order| && (forall i | 0 <= i < |order| :: order[i] < |c.g|) && b in Marked(c, order, k)
    requires IsPath(c.g, p) && p[0] == b
    ensures |p| <= k && (c.g[p[|p| - 1]] == [] ==> p[|p| - 1] in c.unreachable)
    decreases k
  {
    if b in Marked(c, order, k - 1) {
      MarkedEnds(c, order, k - 1, b, p);
    } else if |p| > 1 {
      PathTail(c.g, p);
      MarkedEnds(c, order, k - 1, p[1], p[1..]);
    }
  }

  lemma MarkedAreEnding(c: Code, order: seq<nat>, k: nat, b: nat)
    requires k <= |order| && (forall i | 0 <= i < |order| :: order[i] < |c.g|) && b in Marked(c, order, k)
    ensures EndsWithin(c, b, k)
  {
    forall p | IsPath(c.g, p) && p[0] == b
      ensures |p| <= k && (c.g[p[|p| - 1]] == [] ==> p[|p| - 1] in c.unreachable)
    {
      MarkedEnds(c, order, k, b, p);
    }
  }

  lemma EndsOn(c: Code, b: nat, s: nat, n: nat)
    requires EndsWithin(c, b, n) && Edge(c.g, b, s)
    ensures EndsWithin(c, s, n)
  {
    forall p | IsPath(c.g, p) && p[0] == s
      ensures |p| <= n && (c.g[p[|p| - 1]] == [] ==> p[|p| - 1] in c.unreachable)
    {
      PathPush(c.g, b, p);
      assert ([b] + p)[|p|] == p[|p| - 1];
    }
  }

  /** Around a cycle paths have any length. */
  lemma {:induction false} CycleGoesOn(c: Code, b: nat, s: nat, n: nat) returns (p: seq<nat>)
    requires b < |c.g| && Edge(c.g, b, s) && Reaches(c.g, s, b)
    ensures IsPath(c.g, p) && p[0] == b && p[|p| - 1] == b && |p| > n
  {
    if n == 0 {
      p := [b];
    } else {
      var q := CycleGoesOn(c, b, s, n - 1);
      var r :| PathFromTo(c.g, r, s, b);
      p := [b] + r + q[1..];
      var around := [b] + r;
      PathPush(c.g, b, r);
      assert p == around + q[1..];
      forall i | 0 <= i < |p| - 1 ensures Edge(c.g, p[i], p[i + 1]) {
        if i < |around| - 1 {
          assert Edge(c.g, around[i], around[i + 1]);
        } else {
          var j := i - (|around| - 1);
          assert Edge(c.g, q[j], q[j + 1]);
          assert p[i] == q[j] && p[i + 1] == q[j + 1];
        }
      }
    }
  }

  lemma NoWayBack(c: Code, b: nat, s: nat, n: nat)
    requires b < |c.g| && EndsWithin(c, b, n) && Edge(c.g, b, s)
    ensures !Reaches(c.g, s, b)
  {
    if Reaches(c.g, s, b) { var p := CycleGoesOn(c, b, s, n); }
  }

  lemma {:induction false} MarksGrow(c: Code, order: seq<nat>, k: nat, n: nat)
    requires k <= n <= |order| && forall i | 0 <= i < |order| :: order[i] < |c.g|
    ensures Marked(c, order, k) <= Marked(c, order, n)
    decreases n
  {
    if k < n { MarksGrow(c, order, k, n - 1); }
  }

  lemma EndsHere(c: Code, b: nat, n: nat)
    requires b < |c.g| && c.g[b] == [] && EndsWithin(c, b, n)
    ensures b in c.unreachable
  {
    assert IsPath(c.g, [b]);
  }

  /** What ends is marked when its turn comes. */
  lemma {:induction false} EndingIsMarked(c: Code, order: seq<nat>, k: nat, n: nat)
    requires PostOrder(c, order) && k < |order| && EndsWithin(c, order[k], n)
    ensures order[k] in Marked(c, order, k + 1)
    decreases k
  {
    hide EndsWithin, IsPath, Reaches;
    var b := order[k];
    if c.g[b] == [] {
      EndsHere(c, b, n);
    } else {
      forall s | s in c.g[b] ensures s in Marked(c, order, k) {
        assert Edge(c.g, b, s);
        EndsOn(c, b, s, n);
        NoWayBack(c, b, s, n);
        var j :| 0 <= j < k && order[j] == s;
        EndingIsMarked(c, order, j, n);
        MarksGrow(c, order, j + 1, k);
      }
    }
  }

  /** The marks are exact: one pass in post-order finds the blocks from which every path must run into unreachable code. */
  lemma MarksAreExact(c: Code, order: seq<nat>, k: nat)
    requires PostOrder(c, order) && k < |order|
    ensures order[k] in Marked(c, order, |order|) <==> Ends(c, order[k])
  {
    if order[k] in Marked(c, order, |order|) {
      MarkedAreEnding(c, order, |order|, order[k]);
    }
    if Ends(c, order[k]) {
      var n :| EndsWithin(c, order[k], n);
      EndingIsMarked(c, order, k, n);
      MarksGrow(c, order, k + 1, |order|);
    }
  }

  /** The edges of b to marked blocks, or to the others. */
  function Edges(succs: seq<nat>, marked: set<nat>, into: bool, k: nat): seq<nat>
    requires k <= |succs|
  {
    if k == 0 then []
    else if (succs[k - 1] in marked) == into then Edges(succs, marked, into, k - 1) + [k - 1]
    else Edges(succs, marked, into, k - 1)
  }

  lemma {:induction false} EdgesAre(succs: seq<nat>, marked: set<nat>, into: bool, k: nat)
    requires k <= |succs|
    ensures forall i :: i in Edges(succs, marked, into, k) <==> 0 <= i < k && (succs[i] in marked) == into
    ensures |Edges(succs, marked, into, k)| + |Edges(succs, marked, !into, k)| == k
    ensures forall i | 0 <= i < |Edges(succs, marked, into, k)| :: Edges(succs, marked, into, k)[i] < k
  {
    if k > 0 { EdgesAre(succs, marked, into, k - 1); }
  }

  /** One of n equal parts of a total, but not less than `least`. */
  function Part(total: nat, n: nat, least: nat): (part: nat)
    ensures n > 0 ==> part >= least
  {
    if n == 0 then total else Max(total / n, least)
  }

  /** The weights that a heuristic with these two totals gives to the edges of a block. */
  function Shared(succs: seq<nat>, marked: set<nat>, taken: nat, nontaken: nat, i: nat): nat
    requires i < |succs|
  {
    EdgesAre(succs, marked, true, |succs|);
    if succs[i] in marked then Part(taken, |Edges(succs, marked, true, |succs|)|, MIN_WEIGHT)
    else Part(nontaken, |Edges(succs, marked, false, |succs|)|, NORMAL_WEIGHT)
  }

  type Weights = map<(nat, nat), Word>

  function WeightOf(weights: Weights, b: nat, i: nat): Word { if (b, i) in weights then weights[(b, i)] else DEFAULT_WEIGHT }

  function Sum(weights: Weights, b: nat, k: nat): nat { if k == 0 then 0 else Sum(weights, b, k - 1) + WeightOf(weights, b, k - 1) }

  /** Weights of a block are positive and their sum fits 32 bits. */
  ghost predicate Fits(c: Code, weights: Weights, b: nat)
    requires b < |c.g|
  {
    && (forall i | 0 <= i < |c.g[b]| :: WeightOf(weights, b, i) >= MIN_WEIGHT)
    && Sum(weights, b, |c.g[b]|) <= MAX_32
  }

  lemma {:induction false} SumSame(was: Weights, now: Weights, d: nat, k: nat)
    requires forall i | 0 <= i < k :: WeightOf(now, d, i) == WeightOf(was, d, i)
    ensures Sum(now, d, k) == Sum(was, d, k)
  {
    if k > 0 { SumSame(was, now, d, k - 1); }
  }

  lemma {:induction false} SumBound(weights: Weights, b: nat, k: nat, bound: nat)
    requires forall i | 0 <= i < k :: WeightOf(weights, b, i) <= bound
    ensures Sum(weights, b, k) <= k * bound
  {
    if k > 0 {
      SumBound(weights, b, k - 1, bound);
      assert (k - 1) * bound + bound == k * bound;
    }
  }

  /** The shares of each kind of edge add up to no more than its total, or 16 for each edge. */
  lemma {:induction false} SharedSum(weights: Weights, b: nat, succs: seq<nat>, marked: set<nat>, low: nat, high: nat, k: nat)
    requires k <= |succs|
    requires forall i | 0 <= i < k :: WeightOf(weights, b, i) == if succs[i] in marked then low else high
    ensures Sum(weights, b, k) == |Edges(succs, marked, true, k)| * low + |Edges(succs, marked, false, k)| * high
  {
    if k > 0 {
      SharedSum(weights, b, succs, marked, low, high, k - 1);
      var n, m := |Edges(succs, marked, true, k - 1)|, |Edges(succs, marked, false, k - 1)|;
      assert (n + 1) * low == n * low + low && (m + 1) * high == m * high + high;
    }
  }

  lemma ShareTotal(total: nat, n: nat, least: nat)
    requires n > 0
    ensures n * Max(total / n, least) <= total + n * least
  {
    assert total / n * n <= total;
    assert n * (total / n) == total / n * n;
    assert n * least >= 0;
  }

  lemma SharedIs(weights: Weights, b: nat, succs: seq<nat>, marked: set<nat>, taken: nat, nontaken: nat, i: nat) returns (low: nat, high: nat)
    requires i < |succs|
    ensures var n := |Edges(succs, marked, true, |succs|)|; var m := |Edges(succs, marked, false, |succs|)|;
            && low == Part(taken, n, MIN_WEIGHT) && high == Part(nontaken, m, NORMAL_WEIGHT)
            && Shared(succs, marked, taken, nontaken, i) == (if succs[i] in marked then low else high)
            && (succs[i] in marked ==> n > 0 && low >= MIN_WEIGHT) && (succs[i] !in marked ==> m > 0 && high >= MIN_WEIGHT)
  {
    hide Part, Edges;
    var n, m := |Edges(succs, marked, true, |succs|)|, |Edges(succs, marked, false, |succs|)|;
    low, high := Part(taken, n, MIN_WEIGHT), Part(nontaken, m, NORMAL_WEIGHT);
    EdgesAre(succs, marked, true, |succs|);
    EdgesAre(succs, marked, false, |succs|);
    assert i in Edges(succs, marked, succs[i] in marked, |succs|);
  }

  lemma SharedFits(c: Code, weights: Weights, b: nat, marked: set<nat>, taken: nat, nontaken: nat)
    requires CodeOk(c) && b < |c.g| && taken <= 0x10_0000 && nontaken <= 0x10_0000
    requires forall i | 0 <= i < |c.g[b]| :: WeightOf(weights, b, i) == Shared(c.g[b], marked, taken, nontaken, i)
    requires exists s :: s in c.g[b] && s in marked
    ensures Fits(c, weights, b)
  {
    hide Shared, Edges, Max;
    var succs := c.g[b];
    var k := |succs|;
    EdgesAre(succs, marked, true, k);
    var n, m := |Edges(succs, marked, true, k)|, |Edges(succs, marked, false, k)|;
    var s :| s in succs && s in marked;
    var j :| 0 <= j < k && succs[j] == s;
    var low, high := SharedIs(weights, b, succs, marked, taken, nontaken, j);
    forall i | 0 <= i < k
      ensures WeightOf(weights, b, i) == if succs[i] in marked then low else high
      ensures WeightOf(weights, b, i) >= MIN_WEIGHT
    {
      var l, h := SharedIs(weights, b, succs, marked, taken, nontaken, i);
    }
    SharedSum(weights, b, succs, marked, low, high, k);
    ShareTotal(taken, n, MIN_WEIGHT);
    if m > 0 { ShareTotal(nontaken, m, NORMAL_WEIGHT); }
  }

  lemma DefaultFits(c: Code, weights: Weights, b: nat)
    requires CodeOk(c) && b < |c.g| && forall i | 0 <= i < |c.g[b]| :: WeightOf(weights, b, i) == DEFAULT_WEIGHT
    ensures Fits(c, weights, b)
  {
    SumBound(weights, b, |c.g[b]|, DEFAULT_WEIGHT);
  }

  /** Recorded weights are cut to an equal part of 32 bits each. */
  function Clamped(value: nat, succs: nat): nat
    requires succs > 0
  {
    var limit := MAX_32 / succs;
    Max(1, if value < limit then value else limit)
  }

  lemma ClampedFits(c: Code, weights: Weights, b: nat, values: seq<nat>)
    requires CodeOk(c) && b < |c.g| && |values| == |c.g[b]| > 0
    requires forall i | 0 <= i < |values| :: WeightOf(weights, b, i) == Clamped(values[i], |values|)
    ensures Fits(c, weights, b)
  {
    var n := |values|;
    var limit := MAX_32 / n;
    assert limit >= 1;
    SumBound(weights, b, n, limit);
    assert n * limit <= MAX_32;
  }

  lemma FitsSame(c: Code, was: Weights, now: Weights, d: nat)
    requires d < |c.g| && Fits(c, was, d) && forall i | 0 <= i < |c.g[d]| :: WeightOf(now, d, i) == WeightOf(was, d, i)
    ensures Fits(c, now, d)
  {
    SumSame(was, now, d, |c.g[d]|);
  }

  ghost predicate AllFit(c: Code, weights: Weights) { forall b | 0 <= b < |c.g| :: Fits(c, weights, b) }

  /** Changing the weights of one block keeps all sums within 32 bits if its own is. */
  lemma OneChanged(c: Code, was: Weights, now: Weights, b: nat)
    requires AllFit(c, was) && b < |c.g| && Fits(c, now, b)
    requires forall d, i | d != b :: WeightOf(now, d, i) == WeightOf(was, d, i)
    ensures AllFit(c, now)
  {
    forall d | 0 <= d < |c.g| ensures Fits(c, now, d) {
      if d != b { FitsSame(c, was, now, d); }
    }
  }

  // What the weights say

  /** One of n equal parts of a total, as large as can be, unless that is less than `least`. */
  predicate Evenly(weight: nat, n: nat, total: nat, least: nat) {
    weight >= least && (weight + 1) * n > total && (weight > least ==> weight * n <= total)
  }

  lemma PartIsEven(total: nat, n: nat, least: nat)
    requires n > 0
    ensures Evenly(Part(total, n, least), n, total, least)
  {
    var q := total / n;
    assert q * n <= total < q * n + n == (q + 1) * n;
    if q < least { Wider(q + 1, least + 1, n); }
  }

  lemma Wider(x: nat, y: nat, n: nat)
    requires x <= y
    ensures x * n <= y * n
  {
    assert y * n - x * n == (y - x) * n;
  }

  /** The edges to marked blocks share one total, at least 1 each, and the others another, at least 16 each. */
  ghost predicate Apportioned(c: Code, weights: Weights, b: nat, marked: set<nat>, taken: nat, nontaken: nat)
    requires b < |c.g|
  {
    var succs := c.g[b];
    forall i | 0 <= i < |succs| ::
      if succs[i] in marked then Evenly(WeightOf(weights, b, i), |Edges(succs, marked, true, |succs|)|, taken, 1)
      else Evenly(WeightOf(weights, b, i), |Edges(succs, marked, false, |succs|)|, nontaken, 16)
  }

  /** Every edge to a marked block is less likely than every other. */
  ghost predicate Unlikely(c: Code, weights: Weights, b: nat, marked: set<nat>)
    requires b < |c.g|
  {
    var succs := c.g[b];
    forall i, j | 0 <= i < |succs| && 0 <= j < |succs| && succs[i] in marked && succs[j] !in marked :: WeightOf(weights, b, i) < WeightOf(weights, b, j)
  }

  lemma SharedApportions(c: Code, weights: Weights, b: nat, marked: set<nat>, taken: nat, nontaken: nat)
    requires b < |c.g| && WeighedBy(c, weights, b, marked, taken, nontaken) && taken < 16
    ensures Apportioned(c, weights, b, marked, taken, nontaken) && Unlikely(c, weights, b, marked)
  {
    hide Part, Edges, Shared, Evenly, WeightOf;
    var succs := c.g[b];
    forall i | 0 <= i < |succs|
      ensures if succs[i] in marked then Evenly(WeightOf(weights, b, i), |Edges(succs, marked, true, |succs|)|, taken, 1) && WeightOf(weights, b, i) < 16
              else Evenly(WeightOf(weights, b, i), |Edges(succs, marked, false, |succs|)|, nontaken, 16) && WeightOf(weights, b, i) >= 16
    {
      var low, high := SharedIs(weights, b, succs, marked, taken, nontaken, i);
      if succs[i] in marked {
        PartIsEven(taken, |Edges(succs, marked, true, |succs|)|, 1);
        EvenAtMost(low, |Edges(succs, marked, true, |succs|)|, taken);
      } else {
        PartIsEven(nontaken, |Edges(succs, marked, false, |succs|)|, 16);
        assert high >= 16 by { assert Evenly(high, |Edges(succs, marked, false, |succs|)|, nontaken, 16); EvenAtLeast(high, |Edges(succs, marked, false, |succs|)|, nontaken); }
      }
    }
  }

  lemma EvenAtMost(weight: nat, n: nat, total: nat)
    requires Evenly(weight, n, total, 1) && n > 0
    ensures weight <= 1 || weight <= total
  {
    if weight > 1 { Wider(1, n, weight); }
  }

  lemma EvenAtLeast(weight: nat, n: nat, total: nat)
    requires Evenly(weight, n, total, 16)
    ensures weight >= 16
  {
  }

  /** Edges into code that must end in unreachable: each weighs 1, against 2^20 - 1 for the m others together, to within m; with
      one edge of each kind it is taken once in 2^20 times. */
  lemma UnreachableOdds(c: Code, weights: Weights, b: nat, marked: set<nat>)
    requires CodeOk(c) && b < |c.g| && Apportioned(c, weights, b, marked, 1, 0x10_0000 - 1)
    requires (exists s :: s in c.g[b] && s in marked) && exists s :: s in c.g[b] && s !in marked
    ensures var succs := c.g[b]; var n, m := |Edges(succs, marked, true, |succs|)|, |Edges(succs, marked, false, |succs|)|;
            && (forall i | 0 <= i < |succs| && succs[i] in marked :: WeightOf(weights, b, i) == 1)
            && Sum(weights, b, |succs|) >= n + 0x10_0000 - m
            && (m <= 0xffff ==> Sum(weights, b, |succs|) < n + 0x10_0000)
    ensures |c.g[b]| == 2 ==> Sum(weights, b, 2) == 0x10_0000
  {
    var succs := c.g[b];
    var k := |succs|;
    EdgesTell(succs, marked);
    OtherEdges(succs, marked);
    var n, m := |Edges(succs, marked, true, k)|, |Edges(succs, marked, false, k)|;
    var s :| s in succs && s !in marked;
    var j :| 0 <= j < k && succs[j] == s;
    var high := WeightOf(weights, b, j);
    hide Edges, WeightOf, Sum;
    forall i | 0 <= i < k ensures WeightOf(weights, b, i) == if succs[i] in marked then 1 else high {
      if succs[i] in marked {
        OneIfEven(WeightOf(weights, b, i), n);
      } else {
        SameIfEven(WeightOf(weights, b, i), high, m, 0x10_0000 - 1);
      }
    }
    SharedSum(weights, b, succs, marked, 1, high, k);
    EvenTotal(high, m);
  }

  lemma OneIfEven(w: nat, n: nat)
    requires Evenly(w, n, 1, 1) && n > 0
    ensures w == 1
  {
    if w > 1 { Wider(1, n, w); }
  }

  lemma SameIfEven(w: nat, v: nat, n: nat, total: nat)
    requires Evenly(w, n, total, 16) && Evenly(v, n, total, 16)
    ensures w == v
  {
    if w < v { Wider(w + 1, v, n); }
    if v < w { Wider(v + 1, w, n); }
  }

  lemma EvenTotal(w: nat, m: nat)
    requires Evenly(w, m, 0x10_0000 - 1, 16)
    ensures w * m + m >= 0x10_0000 && (m <= 0xffff ==> w * m < 0x10_0000) && m * w == w * m
  {
    assert (w + 1) * m == w * m + m;
    if w == 16 && m <= 0xffff { Wider(m, 0xffff, 16); }
  }

  lemma OtherEdges(succs: seq<nat>, marked: set<nat>)
    requires (exists s :: s in succs && s in marked) && exists s :: s in succs && s !in marked
    ensures |Edges(succs, marked, true, |succs|)| > 0 && |Edges(succs, marked, false, |succs|)| > 0
    ensures |Edges(succs, marked, true, |succs|)| + |Edges(succs, marked, false, |succs|)| == |succs|
  {
    EdgesTell(succs, marked);
  }

  /** Recorded weights keep their order, and their value between 1 and an equal part of 32 bits. */
  ghost predicate Recorded(c: Code, weights: Weights, b: nat)
    requires b < |c.g| && b in c.profile && |c.profile[b]| == |c.g[b]|
  {
    var values, n := c.profile[b], |c.g[b]|;
    && (forall i, j | 0 <= i < n && 0 <= j < n && values[i] <= values[j] :: WeightOf(weights, b, i) <= WeightOf(weights, b, j))
    && (forall i | 0 <= i < n && 1 <= values[i] && values[i] * n <= MAX_32 :: WeightOf(weights, b, i) == values[i])
    && (forall i | 0 <= i < n && values[i] == 0 :: WeightOf(weights, b, i) == 1)
    && forall i | 0 <= i < n && values[i] * n > MAX_32 :: WeightOf(weights, b, i) * n <= MAX_32 < (WeightOf(weights, b, i) + 1) * n
  }

  lemma ClampedRecords(c: Code, weights: Weights, b: nat)
    requires CodeOk(c) && b < |c.g| && Profiled(c, b)
    requires forall i | 0 <= i < |c.g[b]| :: WeightOf(weights, b, i) == Clamped(c.profile[b][i], |c.g[b]|)
    ensures Recorded(c, weights, b)
  {
    var values, n := c.profile[b], |c.g[b]|;
    hide WeightOf, Clamped;
    forall i, j | 0 <= i < n && 0 <= j < n && values[i] <= values[j] ensures WeightOf(weights, b, i) <= WeightOf(weights, b, j) {
      ClampedGrows(values[i], values[j], n);
    }
    forall i | 0 <= i < n && 1 <= values[i] && values[i] * n <= MAX_32 ensures WeightOf(weights, b, i) == values[i] {
      ClampedStays(values[i], n);
    }
    forall i | 0 <= i < n && values[i] == 0 ensures WeightOf(weights, b, i) == 1 { ClampedZero(n); }
    forall i | 0 <= i < n && values[i] * n > MAX_32
      ensures WeightOf(weights, b, i) * n <= MAX_32 < (WeightOf(weights, b, i) + 1) * n
    {
      ClampedCuts(values[i], n);
    }
  }

  lemma ClampedGrows(x: nat, y: nat, n: nat)
    requires n > 0 && x <= y
    ensures Clamped(x, n) <= Clamped(y, n)
  {
  }

  lemma Limit(n: nat)
    requires 0 < n <= MAX_32
    ensures var limit := MAX_32 / n; limit * n <= MAX_32 < (limit + 1) * n && limit >= 1
  {
    var limit := MAX_32 / n;
    assert MAX_32 == limit * n + MAX_32 % n;
    assert (limit + 1) * n == limit * n + n;
  }

  lemma ClampedStays(x: nat, n: nat)
    requires 0 < n <= MAX_32 && 1 <= x && x * n <= MAX_32
    ensures Clamped(x, n) == x
  {
    Limit(n);
    if x > MAX_32 / n { Wider(MAX_32 / n + 1, x, n); }
  }

  lemma ClampedZero(n: nat)
    requires n > 0
    ensures Clamped(0, n) == 1
  {
  }

  lemma ClampedCuts(x: nat, n: nat)
    requires 0 < n <= MAX_32 && x * n > MAX_32
    ensures Clamped(x, n) * n <= MAX_32 < (Clamped(x, n) + 1) * n
  {
    Limit(n);
    if x < MAX_32 / n { Wider(x, MAX_32 / n, n); }
  }

  /** None of the heuristics decides the block. */
  predicate Left(c: Code, b: nat, unreachables: set<nat>, colds: set<nat>)
    requires b < |c.g|
  {
    !Profiled(c, b) && (|c.g[b]| > 1 ==> !Touches(c, b, unreachables) && !Touches(c, b, colds))
  }

  ghost predicate SameWeights(was: Weights, now: Weights, b: nat) { forall i :: WeightOf(now, b, i) == WeightOf(was, b, i) }

  /** What the weights of a visited block say. Blocks left to the remaining heuristics are free. */
  ghost predicate Judged(c: Code, weights: Weights, b: nat, unreachables: set<nat>, colds: set<nat>)
    requires b < |c.g|
  {
    if |c.g[b]| > 1 && Touches(c, b, unreachables) then
      Apportioned(c, weights, b, unreachables, 1, 0x10_0000 - 1) && Unlikely(c, weights, b, unreachables)
    else if Profiled(c, b) then Recorded(c, weights, b)
    else if |c.g[b]| > 1 && Touches(c, b, colds) then
      Apportioned(c, weights, b, colds, 4, 64) && Unlikely(c, weights, b, colds)
    else true
  }

  lemma DecidedJudged(c: Code, weights: Weights, b: nat, unreachables: set<nat>, colds: set<nat>)
    requires CodeOk(c) && b < |c.g| && Decided(c, weights, b, unreachables, colds)
    ensures Judged(c, weights, b, unreachables, colds)
  {
    hide WeighedBy, Apportioned, Unlikely, Recorded, Clamped;
    if |c.g[b]| > 1 && Touches(c, b, unreachables) {
      SharedApportions(c, weights, b, unreachables, UR_TAKEN_WEIGHT, UR_NONTAKEN_WEIGHT);
    } else if Profiled(c, b) {
      ClampedRecords(c, weights, b);
    } else if |c.g[b]| > 1 && Touches(c, b, colds) {
      SharedApportions(c, weights, b, colds, CC_TAKEN_WEIGHT, CC_NONTAKEN_WEIGHT);
    }
  }

  /** What the cold heuristic marks at a block that the others have left to it. */
  predicate Chilled(c: Code, b: nat, marked: set<nat>)
    requires b < |c.g|
  {
    c.g[b] != [] && ((forall s | s in c.g[b] :: s in marked) || b in c.cold)
  }

  /** Where paths of more than n blocks, and those that cannot go on, have met a cold call. */
  ghost predicate MeetsCold(c: Code, b: nat, n: nat) {
    forall p | IsPath(c.g, p) && p[0] == b && (|p| > n || c.g[p[|p| - 1]] == []) :: Cooled(c, p)
  }

  ghost predicate Cooled(c: Code, p: seq<nat>) { exists i :: 0 <= i < |p| && p[i] in c.cold }

  /** Marks of cold blocks say the truth. */
  lemma ChilledMeets(c: Code, b: nat, marked: set<nat>, n: nat)
    requires b < |c.g| && Chilled(c, b, marked) && forall s | s in marked :: MeetsCold(c, s, n)
    ensures MeetsCold(c, b, n + 1)
  {
    forall p | IsPath(c.g, p) && p[0] == b && (|p| > n + 1 || c.g[p[|p| - 1]] == []) ensures Cooled(c, p) {
      if b !in c.cold {
        assert |p| > 1;
        PathTail(c.g, p);
        assert MeetsCold(c, p[1], n) && Cooled(c, p[1..]);
        var i :| 0 <= i < |p[1..]| && p[1..][i] in c.cold;
        assert p[i + 1] in c.cold;
      }
    }
  }

  lemma MeetsLater(c: Code, b: nat, n: nat, m: nat)
    requires MeetsCold(c, b, n) && n <= m
    ensures MeetsCold(c, b, m)
  {
  }

  class BranchProbabilityInfo {
    var unreachables: set<nat>
    var colds: set<nat>
    var weights: Weights

    constructor (c: Code)
      requires CodeOk(c)
      ensures unreachables == {} && colds == {} && AllFit(c, weights)
    {
      unreachables, colds, weights := {}, {}, map[];
      new;
      forall b | 0 <= b < |c.g| ensures Fits(c, weights, b) { DefaultFits(c, weights, b); }
    }

    method SetEdgeWeight(b: nat, i: nat, weight: Word)
      modifies this`weights
      ensures weights == old(weights)[(b, i) := weight]
    {
      weights := weights[(b, i) := weight];
    }

    /** Sets the weights of the edges to marked blocks and of the others, sharing two totals. */
    method ShareOut(c: Code, b: nat, marked: set<nat>, taken: nat, nontaken: nat, into: seq<nat>, others: seq<nat>)
      requires CodeOk(c) && b < |c.g| && AllFit(c, weights) && taken <= 0x10_0000 && nontaken <= 0x10_0000
      requires into == Edges(c.g[b], marked, true, |c.g[b]|) && others == Edges(c.g[b], marked, false, |c.g[b]|) && into != []
      modifies this`weights
      ensures AllFit(c, weights)
      ensures forall i | 0 <= i < |c.g[b]| :: WeightOf(weights, b, i) == Shared(c.g[b], marked, taken, nontaken, i)
      ensures forall d, i | d != b :: WeightOf(weights, d, i) == WeightOf(old(weights), d, i)
    {
      hide AllFit, Edges, Shared, Max;
      var succs := c.g[b];
      EdgesAre(succs, marked, true, |succs|);
      EdgesAre(succs, marked, false, |succs|);
      assert into[0] in into;
      MaxFits(taken / |into|, MIN_WEIGHT);
      var low := Max(taken / |into|, MIN_WEIGHT);
      for k := 0 to |into|
        invariant forall d, i | d != b :: WeightOf(weights, d, i) == WeightOf(old(weights), d, i)
        invariant forall l | 0 <= l < k :: WeightOf(weights, b, into[l]) == low
      {
        SetEdgeWeight(b, into[k], low);
      }
      var high := 0;
      if others != [] {
        MaxFits(nontaken / |others|, NORMAL_WEIGHT);
        high := Max(nontaken / |others|, NORMAL_WEIGHT);
        for k := 0 to |others|
          invariant forall d, i | d != b :: WeightOf(weights, d, i) == WeightOf(old(weights), d, i)
          invariant forall l | 0 <= l < k :: WeightOf(weights, b, others[l]) == high
          invariant forall i | i in into :: WeightOf(weights, b, i) == low
        {
          assert others[k] in others && others[k] !in into;
          SetEdgeWeight(b, others[k], high);
        }
      }
      forall i | 0 <= i < |succs| ensures WeightOf(weights, b, i) == Shared(succs, marked, taken, nontaken, i) {
        var l, h := SharedIs(weights, b, succs, marked, taken, nontaken, i);
        assert if succs[i] in marked then i in into else i in others;
      }
      assert succs[into[0]] in succs;
      SharedFits(c, weights, b, marked, taken, nontaken);
      OneChanged(c, old(weights), weights, b);
    }

    /** Sorts the edges of a block into those to marked blocks and the others. */
    static method SortEdges(succs: seq<nat>, marked: set<nat>) returns (into: seq<nat>, others: seq<nat>)
      ensures into == Edges(succs, marked, true, |succs|) && others == Edges(succs, marked, false, |succs|)
      ensures |into| + |others| == |succs|
      ensures (into != [] <==> exists s :: s in succs && s in marked) && (|into| == |succs| <==> forall s | s in succs :: s in marked)
    {
      into, others := [], [];
      for i := 0 to |succs|
        invariant into == Edges(succs, marked, true, i) && others == Edges(succs, marked, false, i)
      {
        if succs[i] in marked { into := into + [i]; } else { others := others + [i]; }
      }
      EdgesTell(succs, marked);
    }

    method CalcUnreachableHeuristics(c: Code, b: nat) returns (done: bool)
      requires CodeOk(c) && b < |c.g| && AllFit(c, weights)
      modifies this
      ensures AllFit(c, weights) && colds == old(colds)
      ensures unreachables == if Doomed(c, b, old(unreachables)) then old(unreachables) + {b} else old(unreachables)
      ensures done <==> |c.g[b]| > 1 && Touches(c, b, old(unreachables))
      ensures !done ==> weights == old(weights)
      ensures done ==> WeighedBy(c, weights, b, old(unreachables), UR_TAKEN_WEIGHT, UR_NONTAKEN_WEIGHT)
      ensures done ==> Apportioned(c, weights, b, old(unreachables), 1, 0x10_0000 - 1) && Unlikely(c, weights, b, old(unreachables))
      ensures forall d, i | d != b :: WeightOf(weights, d, i) == WeightOf(old(weights), d, i)
    {
      hide AllFit, Edges, Shared, Apportioned, Unlikely;
      var succs := c.g[b];
      if |succs| == 0 {
        if b in c.unreachable { unreachables := unreachables + {b}; }
        return false;
      }
      var marked := unreachables;
      var into, others := SortEdges(succs, marked);
      if |into| == |succs| { unreachables := unreachables + {b}; }
      if |succs| == 1 || into == [] { return false; }
      ShareOut(c, b, marked, UR_TAKEN_WEIGHT, UR_NONTAKEN_WEIGHT, into, others);
      SharedApportions(c, weights, b, marked, UR_TAKEN_WEIGHT, UR_NONTAKEN_WEIGHT);
      done := true;
    }

    method CalcMetadataWeights(c: Code, b: nat) returns (done: bool)
      requires CodeOk(c) && b < |c.g| && AllFit(c, weights)
      modifies this`weights
      ensures AllFit(c, weights)
      ensures done <==> Profiled(c, b)
      ensures !done ==> weights == old(weights)
      ensures done ==> forall i | 0 <= i < |c.g[b]| :: WeightOf(weights, b, i) == Clamped(c.profile[b][i], |c.g[b]|)
      ensures done ==> Recorded(c, weights, b)
      ensures forall d, i | d != b :: WeightOf(weights, d, i) == WeightOf(old(weights), d, i)
    {
      hide AllFit, Clamped, Recorded;
      var n := |c.g[b]|;
      if n == 1 { return false; }
      if b !in c.branches { return false; }
      if b !in c.profile { return false; }
      var node := c.profile[b];
      if |node| != n { return false; }
      var buffer: seq<nat> := [];
      for i := 0 to n
        invariant |buffer| == i && forall k | 0 <= k < i :: node[k] >= 0 && buffer[k] == node[k]
      {
        if node[i] < 0 { return false; }
        buffer := buffer + [node[i]];
      }
      for i := 0 to n
        invariant forall k | 0 <= k < i :: WeightOf(weights, b, k) == Clamped(buffer[k], n)
        invariant forall d, k | d != b :: WeightOf(weights, d, k) == WeightOf(old(weights), d, k)
      {
        ClampedIsWord(buffer[i], n);
        SetEdgeWeight(b, i, Clamped(buffer[i], n));
      }
      ClampedRecords(c, weights, b);
      ClampedFits(c, weights, b, buffer);
      OneChanged(c, old(weights), weights, b);
      done := true;
    }

    method CalcColdCallHeuristics(c: Code, b: nat) returns (done: bool)
      requires CodeOk(c) && b < |c.g| && AllFit(c, weights) && b !in colds
      modifies this
      ensures AllFit(c, weights) && unreachables == old(unreachables)
      ensures colds == if Chilled(c, b, old(colds)) then old(colds) + {b} else old(colds)
      ensures done <==> |c.g[b]| > 1 && Touches(c, b, old(colds))
      ensures !done ==> weights == old(weights)
      ensures done ==> WeighedBy(c, weights, b, old(colds), CC_TAKEN_WEIGHT, CC_NONTAKEN_WEIGHT)
      ensures done ==> Apportioned(c, weights, b, old(colds), 4, 64) && Unlikely(c, weights, b, old(colds))
      ensures forall d, i | d != b :: WeightOf(weights, d, i) == WeightOf(old(weights), d, i)
    {
      hide AllFit, Edges, Shared, Apportioned, Unlikely;
      var succs := c.g[b];
      if |succs| == 0 { return false; }
      var marked := colds;
      var into, others := SortEdges(succs, marked);
      if |into| == |succs| {
        colds := colds + {b};
      } else if b in c.cold {
        colds := colds + {b};
      }
      if |succs| == 1 || into == [] { return false; }
      ShareOut(c, b, marked, CC_TAKEN_WEIGHT, CC_NONTAKEN_WEIGHT, into, others);
      SharedApportions(c, weights, b, marked, CC_TAKEN_WEIGHT, CC_NONTAKEN_WEIGHT);
      done := true;
    }

    /** The sum of the weights of a block, in 32 bits: each step makes it larger, so it does not wrap around. */
    method GetSumForBlock(c: Code, b: nat) returns (sum: Word)
      requires b < |c.g| && Fits(c, weights, b)
      ensures sum == Sum(weights, b, |c.g[b]|)
    {
      sum := 0;
      for i := 0 to |c.g[b]|
        invariant sum == Sum(weights, b, i)
      {
        SumGrows(weights, b, i + 1, |c.g[b]|);
        var prevSum := sum;
        sum := (sum + WeightOf(weights, b, i)) % (MAX_32 + 1);
        assert sum > prevSum;
      }
    }

    /** One block: a heuristic that decides it leaves nothing to those after it. */
    method WeighBlock(c: Code, b: nat)
      requires CodeOk(c) && b < |c.g| && AllFit(c, weights) && b !in colds
      modifies this
      ensures AllFit(c, weights) && Decided(c, weights, b, old(unreachables), old(colds))
      ensures Left(c, b, old(unreachables), old(colds)) ==> weights == old(weights)
      ensures unreachables == if Doomed(c, b, old(unreachables)) then old(unreachables) + {b} else old(unreachables)
      ensures colds == if GoesCold(c, b, old(unreachables), old(colds)) then old(colds) + {b} else old(colds)
      ensures forall d, i | d != b :: WeightOf(weights, d, i) == WeightOf(old(weights), d, i)
    {
      hide AllFit, WeighedBy, Touches, Doomed, Chilled, Profiled, Apportioned, Unlikely, Recorded;
      var done := CalcUnreachableHeuristics(c, b);
      if !done {
        done := CalcMetadataWeights(c, b);
        if !done {
          done := CalcColdCallHeuristics(c, b);
        }
      }
    }

    /** All blocks in post-order. The marks are those of the order, and at the end every block has the weights that the
        first heuristic to decide it gave it. */
    method RunOnFunction(c: Code, order: seq<nat>)
      requires CodeOk(c) && PostOrder(c, order) && (forall i, j | 0 <= i < j < |order| :: order[i] != order[j])
      requires unreachables == {} && colds == {} && AllFit(c, weights)
      modifies this
      ensures AllFit(c, weights)
      ensures unreachables == Marked(c, order, |order|) && colds == Cold(c, order, |order|)
      ensures forall k | 0 <= k < |order| :: Decided(c, weights, order[k], Marked(c, order, k), Cold(c, order, k))
      ensures forall k | 0 <= k < |order| :: Judged(c, weights, order[k], Marked(c, order, k), Cold(c, order, k))
      ensures Untouched(c, order, |order|, old(weights), weights)
    {
      hide AllFit, Decided, Doomed, GoesCold, PostOrder, Judged, Left, Untouched, Marked, Cold, WeightOf;
      PostOrderBounds(c, order);
      NothingMarked(c, order);
      AllUntouched(c, order, weights);
      for k := 0 to |order|
        invariant AllFit(c, weights) && unreachables == Marked(c, order, k) && colds == Cold(c, order, k)
        invariant forall l | 0 <= l < k :: Decided(c, weights, order[l], Marked(c, order, l), Cold(c, order, l))
        invariant Untouched(c, order, k, old(weights), weights)
      {
        ghost var before := weights;
        ColdIsVisited(c, order, k, order[k]);
        NextMarked(c, order, k);
        assert order[k] !in order[..k];
        WeighBlock(c, order[k]);
        UntouchedNext(c, order, k, old(weights), before, weights);
        forall l | 0 <= l < k ensures Decided(c, weights, order[l], Marked(c, order, l), Cold(c, order, l)) {
          StillDecided(c, before, weights, order[l], Marked(c, order, l), Cold(c, order, l));
        }
      }
      forall k | 0 <= k < |order| ensures Judged(c, weights, order[k], Marked(c, order, k), Cold(c, order, k)) {
        DecidedJudged(c, weights, order[k], Marked(c, order, k), Cold(c, order, k));
      }
    }
  }

  /** Blocks that no heuristic decides, or that are still to come, have the weights they had. */
  ghost predicate Untouched(c: Code, order: seq<nat>, k: nat, was: Weights, now: Weights)
    requires k <= |order| && forall i | 0 <= i < |order| :: order[i] < |c.g|
  {
    && (forall l | 0 <= l < k && Left(c, order[l], Marked(c, order, l), Cold(c, order, l)) :: SameWeights(was, now, order[l]))
    && forall b | b !in order[..k] :: SameWeights(was, now, b)
  }

  lemma NothingMarked(c: Code, order: seq<nat>)
    requires forall i | 0 <= i < |order| :: order[i] < |c.g|
    ensures Marked(c, order, 0) == {} && Cold(c, order, 0) == {}
  {
  }

  lemma NextMarked(c: Code, order: seq<nat>, k: nat)
    requires k < |order| && forall i | 0 <= i < |order| :: order[i] < |c.g|
    ensures var marked, cold, b := Marked(c, order, k), Cold(c, order, k), order[k];
            && Marked(c, order, k + 1) == (if Doomed(c, b, marked) then marked + {b} else marked)
            && Cold(c, order, k + 1) == if GoesCold(c, b, marked, cold) then cold + {b} else cold
  {
  }

  lemma AllUntouched(c: Code, order: seq<nat>, weights: Weights)
    requires forall i | 0 <= i < |order| :: order[i] < |c.g|
    ensures Untouched(c, order, 0, weights, weights)
  {
  }

  lemma UntouchedNext(c: Code, order: seq<nat>, k: nat, was: Weights, before: Weights, now: Weights)
    requires k < |order| && (forall i | 0 <= i < |order| :: order[i] < |c.g|) && Untouched(c, order, k, was, before)
    requires (forall l | 0 <= l < k :: order[l] != order[k]) && forall d, i | d != order[k] :: WeightOf(now, d, i) == WeightOf(before, d, i)
    requires Left(c, order[k], Marked(c, order, k), Cold(c, order, k)) ==> now == before
    ensures Untouched(c, order, k + 1, was, now)
  {
    forall b ensures b != order[k] ==> SameWeights(before, now, b) {}
    hide Left, Marked, Cold, WeightOf, SameWeights;
    forall b | b != order[k] && SameWeights(was, before, b) ensures SameWeights(was, now, b) { SameThrough(was, before, now, b); }
    forall l | 0 <= l < k + 1 && Left(c, order[l], Marked(c, order, l), Cold(c, order, l)) ensures SameWeights(was, now, order[l]) {
      if l == k { assert order[k] !in order[..k]; } else { assert order[l] != order[k]; }
    }
    forall b | b !in order[..k + 1] ensures SameWeights(was, now, b) { NotUpTo(order, k, b); }
  }

  lemma NotUpTo(order: seq<nat>, k: nat, b: nat)
    requires k < |order| && b !in order[..k + 1]
    ensures b !in order[..k] && b != order[k]
  {
    assert order[..k + 1] == order[..k] + [order[k]];
  }

  lemma SameThrough(was: Weights, before: Weights, now: Weights, b: nat)
    requires SameWeights(was, before, b) && SameWeights(before, now, b)
    ensures SameWeights(was, now, b)
  {
  }

  lemma PostOrderBounds(c: Code, order: seq<nat>)
    requires PostOrder(c, order)
    ensures forall i | 0 <= i < |order| :: order[i] < |c.g|
  {
  }

  predicate Touches(c: Code, b: nat, marked: set<nat>)
    requires b < |c.g|
  {
    exists s :: s in c.g[b] && s in marked
  }

  ghost predicate WeighedBy(c: Code, weights: Weights, b: nat, marked: set<nat>, taken: nat, nontaken: nat)
    requires b < |c.g|
  {
    forall i | 0 <= i < |c.g[b]| :: WeightOf(weights, b, i) == Shared(c.g[b], marked, taken, nontaken, i)
  }

  predicate Profiled(c: Code, b: nat)
    requires b < |c.g|
  {
    && |c.g[b]| != 1 && b in c.branches && b in c.profile && |c.profile[b]| == |c.g[b]|
    && forall i | 0 <= i < |c.profile[b]| :: c.profile[b][i] >= 0
  }

  /** The weights of a block once it has been visited with these marks. Blocks left to the remaining heuristics are free. */
  ghost predicate Decided(c: Code, weights: Weights, b: nat, unreachables: set<nat>, colds: set<nat>)
    requires b < |c.g|
  {
    if |c.g[b]| > 1 && Touches(c, b, unreachables) then
      WeighedBy(c, weights, b, unreachables, UR_TAKEN_WEIGHT, UR_NONTAKEN_WEIGHT)
    else if Profiled(c, b) then
      forall i | 0 <= i < |c.g[b]| :: WeightOf(weights, b, i) == Clamped(c.profile[b][i], |c.g[b]|)
    else if |c.g[b]| > 1 && Touches(c, b, colds) then
      WeighedBy(c, weights, b, colds, CC_TAKEN_WEIGHT, CC_NONTAKEN_WEIGHT)
    else true
  }

  /** The cold heuristic sees the block, and marks it. */
  predicate GoesCold(c: Code, b: nat, unreachables: set<nat>, colds: set<nat>)
    requires b < |c.g|
  {
    !(|c.g[b]| > 1 && Touches(c, b, unreachables)) && !Profiled(c, b) && Chilled(c, b, colds)
  }

  /** The cold marks once the first k blocks are visited. */
  function Cold(c: Code, order: seq<nat>, k: nat): set<nat>
    requires k <= |order| && forall i | 0 <= i < |order| :: order[i] < |c.g|
  {
    if k == 0 then {}
    else
      var before := Cold(c, order, k - 1);
      if GoesCold(c, order[k - 1], Marked(c, order, k - 1), before) then before + {order[k - 1]} else before
  }

  lemma {:induction false} ColdIsVisited(c: Code, order: seq<nat>, k: nat, b: nat)
    requires k <= |order| && forall i | 0 <= i < |order| :: order[i] < |c.g|
    ensures b in Cold(c, order, k) ==> b in order[..k]
  {
    hide GoesCold;
    if k > 0 {
      ColdIsVisited(c, order, k - 1, b);
      assert order[..k] == order[..k - 1] + [order[k - 1]];
    }
  }

  /** From a block marked cold, paths of more blocks than were visited, and those that cannot go on, meet a cold call. */
  lemma {:induction false} ColdMarksMeet(c: Code, order: seq<nat>, k: nat, b: nat)
    requires k <= |order| && (forall i | 0 <= i < |order| :: order[i] < |c.g|) && b in Cold(c, order, k)
    ensures MeetsCold(c, b, k)
  {
    hide MeetsCold, Touches, Profiled, Chilled;
    if b in Cold(c, order, k - 1) {
      ColdMarksMeet(c, order, k - 1, b);
      MeetsLater(c, b, k - 1, k);
    } else {
      var earlier := Cold(c, order, k - 1);
      forall s | s in earlier ensures MeetsCold(c, s, k - 1) { ColdMarksMeet(c, order, k - 1, s); }
      ChilledMeets(c, b, earlier, k - 1);
    }
  }

  /** A way out of the cold: positions in the order, each edge to an earlier one, no cold call on the way, and an end that may
      leave. */
  ghost predicate WayOut(c: Code, order: seq<nat>, way: seq<nat>)
    requires forall i | 0 <= i < |order| :: order[i] < |c.g|
  {
    && |way| > 0 && (forall i | 0 <= i < |way| :: way[i] < |order|)
    && (forall i | 0 <= i < |way| - 1 :: OneOut(c, order, way[i], way[i + 1]))
    && LeavesOut(c, order, way[|way| - 1])
  }

  predicate OneOut(c: Code, order: seq<nat>, k: nat, j: nat)
    requires k < |order| && forall i | 0 <= i < |order| :: order[i] < |c.g|
  {
    j < k && order[j] in c.g[order[k]] && order[k] !in c.cold
  }

  /** The cold heuristic does not see the block, or it has no successors, or no cold call and a successor that comes later. */
  predicate LeavesOut(c: Code, order: seq<nat>, k: nat)
    requires k < |order| && forall i | 0 <= i < |order| :: order[i] < |c.g|
  {
    var b := order[k];
    || (|c.g[b]| > 1 && Touches(c, b, Marked(c, order, k))) || Profiled(c, b) || c.g[b] == []
    || (b !in c.cold && exists s :: s in c.g[b] && s !in order[..k])
  }

  predicate Once(order: seq<nat>) { forall i, j | 0 <= i < j < |order| :: order[i] != order[j] }

  lemma {:induction false} ColdStays(c: Code, order: seq<nat>, j: nat, k: nat)
    requires j < k <= |order| && (forall i | 0 <= i < |order| :: order[i] < |c.g|) && Once(order)
    ensures order[j] in Cold(c, order, k) <==> order[j] in Cold(c, order, j + 1)
    decreases k
  {
    if j + 1 < k { ColdStays(c, order, j, k - 1); }
  }

  /** Exactly the blocks without a way out are marked cold. */
  lemma {:induction false} ColdMarksAreExact(c: Code, order: seq<nat>, k: nat)
    requires k < |order| && (forall i | 0 <= i < |order| :: order[i] < |c.g|) && Once(order)
    ensures order[k] in Cold(c, order, |order|) <==> !exists way :: WayOut(c, order, way) && way[0] == k
    decreases k
  {
    ColdStays(c, order, k, |order|);
    ColdIsVisited(c, order, k, order[k]);
    assert order[k] !in order[..k];
    if order[k] !in Cold(c, order, k + 1) {
      var way := FindWayOut(c, order, k);
    }
    forall way | WayOut(c, order, way) && way[0] == k ensures order[k] !in Cold(c, order, k + 1) { WayOutIsWarm(c, order, way); }
  }

  lemma {:induction false} FindWayOut(c: Code, order: seq<nat>, k: nat) returns (way: seq<nat>)
    requires k < |order| && (forall i | 0 <= i < |order| :: order[i] < |c.g|) && Once(order) && order[k] !in Cold(c, order, k + 1)
    ensures WayOut(c, order, way) && way[0] == k
    decreases k
  {
    var b := order[k];
    if LeavesOut(c, order, k) {
      way := [k];
    } else {
      var s := WarmSuccessor(c, order, k);
      var j :| 0 <= j < k && order[j] == s;
      ColdStays(c, order, j, k);
      var rest := FindWayOut(c, order, j);
      way := [k] + rest;
      assert OneOut(c, order, k, j);
      hide OneOut, LeavesOut;
      forall i | 0 <= i < |way| - 1 ensures OneOut(c, order, way[i], way[i + 1]) {
        if i > 0 { assert OneOut(c, order, rest[i - 1], rest[i - 1 + 1]); }
      }
    }
  }

  lemma WarmSuccessor(c: Code, order: seq<nat>, k: nat) returns (s: nat)
    requires k < |order| && (forall i | 0 <= i < |order| :: order[i] < |c.g|) && order[k] !in Cold(c, order, k + 1) && !LeavesOut(c, order, k)
    ensures s in c.g[order[k]] && s in order[..k] && s !in Cold(c, order, k) && order[k] !in c.cold
  {
    hide Touches, Profiled, Marked;
    var cold := Cold(c, order, k);
    assert !GoesCold(c, order[k], Marked(c, order, k), cold);
    s :| s in c.g[order[k]] && s !in cold;
  }

  lemma {:induction false} WayOutIsWarm(c: Code, order: seq<nat>, way: seq<nat>)
    requires (forall i | 0 <= i < |order| :: order[i] < |c.g|) && Once(order) && WayOut(c, order, way)
    ensures order[way[0]] !in Cold(c, order, way[0] + 1)
    decreases |way|
  {
    var k := way[0];
    ColdIsVisited(c, order, k, order[k]);
    assert order[k] !in order[..k];
    if |way| == 1 {
      LeaverIsWarm(c, order, k);
    } else {
      var rest, j := way[1..], way[1];
      assert OneOut(c, order, way[0], way[0 + 1]);
      assert WayOut(c, order, rest) by {
        forall i | 0 <= i < |rest| - 1 ensures OneOut(c, order, rest[i], rest[i + 1]) { assert OneOut(c, order, way[i + 1], way[i + 1 + 1]); }
      }
      WayOutIsWarm(c, order, rest);
      ColdStays(c, order, j, k);
    }
  }

  lemma LeaverIsWarm(c: Code, order: seq<nat>, k: nat)
    requires k < |order| && (forall i | 0 <= i < |order| :: order[i] < |c.g|) && LeavesOut(c, order, k) && order[k] !in Cold(c, order, k)
    ensures order[k] !in Cold(c, order, k + 1)
  {
    hide Touches, Profiled, Marked;
    if s :| s in c.g[order[k]] && s !in order[..k] { ColdIsVisited(c, order, k, s); }
  }

  lemma StillDecided(c: Code, was: Weights, now: Weights, b: nat, unreachables: set<nat>, colds: set<nat>)
    requires b < |c.g| && Decided(c, was, b, unreachables, colds)
    requires forall i :: WeightOf(now, b, i) == WeightOf(was, b, i)
    ensures Decided(c, now, b, unreachables, colds)
  {
    hide WeightOf, Shared, Touches, Profiled, Clamped;
  }

  lemma ClampedIsWord(value: nat, n: nat)
    requires n > 0
    ensures Clamped(value, n) <= MAX_32
  {
    assert MAX_32 / n <= MAX_32;
  }

  lemma {:induction false} SumGrows(weights: Weights, b: nat, i: nat, k: nat)
    requires i <= k
    ensures Sum(weights, b, i) <= Sum(weights, b, k)
    decreases k
  {
    if i < k { SumGrows(weights, b, i, k - 1); }
  }

  lemma EdgesTell(succs: seq<nat>, marked: set<nat>)
    ensures var into, others := Edges(succs, marked, true, |succs|), Edges(succs, marked, false, |succs|);
            && |into| + |others| == |succs|
            && (into != [] <==> exists s :: s in succs && s in marked)
            && (|into| == |succs| <==> forall s | s in succs :: s in marked)
  {
    var into, others := Edges(succs, marked, true, |succs|), Edges(succs, marked, false, |succs|);
    EdgesAre(succs, marked, true, |succs|);
    EdgesAre(succs, marked, false, |succs|);
    if into != [] { assert into[0] in into && succs[into[0]] in succs; }
    if others != [] { assert others[0] in others && succs[others[0]] in succs; }
    if s :| s in succs && s in marked {
      var i :| 0 <= i < |succs| && succs[i] == s;
      assert i in into;
    }
    if s :| s in succs && s !in marked {
      var i :| 0 <= i < |succs| && succs[i] == s;
      assert i in others;
    }
  }

  lemma MaxFits(x: nat, y: nat)
    requires x <= MAX_32 && y <= MAX_32
    ensures Max(x, y) <= MAX_32
  {
  }
}
