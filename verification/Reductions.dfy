/** The reduction matchers of CostModel.cpp: what they accept really folds a vector into its first lane. */
module Reductions {
  import opened Wrappers
  import opened Bits

  /** One vector value of a function. Operands are indices of earlier values, so one index is one Value pointer. A mask
      entry is -1 for undef, else a lane of the two operands put end to end. */
  datatype Value =
    | Leaf(width: nat)
    | Bin(op: nat, l: nat, r: nat)
    | Shuffle(a: nat, b: nat, mask: seq<int>)

  type Code = seq<Value>

  function Width(ir: Code, v: nat): nat
    requires v < |ir|
  {
    match ir[v]
    case Leaf(w) => w
    case Bin(_, l, _) => if l < v then Width(ir, l) else 0
    case Shuffle(_, _, mask) => |mask|
  }

  predicate TypedAt(ir: Code, v: nat)
    requires v < |ir|
  {
    match ir[v]
    case Leaf(_) => true
    case Bin(_, l, r) => l < v && r < v && Width(ir, l) == Width(ir, r)
    case Shuffle(a, b, mask) =>
      a < v && b < v && Width(ir, a) == Width(ir, b) && forall m | m in mask :: -1 <= m < 2 * Width(ir, a)
  }

  predicate Typed(ir: Code) { forall v | 0 <= v < |ir| :: TypedAt(ir, v) }

  /** What the leaves hold, what undef lanes happen to hold, and what the operators compute. */
  datatype Meaning<!T> = Meaning(leaf: (nat, nat) -> T, undef: (nat, nat) -> T, op: (nat, T, T) -> T)

  function Lane<T>(ir: Code, v: nat, j: nat, mean: Meaning<T>): T
    requires Typed(ir) && v < |ir| && j < Width(ir, v)
    decreases v
  {
    assert TypedAt(ir, v);
    match ir[v]
    case Leaf(_) => mean.leaf(v, j)
    case Bin(op, l, r) => mean.op(op, Lane(ir, l, j, mean), Lane(ir, r, j, mean))
    case Shuffle(a, b, mask) =>
      var m := mask[j];
      assert m in mask;
      if m < 0 then mean.undef(v, j)
      else if m < Width(ir, a) then Lane(ir, a, m, mean)
      else Lane(ir, b, m - Width(ir, a), mean)
  }

  /** The first n lanes. */
  function Lanes<T>(ir: Code, v: nat, n: nat, mean: Meaning<T>): (xs: seq<T>)
    requires Typed(ir) && v < |ir| && n <= Width(ir, v)
    ensures |xs| == n && forall j | 0 <= j < n :: xs[j] == Lane(ir, v, j, mean)
  {
    seq(n, j requires 0 <= j < n => Lane(ir, v, j, mean))
  }

  // Folds

  /** What the matchers need of an operator: operands may be swapped, and four of them regrouped. */
  ghost predicate Reorders<T(!new)>(f: (nat, T, T) -> T, op: nat) {
    && (forall x, y :: f(op, x, y) == f(op, y, x))
    && (forall a, b, c, d :: f(op, f(op, a, b), f(op, c, d)) == f(op, a, f(op, b, f(op, c, d))))
    && (forall a, b, c, d :: f(op, f(op, a, b), f(op, c, d)) == f(op, f(op, a, c), f(op, b, d)))
  }

  lemma AssociativeReorders<T(!new)>(f: (nat, T, T) -> T, op: nat)
    requires forall x, y :: f(op, x, y) == f(op, y, x)
    requires forall x, y, z :: f(op, f(op, x, y), z) == f(op, x, f(op, y, z))
    ensures Reorders(f, op)
  {
    forall a, b, c, d
      ensures f(op, f(op, a, b), f(op, c, d)) == f(op, a, f(op, b, f(op, c, d)))
      ensures f(op, f(op, a, b), f(op, c, d)) == f(op, f(op, a, c), f(op, b, d))
    {
      assert f(op, f(op, a, b), f(op, c, d)) == f(op, a, f(op, b, f(op, c, d)));
      assert f(op, b, f(op, c, d)) == f(op, f(op, b, c), d) == f(op, f(op, c, b), d) == f(op, c, f(op, b, d));
      assert f(op, f(op, a, c), f(op, b, d)) == f(op, a, f(op, c, f(op, b, d)));
    }
  }

  function Fold<T>(f: (nat, T, T) -> T, op: nat, xs: seq<T>): T
    requires |xs| > 0
  {
    if |xs| == 1 then xs[0] else f(op, xs[0], Fold(f, op, xs[1..]))
  }

  lemma Reorder<T(!new)>(f: (nat, T, T) -> T, op: nat, a: T, b: T, c: T, d: T)
    requires Reorders(f, op)
    ensures f(op, a, b) == f(op, b, a)
    ensures f(op, f(op, a, b), f(op, c, d)) == f(op, a, f(op, b, f(op, c, d)))
    ensures f(op, f(op, a, b), f(op, c, d)) == f(op, f(op, a, c), f(op, b, d))
  {
  }

  lemma {:induction false} FoldAppend<T(!new)>(f: (nat, T, T) -> T, op: nat, xs: seq<T>, ys: seq<T>)
    requires Reorders(f, op) && |xs| > 0 && |ys| > 0 && (|xs| == 1 || |ys| > 1)
    ensures Fold(f, op, xs + ys) == f(op, Fold(f, op, xs), Fold(f, op, ys))
  {
    hide Reorders;
    assert (xs + ys)[1..] == xs[1..] + ys;
    if |xs| > 1 {
      FoldAppend(f, op, xs[1..], ys);
      Reorder(f, op, xs[0], Fold(f, op, xs[1..]), ys[0], Fold(f, op, ys[1..]));
    } else {
      assert xs[1..] + ys == ys;
    }
  }

  /** zs[j] is xs[p] + xs[q], in either order. */
  predicate Joins<T(==)>(f: (nat, T, T) -> T, op: nat, z: T, x: T, y: T) { z == f(op, x, y) || z == f(op, y, x) }

  /** Adding neighbours keeps the sum. */
  lemma {:induction false} FoldPairs<T(!new)>(f: (nat, T, T) -> T, op: nat, zs: seq<T>, xs: seq<T>)
    requires Reorders(f, op) && |zs| > 0 && |xs| == 2 * |zs|
    requires forall j | 0 <= j < |zs| :: Joins(f, op, zs[j], xs[2 * j], xs[2 * j + 1])
    ensures Fold(f, op, zs) == Fold(f, op, xs)
  {
    hide Reorders;
    assert Joins(f, op, zs[0], xs[2 * 0], xs[2 * 0 + 1]);
    Reorder(f, op, xs[0], xs[1], xs[0], xs[1]);
    if |zs| > 1 {
      var zs', xs' := zs[1..], xs[2..];
      forall j | 0 <= j < |zs'| ensures Joins(f, op, zs'[j], xs'[2 * j], xs'[2 * j + 1]) {
        assert Joins(f, op, zs[j + 1], xs[2 * (j + 1)], xs[2 * (j + 1) + 1]);
      }
      FoldPairs(f, op, zs', xs');
      assert xs[1..][1..] == xs';
      Reorder(f, op, xs[0], xs[1], xs'[0], Fold(f, op, xs'[1..]));
    }
  }

  /** Adding the two halves keeps the sum. */
  lemma {:induction false} FoldHalves<T(!new)>(f: (nat, T, T) -> T, op: nat, zs: seq<T>, xs: seq<T>, ys: seq<T>)
    requires Reorders(f, op) && |zs| > 0 && |xs| == |zs| == |ys|
    requires forall j | 0 <= j < |zs| :: Joins(f, op, zs[j], xs[j], ys[j])
    ensures Fold(f, op, zs) == Fold(f, op, xs + ys)
  {
    ZipFold(f, op, zs, xs, ys);
    FoldAppend(f, op, xs, ys);
  }

  lemma {:induction false} ZipFold<T(!new)>(f: (nat, T, T) -> T, op: nat, zs: seq<T>, xs: seq<T>, ys: seq<T>)
    requires Reorders(f, op) && |zs| > 0 && |xs| == |zs| == |ys|
    requires forall j | 0 <= j < |zs| :: Joins(f, op, zs[j], xs[j], ys[j])
    ensures Fold(f, op, zs) == f(op, Fold(f, op, xs), Fold(f, op, ys))
  {
    hide Reorders;
    assert Joins(f, op, zs[0], xs[0], ys[0]);
    Reorder(f, op, xs[0], ys[0], xs[0], ys[0]);
    if |zs| > 1 {
      forall j | 0 <= j < |zs[1..]| ensures Joins(f, op, zs[1..][j], xs[1..][j], ys[1..][j]) {
        assert Joins(f, op, zs[j + 1], xs[j + 1], ys[j + 1]);
      }
      ZipFold(f, op, zs[1..], xs[1..], ys[1..]);
      Reorder(f, op, xs[0], ys[0], Fold(f, op, xs[1..]), Fold(f, op, ys[1..]));
    }
  }

  // One level of a reduction

  /** 0, 2, 4, ... or 1, 3, 5, ... for 2^level lanes, then undef. */
  function PairMask(size: nat, level: nat, left: bool): seq<int> {
    seq(size, i => if i < Pow2(level) then 2 * i + (if left then 0 else 1) else -1)
  }

  /** start, start + 1, ... for `start` lanes, then undef. */
  function SplitMask(size: nat, start: nat): seq<int> {
    seq(size, i => if i < start then start + i else -1)
  }

  predicate IsShuffle(ir: Code, o: nat, next: nat, mask: seq<int>)
    requires o < |ir|
  {
    ir[o].Shuffle? && ir[o].a == next && ir[o].mask == mask
  }

  /** Operand o has the left or the right partner of each pair of lanes of next. */
  predicate Picks(ir: Code, o: nat, next: nat, level: nat, left: bool)
    requires o < |ir|
  {
    || IsShuffle(ir, o, next, PairMask(Width(ir, o), level, left))
    || (level == 0 && left && o == next && !ir[o].Shuffle?)
  }

  predicate PairLevel(ir: Code, v: nat, level: nat, next: nat)
    requires Typed(ir) && v < |ir|
  {
    ir[v].Bin? && TypedAt(ir, v)
    && var l, r := ir[v].l, ir[v].r;
       || (Picks(ir, l, next, level, true) && Picks(ir, r, next, level, false))
       || (Picks(ir, r, next, level, true) && Picks(ir, l, next, level, false))
  }

  predicate SplitLevel(ir: Code, v: nat, level: nat, next: nat)
    requires Typed(ir) && v < |ir|
  {
    ir[v].Bin? && TypedAt(ir, v)
    && var l, r := ir[v].l, ir[v].r;
       || (IsShuffle(ir, l, next, SplitMask(Width(ir, l), Pow2(level))) && r == next)
       || (IsShuffle(ir, r, next, SplitMask(Width(ir, r), Pow2(level))) && l == next && !ir[l].Shuffle?)
  }

  predicate Level(ir: Code, v: nat, pairwise: bool, level: nat, next: nat)
    requires Typed(ir) && v < |ir|
  {
    if pairwise then PairLevel(ir, v, level, next) else SplitLevel(ir, v, level, next)
  }

  /** From `from` on, each value reduces the next one by one operator; the last is the vector reduced. */
  predicate Chain(ir: Code, chain: seq<nat>, pairwise: bool, from: nat, op: nat)
    requires Typed(ir)
  {
    && |chain| > 0 && (forall k | 0 <= k < |chain| :: chain[k] < |ir|)
    && forall k | 0 <= k < |chain| - 1 ::
         Level(ir, chain[k], pairwise, from + k, chain[k + 1]) && ir[chain[k]].Bin? && ir[chain[k]].op == op
  }

  lemma PickedLane<T>(ir: Code, o: nat, next: nat, level: nat, left: bool, j: nat, mean: Meaning<T>)
    requires Typed(ir) && o < |ir| && next < |ir| && Picks(ir, o, next, level, left)
    requires j < Pow2(level) && j < Width(ir, o) && 2 * Pow2(level) <= Width(ir, next)
    ensures Lane(ir, o, j, mean) == Lane(ir, next, 2 * j + if left then 0 else 1, mean)
  {
    assert TypedAt(ir, o);
    if ir[o].Shuffle? { assert ir[o].mask[j] == 2 * j + if left then 0 else 1; }
  }

  lemma PairLanes<T>(ir: Code, v: nat, level: nat, next: nat, mean: Meaning<T>, j: nat)
    requires Typed(ir) && v < |ir| && next < |ir| && PairLevel(ir, v, level, next)
    requires j < Pow2(level) <= Width(ir, v) && 2 * Pow2(level) <= Width(ir, next)
    ensures Joins(mean.op, ir[v].op, Lane(ir, v, j, mean), Lane(ir, next, 2 * j, mean), Lane(ir, next, 2 * j + 1, mean))
  {
    hide Picks;
    var l, r := ir[v].l, ir[v].r;
    if Picks(ir, l, next, level, true) && Picks(ir, r, next, level, false) {
      PickedLane(ir, l, next, level, true, j, mean);
      PickedLane(ir, r, next, level, false, j, mean);
    } else {
      PickedLane(ir, r, next, level, true, j, mean);
      PickedLane(ir, l, next, level, false, j, mean);
    }
  }

  lemma SplitLane<T>(ir: Code, o: nat, next: nat, start: nat, j: nat, mean: Meaning<T>)
    requires Typed(ir) && o < |ir| && next < |ir| && IsShuffle(ir, o, next, SplitMask(Width(ir, o), start))
    requires j < start && j < Width(ir, o) && 2 * start <= Width(ir, next)
    ensures Lane(ir, o, j, mean) == Lane(ir, next, start + j, mean)
  {
    assert TypedAt(ir, o);
    assert ir[o].mask[j] == start + j;
  }

  lemma SplitLanes<T>(ir: Code, v: nat, level: nat, next: nat, mean: Meaning<T>, j: nat)
    requires Typed(ir) && v < |ir| && next < |ir| && SplitLevel(ir, v, level, next)
    requires j < Pow2(level) <= Width(ir, v) && 2 * Pow2(level) <= Width(ir, next)
    ensures Joins(mean.op, ir[v].op, Lane(ir, v, j, mean), Lane(ir, next, j, mean), Lane(ir, next, Pow2(level) + j, mean))
  {
    hide IsShuffle;
    var l, r := ir[v].l, ir[v].r;
    if r == next && IsShuffle(ir, l, next, SplitMask(Width(ir, l), Pow2(level))) {
      SplitLane(ir, l, next, Pow2(level), j, mean);
    } else {
      SplitLane(ir, r, next, Pow2(level), j, mean);
    }
  }

  lemma LevelFolds<T(!new)>(ir: Code, v: nat, pairwise: bool, level: nat, next: nat, mean: Meaning<T>)
    requires Typed(ir) && v < |ir| && next < |ir| && Level(ir, v, pairwise, level, next) && ir[v].Bin?
    requires Pow2(level) <= Width(ir, v) && 2 * Pow2(level) <= Width(ir, next) && Reorders(mean.op, ir[v].op)
    ensures Fold(mean.op, ir[v].op, Lanes(ir, v, Pow2(level), mean))
         == Fold(mean.op, ir[v].op, Lanes(ir, next, 2 * Pow2(level), mean))
  {
    hide Lane, Typed, Width, PairLevel, SplitLevel, Reorders, Joins, Fold;
    var n := Pow2(level);
    var zs, xs := Lanes(ir, v, n, mean), Lanes(ir, next, 2 * n, mean);
    if pairwise {
      forall j | 0 <= j < n ensures Joins(mean.op, ir[v].op, zs[j], xs[2 * j], xs[2 * j + 1]) {
        PairLanes(ir, v, level, next, mean, j);
      }
      FoldPairs(mean.op, ir[v].op, zs, xs);
    } else {
      forall j | 0 <= j < n ensures Joins(mean.op, ir[v].op, zs[j], xs[..n][j], xs[n..][j]) {
        SplitLanes(ir, v, level, next, mean, j);
        assert xs[n..][j] == xs[n + j];
      }
      FoldHalves(mean.op, ir[v].op, zs, xs[..n], xs[n..]);
      assert xs == xs[..n] + xs[n..];
    }
  }

  /** Every vector of a chain has at least n lanes. */
  ghost predicate Wide(ir: Code, chain: seq<nat>, n: nat) {
    forall k | 0 <= k < |chain| :: chain[k] < |ir| && Width(ir, chain[k]) >= n
  }

  lemma ChainTail(ir: Code, chain: seq<nat>, pairwise: bool, from: nat, op: nat)
    requires Typed(ir) && Chain(ir, chain, pairwise, from, op) && |chain| > 1
    ensures Level(ir, chain[0], pairwise, from, chain[1]) && ir[chain[0]].Bin? && ir[chain[0]].op == op
    ensures Chain(ir, chain[1..], pairwise, from + 1, op)
  {
    hide Level;
    var rest := chain[1..];
    assert Level(ir, chain[0], pairwise, from + 0, chain[0 + 1]);
    forall k | 0 <= k < |rest| - 1
      ensures Level(ir, rest[k], pairwise, from + 1 + k, rest[k + 1]) && ir[rest[k]].Bin? && ir[rest[k]].op == op
    {
      assert Level(ir, chain[k + 1], pairwise, from + (k + 1), chain[k + 1 + 1]);
    }
  }

  lemma ChainExtend(ir: Code, v: nat, rest: seq<nat>, pairwise: bool, from: nat, op: nat)
    requires Typed(ir) && Chain(ir, rest, pairwise, from + 1, op)
    requires v < |ir| && Level(ir, v, pairwise, from, rest[0]) && ir[v].Bin? && ir[v].op == op
    ensures Chain(ir, [v] + rest, pairwise, from, op)
  {
    hide Level;
    var chain := [v] + rest;
    forall k | 0 <= k < |chain| - 1
      ensures Level(ir, chain[k], pairwise, from + k, chain[k + 1]) && ir[chain[k]].Bin? && ir[chain[k]].op == op
    {
      if k > 0 { assert Level(ir, rest[k - 1], pairwise, from + 1 + (k - 1), rest[k - 1 + 1]); }
    }
  }

  /** The first lanes of the head of a chain add up to twice as many lanes with every level. */
  lemma {:induction false} ChainFolds<T(!new)>(ir: Code, chain: seq<nat>, pairwise: bool, from: nat, op: nat, mean: Meaning<T>)
    requires Typed(ir) && Chain(ir, chain, pairwise, from, op) && Reorders(mean.op, op)
    requires Wide(ir, chain, Pow2(from + |chain| - 1))
    ensures Pow2(from) <= Width(ir, chain[0])
    ensures Fold(mean.op, op, Lanes(ir, chain[0], Pow2(from), mean))
         == Fold(mean.op, op, Lanes(ir, chain[|chain| - 1], Pow2(from + |chain| - 1), mean))
    decreases |chain|
  {
    hide Level, Lane, Typed, Width, Reorders, Fold;
    Pow2Grows(from, from + |chain| - 1);
    if |chain| > 1 {
      Pow2Grows(from + 1, from + |chain| - 1);
      ChainTail(ir, chain, pairwise, from, op);
      LevelFolds(ir, chain[0], pairwise, from, chain[1], mean);
      ChainFolds(ir, chain[1..], pairwise, from + 1, op, mean);
    }
  }

  // The matchers

  /** v heads a chain from one level to another; its last value is the vector reduced. */
  ghost predicate Reducible(ir: Code, v: nat, pairwise: bool, from: nat, to: nat, op: nat)
    requires Typed(ir)
  {
    exists chain :: Chain(ir, chain, pairwise, from, op) && from + |chain| == to + 1 && chain[0] == v
  }

  lemma OneNext(ir: Code, v: nat, pairwise: bool, level: nat, next: nat, other: nat)
    requires Typed(ir) && v < |ir| && Level(ir, v, pairwise, level, next) && Level(ir, v, pairwise, level, other)
    ensures next == other
  {
  }

  lemma ReducibleStep(ir: Code, v: nat, pairwise: bool, level: nat, to: nat, op: nat, next: nat)
    requires Typed(ir) && level < to && v < |ir| && next < |ir| && Level(ir, v, pairwise, level, next) && ir[v].Bin?
    ensures Reducible(ir, v, pairwise, level, to, op) <==> ir[v].op == op && Reducible(ir, next, pairwise, level + 1, to, op)
  {
    hide Level, Chain;
    if ir[v].op == op && Reducible(ir, next, pairwise, level + 1, to, op) {
      var rest :| Chain(ir, rest, pairwise, level + 1, op) && level + 1 + |rest| == to + 1 && rest[0] == next;
      ChainExtend(ir, v, rest, pairwise, level, op);
      assert level + |[v] + rest| == to + 1 && ([v] + rest)[0] == v;
    }
    if Reducible(ir, v, pairwise, level, to, op) {
      var chain :| Chain(ir, chain, pairwise, level, op) && level + |chain| == to + 1 && chain[0] == v;
      ChainTail(ir, chain, pairwise, level, op);
      OneNext(ir, v, pairwise, level, next, chain[1]);
      assert level + 1 + |chain[1..]| == to + 1 && chain[1..][0] == next;
    }
  }

  /** The value that the head of a chain of two or more reduces. */
  lemma NextOf(ir: Code, v: nat, pairwise: bool, level: nat, to: nat, op: nat) returns (next: nat)
    requires Typed(ir) && level < to
    ensures Reducible(ir, v, pairwise, level, to, op) ==>
              v < |ir| && next < |ir| && Level(ir, v, pairwise, level, next) && ir[v].Bin? && ir[v].op == op
              && (level + 1 < to ==> ir[next].Bin? && ir[next].op == op)
  {
    hide Level;
    next := 0;
    if Reducible(ir, v, pairwise, level, to, op) {
      var chain :| Chain(ir, chain, pairwise, level, op) && level + |chain| == to + 1 && chain[0] == v;
      ChainTail(ir, chain, pairwise, level, op);
      next := chain[1];
      if level + 1 < to { ChainTail(ir, chain[1..], pairwise, level + 1, op); }
    }
  }

  lemma OneLeft(ir: Code, v: nat, pairwise: bool, level: nat, op: nat)
    requires Typed(ir) && v < |ir|
    ensures Reducible(ir, v, pairwise, level, level, op)
  {
    assert Chain(ir, [v], pairwise, level, op);
  }

  /** Vectors are at least n lanes wide. Without this the pairwise matcher writes past the end of a mask. */
  predicate AllWide(ir: Code, n: nat) { forall v | 0 <= v < |ir| :: Width(ir, v) >= n }

  predicate ShuffleOf(ir: Code, si: Option<nat>) { si.Some? ==> si.value < |ir| && ir[si.value].Shuffle? }

  /** A shuffle takes every other lane; on level 0, lane 0 needs no shuffle. */
  predicate PairMasked(ir: Code, si: Option<nat>, isLeft: bool, level: nat)
    requires ShuffleOf(ir, si)
  {
    match si
    case None => level == 0 && isLeft
    case Some(o) => ir[o].mask == PairMask(|ir[o].mask|, level, isLeft)
  }

  method MatchPairwiseShuffleMask(ir: Code, si: Option<nat>, isLeft: bool, level: nat) returns (ok: bool)
    requires ShuffleOf(ir, si) && (si.Some? ==> Pow2(level) <= |ir[si.value].mask|)
    ensures ok == PairMasked(ir, si, isLeft, level)
  {
    if si.None? { return level == 0 && isLeft; }
    var actual := ir[si.value].mask;
    var mask := seq(|actual|, _ => -1);
    var i, e, val := 0, Pow2(level), if isLeft then 0 else 1;
    while i != e
      invariant i <= e && val == 2 * i + (if isLeft then 0 else 1) && |mask| == |actual|
      invariant forall k | 0 <= k < |mask| :: mask[k] == if k < i then 2 * k + (if isLeft then 0 else 1) else -1
      decreases e - i
    {
      mask := mask[i := val];
      i, val := i + 1, val + 2;
    }
    assert mask == PairMask(|actual|, level, isLeft);
    return mask == actual;
  }

  function AsShuffle(ir: Code, v: nat): Option<nat>
    requires v < |ir|
  {
    if ir[v].Shuffle? then Some(v) else None
  }

  /** The operands of one level are next, or shuffles of it. */
  predicate Operands(ir: Code, l: nat, r: nat, level: nat, next: nat)
    requires l < |ir| && r < |ir|
  {
    var ls, rs := ir[l].Shuffle?, ir[r].Shuffle?;
    || (ls && rs && next == ir[l].a == ir[r].a)
    || (level == 0 && ls && !rs && next == ir[l].a == r)
    || (level == 0 && !ls && rs && next == ir[r].a == l)
  }

  predicate EitherWay(ir: Code, ls: Option<nat>, rs: Option<nat>, level: nat)
    requires ShuffleOf(ir, ls) && ShuffleOf(ir, rs)
  {
    || (PairMasked(ir, ls, true, level) && PairMasked(ir, rs, false, level))
    || (PairMasked(ir, rs, true, level) && PairMasked(ir, ls, false, level))
  }

  lemma PairLevelIs(ir: Code, v: nat, level: nat, next: nat)
    requires Typed(ir) && v < |ir| && ir[v].Bin? && TypedAt(ir, v)
    ensures PairLevel(ir, v, level, next)
       <==> Operands(ir, ir[v].l, ir[v].r, level, next) && EitherWay(ir, AsShuffle(ir, ir[v].l), AsShuffle(ir, ir[v].r), level)
  {
    hide PairMask;
  }

  lemma NotBoth(ir: Code, si: Option<nat>, level: nat)
    requires ShuffleOf(ir, si) && (si.Some? ==> |ir[si.value].mask| > 0)
    ensures !(PairMasked(ir, si, true, level) && PairMasked(ir, si, false, level))
  {
    if si.Some? {
      var size := |ir[si.value].mask|;
      assert PairMask(size, level, true)[0] == 0 && PairMask(size, level, false)[0] == 1;
    }
  }

  lemma Room(ir: Code, o: nat, level: nat, numLevels: nat)
    requires Typed(ir) && o < |ir| && level < numLevels && AllWide(ir, Pow2(numLevels))
    ensures var si := AsShuffle(ir, o); ShuffleOf(ir, si) && (si.Some? ==> Pow2(level) <= |ir[si.value].mask|)
  {
    Pow2Grows(level, numLevels);
    assert TypedAt(ir, o) && Width(ir, o) >= Pow2(level);
  }

  lemma NextPair(ir: Code, v: nat, level: nat, to: nat) returns (next: nat)
    requires Typed(ir) && level < to && v < |ir| && ir[v].Bin? && TypedAt(ir, v)
    ensures Reducible(ir, v, true, level, to, ir[v].op) ==>
              && next < |ir| && Operands(ir, ir[v].l, ir[v].r, level, next)
              && EitherWay(ir, AsShuffle(ir, ir[v].l), AsShuffle(ir, ir[v].r), level)
              && (level + 1 < to ==> ir[next].Bin? && ir[next].op == ir[v].op)
  {
    hide Reducible, PairLevel;
    next := NextOf(ir, v, true, level, to, ir[v].op);
    PairLevelIs(ir, v, level, next);
  }

  lemma LevelFound(ir: Code, v: nat, level: nat, to: nat, next: nat)
    requires Typed(ir) && v < |ir| && ir[v].Bin? && TypedAt(ir, v) && next < |ir| && level < to
    requires Operands(ir, ir[v].l, ir[v].r, level, next) && EitherWay(ir, AsShuffle(ir, ir[v].l), AsShuffle(ir, ir[v].r), level)
    ensures Reducible(ir, v, true, level, to, ir[v].op) <==> level + 1 == to || Reducible(ir, next, true, level + 1, to, ir[v].op)
  {
    hide Reducible, PairLevel;
    PairLevelIs(ir, v, level, next);
    ReducibleStep(ir, v, true, level, to, ir[v].op, next);
    if level + 1 == to { OneLeft(ir, next, true, to, ir[v].op); }
  }

  method MatchBothMasks(ir: Code, ls: Option<nat>, rs: Option<nat>, level: nat) returns (ok: bool)
    requires ShuffleOf(ir, ls) && (ls.Some? ==> Pow2(level) <= |ir[ls.value].mask|)
    requires ShuffleOf(ir, rs) && (rs.Some? ==> Pow2(level) <= |ir[rs.value].mask|)
    ensures ok == EitherWay(ir, ls, rs, level)
  {
    hide PairMasked;
    NotBoth(ir, ls, level);
    ok := MatchPairwiseShuffleMask(ir, ls, true, level);
    if ok {
      ok := MatchPairwiseShuffleMask(ir, rs, false, level);
    } else {
      ok := MatchPairwiseShuffleMask(ir, rs, true, level);
      if ok { ok := MatchPairwiseShuffleMask(ir, ls, false, level); }
    }
  }

  /** Accepts exactly the roots of pairwise reductions. */
  method MatchPairwiseReductionAtLevel(ir: Code, v: nat, level: nat, numLevels: nat) returns (ok: bool)
    requires Typed(ir) && level < numLevels && AllWide(ir, Pow2(numLevels))
    requires v < |ir| && ir[v].Bin?
    ensures ok <==> Reducible(ir, v, true, level, numLevels, ir[v].op)
    decreases numLevels - level
  {
    hide Reducible, Width, Pow2, EitherWay, Typed, TypedAt, AllWide, Level;
    BinTyped(ir, v);
    var opcode, l, r := ir[v].op, ir[v].l, ir[v].r;
    ghost var next := NextPair(ir, v, level, numLevels);
    Room(ir, l, level, numLevels);
    Room(ir, r, level, numLevels);
    var ls, rs := AsShuffle(ir, l), AsShuffle(ir, r);
    if ls.None? && level > 0 { return false; }
    if rs.None? && level > 0 { return false; }
    if level == 0 && rs.None? && ls.None? { return false; }
    var nextLevelOp: nat;
    if ls.Some? && rs.Some? {
      if ir[l].a != ir[r].a { return false; }
      nextLevelOp := ir[l].a;
    } else {
      if ls.Some? && ir[l].a != r { return false; }
      if rs.Some? && ir[r].a != l { return false; }
      nextLevelOp := if ls.Some? then r else l;
    }
    assert Operands(ir, l, r, level, nextLevelOp);
    OperandsTyped(ir, v, level, nextLevelOp);
    if level + 1 != numLevels && !(ir[nextLevelOp].Bin? && ir[nextLevelOp].op == opcode) { return false; }
    var masksMatch := MatchBothMasks(ir, ls, rs, level);
    if !masksMatch { return false; }
    LevelFound(ir, v, level, numLevels, nextLevelOp);
    if level + 1 == numLevels { return true; }
    ok := MatchPairwiseReductionAtLevel(ir, nextLevelOp, level + 1, numLevels);
  }

  lemma BinTyped(ir: Code, v: nat)
    requires Typed(ir) && v < |ir|
    ensures TypedAt(ir, v) && (ir[v].Bin? ==> ir[v].l < v && ir[v].r < v)
  {
  }

  lemma OperandsTyped(ir: Code, v: nat, level: nat, next: nat)
    requires Typed(ir) && v < |ir| && ir[v].Bin? && TypedAt(ir, v) && Operands(ir, ir[v].l, ir[v].r, level, next)
    ensures next < |ir|
  {
    BinTyped(ir, ir[v].l);
    BinTyped(ir, ir[v].r);
  }

  datatype Extract = Extract(vec: nat, index: Option<nat>)

  /** What a match says: the operator and the width of the vectors. */
  datatype Match = Match(op: nat, width: nat, pairwise: bool)

  /** x is a power of two; the source tests x && !(x & (x - 1)). */
  predicate IsPowerOf2(x: nat) { x != 0 && And(x, x - 1) == 0 }

  lemma {:induction false} PowerOf2Is(x: nat)
    requires x > 0
    ensures IsPowerOf2(x) <==> x == Pow2(Log2(x))
  {
    if x % 2 == 1 {
      AndSelf(x / 2);
      if x > 1 { assert (x - 1) / 2 == x / 2 && And(x, x - 1) == 2 * And(x / 2, x / 2); }
    } else {
      PowerOf2Is(x / 2);
      assert (x - 1) / 2 == x / 2 - 1 && And(x, x - 1) == 2 * And(x / 2, x / 2 - 1);
    }
  }

  /** The extract takes lane 0 of a binary operation on vectors of a power of two of lanes. */
  predicate Candidate(ir: Code, root: Extract)
    requires root.vec < |ir|
  {
    && root.index.Some? && root.index.value % 0x1_0000_0000 == 0 && ir[root.vec].Bin? && IsPowerOf2(Width(ir, root.vec))
  }

  method MatchPairwiseReduction(ir: Code, root: Extract, enabled: bool) returns (m: Option<Match>)
    requires Typed(ir) && root.vec < |ir| && Width(ir, root.vec) >= 2 && AllWide(ir, Width(ir, root.vec))
    ensures m.Some? <==> enabled && Candidate(ir, root)
                         && Reducible(ir, root.vec, true, 0, Log2(Width(ir, root.vec)), ir[root.vec].op)
    ensures m.Some? ==> m.value == Match(ir[root.vec].op, Width(ir, root.vec), true)
  {
    if !enabled { return None; }
    if !(root.index.Some? && root.index.value % 0x1_0000_0000 == 0) { return None; }
    if !ir[root.vec].Bin? { return None; }
    var numVecElems := Width(ir, root.vec);
    if !IsPowerOf2(numVecElems) { return None; }
    PowerOf2Is(numVecElems);
    var matched := MatchPairwiseReductionAtLevel(ir, root.vec, 0, Log2(numVecElems));
    m := if matched then Some(Match(ir[root.vec].op, numVecElems, true)) else None;
  }

  /** The operand that is not the shuffle, and the shuffle. */
  function GetShuffleAndOtherOprd(ir: Code, v: nat): (nat, Option<nat>)
    requires v < |ir| && ir[v].Bin? && TypedAt(ir, v)
  {
    var l, r := ir[v].l, ir[v].r;
    if ir[l].Shuffle? then (r, Some(l)) else (l, AsShuffle(ir, r))
  }

  lemma SplitLevelIs(ir: Code, v: nat, level: nat, next: nat)
    requires Typed(ir) && v < |ir| && ir[v].Bin? && TypedAt(ir, v)
    ensures var (other, shuffle) := GetShuffleAndOtherOprd(ir, v);
            SplitLevel(ir, v, level, next) <==>
              next == other && shuffle.Some? && IsShuffle(ir, shuffle.value, other, SplitMask(Width(ir, v), Pow2(level)))
  {
    BinTyped(ir, ir[v].l);
    BinTyped(ir, ir[v].r);
  }

  lemma SplitStep(ir: Code, v: nat, level: nat, to: nat, op: nat)
    requires Typed(ir) && v < |ir| && level < to
    requires ir[v].Bin? ==> TypedAt(ir, v)
    ensures Reducible(ir, v, false, level, to, op) <==>
              && ir[v].Bin? && ir[v].op == op
              && var (other, shuffle) := GetShuffleAndOtherOprd(ir, v);
                 && shuffle.Some? && IsShuffle(ir, shuffle.value, other, SplitMask(Width(ir, v), Pow2(level)))
                 && Reducible(ir, other, false, level + 1, to, op)
  {
    hide Reducible, SplitLevel, IsShuffle, SplitMask;
    var next := NextOf(ir, v, false, level, to, op);
    if ir[v].Bin? {
      var (other, shuffle) := GetShuffleAndOtherOprd(ir, v);
      SplitLevelIs(ir, v, level, next);
      SplitLevelIs(ir, v, level, other);
      if SplitLevel(ir, v, level, other) { ReducibleStep(ir, v, false, level, to, op, other); }
    }
  }

  /** The inner loops of the matcher: whatever the mask held before, it is the mask of this level after. */
  method FillMask(mask0: seq<int>, maskStart: nat) returns (mask: seq<int>)
    requires maskStart <= |mask0|
    ensures mask == SplitMask(|mask0|, maskStart)
  {
    mask := mask0;
    for j := 0 to maskStart
      invariant |mask| == |mask0| && forall k | 0 <= k < j :: mask[k] == maskStart + k
    {
      mask := mask[j := maskStart + j];
    }
    for j := maskStart to |mask|
      invariant |mask| == |mask0| && forall k | 0 <= k < j :: mask[k] == if k < maskStart then maskStart + k else -1
    {
      mask := mask[j := -1];
    }
  }

  method MatchVectorSplittingReduction(ir: Code, root: Extract, enabled: bool) returns (m: Option<Match>)
    requires Typed(ir) && root.vec < |ir|
    ensures m.Some? <==> enabled && Candidate(ir, root)
                         && Reducible(ir, root.vec, false, 0, Log2(Width(ir, root.vec)), ir[root.vec].op)
    ensures m.Some? ==> m.value == Match(ir[root.vec].op, Width(ir, root.vec), false)
  {
    if !enabled { return None; }
    if !(root.index.Some? && root.index.value % 0x1_0000_0000 == 0) { return None; }
    if !ir[root.vec].Bin? { return None; }
    var rdxOpcode := ir[root.vec].op;
    var numVecElems := Width(ir, root.vec);
    if !IsPowerOf2(numVecElems) { return None; }
    PowerOf2Is(numVecElems);
    hide Reducible, IsShuffle, IsPowerOf2, TypedAt, Typed;
    var maskStart: nat, rdxOp: nat, remain: nat := 1, root.vec, numVecElems;
    var shuffleMask := seq(numVecElems, _ => 0);
    ghost var level: nat, levels: nat := 0, Log2(numVecElems);
    while remain != 1
      invariant rdxOp < |ir| && level <= levels && |shuffleMask| == numVecElems == Width(ir, rdxOp)
      invariant maskStart == Pow2(level) && remain == Pow2(levels - level) && numVecElems == Pow2(levels)
      invariant Reducible(ir, root.vec, false, 0, levels, rdxOpcode) <==> Reducible(ir, rdxOp, false, level, levels, rdxOpcode)
      decreases remain
    {
      BinTyped(ir, rdxOp);
      SplitStep(ir, rdxOp, level, levels, rdxOpcode);
      if !ir[rdxOp].Bin? { return None; }
      if ir[rdxOp].op != rdxOpcode { return None; }
      var (nextRdxOp, shuffle) := GetShuffleAndOtherOprd(ir, rdxOp);
      if shuffle.None? { return None; }
      if ir[shuffle.value].a != nextRdxOp { return None; }
      Pow2Grows(level, levels);
      shuffleMask := FillMask(shuffleMask, maskStart);
      if shuffleMask != ir[shuffle.value].mask { return None; }
      rdxOp, remain, maskStart, level := nextRdxOp, remain / 2, maskStart * 2, level + 1;
    }
    OneLeft(ir, rdxOp, false, level, rdxOpcode);
    m := Some(Match(rdxOpcode, numVecElems, false));
  }

  // What a match means

  /** For every meaning of the leaves, the undef lanes and the operator, lane 0 of v is the first n lanes of s added up. */
  ghost predicate Sums<T(!new)>(ir: Code, v: nat, op: nat, n: nat, s: nat) {
    && Typed(ir) && v < |ir| && s < |ir| && Width(ir, v) > 0 && 0 < n <= Width(ir, s)
    && forall mean: Meaning<T> | Reorders(mean.op, op) :: Lane(ir, v, 0, mean) == Fold(mean.op, op, Lanes(ir, s, n, mean))
  }

  lemma {:induction false} SplitWidths(ir: Code, chain: seq<nat>, from: nat, op: nat)
    requires Typed(ir) && Chain(ir, chain, false, from, op)
    ensures forall k | 0 <= k < |chain| :: Width(ir, chain[k]) == Width(ir, chain[0])
    decreases |chain|
  {
    if |chain| > 1 {
      ChainTail(ir, chain, false, from, op);
      BinTyped(ir, chain[0]);
      SplitWidths(ir, chain[1..], from + 1, op);
      forall k | 0 <= k < |chain| ensures Width(ir, chain[k]) == Width(ir, chain[0]) {
        if k > 0 { assert chain[k] == chain[1..][k - 1]; }
      }
    }
  }

  lemma ChainSums<T(!new)>(ir: Code, chain: seq<nat>, pairwise: bool, op: nat)
    requires Typed(ir) && Chain(ir, chain, pairwise, 0, op) && Wide(ir, chain, Pow2(|chain| - 1))
    ensures Sums<T>(ir, chain[0], op, Pow2(|chain| - 1), chain[|chain| - 1])
  {
    hide Level, Reorders, Lane;
    forall mean: Meaning<T> | Reorders(mean.op, op)
      ensures Lane(ir, chain[0], 0, mean) == Fold(mean.op, op, Lanes(ir, chain[|chain| - 1], Pow2(|chain| - 1), mean))
    {
      ChainFolds(ir, chain, pairwise, 0, op, mean);
      assert |Lanes(ir, chain[0], Pow2(0), mean)| == 1;
    }
  }

  /** What either matcher accepts adds up as many lanes of one vector as the root has; the splitting matcher, all of it. */
  lemma MatchedReduces<T(!new)>(ir: Code, root: Extract, pairwise: bool) returns (s: nat)
    requires Typed(ir) && root.vec < |ir| && Candidate(ir, root)
    requires pairwise ==> AllWide(ir, Width(ir, root.vec))
    requires Reducible(ir, root.vec, pairwise, 0, Log2(Width(ir, root.vec)), ir[root.vec].op)
    ensures Sums<T>(ir, root.vec, ir[root.vec].op, Width(ir, root.vec), s)
    ensures !pairwise ==> Width(ir, s) == Width(ir, root.vec)
  {
    var v, op, n := root.vec, ir[root.vec].op, Width(ir, root.vec);
    PowerOf2Is(n);
    var chain :| Chain(ir, chain, pairwise, 0, op) && |chain| == Log2(n) + 1 && chain[0] == v;
    if !pairwise { SplitWidths(ir, chain, 0, op); }
    s := chain[|chain| - 1];
    ChainSums<T>(ir, chain, pairwise, op);
  }

  /** The first lane of v is the sum of all lanes of s. */
  ghost predicate SumsAll<T(!new)>(ir: Code, v: nat, op: nat, s: nat) {
    && Typed(ir) && v < |ir| && s < |ir| && Width(ir, v) > 0 && Width(ir, s) > 0
    && forall mean: Meaning<T> | Reorders(mean.op, op) :: Lane(ir, v, 0, mean) == Fold(mean.op, op, Lanes(ir, s, Width(ir, s), mean))
  }

  /** Every operator adds, and all that is read is one. */
  function Counting(): Meaning<int> { Meaning((v, j) => 1, (v, j) => 1, (op, x, y) => x + y) }

  lemma {:induction false} CountsAtLeastOne(ir: Code, v: nat, j: nat)
    requires Typed(ir) && v < |ir| && j < Width(ir, v)
    ensures Lane(ir, v, j, Counting()) >= 1
    decreases v
  {
    assert TypedAt(ir, v);
    match ir[v] {
      case Leaf(_) =>
      case Bin(_, l, r) =>
        CountsAtLeastOne(ir, l, j);
        CountsAtLeastOne(ir, r, j);
      case Shuffle(a, b, mask) =>
        var m := mask[j];
        assert m in mask;
        if 0 <= m < Width(ir, a) { CountsAtLeastOne(ir, a, m); }
        if m >= Width(ir, a) { CountsAtLeastOne(ir, b, m - Width(ir, a)); }
    }
  }

  /** Longer lists of positive numbers have greater sums. */
  lemma {:induction false} LongerIsMore(f: (nat, int, int) -> int, op: nat, xs: seq<int>, n: nat)
    requires (forall x, y :: f(op, x, y) == x + y) && 0 < n <= |xs| && forall x | x in xs :: x >= 1
    ensures n < |xs| ==> Fold(f, op, xs[..n]) < Fold(f, op, xs)
    ensures Fold(f, op, xs) >= 1
    decreases |xs|
  {
    if |xs| > 1 {
      assert xs[0] in xs && forall x | x in xs[1..] :: x in xs;
      if n > 1 {
        LongerIsMore(f, op, xs[1..], n - 1);
        assert xs[..n][1..] == xs[1..][..n - 1] && xs[..n][0] == xs[0];
      } else {
        LongerIsMore(f, op, xs[1..], 1);
      }
    }
  }

  /** A sum of n lanes is the sum of the whole vector exactly when the vector has n lanes. */
  lemma WholeIffSameWidth(ir: Code, v: nat, op: nat, n: nat, s: nat)
    requires Sums<int>(ir, v, op, n, s)
    ensures SumsAll<int>(ir, v, op, s) <==> Width(ir, s) == n
  {
    hide Lane, Width, Typed;
    if SumsAll<int>(ir, v, op, s) {
      var mean := Counting();
      AssociativeReorders(mean.op, op);
      var xs := Lanes(ir, s, Width(ir, s), mean);
      assert xs[..n] == Lanes(ir, s, n, mean);
      forall x | x in xs ensures x >= 1 {
        var j :| 0 <= j < |xs| && xs[j] == x;
        CountsAtLeastOne(ir, s, j);
      }
      LongerIsMore(mean.op, op, xs, n);
    }
  }

  /** What is accepted, with the vector reduced: as many of its lanes are added up as the root has, and that is the whole of
      it exactly when it is as wide as the root, as it always is in the splitting form. */
  ghost predicate Reduces(ir: Code, v: nat, m: Match, s: nat) {
    && Sums<int>(ir, v, m.op, m.width, s) && m.width == Width(ir, v)
    && (SumsAll<int>(ir, v, m.op, s) <==> Width(ir, s) == Width(ir, v))
    && (!m.pairwise ==> Width(ir, s) == Width(ir, v))
  }

  /** getInstructionCost of an extractelement tries the splitting form first. */
  method CostOfExtract(ir: Code, root: Extract, enabled: bool) returns (m: Option<Match>)
    requires Typed(ir) && root.vec < |ir| && Width(ir, root.vec) >= 2 && AllWide(ir, Width(ir, root.vec))
    ensures m.Some? ==> exists s :: Reduces(ir, root.vec, m.value, s)
    ensures m.Some? ==> ir[root.vec].Bin? && m.value.op == ir[root.vec].op && m.value.width == Width(ir, root.vec)
    ensures m.None? <==> !enabled || !Candidate(ir, root)
                         || forall pairwise :: !Reducible(ir, root.vec, pairwise, 0, Log2(Width(ir, root.vec)), ir[root.vec].op)
  {
    hide Reducible, Sums, SumsAll;
    m := MatchVectorSplittingReduction(ir, root, enabled);
    if m.Some? {
      ghost var s := MatchedReduces<int>(ir, root, false);
      WholeIffSameWidth(ir, root.vec, m.value.op, m.value.width, s);
      assert Reduces(ir, root.vec, m.value, s);
      return;
    }
    m := MatchPairwiseReduction(ir, root, enabled);
    if m.Some? {
      ghost var s := MatchedReduces<int>(ir, root, true);
      WholeIffSameWidth(ir, root.vec, m.value.op, m.value.width, s);
      assert Reduces(ir, root.vec, m.value, s);
    }
  }

  // Which operators

  /** Whatever chain is accepted, of whatever leaves, its first lane is the sum of the lanes reduced. */
  ghost predicate AlwaysSums<T(!new)>(f: (nat, T, T) -> T, op: nat) {
    forall ir: Code, chain: seq<nat>, pairwise: bool, leaf: (nat, nat) -> T, undef: (nat, nat) -> T ::
      SumsOne(ir, chain, pairwise, Meaning(leaf, undef, f), op)
  }

  ghost predicate SumsOne<T(!new)>(ir: Code, chain: seq<nat>, pairwise: bool, mean: Meaning<T>, op: nat) {
    Typed(ir) && Chain(ir, chain, pairwise, 0, op) && Wide(ir, chain, Pow2(|chain| - 1)) ==>
      Lane(ir, chain[0], 0, mean) == Fold(mean.op, op, Lanes(ir, chain[|chain| - 1], Pow2(|chain| - 1), mean))
  }

  function Four<T>(a: T, b: T, c: T, d: T): (nat, nat) -> T {
    (v, j) => if j == 0 then a else if j == 1 then b else if j == 2 then c else d
  }

  lemma SumsHere<T(!new)>(ir: Code, chain: seq<nat>, pairwise: bool, mean: Meaning<T>, op: nat, v: nat, s: nat, n: nat)
    requires AlwaysSums(mean.op, op) && Typed(ir) && Chain(ir, chain, pairwise, 0, op) && Wide(ir, chain, n)
    requires n == Pow2(|chain| - 1) && v == chain[0] && s == chain[|chain| - 1]
    ensures Lane(ir, v, 0, mean) == Fold(mean.op, op, Lanes(ir, s, n, mean))
  {
    assert SumsOne(ir, chain, pairwise, mean, op);
  }

  /** x1 + x0 by one shuffle. */
  function Swapped(op: nat): (ir: Code)
    ensures Typed(ir) && Chain(ir, [2, 0], false, 0, op) && Wide(ir, [2, 0], 2)
  {
    var ir := [Leaf(2), Shuffle(0, 0, [1, -1]), Bin(op, 1, 0)];
    assert TypedAt(ir, 0) && TypedAt(ir, 1) && TypedAt(ir, 2);
    assert SplitMask(2, Pow2(0)) == [1, -1];
    assert Level(ir, 2, false, 0, 0);
    ir
  }

  lemma SwapNeeded<T(!new)>(f: (nat, T, T) -> T, op: nat, a: T, b: T)
    requires AlwaysSums(f, op)
    ensures f(op, a, b) == f(op, b, a)
  {
    hide Typed, Chain, Wide;
    var ir := Swapped(op);
    var mean := Meaning(Four(a, b, a, b), Four(a, a, a, a), f);
    assert Pow2(1) == 2;
    SumsHere(ir, [2, 0], false, mean, op, 2, 0, 2);
    assert Lane(ir, 1, 0, mean) == b && Lane(ir, 0, 0, mean) == a;
    assert Lane(ir, 2, 0, mean) == f(op, b, a);
    var xs := Lanes(ir, 0, 2, mean);
    assert xs[0] == a && xs[1] == b && xs[1..] == [b];
    assert Fold(f, op, xs) == f(op, a, b);
  }

  /** (x0 + x1) + (x2 + x3), pairwise. */
  function Paired(op: nat): (ir: Code)
    ensures Typed(ir) && Chain(ir, [6, 3, 0], true, 0, op) && Wide(ir, [6, 3, 0], 4)
  {
    var ir := [Leaf(4), Shuffle(0, 0, [0, 2, -1, -1]), Shuffle(0, 0, [1, 3, -1, -1]), Bin(op, 1, 2),
               Shuffle(3, 3, [0, -1, -1, -1]), Shuffle(3, 3, [1, -1, -1, -1]), Bin(op, 4, 5)];
    assert Width(ir, 0) == 4 && Width(ir, 1) == 4 && Width(ir, 3) == 4 && Width(ir, 4) == 4 && Width(ir, 6) == 4;
    assert forall v | 0 <= v < |ir| :: TypedAt(ir, v);
    assert Pow2(0) == 1 && Pow2(1) == 2;
    assert PairMask(4, 0, true) == [0, -1, -1, -1] && PairMask(4, 0, false) == [1, -1, -1, -1];
    assert PairMask(4, 1, true) == [0, 2, -1, -1] && PairMask(4, 1, false) == [1, 3, -1, -1];
    assert Level(ir, 6, true, 0, 3) && Level(ir, 3, true, 1, 0);
    ir
  }

  /** (x0 + x2) + (x1 + x3), by halves. */
  function Halved(op: nat): (ir: Code)
    ensures Typed(ir) && Chain(ir, [4, 2, 0], false, 0, op) && Wide(ir, [4, 2, 0], 4)
  {
    var ir := [Leaf(4), Shuffle(0, 0, [2, 3, -1, -1]), Bin(op, 0, 1), Shuffle(2, 2, [1, -1, -1, -1]), Bin(op, 2, 3)];
    assert Width(ir, 0) == 4 && Width(ir, 1) == 4 && Width(ir, 2) == 4 && Width(ir, 3) == 4 && Width(ir, 4) == 4;
    assert forall v | 0 <= v < |ir| :: TypedAt(ir, v);
    assert Pow2(0) == 1 && Pow2(1) == 2;
    assert SplitMask(4, 1) == [1, -1, -1, -1] && SplitMask(4, 2) == [2, 3, -1, -1];
    assert Level(ir, 4, false, 0, 2) && Level(ir, 2, false, 1, 0);
    ir
  }

  lemma FourSum<T>(f: (nat, T, T) -> T, op: nat, xs: seq<T>, a: T, b: T, c: T, d: T)
    requires |xs| == 4 && xs[0] == a && xs[1] == b && xs[2] == c && xs[3] == d
    ensures Fold(f, op, xs) == f(op, a, f(op, b, f(op, c, d)))
  {
    assert xs[1..] == [b, c, d] && [b, c, d][1..] == [c, d] && [c, d][1..] == [d];
    assert Fold(f, op, [c, d]) == f(op, c, d);
    assert Fold(f, op, [b, c, d]) == f(op, b, f(op, c, d));
  }

  lemma RegroupNeeded<T(!new)>(f: (nat, T, T) -> T, op: nat, a: T, b: T, c: T, d: T)
    requires AlwaysSums(f, op)
    ensures f(op, f(op, a, b), f(op, c, d)) == f(op, a, f(op, b, f(op, c, d)))
  {
    hide Typed, Chain, Wide;
    var ir := Paired(op);
    var mean := Meaning(Four(a, b, c, d), Four(a, a, a, a), f);
    assert Pow2(1) == 2 && Pow2(2) == 4;
    SumsHere(ir, [6, 3, 0], true, mean, op, 6, 0, 4);
    assert Lane(ir, 1, 0, mean) == a && Lane(ir, 1, 1, mean) == c && Lane(ir, 2, 0, mean) == b && Lane(ir, 2, 1, mean) == d;
    assert Lane(ir, 3, 0, mean) == f(op, a, b) && Lane(ir, 3, 1, mean) == f(op, c, d);
    assert Lane(ir, 4, 0, mean) == f(op, a, b) && Lane(ir, 5, 0, mean) == f(op, c, d);
    assert Lane(ir, 6, 0, mean) == f(op, f(op, a, b), f(op, c, d));
    FourSum(f, op, Lanes(ir, 0, 4, mean), a, b, c, d);
  }

  lemma InterchangeNeeded<T(!new)>(f: (nat, T, T) -> T, op: nat, a: T, b: T, c: T, d: T)
    requires AlwaysSums(f, op)
    ensures f(op, f(op, a, c), f(op, b, d)) == f(op, a, f(op, b, f(op, c, d)))
  {
    hide Typed, Chain, Wide;
    var ir := Halved(op);
    var mean := Meaning(Four(a, b, c, d), Four(a, a, a, a), f);
    assert Pow2(1) == 2 && Pow2(2) == 4;
    SumsHere(ir, [4, 2, 0], false, mean, op, 4, 0, 4);
    assert Lane(ir, 1, 0, mean) == c && Lane(ir, 1, 1, mean) == d;
    assert Lane(ir, 2, 0, mean) == f(op, a, c) && Lane(ir, 2, 1, mean) == f(op, b, d);
    assert Lane(ir, 4, 0, mean) == f(op, f(op, a, c), f(op, b, d));
    FourSum(f, op, Lanes(ir, 0, 4, mean), a, b, c, d);
  }

  /** The matchers ask nothing of the operator. What they accept is a sum of the lanes exactly for operators whose operands
      may be swapped and regrouped: not, say, for subtraction. */
  lemma OperatorsThatSum<T(!new)>(f: (nat, T, T) -> T, op: nat)
    ensures AlwaysSums(f, op) <==> Reorders(f, op)
  {
    hide Level, Wide, Typed;
    if Reorders(f, op) {
      forall ir: Code, chain: seq<nat>, pairwise: bool, leaf: (nat, nat) -> T, undef: (nat, nat) -> T
        ensures SumsOne(ir, chain, pairwise, Meaning(leaf, undef, f), op)
      {
        if Typed(ir) && Chain(ir, chain, pairwise, 0, op) && Wide(ir, chain, Pow2(|chain| - 1)) {
          ChainSums<T>(ir, chain, pairwise, op);
        }
      }
    }
    if AlwaysSums(f, op) {
      forall a, b ensures f(op, a, b) == f(op, b, a) { SwapNeeded(f, op, a, b); }
      forall a, b, c, d
        ensures f(op, f(op, a, b), f(op, c, d)) == f(op, a, f(op, b, f(op, c, d)))
        ensures f(op, f(op, a, b), f(op, c, d)) == f(op, f(op, a, c), f(op, b, d))
      {
        RegroupNeeded(f, op, a, b, c, d);
        InterchangeNeeded(f, op, a, b, c, d);
      }
    }
  }

  /** The pairwise matcher does not compare the width of the vector reduced with the root's: this sums half of one. */
  lemma WiderSourceIsAccepted()
    ensures var ir: Code := [Leaf(4), Shuffle(0, 0, [0, -1]), Shuffle(0, 0, [1, -1]), Bin(7, 1, 2)];
            && Typed(ir) && Width(ir, 3) == 2 && AllWide(ir, 2) && Candidate(ir, Extract(3, Some(0)))
            && Reducible(ir, 3, true, 0, Log2(2), 7)
            && forall mean: Meaning<int> :: Lane(ir, 3, 0, mean) == mean.op(7, mean.leaf(0, 0), mean.leaf(0, 1))
  {
    var ir: Code := [Leaf(4), Shuffle(0, 0, [0, -1]), Shuffle(0, 0, [1, -1]), Bin(7, 1, 2)];
    assert Width(ir, 0) == 4 && Width(ir, 1) == 2 && Width(ir, 2) == 2 && Width(ir, 3) == 2;
    assert forall v | 0 <= v < |ir| :: TypedAt(ir, v);
    assert Pow2(0) == 1 && PairMask(2, 0, true) == [0, -1] && PairMask(2, 0, false) == [1, -1];
    assert Level(ir, 3, true, 0, 0);
    var chain := [3, 0];
    assert Chain(ir, chain, true, 0, 7) && Log2(2) == 1 && |chain| == 2 && chain[0] == 3;
    assert And(2, 1) == 0;
    forall mean: Meaning<int> ensures Lane(ir, 3, 0, mean) == mean.op(7, mean.leaf(0, 0), mean.leaf(0, 1)) {
      assert Lane(ir, 1, 0, mean) == mean.leaf(0, 0) && Lane(ir, 2, 0, mean) == mean.leaf(0, 1);
    }
  }
}
