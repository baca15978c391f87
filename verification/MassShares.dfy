/** What a target gets of the mass of a block, in proportion to the weights of the edges to it. */
module MassShares {
  import opened Bits
  import opened BlockMasses
  import opened Distributions
  import opened Dithering

  /** The share of w out of total, for one of n edges and weights known to within p. With p == 0 it is at least the exact share
      rounded down, and at most one unit an edge above it. */
  predicate NearShare(share: int, whole: nat, w: int, total: int, n: nat, p: nat) {
    && (share + 1) * (total + n * p) > whole * (w - p)
    && (share > n ==> (share - n) * (total - n * p) <= whole * (w + p))
  }

  /** Totals of 32 bits are exact, others to one part in 2^30. */
  predicate Grain(p: nat, total: nat) { (total <= MAX_32 ==> p == 0) && p * Pow2(30) <= total }

  ghost predicate IsShareOf(share: int, whole: nat, w: nat, total: nat, n: nat) {
    exists p: nat :: Grain(p, total) && NearShare(share, whole, w, total, n, p)
  }

  /** Where the total fits 32 bits nothing is lost by scaling. */
  lemma SmallTotals(share: nat, whole: nat, w: nat, total: nat, n: nat)
    requires IsShareOf(share, whole, w, total, n) && 0 < total <= MAX_32
    ensures share >= Quotient(whole * w, total) && (share - n) * total <= whole * w
  {
    var p: nat :| Grain(p, total) && NearShare(share, whole, w, total, n, p);
    QuotientBelow(whole * w, total, share + 1);
    if share <= n { AtMostZero(share - n, total); }
  }

  lemma AtMostZero(x: int, y: nat)
    requires x <= 0
    ensures x * y <= 0
  {
  }

  /** A share of scaled weights is one of the weights. */
  lemma ScaledShare(share: nat, m: nat, a: nat, r: nat, w: nat, total: nat, n: nat, p: nat)
    requires p > 0 && share * r <= m * a + n * r && (share + 1) * r > m * a
    requires w - p <= a * p <= w + p && total - n * p <= r * p <= total + n * p
    ensures NearShare(share, m, w, total, n, p)
  {
    LowerShare(share, m, a, r, w, total + n * p, p);
    if share > n {
      Distribute(r, share, n);
      UpperShare(share - n, m, a, r, w, total - n * p, p);
    }
  }

  lemma LowerShare(share: nat, m: nat, a: nat, r: nat, w: nat, more: nat, p: nat)
    requires p > 0 && (share + 1) * r > m * a && w - p <= a * p && r * p <= more
    ensures (share + 1) * more > m * (w - p)
  {
    ScaleUp(m * a, (share + 1) * r, p);
    Associated(share + 1, r, p);
    Associated(m, a, p);
    Larger(share + 1, r * p, more);
    Larger(m, w - p, a * p);
  }

  lemma ScaleUp(x: int, y: int, p: nat)
    requires x < y && p > 0
    ensures x * p < y * p
  {
    Distribute(p, y, x);
    AtLeast(y - x, p);
  }

  lemma Associated(x: int, y: int, z: int)
    ensures x * y * z == x * (y * z)
  {
  }

  lemma UpperShare(over: nat, m: nat, a: nat, r: nat, w: nat, less: int, p: nat)
    requires over * r <= m * a && a * p <= w + p && less <= r * p
    ensures over * less <= m * (w + p)
  {
    ProductBound(over * r, p, m * a, p);
    Associated(over, r, p);
    Associated(m, a, p);
    Larger(over, less, r * p);
    Larger(m, a * p, w + p);
  }

  lemma Larger(k: nat, x: int, y: int)
    requires x <= y
    ensures k * x <= k * y
  {
    assert k * y - k * x == k * (y - x);
  }

  /** An amount that was capped by at most half a step, and then scaled, is off by one step at most. */
  lemma ScaledAmount(c: Mass, w: nat, shift: nat)
    requires shift > 0 && c <= w <= c + Pow2(shift - 1)
    ensures w - Pow2(shift) <= Shrunk(c, shift) * Pow2(shift) <= w + Pow2(shift)
  {
    RoundsToNearest(c, shift);
    assert Pow2(shift) == 2 * Pow2(shift - 1);
    var r := ShiftRightAndRound(c, shift);
    hide ShiftRightAndRound, Pow2;
    if r <= 1 {
      ProductBound(r, Pow2(shift), 1, Pow2(shift));
      assert Shrunk(c, shift) == 1;
    }
  }

  /** So the totals are off by one step for each target at most. */
  lemma {:induction false} ScaledTotals(c: seq<Weight>, r: seq<Weight>, ws: seq<Weight>, p: nat)
    requires |r| == |c| && Distinct(c) && forall t | t !in Targets(c) :: TotalTo(ws, t) == 0
    requires forall i | 0 <= i < |c| :: Within(r[i].amount * p, TotalTo(ws, c[i].target), p)
    ensures Within(Total(r) * p, Total(ws), |c| * p)
    decreases |c|
  {
    hide Within, TotalTo;
    if c == [] {
      NoTotal(ws);
      WithinSelf(p);
    } else {
      var n, t := |c| - 1, c[|c| - 1].target;
      var rest := Without(ws, t);
      LastTarget(c);
      TotalWithout(ws, t, t);
      forall u | u !in Targets(c[..n]) ensures TotalTo(rest, u) == 0 {
        if u == t { TotalToAbsent(rest, t); } else { TotalWithout(ws, t, u); }
      }
      forall i | 0 <= i < n ensures Within(r[..n][i].amount * p, TotalTo(rest, c[..n][i].target), p) {
        TotalWithout(ws, t, c[i].target);
      }
      ScaledTotals(c[..n], r[..n], rest, p);
      WithinSum(Total(r[..n]), r[n].amount, Total(rest), TotalTo(ws, t), n, p);
    }
  }

  predicate Within(x: int, y: int, error: int) { y - error <= x <= y + error }

  lemma WithinSelf(p: nat)
    ensures Within(Total([]) * p, 0, 0)
  {
  }

  lemma WithinSum(r: nat, a: nat, x: nat, y: nat, n: nat, p: nat)
    requires Within(r * p, x, n * p) && Within(a * p, y, p)
    ensures Within((r + a) * p, x + y, (n + 1) * p)
  {
    Distribute(p, r, -(a as int));
    Distribute(p, n, -1);
  }

  lemma NoTotal(ws: seq<Weight>)
    requires forall t :: TotalTo(ws, t) == 0
    ensures Total(ws) == 0
  {
    forall t ensures TotalTo([], t) == 0 {}
    TotalByTarget(ws, []);
    EmptyTotal();
  }

  lemma LastTarget(c: seq<Weight>)
    requires c != [] && Distinct(c)
    ensures Targets(c) == Targets(c[..|c| - 1]) + {c[|c| - 1].target} && c[|c| - 1].target !in Targets(c[..|c| - 1])
    ensures Distinct(c[..|c| - 1]) && forall i | 0 <= i < |c| - 1 :: c[i].target != c[|c| - 1].target
  {
    var n := |c| - 1;
    assert c == c[..n] + [c[n]];
  }

  /** Collating keeps the targets. */
  lemma CollatedTargets(c: seq<Weight>, ws: seq<Weight>)
    requires Collated(c, ws) && Positive(ws)
    ensures Targets(c) == Targets(ws) && forall t | t !in Targets(c) :: TotalTo(ws, t) == 0
    ensures forall i | 0 <= i < |c| :: c[i].amount == Capped(TotalTo(ws, c[i].target))
  {
    forall i | 0 <= i < |c| ensures c[i].amount == Capped(TotalTo(ws, c[i].target)) { TotalToPresent(c, i); }
    forall t | t in Targets(c) ensures t in Targets(ws) {
      var w :| w in c && w.target == t;
      assert Drawn(w, ws);
    }
    forall t | t !in Targets(c) ensures TotalTo(ws, t) == 0 {
      TotalToAbsent(c, t);
      assert Capped(TotalTo(ws, t)) == 0;
    }
    forall t | t in Targets(ws) ensures t in Targets(c) {
      var i :| 0 <= i < |ws| && ws[i].target == t;
      TotalToPositive(ws, i);
    }
  }

  /** The grain of scaling. */
  function GrainOf(total: nat): nat {
    if total <= MAX_32 then 0 else Pow2(ShiftOf(total))
  }

  function ShiftOf(total: nat): nat { ShiftPositive(total % TWO_64, total >= TWO_64); ShiftFor(total % TWO_64, total >= TWO_64) }

  lemma GrainIs(total: nat)
    ensures Grain(GrainOf(total), total) && (total <= MAX_32 <==> ShiftOf(total) == 0)
    ensures total >= TWO_64 ==> ShiftOf(total) == 33
  {
    hide Log2, Pow2;
    if MAX_32 < total < TWO_64 {
      SmallModulus(total, TWO_64);
      ShiftIsLeast(total);
    } else if total >= TWO_64 {
      assert Pow2(33) * Pow2(30) <= TWO_64 by { Pow2Sum(33, 30); Pow2Values(); Pow2Grows(63, 64); }
    } else {
      SmallModulus(total, TWO_64);
    }
  }

  /** After normalising, weights and total are those of the edges, to the grain. */
  lemma NormalizedNear(c: seq<Weight>, ws: seq<Weight>)
    requires Collated(c, ws) && Positive(ws) && 1 < |c| <= |ws| && MAX_32 < Total(ws) < TWO_64 + TWO_32
    ensures var r, p := ScaledAll(c, ShiftOf(Total(ws))), GrainOf(Total(ws));
            && Within(Total(r) * p, Total(ws), |c| * p)
            && forall i | 0 <= i < |c| :: Within(r[i].amount * p, TotalTo(ws, c[i].target), p)
  {
    hide Collated, Total, TotalTo, Shrunk, Pow2, Log2, Within, ShiftFor, ShiftOf;
    var total := Total(ws);
    var shift, p := ShiftOf(total), GrainOf(total);
    var r := ScaledAll(c, shift);
    GrainIs(total);
    CollatedTargets(c, ws);
    CollatedFacts(c, ws);
    forall i | 0 <= i < |c| ensures Within(r[i].amount * p, TotalTo(ws, c[i].target), p) {
      TotalToAtMost(ws, c[i].target);
      OneAmount(c[i].amount, TotalTo(ws, c[i].target), total, shift);
    }
    ScaledTotals(c, r, ws, p);
  }

  lemma OneAmount(c: Mass, w: nat, total: nat, shift: nat)
    requires c == Capped(w) && w <= total < TWO_64 + TWO_32 && shift > 0 && (total >= TWO_64 ==> shift == 33)
    ensures Within(Shrunk(c, shift) * Pow2(shift), w, Pow2(shift))
  {
    hide Shrunk;
    Pow2Values();
    ScaledAmount(c, w, shift);
  }

  /** Each target gets its share of the mass, by the weights of the edges to it. */
  lemma SharesAreFair(ws: seq<Weight>, r: seq<Weight>, m: Mass, i: nat)
    requires Normalized(r, ws, ShiftOf(Total(ws))) && Positive(ws) && ws != [] && Total(ws) < TWO_64 + TWO_32 && |ws| <= Pow2(30)
    requires Positive(r) && Total(r) <= MAX_32 && i < |r| <= |ws|
    ensures IsShareOf(Dither(r, m)[i], m, TotalTo(ws, r[i].target), Total(ws), |ws|)
  {
    var c: seq<Weight> :| Collated(c, ws) && r == ScaledAll(c, ShiftOf(Total(ws)));
    hide Collated, Total, TotalTo, Shrunk, Pow2, Log2, ShiftFor, ShiftOf, Dither, IsShareOf, Positive, Scaled;
    var total, n, share := Total(ws), |ws|, Dither(r, m)[i];
    var w := TotalTo(ws, c[i].target);
    GrainIs(total);
    CollatedTargets(c, ws);
    TotalAtLeastOne(ws);
    if |c| == 1 {
      OnlyTarget(c, ws);
      AllToOne(r, m);
      WholeShare(share, total, n);
    } else {
      DitherNear(r, m, i, n);
      SeveralShares(c, ws, share, m, i);
    }
  }

  lemma AllToOne(r: seq<Weight>, m: Mass)
    requires Positive(r) && Total(r) <= MAX_32 && |r| == 1
    ensures Dither(r, m)[0] == m
  {
    hide Dither;
    DitherSum(r, m);
    assert Dither(r, m)[1..] == [];
  }

  lemma SeveralShares(c: seq<Weight>, ws: seq<Weight>, share: nat, m: nat, i: nat)
    requires Collated(c, ws) && Positive(ws) && 1 < |c| <= |ws| && 0 < Total(ws) < TWO_64 + TWO_32 && i < |c|
    requires var r := ScaledAll(c, ShiftOf(Total(ws)));
             share * Total(r) <= m * r[i].amount + |ws| * Total(r) && (share + 1) * Total(r) > m * r[i].amount
    ensures IsShareOf(share, m, TotalTo(ws, c[i].target), Total(ws), |ws|)
  {
    hide Collated, Total, TotalTo, Shrunk, Pow2, Log2, ShiftFor, ShiftOf, NearShare;
    var total, n, w := Total(ws), |ws|, TotalTo(ws, c[i].target);
    var r := ScaledAll(c, ShiftOf(total));
    GrainIs(total);
    if total <= MAX_32 {
      Unscaled(c, ws);
      ExactShare(share, m, w, total, n);
    } else {
      NormalizedNear(c, ws);
      var p := GrainOf(total);
      Products(|c|, n, p);
      GrainPositive(total);
      ScaledShare(share, m, r[i].amount, Total(r), w, total, n, p);
    }
  }

  lemma GrainPositive(total: nat)
    requires total > MAX_32
    ensures GrainOf(total) > 0
  {
  }

  lemma DitherNear(r: seq<Weight>, m: Mass, i: nat, n: nat)
    requires Positive(r) && Total(r) <= MAX_32 && i < |r| <= n
    ensures var share, a := Dither(r, m)[i], r[i].amount;
            share * Total(r) <= m * a + n * Total(r) && (share + 1) * Total(r) > m * a
  {
    hide Dither, Total;
    var total, share: nat, a: nat := Total(r), Dither(r, m)[i], r[i].amount;
    TotalAtLeastOne(r);
    DitherIsFair(r, m, m, total, i);
    DitherIsTight(r, m, m, total, 0, i);
    QuotientIs(m * a, total);
    Larger(total, Quotient(m * a, total) + 1, share + 1);
    Larger(total, i, n);
  }

  lemma TotalAtLeastOne(ws: seq<Weight>)
    requires Positive(ws) && ws != []
    ensures Total(ws) > 0
  {
    assert ws[|ws| - 1] in ws;
  }

  lemma Products(a: nat, b: nat, p: nat)
    requires a <= b
    ensures a * p <= b * p
  {
    Larger(p, a, b);
  }

  lemma OnlyTarget(c: seq<Weight>, ws: seq<Weight>)
    requires Collated(c, ws) && |c| == 1 && Positive(ws)
    ensures TotalTo(ws, c[0].target) == Total(ws)
  {
    var t := c[0].target;
    CollatedTargets(c, ws);
    TotalWithout(ws, t, t);
    forall u ensures TotalTo(Without(ws, t), u) == 0 {
      if u == t { TotalToAbsent(Without(ws, t), t); } else {
        assert u !in Targets(c);
        TotalWithout(ws, t, u);
      }
    }
    NoTotal(Without(ws, t));
  }

  lemma Unscaled(c: seq<Weight>, ws: seq<Weight>)
    requires Collated(c, ws) && Positive(ws) && |c| > 1 && Total(ws) <= MAX_32
    ensures ScaledAll(c, ShiftOf(Total(ws))) == c && Total(c) == Total(ws)
    ensures forall i | 0 <= i < |c| :: c[i].amount == TotalTo(ws, c[i].target)
  {
    hide Log2;
    GrainIs(Total(ws));
    CollatedTotal(c, ws);
    CollatedTargets(c, ws);
    forall i | 0 <= i < |c| ensures c[i].amount == TotalTo(ws, c[i].target) { TotalToAtMost(ws, c[i].target); }
  }

  lemma WholeShare(m: nat, total: nat, n: nat)
    requires total > 0
    ensures IsShareOf(m, m, total, total, n)
  {
    ExactShareIs(m, m, total, total, n) by {
      Distribute(total, m, -1);
      Distribute(total, m, n);
    }
  }

  lemma ExactShare(share: nat, m: nat, w: nat, total: nat, n: nat)
    requires share * total <= m * w + n * total && (share + 1) * total > m * w
    ensures IsShareOf(share, m, w, total, n)
  {
    Distribute(total, share, n);
    ExactShareIs(share, m, w, total, n);
  }

  lemma ExactShareIs(share: nat, m: nat, w: nat, total: nat, n: nat)
    requires (share + 1) * total > m * w && (share - n) * total <= m * w
    ensures IsShareOf(share, m, w, total, n)
  {
    assert 0 * Pow2(30) == 0 && n * 0 == 0;
    assert Grain(0, total) && NearShare(share, m, w, total, n, 0);
  }
}
