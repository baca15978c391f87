/** Dithering: the mass of a block dealt out edge by edge, each share rounded down and the rest passed on. */
module Dithering {
  import opened Bits
  import opened BlockMasses
  import opened Distributions

  lemma {:induction false} TotalFirst(ws: seq<Weight>)
    requires ws != []
    ensures Total(ws) == ws[0].amount + Total(ws[1..])
  {
    TotalRemove(ws, 0, 0);
    assert ws[..0] + ws[1..] == ws[1..];
  }

  /** Each edge takes its share of what the edges before it left. */
  function Dither(ws: seq<Weight>, mass: Mass): (shares: seq<Mass>)
    requires Positive(ws) && Total(ws) <= MAX_32
    ensures |shares| == |ws|
  {
    if ws == [] then []
    else
      TotalFirst(ws); FirstPositive(ws);
      var m := Scale(mass, ws[0].amount, Total(ws));
      [m] + Dither(ws[1..], Subtract(mass, m))
  }

  lemma FirstPositive(ws: seq<Weight>)
    requires Positive(ws) && ws != []
    ensures ws[0].amount > 0 && Positive(ws[1..])
  {
    assert ws[0] in ws;
  }

  function Sum(xs: seq<Mass>): nat { if xs == [] then 0 else xs[0] + Sum(xs[1..]) }

  lemma OneShare(ws: seq<Weight>, mass: Mass)
    requires Positive(ws) && Total(ws) <= MAX_32 && ws != []
    ensures Total(ws) == ws[0].amount + Total(ws[1..]) && ws[0].amount > 0 && Positive(ws[1..])
    ensures var m := Scale(mass, ws[0].amount, Total(ws));
            m == Quotient(mass * ws[0].amount, Total(ws)) <= mass && Subtract(mass, m) == mass - m
    ensures ws[1..] == [] ==> Scale(mass, ws[0].amount, Total(ws)) == mass
  {
    TotalFirst(ws);
    FirstPositive(ws);
    ShareBound(mass, ws[0].amount, Total(ws));
    Saturates(mass, Scale(mass, ws[0].amount, Total(ws)));
  }

  /** No mass is lost: the last edge takes all that is left. */
  lemma {:induction false} DitherSum(ws: seq<Weight>, mass: Mass)
    requires Positive(ws) && Total(ws) <= MAX_32 && ws != []
    ensures Sum(Dither(ws, mass)) == mass
  {
    hide Scale, Subtract;
    OneShare(ws, mass);
    var m := Scale(mass, ws[0].amount, Total(ws));
    var shares := Dither(ws, mass);
    assert shares[0] == m && shares[1..] == Dither(ws[1..], Subtract(mass, m));
    if ws[1..] != [] { DitherSum(ws[1..], mass - m); }
  }

  /** Taking a floor leaves the others at least the proportion they had. */
  lemma KeepsProportion(mass: nat, r: nat, w: nat, m: nat, full: nat, total: nat)
    requires 0 < w <= r && m <= mass && m * r <= mass * w && mass * total >= full * r && total > 0
    ensures (mass - m) * total >= full * (r - w)
  {
    // (mass - m) r total >= mass (r - w) total >= full r (r - w)
    Distribute(r, mass, m);
    assert (mass - m) * r >= mass * r - mass * w == mass * (r - w);
    ProductBound(mass * (r - w), total, (mass - m) * r, total);
    ProductBound(full * r, r - w, mass * total, r - w);
    assert full * r * (r - w) == full * (r - w) * r;
    assert mass * (r - w) * total == mass * total * (r - w);
    assert (mass - m) * r * total == (mass - m) * total * r;
    CancelFactor(full * (r - w), (mass - m) * total, r);
  }

  lemma CancelFactor(x: int, y: int, k: int)
    requires k > 0 && x * k <= y * k
    ensures x <= y
  {
    UniqueRemainder(y * k, k, y, 0);
    QuotientAtLeast(y * k, k, x);
  }

  /** A share of what is left is at least the share of the whole. */
  lemma ShareAtLeast(mass: nat, r: nat, w: nat, full: nat, total: nat, f: nat)
    requires 0 < w <= r && total > 0 && mass * total >= full * r && f * total <= full * w
    ensures f * r <= mass * w
  {
    ProductBound(f * total, r, full * w, r);
    ProductBound(full * r, w, mass * total, w);
    assert f * total * r == f * r * total;
    assert full * w * r == full * r * w;
    assert mass * total * w == mass * w * total;
    CancelFactor(f * r, mass * w, total);
  }

  /** Every edge gets at least the floor of its exact share of the mass put in. */
  lemma {:induction false} DitherIsFair(ws: seq<Weight>, mass: Mass, full: nat, total: nat, i: nat)
    requires Positive(ws) && Total(ws) <= MAX_32 && i < |ws| && total > 0
    requires mass * total >= full * Total(ws)
    ensures Dither(ws, mass)[i] >= Quotient(full * ws[i].amount, total)
  {
    hide Scale, Subtract, Quotient;
    OneShare(ws, mass);
    var r, w := Total(ws), ws[0].amount;
    var m := Scale(mass, w, r);
    QuotientIs(mass * w, r);
    if i == 0 {
      QuotientIs(full * w, total);
      ShareAtLeast(mass, r, w, full, total, Quotient(full * w, total));
      QuotientMore(mass * w, r, Quotient(full * w, total));
    } else {
      KeepsProportion(mass, r, w, m, full, total);
      DitherIsFair(ws[1..], mass - m, full, total, i - 1);
      assert Dither(ws, mass)[i] == Dither(ws[1..], mass - m)[i - 1];
    }
  }

  /** Shares of what is left, a little more than the proportion, are a little more than the share of the whole. */
  lemma ShareAtMost(mass: nat, r: nat, w: nat, m: nat, full: nat, total: nat, k: nat)
    requires 0 < w <= r && m * r <= mass * w && mass * total <= full * r + k * total && total > 0
    ensures m * total <= full * w + k * total
  {
    // m r total <= mass w total <= full r w + k w total <= (full w + k total) r
    ProductBound(m * r, total, mass * w, total);
    ProductBound(mass * total, w, full * r + k * total, w);
    ProductBound(k * total, w, k * total, r);
    Distribute(w, full * r, -(k * total));
    Distribute(r, full * w, -(k * total));
    assert m * r * total == m * total * r;
    assert mass * w * total == mass * total * w;
    assert full * r * w == full * w * r;
    CancelFactor(m * total, full * w + k * total, r);
  }

  lemma LeavesLittleMore(mass: nat, r: nat, w: nat, m: nat, full: nat, total: nat, k: nat)
    requires 0 < w <= r && m <= mass && (m + 1) * r > mass * w && mass * total <= full * r + k * total && total > 0
    ensures (mass - m) * total <= full * (r - w) + (k + 1) * total
  {
    var left: nat, rest: nat := mass - m, r - w;
    LeftOver(mass, r, w, m);
    ProductBound(left * r, total, mass * rest + r, total);
    Distribute(total, mass * rest, -(r as int));
    ProductBound(mass * total, rest, full * r + k * total, rest);
    Distribute(rest, full * r, -(k * total));
    ProductBound(k * total, rest, k * total, r);
    ThreeFactors(left, mass, full, r, rest, total);
    var more: nat := full * rest + k * total;
    Distribute(r, full * rest, -(k * total));
    Distribute(r, more, -(total as int));
    Distribute(total, k, -1);
    CancelFactor(left * total, more + total, r);
  }

  lemma ThreeFactors(left: nat, mass: nat, full: nat, r: nat, rest: nat, total: nat)
    ensures left * r * total == left * total * r && mass * rest * total == mass * total * rest
    ensures full * r * rest == full * rest * r && r * total == total * r
  {
  }

  lemma LeftOver(mass: nat, r: nat, w: nat, m: nat)
    requires 0 < w <= r && m <= mass && (m + 1) * r > mass * w
    ensures (mass - m) * r <= mass * (r - w) + r
  {
    Distribute(r, mass, m);
    Distribute(mass, r, w);
    Distribute(r, m, -1);
  }

  /** And none gets more than one unit for each edge before it on top of its exact share. */
  lemma {:induction false} DitherIsTight(ws: seq<Weight>, mass: Mass, full: nat, total: nat, k: nat, i: nat)
    requires Positive(ws) && Total(ws) <= MAX_32 && i < |ws| && total > 0
    requires mass * total <= full * Total(ws) + k * total
    ensures Dither(ws, mass)[i] * total <= full * ws[i].amount + (k + i) * total
  {
    hide Scale, Subtract, Quotient;
    OneShare(ws, mass);
    var r, w := Total(ws), ws[0].amount;
    var m := Scale(mass, w, r);
    QuotientIs(mass * w, r);
    if i == 0 {
      ShareAtMost(mass, r, w, m, full, total, k);
    } else {
      LeavesLittleMore(mass, r, w, m, full, total, k);
      DitherIsTight(ws[1..], mass - m, full, total, k + 1, i - 1);
      assert Dither(ws, mass)[i] == Dither(ws[1..], mass - m)[i - 1];
    }
  }

  lemma QuotientIs(x: nat, d: nat)
    requires d > 0
    ensures Quotient(x, d) * d <= x < (Quotient(x, d) + 1) * d
  {
  }

  lemma QuotientMore(x: nat, d: nat, q: nat)
    requires d > 0 && q * d <= x
    ensures Quotient(x, d) >= q
  {
    QuotientAtLeast(x, d, q);
  }

  /** A share of whole in proportion w : r, rounded down. */
  predicate IsShare(share: nat, whole: nat, w: nat, r: nat) { share * r <= whole * w < (share + 1) * r }

  lemma ShareIs(m: Mass, w: Word, r: Word)
    requires 0 < w <= r
    ensures IsShare(Scale(m, w, r), m, w, r) && Scale(m, w, r) <= m && (w == r ==> Scale(m, w, r) == m)
    ensures Subtract(m, Scale(m, w, r)) == m - Scale(m, w, r)
  {
    hide Scale;
    ShareBound(m, w, r);
    assert m * w / r * r <= m * w < (m * w / r + 1) * r;
    SmallDifference(m, Scale(m, w, r));
  }

  lemma SmallDifference(x: Mass, y: Mass)
    requires y <= x
    ensures Subtract(x, y) == x - y
  {
  }

  /** There is one such share. */
  lemma OnlyShare(share: nat, m: Mass, w: Word, r: Word)
    requires 0 < w <= r && IsShare(share, m, w, r)
    ensures share == Scale(m, w, r)
  {
    hide Scale;
    ShareIs(m, w, r);
    var other := Scale(m, w, r);
    ShareOrder(share, other, m * w, r);
  }

  lemma ShareOrder(a: nat, b: nat, x: nat, r: nat)
    requires a * r <= x < (a + 1) * r && b * r <= x < (b + 1) * r && r > 0
    ensures a == b
  {
    UniqueRemainder(x, r, a, x - a * r);
    UniqueRemainder(x, r, b, x - b * r);
  }

  class DitheringDistributer {
    var remWeight: Word
    var remMass: Mass

    /** The weight left is cut to 32 bits, which normalising makes harmless. */
    constructor (dist: Distribution, mass: Mass)
      requires dist.Valid() && |dist.weights| <= Pow2(31) && Roomy(dist.weights)
      modifies dist
      ensures remMass == mass && (old(dist.weights) == [] ==> dist.weights == [])
      ensures old(dist.weights) != [] ==>
                && dist.weights != [] && remWeight == Total(dist.weights) && Positive(dist.weights) && Distinct(dist.weights)
                && |dist.weights| <= old(|dist.weights|)
                && Normalized(dist.weights, old(dist.weights), ShiftFor(old(dist.total), old(dist.didOverflow)))
    {
      dist.Normalize();
      remWeight := dist.total % TWO_32;
      remMass := mass;
      if old(dist.weights) != [] { SmallModulus(dist.total, TWO_32); }
    }

    /** Moves mass out: none is lost or made, it is the share of the weight to within one unit, never more than that, and
        all that is left when the weight is. */
    method TakeMass(weight: Word) returns (mass: Mass)
      requires 0 < weight <= remWeight
      modifies this
      ensures remMass + mass == old(remMass) && remWeight + weight == old(remWeight)
      ensures IsShare(mass, old(remMass), weight, old(remWeight))
      ensures remWeight == 0 ==> remMass == 0
    {
      ShareIs(remMass, weight, remWeight);
      mass := Scale(remMass, weight, remWeight);
      remWeight := remWeight - weight;
      remMass := Subtract(remMass, mass);
    }
  }
}
