/** The arithmetic of BasicAliasAnalysis: differences of decomposed GEPs and what their offsets say about aliasing. */
module AliasArithmetic {
  import opened Bits
  import opened LinearExpressions
  import opened GepDecomposition

  type Int64 = x: int | -(TWO_64 / 2) <= x < TWO_64 / 2

  const UNKNOWN_SIZE: nat := TWO_64 - 1

  datatype AliasResult = NoAlias | MayAlias | PartialAlias | MustAlias

  /** scale * v. `second` says which of the two pointers the variable was read for; two reads of one variable in
      different iterations of a cycle may differ. */
  datatype Term = Term(v: Expr, ext: Extension, scale: Int64, second: bool)

  /** What a variable, extended, holds when it is read for the first or the second pointer. */
  type Valuation = (Expr, Extension, bool) -> int

  function Part(t: Term, val: Valuation): int { t.scale * val(t.v, t.ext, t.second) }

  function Sum(ts: seq<Term>, val: Valuation): int {
    if ts == [] then 0 else Part(ts[0], val) + Sum(ts[1..], val)
  }

  /** What the analysis knows about variables: that both reads agree, and their sign. */
  datatype Facts = Facts(sameRead: set<Expr>, signZero: set<Expr>, signOne: set<Expr>)

  ghost predicate Respects(val: Valuation, facts: Facts) {
    && (forall v, e | v in facts.sameRead :: val(v, e, false) == val(v, e, true))
    && (forall v, e, s | v in facts.signZero :: val(v, e, s) >= 0)
    && (forall v, s | v in facts.signOne :: val(v, NotExtended, s) < 0 && val(v, SignExt, s) < 0)
    && (forall v, s :: val(v, ZeroExt, s) >= 0)
  }

  // Sums

  lemma {:induction false} SumAppend(ts: seq<Term>, us: seq<Term>, val: Valuation)
    ensures Sum(ts + us, val) == Sum(ts, val) + Sum(us, val)
  {
    if ts == [] {
      assert ts + us == us;
    } else {
      assert (ts + us)[1..] == ts[1..] + us;
      SumAppend(ts[1..], us, val);
    }
  }

  lemma SumSplit(ts: seq<Term>, j: nat, val: Valuation)
    requires j < |ts|
    ensures Sum(ts, val) == Sum(ts[..j], val) + Part(ts[j], val) + Sum(ts[j + 1..], val)
  {
    assert ts == ts[..j] + ts[j..] && ts[j..][0] == ts[j] && ts[j..][1..] == ts[j + 1..];
    SumAppend(ts[..j], ts[j..], val);
  }

  lemma SumPush(ts: seq<Term>, t: Term, val: Valuation)
    ensures Sum(ts + [t], val) == Sum(ts, val) + Part(t, val)
  {
    SumAppend(ts, [t], val);
    assert [t][1..] == [];
  }

  lemma SumUpdate(ts: seq<Term>, j: nat, t: Term, val: Valuation)
    requires j < |ts|
    ensures Sum(ts[j := t], val) == Sum(ts, val) + Part(t, val) - Part(ts[j], val)
  {
    var us := ts[j := t];
    assert us[..j] == ts[..j] && us[j + 1..] == ts[j + 1..];
    SumSplit(ts, j, val);
    SumSplit(us, j, val);
  }

  lemma SumErase(ts: seq<Term>, j: nat, val: Valuation)
    requires j < |ts|
    ensures Sum(ts[..j] + ts[j + 1..], val) == Sum(ts, val) - Part(ts[j], val)
  {
    SumSplit(ts, j, val);
    SumAppend(ts[..j], ts[j + 1..], val);
  }

  // Differences

  predicate NonZero(ts: seq<Term>) { forall i | 0 <= i < |ts| :: ts[i].scale != 0 }

  predicate Matches(t: Term, u: Term, facts: Facts) { t.v == u.v && u.v in facts.sameRead && t.ext == u.ext }

  /** The first term from i on that surely has the variable of t. */
  function FindMatch(ts: seq<Term>, t: Term, facts: Facts, i: nat): (k: nat)
    requires i <= |ts|
    ensures i <= k <= |ts| && (k < |ts| ==> Matches(ts[k], t, facts))
    decreases |ts| - i
  {
    if i == |ts| || Matches(ts[i], t, facts) then i else FindMatch(ts, t, facts, i + 1)
  }

  /** The list less one term. */
  function LessTerm(ts: seq<Term>, t: Term, facts: Facts): seq<Term> {
    var k := FindMatch(ts, t, facts, 0);
    if k == |ts| then ts + [t.(scale := Signed64(0 - t.scale))]
    else if ts[k].scale != t.scale then ts[k := ts[k].(scale := Signed64(ts[k].scale - t.scale))]
    else ts[..k] + ts[k + 1..]
  }

  function Difference(dest: seq<Term>, src: seq<Term>, facts: Facts): seq<Term> {
    if src == [] then dest
    else LessTerm(Difference(dest, src[..|src| - 1], facts), src[|src| - 1], facts)
  }

  method GetIndexDifference(dest0: seq<Term>, src: seq<Term>, facts: Facts) returns (dest: seq<Term>)
    requires NonZero(src)
    ensures dest == Difference(dest0, src, facts)
  {
    hide Signed64, Matches;
    dest := dest0;
    assert src[..0] == [];
    var i := 0;
    while i < |src|
      invariant i <= |src| && dest == Difference(dest0, src[..i], facts)
    {
      var t := src[i];
      var scale: int := t.scale;
      ghost var before := dest;
      var j := 0;
      while j < |dest|
        invariant j <= |dest| && dest == before && scale == t.scale
        invariant FindMatch(before, t, facts, 0) == FindMatch(before, t, facts, j)
        decreases |dest| - j
      {
        if Matches(dest[j], t, facts) {
          if dest[j].scale != scale {
            dest := dest[j := dest[j].(scale := Signed64(dest[j].scale - scale))];
          } else {
            dest := dest[..j] + dest[j + 1..];
          }
          scale := 0;
          break;
        }
        j := j + 1;
      }
      if scale != 0 {
        dest := dest + [t.(scale := Signed64(0 - scale))];
      }
      assert src[..i + 1][..i] == src[..i] && src[..i + 1][i] == t;
      i := i + 1;
    }
    assert src[..|src|] == src;
  }

  lemma SignedNonZero(x: int)
    requires x != 0 && -TWO_64 < x < TWO_64
    ensures Signed64(x) != 0
  {
  }

  /** One term less, modulo the width of a pointer. */
  lemma TermTaken(ts: seq<Term>, t: Term, facts: Facts, val: Valuation)
    requires NonZero(ts) && t.scale != 0 && t.second && Respects(val, facts)
    ensures NonZero(LessTerm(ts, t, facts)) && Cong(TWO_64, Sum(LessTerm(ts, t, facts), val), Sum(ts, val) - Part(t, val))
  {
    hide Sum, Part, Cong, Signed64;
    var k := FindMatch(ts, t, facts, 0);
    if k == |ts| {
      var r := t.(scale := Signed64(0 - t.scale));
      SignedNonZero(0 - t.scale);
      SumPush(ts, r, val);
      Signed64Cong(0 - t.scale);
      PartNegated(t, r, val);
      CongShift(Sum(ts, val), Part(r, val), -Part(t, val));
    } else {
      assert val(ts[k].v, ts[k].ext, ts[k].second) == val(t.v, t.ext, t.second);
      if ts[k].scale != t.scale {
        var r := ts[k].(scale := Signed64(ts[k].scale - t.scale));
        SignedNonZero(ts[k].scale - t.scale);
        SumUpdate(ts, k, r, val);
        Signed64Cong(ts[k].scale - t.scale);
        PartMinus(ts[k], t, r, val);
        CongShift(Sum(ts, val) - Part(ts[k], val), Part(r, val), Part(ts[k], val) - Part(t, val));
      } else {
        SumErase(ts, k, val);
        PartSame(ts[k], t, val);
        CongSelf(TWO_64, Sum(ts, val) - Part(t, val));
      }
    }
  }

  lemma PartSame(t: Term, u: Term, val: Valuation)
    requires val(t.v, t.ext, t.second) == val(u.v, u.ext, u.second) && t.scale == u.scale
    ensures Part(t, val) == Part(u, val)
  {
  }

  lemma PartNegated(t: Term, r: Term, val: Valuation)
    requires r == t.(scale := r.scale) && Cong(TWO_64, r.scale, 0 - t.scale)
    ensures Cong(TWO_64, Part(r, val), -Part(t, val))
  {
    hide Cong;
    var x := val(t.v, t.ext, t.second);
    CongScale(TWO_64, r.scale, 0 - t.scale, x);
    Distribute(x, 0, t.scale);
  }

  lemma PartMinus(t: Term, u: Term, r: Term, val: Valuation)
    requires val(t.v, t.ext, t.second) == val(u.v, u.ext, u.second)
    requires r == t.(scale := r.scale) && Cong(TWO_64, r.scale, t.scale - u.scale)
    ensures Cong(TWO_64, Part(r, val), Part(t, val) - Part(u, val))
  {
    hide Cong;
    var x := val(t.v, t.ext, t.second);
    CongScale(TWO_64, r.scale, t.scale - u.scale, x);
    Distribute(x, t.scale, u.scale);
  }

  lemma CongShift(s: int, x: int, y: int)
    requires Cong(TWO_64, x, y)
    ensures Cong(TWO_64, s + x, s + y)
  {
    assert s + x - (s + y) == x - y;
  }

  /** The symbolic difference of the two index lists is exact, modulo the width of a pointer, for every value of the
      variables; no scale is zero. */
  lemma {:induction false} DifferenceIs(dest: seq<Term>, src: seq<Term>, facts: Facts, val: Valuation)
    requires NonZero(dest) && NonZero(src) && (forall i | 0 <= i < |src| :: src[i].second) && Respects(val, facts)
    ensures NonZero(Difference(dest, src, facts))
    ensures Cong(TWO_64, Sum(Difference(dest, src, facts), val), Sum(dest, val) - Sum(src, val))
    decreases |src|
  {
    hide Cong, Respects, LessTerm, Part;
    if src == [] {
      CongSelf(TWO_64, Sum(dest, val));
    } else {
      var first, last := src[..|src| - 1], src[|src| - 1];
      assert src == first + [last];
      DifferenceIs(dest, first, facts, val);
      var d := Difference(dest, first, facts);
      TermTaken(d, last, facts, val);
      SumPush(first, last, val);
      CongShift(-Part(last, val), Sum(d, val), Sum(dest, val) - Sum(first, val));
      CongTrans(TWO_64, Sum(LessTerm(d, last, facts), val), Sum(d, val) - Part(last, val), Sum(dest, val) - Sum(src, val));
    }
  }

  /** No two terms are of one variable read alike. */
  predicate MergedTerms(ts: seq<Term>, facts: Facts) {
    forall i, j | 0 <= i < j < |ts| :: ts[i].v != ts[j].v || ts[i].ext != ts[j].ext || ts[i].v !in facts.sameRead
  }

  /** Terms of one variable are merged into one. */
  lemma {:induction false} DifferenceMerges(dest: seq<Term>, src: seq<Term>, facts: Facts)
    requires MergedTerms(dest, facts)
    ensures MergedTerms(Difference(dest, src, facts), facts)
    decreases |src|
  {
    if src != [] {
      var first, t := src[..|src| - 1], src[|src| - 1];
      DifferenceMerges(dest, first, facts);
      LessTermMerges(Difference(dest, first, facts), t, facts);
    }
  }

  lemma {:induction false} FindMatchIsFirst(ts: seq<Term>, t: Term, facts: Facts, i: nat)
    requires i <= |ts|
    ensures forall j | i <= j < FindMatch(ts, t, facts, i) :: !Matches(ts[j], t, facts)
    decreases |ts| - i
  {
    if i < |ts| && !Matches(ts[i], t, facts) { FindMatchIsFirst(ts, t, facts, i + 1); }
  }

  lemma LessTermMerges(ts: seq<Term>, t: Term, facts: Facts)
    requires MergedTerms(ts, facts)
    ensures MergedTerms(LessTerm(ts, t, facts), facts)
  {
    hide Signed64;
    var k := FindMatch(ts, t, facts, 0);
    FindMatchIsFirst(ts, t, facts, 0);
    if k < |ts| && ts[k].scale == t.scale {
      var r := ts[..k] + ts[k + 1..];
      forall i, j | 0 <= i < j < |r| ensures !Matches(r[i], r[j], facts) {
        assert r[i] == ts[if i < k then i else i + 1] && r[j] == ts[if j < k then j else j + 1];
      }
    }
  }

  /** Two lists with the same terms, all read alike, leave nothing. */
  lemma {:induction false} SameTermsVanish(dest: seq<Term>, src: seq<Term>, facts: Facts, n: nat)
    requires n <= |src| == |dest|
    requires forall i | 0 <= i < |src| :: Matches(dest[i], src[i], facts) && dest[i].scale == src[i].scale
    ensures Difference(dest, src[..n], facts) == dest[n..]
    decreases n
  {
    if n > 0 {
      SameTermsVanish(dest, src, facts, n - 1);
      assert src[..n][..n - 1] == src[..n - 1] && src[..n][n - 1] == src[n - 1] && dest[n - 1..][0] == dest[n - 1];
      assert dest[n - 1..][..0] + dest[n - 1..][1..] == dest[n..];
    }
  }

  // What an offset says

  function U64(x: int): nat { x % TWO_64 }

  /** A known size is the size of the access. */
  predicate SizeOf(size: nat, actual: nat) { size != UNKNOWN_SIZE ==> actual == size }

  /** Accesses of n1 bytes at distance d from an access of n2 bytes share a byte. */
  predicate Overlap(d: int, n1: nat, n2: nat) { n1 > 0 && n2 > 0 && d < n2 && 0 < d + n1 }

  predicate Touches(x: int, d: int, n: nat) { d <= x < d + n }

  lemma OverlapIsASharedByte(d: int, n1: nat, n2: nat)
    ensures Overlap(d, n1, n2) <==> exists x: int :: Touches(x, d, n1) && Touches(x, 0, n2)
  {
    if Overlap(d, n1, n2) {
      var x := if d >= 0 then d else 0;
      assert Touches(x, d, n1) && Touches(x, 0, n2);
    }
  }

  lemma {:induction false} ScalesDivideSum(ts: seq<Term>, m: int, val: Valuation)
    requires forall i | 0 <= i < |ts| :: Divides(m, ts[i].scale as int)
    ensures Divides(m, Sum(ts, val))
  {
    if ts == [] {
      DividesBy(m, 0, 0);
    } else {
      ScalesDivideSum(ts[1..], m, val);
      DividesProduct(m, ts[0].scale as int, val(ts[0].v, ts[0].ext, ts[0].second));
      DividesSum(m, Part(ts[0], val), Sum(ts[1..], val));
    }
  }

  lemma UnsignedScale(m: int, scale: Int64)
    requires Divides(m, TWO_64) && Divides(m, U64(scale))
    ensures Divides(m, scale)
  {
    var k := scale / TWO_64;
    DividesProduct(m, TWO_64, k);
    DividesSum(m, U64(scale), TWO_64 * k);
  }

  /** The distance of the two pointers when address arithmetic wraps a number of times. */
  function Distance(base: int, ts: seq<Term>, val: Valuation, wraps: int): int { base + Sum(ts, val) + wraps * TWO_64 }

  /** The bits of all scales. */
  function OrAll(ts: seq<Term>): nat { if ts == [] then 0 else Or(OrAll(ts[..|ts| - 1]), U64(ts[|ts| - 1].scale)) }

  /** All scales are multiples of the lowest bit of `modulo`. */
  ghost predicate Multiples(ts: seq<Term>, modulo: nat) {
    && modulo < TWO_64 && (ts != [] ==> modulo > 0)
    && forall i | 0 <= i < |ts| && modulo > 0 :: Divides(Low(modulo), U64(ts[i].scale))
  }

  lemma OrScale(ts: seq<Term>, t: Term, modulo: nat)
    requires Multiples(ts, modulo) && t.scale != 0
    ensures Multiples(ts + [t], Or(modulo, U64(t.scale)))
  {
    var u := U64(t.scale);
    var or_ := Or(modulo, u);
    Pow2Values();
    OrBound(modulo, u, 64);
    LowOfOr(u, modulo);
    if modulo > 0 { LowOfOr(modulo, u); }
    LowDivides(u);
    DividesThrough(Low(or_), Low(u), u);
    forall i | 0 <= i < |ts + [t]| ensures Divides(Low(or_), U64((ts + [t])[i].scale)) {
      if i < |ts| { DividesThrough(Low(or_), Low(modulo), U64(ts[i].scale)); }
    }
  }

  lemma {:induction false} OrAllMultiples(ts: seq<Term>)
    requires NonZero(ts)
    ensures Multiples(ts, OrAll(ts))
    decreases |ts|
  {
    if ts != [] {
      OrAllMultiples(ts[..|ts| - 1]);
      OrScale(ts[..|ts| - 1], ts[|ts| - 1], OrAll(ts[..|ts| - 1]));
      assert ts == ts[..|ts| - 1] + [ts[|ts| - 1]];
    }
  }

  /** Distances congruent modulo m to a gap that both accesses fit beside. No bound on the distance: the test holds
      even where address arithmetic wraps, m being a power of two. */
  lemma FitsBeside(d: int, base: int, m: int, n1: nat, n2: nat)
    requires m > 0 && Divides(m, d - base) && base % m >= n2 && n1 <= m - base % m
    ensures !Overlap(d, n1, n2)
  {
    var q: int :| d - base == q * m;
    var k := base / m + q;
    Distribute(m, base / m, -q);
    assert d == k * m + base % m;
    if k >= 0 {
      if k >= 1 { AtLeast(k, m); }
    } else {
      AtLeast(-k, m);
      assert k * m <= -m;
    }
  }

  /** The lowest bit of the scales; the offset in the gaps they leave. */
  function GapOf(ts: seq<Term>): nat { var modulo := OrAll(ts); Xor(modulo, And(modulo, U64(modulo - 1))) }

  function GapOffset(base: int, ts: seq<Term>): nat { And(U64(base), U64(GapOf(ts) - 1)) }

  /** Accesses of n1 and n2 bytes fit on either side of the offset in a gap. */
  predicate FitsGap(base: int, ts: seq<Term>, n1: nat, n2: nat) {
    GapOffset(base, ts) >= n2 && n1 <= GapOf(ts) - GapOffset(base, ts)
  }

  lemma ModuloTest(base: int, ts: seq<Term>, facts: Facts, n1: nat, n2: nat)
    requires NonZero(ts) && ts != []
    ensures GapOf(ts) > 0 && GapOffset(base, ts) == base % GapOf(ts)
    ensures FitsGap(base, ts, n1, n2) ==>
              forall val: Valuation, wraps: int | Respects(val, facts) :: !Overlap(Distance(base, ts, val, wraps), n1, n2)
  {
    GapIs(ts);
    var m := GapOf(ts);
    GapOffsetIs(base, ts);
    hide GapOf, GapOffset, Overlap, Divides, Respects, Distance;
    if base % m >= n2 && n1 <= m - base % m {
      forall val: Valuation, wraps: int | Respects(val, facts)
        ensures !Overlap(Distance(base, ts, val, wraps), n1, n2)
      {
        GapsStayFree(base, ts, m, val, wraps, n1, n2);
      }
    }
  }

  lemma SmallU64(x: nat)
    requires x < TWO_64
    ensures U64(x) == x
  {
  }

  lemma LowBelow(x: nat)
    requires x > 0
    ensures 0 < Low(x) <= x
  {
  }

  lemma GapIs(ts: seq<Term>)
    requires NonZero(ts) && ts != []
    ensures OrAll(ts) > 0 && GapOf(ts) == Low(OrAll(ts)) > 0 && Divides(GapOf(ts), TWO_64)
    ensures forall i | 0 <= i < |ts| :: Divides(GapOf(ts), U64(ts[i].scale))
  {
    hide And, Xor, Divides, Low, Pow2, U64, OrAll, Or;
    OrAllMultiples(ts);
    LowestBitTrick(OrAll(ts));
    Pow2Values();
    LowDividesPow(OrAll(ts), 64);
    SmallU64(OrAll(ts) - 1);
  }

  lemma GapOffsetIs(base: int, ts: seq<Term>)
    requires NonZero(ts) && ts != []
    ensures GapOf(ts) > 0 && GapOffset(base, ts) == base % GapOf(ts)
  {
    hide And, Low, Divides, OrAll, U64, GapOf, Pow2, Or;
    GapIs(ts);
    OrAllMultiples(ts);
    LowBelow(OrAll(ts));
    SmallU64(GapOf(ts) - 1);
    MaskIsRemainder(U64(base), OrAll(ts));
    SameRemainder(base, GapOf(ts));
  }

  lemma GapsStayFree(base: int, ts: seq<Term>, m: nat, val: Valuation, wraps: int, n1: nat, n2: nat)
    requires m > 0 && Divides(m, TWO_64) && forall i | 0 <= i < |ts| :: Divides(m, U64(ts[i].scale))
    requires base % m >= n2 && n1 <= m - base % m
    ensures !Overlap(Distance(base, ts, val, wraps), n1, n2)
  {
    forall i | 0 <= i < |ts| ensures Divides(m, ts[i].scale) { UnsignedScale(m, ts[i].scale); }
    ScalesDivideSum(ts, m, val);
    DividesProduct(m, TWO_64, wraps);
    DividesSum(m, Sum(ts, val), TWO_64 * wraps);
    FitsBeside(Distance(base, ts, val, wraps), base, m, n1, n2);
  }

  lemma SameRemainder(x: int, m: nat)
    requires m > 0 && Divides(m, TWO_64)
    ensures U64(x) % m == x % m
  {
    var q: int :| TWO_64 == q * m;
    var k := x / TWO_64;
    assert x == k * TWO_64 + U64(x);
    assert k * TWO_64 == (k * q) * m;
    var r := U64(x) % m;
    Distribute(m, k * q, -(U64(x) / m));
    assert x == (k * q + U64(x) / m) * m + r;
    UniqueRemainder(x, m, k * q + U64(x) / m, r);
  }

  predicate KnownNonNegative(t: Term, facts: Facts) {
    || ((t.v in facts.signZero || t.ext == ZeroExt) && t.scale >= 0)
    || ((t.v in facts.signOne && t.ext != ZeroExt) && t.scale < 0)
  }

  predicate AllNonNegative(ts: seq<Term>, facts: Facts) { forall i | 0 <= i < |ts| :: KnownNonNegative(ts[i], facts) }

  lemma {:induction false} SumNonNegative(ts: seq<Term>, facts: Facts, val: Valuation)
    requires Respects(val, facts) && AllNonNegative(ts, facts)
    ensures Sum(ts, val) >= 0
  {
    if ts != [] {
      assert KnownNonNegative(ts[0], facts);
      SumNonNegative(ts[1..], facts, val);
    }
  }

  /** The answer drawn from a constant offset and variable terms. */
  function FromOffset(base: Int64, ts: seq<Term>, v1Size: nat, v2Size: nat, facts: Facts): AliasResult {
    var known := v1Size != UNKNOWN_SIZE && v2Size != UNKNOWN_SIZE;
    if ts == [] then
      if base == 0 then MustAlias
      else if base > 0 && v2Size != UNKNOWN_SIZE then (if base < v2Size then PartialAlias else NoAlias)
      else if base < 0 && known then (if U64(0 - U64(base)) < v1Size then PartialAlias else NoAlias)
      else PartialAlias
    else if known && FitsGap(base, ts, v1Size, v2Size) then NoAlias
    else if AllNonNegative(ts, facts) && base > 0 && v2Size <= base then NoAlias
    else PartialAlias
  }

  /** What each answer promises about every run and every access of the given sizes. */
  ghost predicate Sound(r: AliasResult, base: int, ts: seq<Term>, v1Size: nat, v2Size: nat, facts: Facts) {
    && (r == NoAlias ==> forall val: Valuation, n1: nat, n2: nat |
          Respects(val, facts) && SizeOf(v1Size, n1) && SizeOf(v2Size, n2) :: !Overlap(base + Sum(ts, val), n1, n2))
    && (r == MustAlias ==> base == 0 && ts == [])
    && (r == PartialAlias && ts == [] && v1Size != UNKNOWN_SIZE && v2Size != UNKNOWN_SIZE ==>
          (Overlap(base, v1Size, v2Size) <==> v1Size > 0 && v2Size > 0))
  }

  lemma ConstantSound(base: Int64, v1Size: nat, v2Size: nat, facts: Facts)
    ensures Sound(FromOffset(base, [], v1Size, v2Size, facts), base, [], v1Size, v2Size, facts)
  {
  }

  /** Every answer is sound for every value of the variables. */
  lemma FromOffsetIsSound(base: Int64, ts: seq<Term>, v1Size: nat, v2Size: nat, facts: Facts)
    requires v1Size < TWO_64 && v2Size < TWO_64 && NonZero(ts)
    ensures Sound(FromOffset(base, ts, v1Size, v2Size, facts), base, ts, v1Size, v2Size, facts)
  {
    hide Sum, FitsGap, Overlap, Respects;
    if ts == [] {
      ConstantSound(base, v1Size, v2Size, facts);
    } else if FromOffset(base, ts, v1Size, v2Size, facts) == NoAlias {
      ModuloTest(base, ts, facts, v1Size, v2Size);
      forall val: Valuation, n1: nat, n2: nat | Respects(val, facts) && SizeOf(v1Size, n1) && SizeOf(v2Size, n2)
        ensures !Overlap(base + Sum(ts, val), n1, n2)
      {
        assert Distance(base, ts, val, 0) == base + Sum(ts, val);
        if !(v1Size != UNKNOWN_SIZE && v2Size != UNKNOWN_SIZE && FitsGap(base, ts, v1Size, v2Size)) {
          SumNonNegative(ts, facts, val);
          FarApart(base + Sum(ts, val), n1, n2);
        }
      }
    }
  }

  // When an answer is given

  ghost predicate AllDivided(m: nat, ts: seq<Term>) { forall i | 0 <= i < |ts| :: Divides(m, ts[i].scale) }

  /** The largest power of two that divides all scales. */
  ghost predicate LargestStep(m: nat, ts: seq<Term>) { (exists k: nat :: m == Pow2(k)) && AllDivided(m, ts) && !AllDivided(2 * m, ts) }

  function Step(base: int, q: int, m: nat): int { base + q * m }

  /** At no distance that differs from base by steps of m do the accesses share a byte. */
  ghost predicate StepsApart(base: int, m: nat, n1: nat, n2: nat) { forall q: int :: !Overlap(Step(base, q, m), n1, n2) }

  /** Whatever holds of the variables, no term is negative. */
  ghost predicate NeverNegative(ts: seq<Term>, facts: Facts) {
    forall val: Valuation, i: int | Respects(val, facts) && 0 <= i < |ts| :: Part(ts[i], val) >= 0
  }

  predicate Known(v1Size: nat, v2Size: nat) { v1Size != UNKNOWN_SIZE && v2Size != UNKNOWN_SIZE }

  /** Each answer is given whenever it is right, as far as constant, steps and signs tell. */
  ghost predicate Given(r: AliasResult, base: int, ts: seq<Term>, v1Size: nat, v2Size: nat, facts: Facts) {
    && r != MayAlias
    && (r == MustAlias <==> ts == [] && base == 0)
    && (ts == [] && base > 0 ==> (r == NoAlias <==> v2Size <= base && v2Size != UNKNOWN_SIZE))
    && (ts == [] && base < 0 ==> (r == NoAlias <==> v1Size <= -base && Known(v1Size, v2Size)))
    && (ts == [] && base != 0 && Known(v1Size, v2Size) && v1Size > 0 && v2Size > 0 ==> (r == NoAlias <==> !Overlap(base, v1Size, v2Size)))
    && (ts != [] && v1Size > 0 && v2Size > 0 ==>
          forall m | LargestStep(m, ts) ::
            r == NoAlias <==> || (Known(v1Size, v2Size) && StepsApart(base, m, v1Size, v2Size))
                              || (NeverNegative(ts, facts) && base > 0 && v2Size <= base))
  }

  lemma {:induction false} OrAllAttained(ts: seq<Term>)
    requires NonZero(ts) && ts != []
    ensures OrAll(ts) > 0 && exists i :: 0 <= i < |ts| && U64(ts[i].scale) > 0 && Low(OrAll(ts)) == Low(U64(ts[i].scale))
    decreases |ts|
  {
    hide U64, Low, Or;
    var first, last := ts[..|ts| - 1], ts[|ts| - 1];
    ScalePositive(last.scale);
    if first == [] {
      OrNothing(U64(last.scale));
      assert OrAll(ts) == U64(ts[|ts| - 1].scale);
    } else {
      OrAllAttained(first);
      var i :| 0 <= i < |first| && U64(first[i].scale) > 0 && Low(OrAll(first)) == Low(U64(first[i].scale));
      LowIsAttained(OrAll(first), U64(last.scale));
      assert ts[i] == first[i];
    }
  }

  lemma OrNothing(x: nat)
    ensures Or(0, x) == x
  {
  }

  lemma ScalePositive(scale: Int64)
    requires scale != 0
    ensures 0 < U64(scale) < TWO_64
  {
  }

  lemma GapIsLargest(ts: seq<Term>)
    requires NonZero(ts) && ts != []
    ensures GapOf(ts) > 0 && LargestStep(GapOf(ts), ts)
  {
    hide Divides, Low, Or, Pow2, U64, OrAll, GapOf, Zeros;
    var m := GapOf(ts);
    GapIs(ts);
    forall i | 0 <= i < |ts| ensures Divides(m, ts[i].scale) { UnsignedScale(m, ts[i].scale); }
    OrAllAttained(ts);
    var i :| 0 <= i < |ts| && U64(ts[i].scale) > 0 && Low(OrAll(ts)) == Low(U64(ts[i].scale));
    LowIsPow2(U64(ts[i].scale));
    NoLargerStep(m, ts[i].scale);
  }

  lemma NoLargerStep(m: nat, scale: Int64)
    requires U64(scale) > 0 && m == Low(U64(scale))
    ensures !Divides(2 * m, scale)
  {
    var u := U64(scale);
    LowIsAll(u);
    Pow2Values();
    TwiceLowDividesPow(u, 64);
    hide Low;
    if Divides(2 * m, scale) {
      var k := scale / TWO_64;
      assert u == scale - TWO_64 * k;
      DividesProduct(2 * m, TWO_64, k);
      DividesSum(2 * m, scale, TWO_64 * k);
    }
  }

  lemma TwiceLowDividesPow(x: nat, n: nat)
    requires 0 < x < Pow2(n)
    ensures Divides(2 * Low(x), Pow2(n))
  {
    LowIsPow2(x);
    LowBelow(x);
    if Zeros(x) >= n { Pow2Grows(n, Zeros(x)); }
    Pow2Divides(Zeros(x) + 1, n);
  }

  /** There is one such step. */
  lemma LargestIsOne(m: nat, k: nat, ts: seq<Term>)
    requires LargestStep(m, ts) && LargestStep(k, ts)
    ensures m == k
  {
    LargerStep(m, k, ts);
    LargerStep(k, m, ts);
  }

  lemma LargerStep(m: nat, k: nat, ts: seq<Term>)
    requires LargestStep(m, ts) && LargestStep(k, ts)
    ensures k <= m
  {
    var a: nat :| m == Pow2(a);
    var b: nat :| k == Pow2(b);
    if a < b {
      Pow2Divides(a + 1, b);
      hide Divides;
      forall i | 0 <= i < |ts| ensures Divides(2 * m, ts[i].scale) { DividesThrough(2 * m, k, ts[i].scale); }
    } else {
      Pow2Grows(b, a);
    }
  }

  /** Both accesses fit beside the offset in a gap exactly when no step brings them together. */
  lemma FitsGapIff(base: int, m: nat, n1: nat, n2: nat)
    requires m > 0 && n1 > 0 && n2 > 0
    ensures base % m >= n2 && n1 <= m - base % m <==> StepsApart(base, m, n1, n2)
  {
    var r, k := base % m, base / m;
    if r >= n2 && n1 <= m - r {
      forall q: int ensures !Overlap(Step(base, q, m), n1, n2) {
        DividesBy(m, q * m, q);
        FitsBeside(Step(base, q, m), base, m, n1, n2);
      }
    } else {
      Distribute(m, 0, k);
      Distribute(m, -k, 1);
      assert Step(base, -k, m) == r && Step(base, -k - 1, m) == r - m;
      assert Overlap(Step(base, -k, m), n1, n2) || Overlap(Step(base, -k - 1, m), n1, n2);
    }
  }

  /** Consistent facts allow every variable of unknown sign to be negative, and to be positive. */
  function Lowest(facts: Facts): Valuation { (v: Expr, e: Extension, s: bool) => if e == ZeroExt || v in facts.signZero then 1 else -1 }

  function Highest(facts: Facts): Valuation { (v: Expr, e: Extension, s: bool) => if e != ZeroExt && v in facts.signOne then -1 else 1 }

  lemma SignsAreExact(ts: seq<Term>, facts: Facts)
    requires NonZero(ts) && facts.signZero !! facts.signOne
    ensures AllNonNegative(ts, facts) <==> NeverNegative(ts, facts)
  {
    if AllNonNegative(ts, facts) {
      forall val: Valuation, i: int | Respects(val, facts) && 0 <= i < |ts| ensures Part(ts[i], val) >= 0 {
        assert KnownNonNegative(ts[i], facts);
      }
    } else {
      var i :| 0 <= i < |ts| && !KnownNonNegative(ts[i], facts);
      var val := if ts[i].scale > 0 then Lowest(facts) else Highest(facts);
      assert Respects(val, facts);
      assert Part(ts[i], val) < 0;
    }
  }

  lemma ConstantGiven(base: Int64, v1Size: nat, v2Size: nat, facts: Facts)
    requires v1Size < TWO_64 && v2Size < TWO_64
    ensures Given(FromOffset(base, [], v1Size, v2Size, facts), base, [], v1Size, v2Size, facts)
  {
  }

  /** Known sizes, no variables: MustAlias exactly at one address, NoAlias exactly if no byte is shared. With variables, NoAlias
      exactly if no step of all scales brings the accesses together, or no term can be negative and the constant is enough. */
  lemma AnswersAreGiven(base: Int64, ts: seq<Term>, v1Size: nat, v2Size: nat, facts: Facts)
    requires v1Size < TWO_64 && v2Size < TWO_64 && NonZero(ts) && facts.signZero !! facts.signOne
    ensures Given(FromOffset(base, ts, v1Size, v2Size, facts), base, ts, v1Size, v2Size, facts)
  {
    if ts == [] {
      ConstantGiven(base, v1Size, v2Size, facts);
    } else if v1Size > 0 && v2Size > 0 {
      GapIsLargest(ts);
      GapOffsetIs(base, ts);
      FitsGapIff(base, GapOf(ts), v1Size, v2Size);
      SignsAreExact(ts, facts);
      hide GapOf, GapOffset, LargestStep, AllNonNegative, NeverNegative, StepsApart;
      forall m | LargestStep(m, ts) ensures m == GapOf(ts) { LargestIsOne(m, GapOf(ts), ts); }
    }
  }

  lemma FarApart(d: int, n1: nat, n2: nat)
    requires d >= n2
    ensures !Overlap(d, n1, n2)
  {
  }

  /** The end of aliasGEP. */
  method AliasFromOffset(base: Int64, ts: seq<Term>, v1Size: nat, v2Size: nat, facts: Facts) returns (r: AliasResult)
    requires v1Size < TWO_64 && v2Size < TWO_64 && NonZero(ts)
    ensures r == FromOffset(base, ts, v1Size, v2Size, facts)
    ensures facts.signZero !! facts.signOne ==> Given(r, base, ts, v1Size, v2Size, facts)
  {
    hide KnownNonNegative, And, Or, Xor, Given;
    if facts.signZero !! facts.signOne { AnswersAreGiven(base, ts, v1Size, v2Size, facts); }
    if base == 0 && ts == [] {
      return MustAlias;
    }
    if base != 0 && ts == [] {
      if base >= 0 {
        if v2Size != UNKNOWN_SIZE {
          return if base < v2Size then PartialAlias else NoAlias;
        }
      } else if v1Size != UNKNOWN_SIZE && v2Size != UNKNOWN_SIZE {
        return if U64(0 - U64(base)) < v1Size then PartialAlias else NoAlias;
      }
    }
    if ts != [] {
      var modulo, allPositive, i := 0, true, 0;
      assert ts[..0] == [];
      while i < |ts|
        invariant i <= |ts| && modulo == OrAll(ts[..i]) && (allPositive <==> AllNonNegative(ts[..i], facts))
      {
        assert ts[..i + 1][..i] == ts[..i] && ts[..i + 1][i] == ts[i];
        modulo := Or(modulo, U64(ts[i].scale));
        if allPositive {
          allPositive := KnownNonNegative(ts[i], facts);
        }
        i := i + 1;
      }
      assert ts[..|ts|] == ts;
      modulo := Xor(modulo, And(modulo, U64(modulo - 1)));
      var modOffset := And(U64(base), U64(modulo - 1));
      if v1Size != UNKNOWN_SIZE && v2Size != UNKNOWN_SIZE && modOffset >= v2Size && v1Size <= modulo - modOffset {
        return NoAlias;
      }
      if allPositive && base > 0 && v2Size <= base {
        return NoAlias;
      }
    }
    return PartialAlias;
  }

  // Fields of structs in arrays

  /** Unsigned 64-bit sums wrap around. */
  function Add64(x: nat, y: nat): nat { (x + y) % TWO_64 }

  predicate EltsDontOverlap(structSize: nat, off1: nat, size1: nat, off2: nat, size2: nat) {
    off1 < off2 && Add64(off1, size1) <= off2
    && (Add64(off2, size2) <= structSize || U64(Add64(off2, size2) - structSize) <= off1)
  }

  /** How far field 1 of element i lies from field 2 of element j. */
  function FieldDistance(structSize: nat, off1: nat, off2: nat, i: int, j: int): int {
    (i * structSize + off1) - (j * structSize + off2)
  }

  lemma FieldsStayApart(structSize: nat, off1: nat, size1: nat, off2: nat, size2: nat, i: int, j: int)
    requires structSize < TWO_64 && off1 < TWO_64 && off2 < TWO_64
    requires EltsDontOverlap(structSize, off1, size1, off2, size2)
    requires off1 + size1 < TWO_64 && off2 + size2 < TWO_64
    ensures !Overlap(FieldDistance(structSize, off1, off2, i, j), size1, size2)
  {
    Distribute(structSize, i, j);
    if i > j && structSize > 0 { AtLeast(i - j, structSize); }
    if i < j && structSize > 0 { AtLeast(j - i, structSize); }
  }

  /** The test keeps two fields apart, whatever elements of an array of the struct they are taken from, exactly when
      the end of neither access wraps around 2^64. */
  lemma FieldsApartIffNoWrap(structSize: nat, off1: nat, size1: nat, off2: nat, size2: nat)
    requires off1 < structSize && off2 < structSize < TWO_64 / 2 && 0 < size1 < TWO_64 && 0 < size2 < TWO_64
    requires EltsDontOverlap(structSize, off1, size1, off2, size2)
    ensures (forall i: int, j: int :: !Overlap(FieldDistance(structSize, off1, off2, i, j), size1, size2))
       <==> off1 + size1 < TWO_64 && off2 + size2 < TWO_64
  {
    if off1 + size1 < TWO_64 && off2 + size2 < TWO_64 {
      forall i: int, j: int ensures !Overlap(FieldDistance(structSize, off1, off2, i, j), size1, size2) {
        FieldsStayApart(structSize, off1, size1, off2, size2, i, j);
      }
    } else if off1 + size1 >= TWO_64 {
      assert Overlap(FieldDistance(structSize, off1, off2, 0, 0), size1, size2);
    } else {
      assert Overlap(FieldDistance(structSize, off1, off2, 1, 0), size1, size2);
    }
  }

  /** Where no end wraps, the test passes exactly if the fields are apart in every pair of elements. */
  lemma FieldTestIsExact(structSize: nat, off1: nat, size1: nat, off2: nat, size2: nat)
    requires off1 < off2 < structSize < TWO_64 / 2 && 0 < size1 && 0 < size2 && off1 + size1 < TWO_64 && off2 + size2 < TWO_64
    ensures EltsDontOverlap(structSize, off1, size1, off2, size2)
       <==> forall i: int, j: int :: !Overlap(FieldDistance(structSize, off1, off2, i, j), size1, size2)
  {
    if EltsDontOverlap(structSize, off1, size1, off2, size2) {
      forall i: int, j: int ensures !Overlap(FieldDistance(structSize, off1, off2, i, j), size1, size2) {
        FieldsStayApart(structSize, off1, size1, off2, size2, i, j);
      }
    } else if off1 + size1 > off2 {
      assert Overlap(FieldDistance(structSize, off1, off2, 0, 0), size1, size2);
    } else {
      assert Overlap(FieldDistance(structSize, off1, off2, 1, 0), size1, size2);
    }
  }

  /** Such a wrap is possible: a size close to 2^64 that is not UnknownSize. */
  lemma WrappedEndIsUnsafe()
    ensures EltsDontOverlap(16, 4, TWO_64 - 2, 8, 4) && Overlap(FieldDistance(16, 4, 8, 0, 0), TWO_64 - 2, 4)
  {
  }
}
