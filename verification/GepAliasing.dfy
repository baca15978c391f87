/** aliasGEP for two GEPs on one base, from pointer expressions to the answer: both are decomposed, subtracted and judged. */
module GepAliasing {
  import opened Bits
  import opened LinearExpressions
  import opened LinearExactness
  import opened GepDecomposition
  import opened AliasArithmetic

  /** The variables of one of the two pointers. */
  function Tagged(ts: seq<VarIndex>, second: bool): (us: seq<Term>)
    ensures |us| == |ts|
    ensures forall i | 0 <= i < |ts| :: us[i] == Term(ts[i].v, ts[i].ext, Signed64(ts[i].scale), second)
  {
    if ts == [] then []
    else Tagged(ts[..|ts| - 1], second) + [Term(ts[|ts| - 1].v, ts[|ts| - 1].ext, Signed64(ts[|ts| - 1].scale), second)]
  }

  /** What the variables hold where the pointers are computed. */
  function Reading(env1: nat -> nat, env2: nat -> nat): Valuation {
    (v: Expr, ext: Extension, second: bool) =>
      if !Valid(v) then 0 else if second then Extend(v, ext, env2) else Extend(v, ext, env1)
  }

  /** What is known of variables is true. */
  ghost predicate FactsHold(facts: Facts, env1: nat -> nat, env2: nat -> nat) {
    && (forall v | v in facts.sameRead && Valid(v) :: Eval(v, env1) == Eval(v, env2))
    && (forall v | v in facts.signZero && Valid(v) :: Signed(Eval(v, env1), Width(v)) >= 0 && Signed(Eval(v, env2), Width(v)) >= 0)
    && (forall v | v in facts.signOne :: Valid(v) && Signed(Eval(v, env1), Width(v)) < 0 && Signed(Eval(v, env2), Width(v)) < 0)
  }

  lemma FactsRespected(facts: Facts, env1: nat -> nat, env2: nat -> nat)
    requires FactsHold(facts, env1, env2)
    ensures Respects(Reading(env1, env2), facts)
  {
    hide Eval, Signed, Extend, Reading, Valid;
    var val := Reading(env1, env2);
    forall v, e | v in facts.sameRead ensures val(v, e, false) == val(v, e, true) {
      ReadingIs(v, e, env1, env2);
    }
    forall v, e, s | v in facts.signZero ensures val(v, e, s) >= 0 { ReadingIs(v, e, env1, env2); }
    forall v, s | v in facts.signOne ensures val(v, NotExtended, s) < 0 && val(v, SignExt, s) < 0 {
      ReadingIs(v, NotExtended, env1, env2);
      ReadingIs(v, SignExt, env1, env2);
    }
    forall v, s ensures val(v, ZeroExt, s) >= 0 { ReadingIs(v, ZeroExt, env1, env2); }
  }

  lemma ReadingIs(v: Expr, ext: Extension, env1: nat -> nat, env2: nat -> nat)
    ensures Valid(v) ==>
              && Reading(env1, env2)(v, ext, false) == Extend(v, ext, env1) && Reading(env1, env2)(v, ext, true) == Extend(v, ext, env2)
              && Extend(v, ext, env1) == ExtendedValue(Eval(v, env1), Width(v), ext)
              && Extend(v, ext, env2) == ExtendedValue(Eval(v, env2), Width(v), ext)
    ensures !Valid(v) ==> Reading(env1, env2)(v, ext, false) == Reading(env1, env2)(v, ext, true) == 0
  {
    hide Valid, Eval, Signed, Width;
  }

  function ExtendedValue(x: nat, w: nat, ext: Extension): int
    requires w > 0
  {
    if ext == ZeroExt then x else Signed(x, w)
  }

  /** The symbolic difference of two decomposed pointers. */
  function OffsetBetween(d1: Decomposition, d2: Decomposition): Int64 { Signed64(d1.off - d2.off) }

  function TermsBetween(d1: Decomposition, d2: Decomposition, facts: Facts): seq<Term> {
    Difference(Tagged(d1.ts, false), Tagged(d2.ts, true), facts)
  }

  predicate OneBase(d1: Decomposition, d2: Decomposition) { d1.v == d2.v && !d1.maxLookupReached && !d2.maxLookupReached }

  /** The answer for two pointers. */
  function AliasOf(p1: Pointer, v1Size: nat, p2: Pointer, v2Size: nat, facts: Facts): AliasResult
    requires PointerValid(p1) && PointerValid(p2)
  {
    var d1, d2 := Decompose(p1), Decompose(p2);
    if !OneBase(d1, d2) then MayAlias
    else FromOffset(OffsetBetween(d1, d2), TermsBetween(d1, d2, facts), v1Size, v2Size, facts)
  }

  /** The pointer that a chain of casts and GEPs starts from. */
  function Root(p: Pointer): nat {
    match p
    case Base(id) => id
    case Cast(q) => Root(q)
    case Gep(q, _) => Root(q)
  }

  lemma {:induction false} RootFound(v: Pointer, off: int, ts: seq<VarIndex>, lookups: nat)
    requires PointerValid(v) && Depth(v) < lookups
    ensures var d := DecomposeFrom(v, off, ts, lookups); d.v == Base(Root(v)) && !d.maxLookupReached
    decreases lookups
  {
    hide WithIndices;
    match v {
      case Base(_) =>
      case Cast(q) => RootFound(q, off, ts, lookups - 1);
      case Gep(q, indices) =>
        var (o, us) := WithIndices(indices, off, ts);
        RootFound(q, o, us, lookups - 1);
    }
  }

  /** One base is found exactly for chains that are not deep and start from one pointer. */
  lemma OneBaseIff(p1: Pointer, p2: Pointer)
    requires PointerValid(p1) && PointerValid(p2)
    ensures OneBase(Decompose(p1), Decompose(p2)) <==> Depth(p1) < 6 && Depth(p2) < 6 && Root(p1) == Root(p2)
  {
    hide DecomposeFrom;
    if Depth(p1) < 6 { RootFound(p1, 0, [], MAX_LOOKUP); }
    if Depth(p2) < 6 { RootFound(p2, 0, [], MAX_LOOKUP); }
    if OneBase(Decompose(p1), Decompose(p2)) {
      Shallow(p1);
      Shallow(p2);
    }
  }

  /** The answer for two pointers: MayAlias exactly if no one base is found, else what constant, steps and signs tell. */
  ghost predicate PointersGiven(r: AliasResult, p1: Pointer, v1Size: nat, p2: Pointer, v2Size: nat, facts: Facts)
    requires PointerValid(p1) && PointerValid(p2)
  {
    var d1, d2 := Decompose(p1), Decompose(p2);
    && (r == MayAlias <==> Depth(p1) >= 6 || Depth(p2) >= 6 || Root(p1) != Root(p2))
    && (r != MayAlias ==> Given(r, OffsetBetween(d1, d2), TermsBetween(d1, d2, facts), v1Size, v2Size, facts))
  }

  lemma PointerAnswersAreGiven(p1: Pointer, v1Size: nat, p2: Pointer, v2Size: nat, facts: Facts)
    requires PointerValid(p1) && PointerValid(p2) && v1Size < TWO_64 && v2Size < TWO_64 && facts.signZero !! facts.signOne
    ensures PointersGiven(AliasOf(p1, v1Size, p2, v2Size, facts), p1, v1Size, p2, v2Size, facts)
  {
    hide Decompose, FromOffset, TermsBetween, OneBase;
    var d1, d2 := Decompose(p1), Decompose(p2);
    OneBaseIff(p1, p2);
    BetweenNonZero(p1, p2, facts);
    AnswersAreGiven(OffsetBetween(d1, d2), TermsBetween(d1, d2, facts), v1Size, v2Size, facts);
  }

  /** Between two pointers each variable that is read alike is left once at most; without variables the symbolic distance is
      the constant. */
  lemma BetweenIsMerged(p1: Pointer, p2: Pointer, facts: Facts, env1: nat -> nat, env2: nat -> nat)
    requires PointerValid(p1) && PointerValid(p2)
    ensures MergedTerms(TermsBetween(Decompose(p1), Decompose(p2), facts), facts)
    ensures TermsBetween(Decompose(p1), Decompose(p2), facts) == [] ==>
              Symbolic(p1, p2, facts, env1, env2) == OffsetBetween(Decompose(p1), Decompose(p2))
  {
    hide Cong, DecomposeFrom, Values, AddressOf;
    NothingYet(_ => 0);
    DecompositionIs(p1, 0, [], MAX_LOOKUP, _ => 0, _ => 0);
    DifferenceMerges(Tagged(Decompose(p1).ts, false), Tagged(Decompose(p2).ts, true), facts);
  }

  /** A pointer and itself, its variables read alike. */
  lemma SelfMustAlias(p: Pointer, v1Size: nat, v2Size: nat, facts: Facts)
    requires PointerValid(p) && Depth(p) < 6 && forall t | t in Decompose(p).ts :: t.v in facts.sameRead
    ensures AliasOf(p, v1Size, p, v2Size, facts) == MustAlias
  {
    hide Decompose, Difference, Signed64;
    var d := Decompose(p);
    OneBaseIff(p, p);
    var one, two := Tagged(d.ts, false), Tagged(d.ts, true);
    assert forall i | 0 <= i < |d.ts| :: d.ts[i] in d.ts;
    SameTermsVanish(one, two, facts, |two|);
    assert two[..|two|] == two;
    SmallSigned(0);
  }

  method AliasGEP(p1: Pointer, v1Size: nat, p2: Pointer, v2Size: nat, facts: Facts) returns (r: AliasResult)
    requires PointerValid(p1) && PointerValid(p2) && v1Size < TWO_64 && v2Size < TWO_64
    ensures r == AliasOf(p1, v1Size, p2, v2Size, facts)
    ensures facts.signZero !! facts.signOne ==> PointersGiven(r, p1, v1Size, p2, v2Size, facts)
  {
    hide Decompose, Signed64, Tagged, Difference, FromOffset, NonZero, PointersGiven, Given;
    if facts.signZero !! facts.signOne { PointerAnswersAreGiven(p1, v1Size, p2, v2Size, facts); }
    var base1, off1, ts1, reached1 := DecomposeGEPExpression(p1);
    var base2, off2, ts2, reached2 := DecomposeGEPExpression(p2);
    if base1 != base2 {
      return MayAlias;
    }
    if reached2 || reached1 {
      return MayAlias;
    }
    TermsNonZero(p1, false);
    TermsNonZero(p2, true);
    DifferenceNonZero(Tagged(ts1, false), Tagged(ts2, true), facts);
    var off := Signed64(off1 - off2);
    var ts := GetIndexDifference(Tagged(ts1, false), Tagged(ts2, true), facts);
    r := AliasFromOffset(off, ts, v1Size, v2Size, facts);
  }

  lemma TermsNonZero(p: Pointer, second: bool)
    requires PointerValid(p)
    ensures NonZero(Tagged(Decompose(p).ts, second))
  {
    hide Cong, DecomposeFrom, Values, AddressOf;
    NothingYet(_ => 0);
    DecompositionIs(p, 0, [], MAX_LOOKUP, _ => 0, _ => 0);
  }

  lemma {:induction false} DifferenceNonZero(dest: seq<Term>, src: seq<Term>, facts: Facts)
    requires NonZero(dest) && NonZero(src)
    ensures NonZero(Difference(dest, src, facts))
    decreases |src|
  {
    if src != [] {
      var first, t := src[..|src| - 1], src[|src| - 1];
      DifferenceNonZero(dest, first, facts);
      var ts := Difference(dest, first, facts);
      var k := FindMatch(ts, t, facts, 0);
      SignedNonZero(0 - t.scale);
      if k < |ts| && ts[k].scale != t.scale { SignedNonZero(ts[k].scale - t.scale); }
    }
  }

  /** Tagging keeps the value. */
  lemma {:induction false} SumTagged(ts: seq<VarIndex>, second: bool, env1: nat -> nat, env2: nat -> nat)
    requires TermsValid(ts) && forall t | t in ts :: -(TWO_64 / 2) <= t.scale < TWO_64 / 2
    ensures Sum(Tagged(ts, second), Reading(env1, env2)) == Values(ts, if second then env2 else env1)
    decreases |ts|
  {
    hide Extend;
    if ts != [] {
      var first, last := ts[..|ts| - 1], ts[|ts| - 1];
      assert last in ts && forall t | t in first :: t in ts;
      SumTagged(first, second, env1, env2);
      var t := Term(last.v, last.ext, Signed64(last.scale), second);
      SmallSigned(last.scale);
      SumPush(Tagged(first, second), t, Reading(env1, env2));
    }
  }

  lemma SmallSigned(x: int)
    requires -(TWO_64 / 2) <= x < TWO_64 / 2
    ensures Signed64(x) == x
  {
  }

  /** The distance according to the symbolic difference. */
  function Symbolic(p1: Pointer, p2: Pointer, facts: Facts, env1: nat -> nat, env2: nat -> nat): int
    requires PointerValid(p1) && PointerValid(p2)
  {
    var d1, d2 := Decompose(p1), Decompose(p2);
    OffsetBetween(d1, d2) + Sum(TermsBetween(d1, d2, facts), Reading(env1, env2))
  }

  /** A run in which both pointers are computed, what is known is true, and every index is in range where it matters. */
  ghost predicate GoodRun(p1: Pointer, p2: Pointer, facts: Facts, env1: nat -> nat, env2: nat -> nat)
    requires PointerValid(p1) && PointerValid(p2)
  {
    && AllKnown(p1, env1) && AllKnown(p2, env2) && FactsHold(facts, env1, env2)
    && AllRead(p1, env1) && AllRead(p2, env2)
  }

  lemma ScalesInWord(ts: seq<VarIndex>)
    requires Once(ts)
    ensures forall t | t in ts :: -(TWO_64 / 2) <= t.scale < TWO_64 / 2
  {
  }

  /** Addresses on one base differ by the symbolic difference, modulo the width of a pointer. */
  lemma DistanceIsSymbolic(p1: Pointer, p2: Pointer, facts: Facts, env1: nat -> nat, env2: nat -> nat, bases: nat -> int)
    requires PointerValid(p1) && PointerValid(p2) && GoodRun(p1, p2, facts, env1, env2) && OneBase(Decompose(p1), Decompose(p2))
    ensures Cong(TWO_64, Address(p1, env1, bases) - Address(p2, env2, bases), Symbolic(p1, p2, facts, env1, env2))
  {
    hide Cong, AllRead, AllKnown, Decompose, Values, Sum, Address, Respects, FactsHold, Difference, Once, TermsValid, Tagged, Reading,
      Signed64, NonZero, PointerValid;
    var d1, d2 := Decompose(p1), Decompose(p2);
    Shallow(p1);
    Shallow(p2);
    SameAddress(p1, env1, bases);
    SameAddress(p2, env2, bases);
    ScalesInWord(d1.ts);
    ScalesInWord(d2.ts);
    SumTagged(d1.ts, false, env1, env2);
    SumTagged(d2.ts, true, env1, env2);
    TermsNonZero(p1, false);
    TermsNonZero(p2, true);
    FactsRespected(facts, env1, env2);
    var val := Reading(env1, env2);
    DifferenceIs(Tagged(d1.ts, false), Tagged(d2.ts, true), facts, val);
    Signed64Cong(d1.off - d2.off);
    Subtract(Address(p1, env1, bases), Address(p2, env2, bases), bases(d1.v.id), d1.off, d2.off, Values(d1.ts, env1), Values(d2.ts, env2),
             OffsetBetween(d1, d2), Sum(TermsBetween(d1, d2, facts), val));
  }

  lemma Shallow(p: Pointer)
    requires PointerValid(p) && !Decompose(p).maxLookupReached
    ensures Depth(p) < MAX_LOOKUP
  {
    hide Cong, DecomposeFrom, Values, AddressOf;
    NothingYet(_ => 0);
    DecompositionIs(p, 0, [], MAX_LOOKUP, _ => 0, _ => 0);
  }

  lemma Subtract(a1: int, a2: int, b: int, o1: int, o2: int, v1: int, v2: int, off: int, sum: int)
    requires Cong(TWO_64, a1, b + o1 + v1) && Cong(TWO_64, a2, b + o2 + v2)
    requires Cong(TWO_64, off, o1 - o2) && Cong(TWO_64, sum, v1 - v2)
    ensures Cong(TWO_64, a1 - a2, off + sum)
  {
    DividesSum(TWO_64, a1 - (b + o1 + v1), a2 - (b + o2 + v2));
    CongAdd(TWO_64, off, o1 - o2, sum, v1 - v2);
    CongSym(TWO_64, off + sum, o1 - o2 + (v1 - v2));
    hide Divides;
    assert a1 - (b + o1 + v1) - (a2 - (b + o2 + v2)) == a1 - a2 - (o1 - o2 + (v1 - v2));
    CongTrans(TWO_64, a1 - a2, o1 - o2 + (v1 - v2), off + sum);
  }

  predicate InWord(x: int) { -(TWO_64 / 2) <= x < TWO_64 / 2 }

  lemma SameWord(x: int, y: int)
    requires Cong(TWO_64, x, y) && InWord(x) && InWord(y)
    ensures x == y
  {
    SameInWindow(x, y, -(TWO_64 / 2), TWO_64);
  }

  /** No product, and no partial sum of the offset and the products, leaves 64 bits. */
  predicate StaysInWord(acc: int, ts: seq<Term>, val: Valuation)
    decreases |ts|
  {
    InWord(acc) && (ts == [] || (InWord(Part(ts[0], val)) && StaysInWord(acc + Part(ts[0], val), ts[1..], val)))
  }

  lemma {:induction false} StayedInWord(acc: int, ts: seq<Term>, val: Valuation)
    requires StaysInWord(acc, ts, val)
    ensures InWord(acc + Sum(ts, val))
    decreases |ts|
  {
    hide Part, InWord;
    if ts != [] { StayedInWord(acc + Part(ts[0], val), ts[1..], val); }
  }

  /** Sums of what is not negative only grow: if the end is in the word all the rest is. */
  lemma {:induction false} GrowingStays(acc: int, ts: seq<Term>, facts: Facts, val: Valuation)
    requires acc >= 0 && Respects(val, facts) && AllNonNegative(ts, facts) && InWord(acc + Sum(ts, val))
    ensures StaysInWord(acc, ts, val)
    decreases |ts|
  {
    SumNonNegative(ts, facts, val);
    if ts != [] {
      SumNonNegative(ts[..1], facts, val);
      assert ts[..1][1..] == [] && Sum(ts[..1], val) == Part(ts[0], val);
      SumNonNegative(ts[1..], facts, val);
      hide Part, Respects, AllNonNegative;
      GrowingStays(acc + Part(ts[0], val), ts[1..], facts, val);
    }
  }

  /** Between addresses whose distance fits 64 bits, the symbolic difference is that distance exactly when it fits too; in
      64-bit arithmetic, always. It fits if no index product or partial sum overflows, and where all terms are known not to be
      negative, only then. */
  lemma DistanceIsExact(p1: Pointer, p2: Pointer, facts: Facts, env1: nat -> nat, env2: nat -> nat, bases: nat -> int)
    requires PointerValid(p1) && PointerValid(p2) && GoodRun(p1, p2, facts, env1, env2) && OneBase(Decompose(p1), Decompose(p2))
    requires InWord(Address(p1, env1, bases) - Address(p2, env2, bases))
    ensures var d, s := Address(p1, env1, bases) - Address(p2, env2, bases), Symbolic(p1, p2, facts, env1, env2);
            var off, ts := OffsetBetween(Decompose(p1), Decompose(p2)), TermsBetween(Decompose(p1), Decompose(p2), facts);
            && d == Signed64(s) && (d == s <==> InWord(s))
            && (StaysInWord(off, ts, Reading(env1, env2)) ==> InWord(s))
            && (off >= 0 && AllNonNegative(ts, facts) ==> (InWord(s) <==> StaysInWord(off, ts, Reading(env1, env2))))
  {
    hide Cong, GoodRun, Decompose, Address, Sum, TermsBetween, StaysInWord, AllNonNegative, Respects, Signed64, Reading;
    var d1, d2 := Decompose(p1), Decompose(p2);
    var off, ts, val := OffsetBetween(d1, d2), TermsBetween(d1, d2, facts), Reading(env1, env2);
    var d, s := Address(p1, env1, bases) - Address(p2, env2, bases), Symbolic(p1, p2, facts, env1, env2);
    DistanceIsSymbolic(p1, p2, facts, env1, env2, bases);
    Signed64Cong(s);
    CongSym(TWO_64, Signed64(s), s);
    CongTrans(TWO_64, d, s, Signed64(s));
    SameWord(d, Signed64(s));
    if InWord(s) { SameWord(d, s); }
    RunRespects(p1, p2, facts, env1, env2);
    if StaysInWord(off, ts, val) { StayedInWord(off, ts, val); }
    if off >= 0 && AllNonNegative(ts, facts) && InWord(s) { GrowingStays(off, ts, facts, val); }
  }

  predicate KnownSizes(v1Size: nat, v2Size: nat) { v1Size != UNKNOWN_SIZE && v2Size != UNKNOWN_SIZE }

  /** For every value of every variable in good runs: MustAlias means one address, modulo the width of a pointer. NoAlias means
      accesses apart: by the gaps, always; by a constant, if the distance fits 64 bits; by signs, if moreover the symbolic
      distance does. PartialAlias by a constant means a shared byte, unless one access is empty. */
  lemma AnswersAreSound(p1: Pointer, v1Size: nat, p2: Pointer, v2Size: nat, facts: Facts, env1: nat -> nat, env2: nat -> nat, bases: nat -> int)
    requires PointerValid(p1) && PointerValid(p2) && v1Size < TWO_64 && v2Size < TWO_64 && GoodRun(p1, p2, facts, env1, env2)
    ensures var r := AliasOf(p1, v1Size, p2, v2Size, facts); var a1, a2 := Address(p1, env1, bases), Address(p2, env2, bases);
            var off, ts := OffsetBetween(Decompose(p1), Decompose(p2)), TermsBetween(Decompose(p1), Decompose(p2), facts);
            && (r == MustAlias ==> Cong(TWO_64, a1, a2))
            && (r == NoAlias && ( || (ts != [] && KnownSizes(v1Size, v2Size) && FitsGap(off, ts, v1Size, v2Size))
                                  || (InWord(a1 - a2) && (ts == [] || InWord(Symbolic(p1, p2, facts, env1, env2))))) ==>
                  forall n1: nat, n2: nat | SizeOf(v1Size, n1) && SizeOf(v2Size, n2) :: !Overlap(a1 - a2, n1, n2))
            && (r == PartialAlias && ts == [] && KnownSizes(v1Size, v2Size) && InWord(a1 - a2) ==>
                  (Overlap(a1 - a2, v1Size, v2Size) <==> v1Size > 0 && v2Size > 0))
  {
    hide Cong, GoodRun, Decompose, Address, Overlap, Sum, TermsBetween, FromOffset, FitsGap;
    var d1, d2 := Decompose(p1), Decompose(p2);
    if OneBase(d1, d2) {
      DistanceIsSymbolic(p1, p2, facts, env1, env2, bases);
      var off, ts := OffsetBetween(d1, d2), TermsBetween(d1, d2, facts);
      BetweenNonZero(p1, p2, facts);
      FromOffsetIsSound(off, ts, v1Size, v2Size, facts);
      var a1, a2, s := Address(p1, env1, bases), Address(p2, env2, bases), Symbolic(p1, p2, facts, env1, env2);
      RunRespects(p1, p2, facts, env1, env2);
      NothingBetween(off, ts, env1, env2);
      DistanceZero(a1, a2, s);
      if InWord(a1 - a2) && InWord(s) { SameWord(a1 - a2, s); }
      if ts != [] && FitsGap(off, ts, v1Size, v2Size) { GapsNeedNoBound(p1, v1Size, p2, v2Size, facts, env1, env2, bases); }
    }
  }

  lemma RunRespects(p1: Pointer, p2: Pointer, facts: Facts, env1: nat -> nat, env2: nat -> nat)
    requires PointerValid(p1) && PointerValid(p2) && GoodRun(p1, p2, facts, env1, env2)
    ensures Respects(Reading(env1, env2), facts)
  {
    FactsRespected(facts, env1, env2);
  }

  lemma BetweenNonZero(p1: Pointer, p2: Pointer, facts: Facts)
    requires PointerValid(p1) && PointerValid(p2)
    ensures NonZero(TermsBetween(Decompose(p1), Decompose(p2), facts))
  {
    TermsNonZero(p1, false);
    TermsNonZero(p2, true);
    DifferenceNonZero(Tagged(Decompose(p1).ts, false), Tagged(Decompose(p2).ts, true), facts);
  }

  lemma NothingBetween(off: int, ts: seq<Term>, env1: nat -> nat, env2: nat -> nat)
    ensures ts == [] ==> off + Sum(ts, Reading(env1, env2)) == off
  {
  }

  lemma DistanceZero(a1: int, a2: int, s: int)
    requires Cong(TWO_64, a1 - a2, s)
    ensures s == 0 ==> Cong(TWO_64, a1, a2)
  {
  }

  /** Where accesses of known size fit the gaps left by the scales, they are apart however often addresses wrap around. */
  lemma GapsNeedNoBound(p1: Pointer, v1Size: nat, p2: Pointer, v2Size: nat, facts: Facts, env1: nat -> nat, env2: nat -> nat, bases: nat -> int)
    requires PointerValid(p1) && PointerValid(p2) && GoodRun(p1, p2, facts, env1, env2) && OneBase(Decompose(p1), Decompose(p2))
    requires var off, ts := OffsetBetween(Decompose(p1), Decompose(p2)), TermsBetween(Decompose(p1), Decompose(p2), facts);
             ts != [] && FitsGap(off, ts, v1Size, v2Size)
    ensures !Overlap(Address(p1, env1, bases) - Address(p2, env2, bases), v1Size, v2Size)
  {
    hide GoodRun, Decompose, Address, Overlap, Sum, TermsBetween, FitsGap;
    var d1, d2 := Decompose(p1), Decompose(p2);
    var off, ts := OffsetBetween(d1, d2), TermsBetween(d1, d2, facts);
    var d, s := Address(p1, env1, bases) - Address(p2, env2, bases), Symbolic(p1, p2, facts, env1, env2);
    DistanceIsSymbolic(p1, p2, facts, env1, env2, bases);
    BetweenNonZero(p1, p2, facts);
    RunRespects(p1, p2, facts, env1, env2);
    ModuloTest(off, ts, facts, v1Size, v2Size);
    var wraps: int :| d - s == wraps * TWO_64;
    assert Distance(off, ts, Reading(env1, env2), wraps) == d;
  }

  // Where the answer is wrong

  /** Every variable holds one. */
  function Ones(): nat -> nat { (i: nat) => 1 }

  lemma Widths()
    ensures Pow2(7) == 128 && Pow2(8) == 256 && Pow2(63) == TWO_64 / 2 && Pow2(64) == TWO_64
  {
    Pow2Values();
  }

  const X := Var(0, 8)

  /** The read forms of x, of x + 127 and of -x, all in eight bits and sign-extended. */
  lemma FormsOfX()
    ensures Valid(SExt(X, 64)) && Valid(SExt(AddC(X, 127), 64)) && Valid(SExt(MulC(X, 255), 64))
    ensures GetLinear(SExt(X, 64), NotExtended, 0) == Linear(X, 1, 0, SignExt)
    ensures GetLinear(SExt(AddC(X, 127), 64), NotExtended, 0) == Linear(X, 1, 127, SignExt)
    ensures GetLinear(SExt(MulC(X, 255), 64), NotExtended, 0) == Linear(X, 255, 0, SignExt)
  {
    Widths();
    hide Pow2;
    assert GetLinear(X, SignExt, 1) == GetLinear(X, SignExt, 2) == Linear(X, 1, 0, SignExt);
    assert GetLinear(AddC(X, 127), SignExt, 1) == Linear(X, 1, 127, SignExt);
    assert GetLinear(MulC(X, 255), SignExt, 1) == Linear(X, 255, 0, SignExt);
  }

  /** One index into bytes, no variable seen before. */
  lemma OneElement(index: Expr, off: int)
    requires Valid(index) && Width(index) == 64 && !index.Const?
    ensures var l := GetLinear(index, NotExtended, 0);
            WithIndices([Element(1, index)], off, [])
              == (Signed64(off + Signed(l.offset, 64)), WithTerm([], l.v, l.ext, Signed(l.scale, 64)))
  {
    var i := Element(1, index);
    assert [i][..0] == [] && WithIndices([], off, []) == (off, []);
    hide GetLinear, Signed64, Signed, WithTerm;
    var l := GetLinear(index, NotExtended, 0);
    assert 1 * Signed(l.scale, 64) == Signed(l.scale, 64);
  }

  lemma FirstTerm(v: Expr, ext: Extension, scale: Int64)
    requires scale != 0
    ensures WithTerm([], v, ext, scale) == [VarIndex(v, ext, scale)]
  {
    SmallSigned(scale);
    assert Rest([], 0) == [];
  }

  lemma OneConstant(c: nat, off: int)
    requires Valid(Const(c, 64)) && Signed(c, 64) != 0
    ensures WithIndices([Element(1, Const(c, 64))], off, []) == (Signed64(off + Signed(c, 64)), [])
  {
    var i := Element(1, Const(c, 64));
    assert [i][..0] == [] && WithIndices([], off, []) == (off, []);
    hide Signed64, Signed;
    assert 1 * Signed(c, 64) == Signed(c, 64);
  }

  lemma SmallSignedWord(x: nat)
    requires x < TWO_64 / 2
    ensures Signed(x, 64) == x && Signed(TWO_64 - 1 - x, 64) == -1 - x
  {
    Widths();
  }

  /** The addresses at x = 1. */
  lemma MovesOfX()
    ensures IndexValid(Element(1, SExt(X, 64))) && Moves(Element(1, SExt(X, 64)), Ones()) == 1
    ensures IndexValid(Element(1, SExt(AddC(X, 127), 64))) && Moves(Element(1, SExt(AddC(X, 127), 64)), Ones()) == -128
    ensures IndexValid(Element(1, SExt(MulC(X, 255), 64))) && Moves(Element(1, SExt(MulC(X, 255), 64)), Ones()) == -1
  {
    Widths();
    hide Pow2;
    assert Eval(X, Ones()) == 1;
    assert Eval(AddC(X, 127), Ones()) == 128 && Eval(MulC(X, 255), Ones()) == 255;
  }

  lemma ConstantMoves(x: nat)
    requires x < TWO_64 / 2
    ensures Valid(Const(TWO_64 - 1 - x, 64)) && IndexValid(Element(1, Const(TWO_64 - 1 - x, 64)))
    ensures Moves(Element(1, Const(TWO_64 - 1 - x, 64)), Ones()) == -1 - x
  {
    Widths();
    SmallSignedWord(x);
  }

  /** One GEP of one index on base 0, and another on top. */
  lemma OneGep(i: Index, env: nat -> nat, bases: nat -> int)
    requires IndexValid(i)
    ensures PointerValid(Gep(Base(0), [i])) && Address(Gep(Base(0), [i]), env, bases) == bases(0) + Moves(i, env)
  {
    OneMove(i, env, false);
    StepAddress(0, i, env, bases, false);
  }

  lemma OneGepAnywhere(i: Index, env: nat -> nat)
    requires IndexValid(i)
    ensures PointerValid(Gep(Base(0), [i]))
    ensures forall bases: nat -> int :: Address(Gep(Base(0), [i]), env, bases) == bases(0) + Moves(i, env)
  {
    hide Address, PointerValid, Moves;
    OneGep(i, env, _ => 0);
    forall bases: nat -> int ensures Address(Gep(Base(0), [i]), env, bases) == bases(0) + Moves(i, env) { OneGep(i, env, bases); }
  }

  lemma TwoGeps(i: Index, j: Index, env: nat -> nat, bases: nat -> int)
    requires IndexValid(i) && IndexValid(j)
    ensures var q := Gep(Gep(Base(0), [i]), [j]); PointerValid(q) && Address(q, env, bases) == bases(0) + Moves(i, env) + Moves(j, env)
  {
    OneGep(i, env, bases);
    OneMove(j, env, false);
    hide Moves, AllMoves;
    var q := Gep(Gep(Base(0), [i]), [j]);
    assert AddressOf(q, env, bases, false) == AddressOf(Gep(Base(0), [i]), env, bases, false) + AllMoves([j], env, false);
  }

  /** The decompositions. */
  lemma OneGepForm(index: Expr, v: Expr, k: nat, o: nat)
    requires Valid(index) && Width(index) == 64 && !index.Const? && GetLinear(index, NotExtended, 0) == Linear(v, k, o, SignExt)
    requires 0 < k < TWO_64 / 2 && o < TWO_64 / 2
    ensures Decompose(Gep(Base(0), [Element(1, index)])) == Decomposition(Base(0), o, [VarIndex(v, SignExt, k)], false)
  {
    hide GetLinear, Signed, Signed64, WithTerm, WithIndices;
    OneElement(index, 0);
    SmallSignedWord(k);
    SmallSignedWord(o);
    SmallSigned(o);
    FirstTerm(v, SignExt, k);
    FoundThere(0, [Element(1, index)], o, [VarIndex(v, SignExt, k)]);
  }

  lemma FoundThere(off0: int, indices: seq<Index>, off: int, ts: seq<VarIndex>)
    requires (forall i | i in indices :: IndexValid(i)) && WithIndices(indices, off0, []) == (off, ts)
    ensures forall n: nat | n >= 2 :: DecomposeFrom(Gep(Base(0), indices), off0, [], n) == Decomposition(Base(0), off, ts, false)
  {
    hide WithIndices;
    forall n: nat | n >= 2 ensures DecomposeFrom(Gep(Base(0), indices), off0, [], n) == Decomposition(Base(0), off, ts, false) {
      assert DecomposeFrom(Base(0), off, ts, n - 1) == Decomposition(Base(0), off, ts, false);
    }
  }

  lemma ConstantGepForm(x: nat)
    requires x < TWO_64 / 2
    ensures Valid(Const(TWO_64 - 1 - x, 64))
    ensures WithIndices([Element(1, Const(TWO_64 - 1 - x, 64))], 0, []) == (-1 - x, [])
    ensures Decompose(Gep(Base(0), [Element(1, Const(TWO_64 - 1 - x, 64))])) == Decomposition(Base(0), -1 - x, [], false)
  {
    Widths();
    hide Signed, Signed64, WithIndices;
    SmallSignedWord(x);
    OneConstant(TWO_64 - 1 - x, 0);
    SmallSigned(-1 - x);
    FoundThere(0, [Element(1, Const(TWO_64 - 1 - x, 64))], -1 - x, []);
  }

  /** base + sext(x + 127), base + sext(x) - 129 in two steps, base + sext(-x), and base - 1. */
  function SumPointer(): Pointer { Gep(Base(0), [Element(1, SExt(AddC(X, 127), 64))]) }

  function StepPointer(): Pointer { Gep(Gep(Base(0), [Element(1, SExt(X, 64))]), [Element(1, Const(TWO_64 - 129, 64))]) }

  function NegatedPointer(): Pointer { Gep(Base(0), [Element(1, SExt(MulC(X, 255), 64))]) }

  function PreviousPointer(): Pointer { Gep(Base(0), [Element(1, Const(TWO_64 - 1, 64))]) }

  lemma SumPointerIs()
    ensures PointerValid(SumPointer()) && Decompose(SumPointer()) == Decomposition(Base(0), 127, [VarIndex(X, SignExt, 1)], false)
    ensures forall bases: nat -> int :: Address(SumPointer(), Ones(), bases) == bases(0) - 128
  {
    var i := Element(1, SExt(AddC(X, 127), 64));
    hide Moves, Decompose, GetLinear, Valid, Address, Ones, PointerValid, DecomposeFrom, WithIndices;
    MovesOfX();
    FormsOfX();
    OneGepForm(i.index, X, 1, 127);
    OneGepAnywhere(i, Ones());
  }

  lemma StepPointerIs()
    ensures PointerValid(StepPointer()) && Decompose(StepPointer()) == Decomposition(Base(0), -129, [VarIndex(X, SignExt, 1)], false)
    ensures forall bases: nat -> int :: Address(StepPointer(), Ones(), bases) == bases(0) - 128
  {
    hide Decompose, Valid, Address, Ones, PointerValid, GetLinear, WithIndices, Signed, Signed64, DecomposeFrom;
    FormsOfX();
    ConstantGepForm(128);
    ConstantMoves(128);
    StepsForm(SExt(X, 64), X, 1, SignExt, Element(1, Const(TWO_64 - 129, 64)), -129);
    forall bases: nat -> int ensures Address(StepPointer(), Ones(), bases) == bases(0) - 128 { StepAddresses(bases); }
  }

  lemma StepAddresses(bases: nat -> int)
    ensures PointerValid(StepPointer()) && Address(StepPointer(), Ones(), bases) == bases(0) - 128
  {
    hide Moves, Valid, Address, Ones, PointerValid;
    MovesOfX();
    ConstantMoves(128);
    TwoGeps(Element(1, SExt(X, 64)), Element(1, Const(TWO_64 - 129, 64)), Ones(), bases);
  }

  lemma StepsForm(index: Expr, v: Expr, k: nat, ext: Extension, j: Index, off: int)
    requires Valid(index) && Width(index) == 64 && !index.Const? && GetLinear(index, NotExtended, 0) == Linear(v, k, 0, ext)
    requires 0 < k < TWO_64 / 2 && IndexValid(j) && WithIndices([j], 0, []) == (off, []) && InWord(off)
    ensures PointerValid(Gep(Gep(Base(0), [Element(1, index)]), [j]))
    ensures Decompose(Gep(Gep(Base(0), [Element(1, index)]), [j])) == Decomposition(Base(0), off, [VarIndex(v, ext, k)], false)
  {
    var i := Element(1, index);
    assert PointerValid(Gep(Base(0), [i]));
    assert forall k | k in [j] :: k == j;
    hide GetLinear, Signed, Signed64, WithTerm, WithIndices;
    OneElement(index, off);
    SmallSignedWord(k);
    SmallSignedWord(0);
    SmallSigned(off);
    FirstTerm(v, ext, k);
    FoundThere(off, [i], off, [VarIndex(v, ext, k)]);
  }

  lemma NegatedPointerIs()
    ensures PointerValid(NegatedPointer()) && Decompose(NegatedPointer()) == Decomposition(Base(0), 0, [VarIndex(X, SignExt, 255)], false)
    ensures forall bases: nat -> int :: Address(NegatedPointer(), Ones(), bases) == bases(0) - 1
  {
    var i := Element(1, SExt(MulC(X, 255), 64));
    hide Moves, Decompose, GetLinear, Valid, Address, Ones, PointerValid, DecomposeFrom, WithIndices;
    MovesOfX();
    FormsOfX();
    OneGepForm(i.index, X, 255, 0);
    OneGepAnywhere(i, Ones());
  }

  lemma PreviousPointerIs()
    ensures PointerValid(PreviousPointer()) && Decompose(PreviousPointer()) == Decomposition(Base(0), -1, [], false)
    ensures forall bases: nat -> int :: Address(PreviousPointer(), Ones(), bases) == bases(0) - 1
  {
    var i := Element(1, Const(TWO_64 - 1, 64));
    ConstantMoves(0);
    ConstantGepForm(0);
    hide Moves, Decompose, Valid, Address, Ones, PointerValid;
    OneGepAnywhere(i, Ones());
  }

  lemma OneTagged(v: Expr, ext: Extension, scale: Int64, second: bool)
    ensures Tagged([VarIndex(v, ext, scale)], second) == [Term(v, ext, scale, second)]
    ensures Tagged([], second) == []
  {
    SmallSigned(scale);
  }

  /** An addition that overflows below an extension: with x = 1, base + sext(x + 127) and base + sext(x) - 129 are one address,
      and the answer for accesses of four bytes is NoAlias. */
  lemma OverflowIsMisread()
    ensures PointerValid(SumPointer()) && PointerValid(StepPointer()) && FactsHold(Facts({X}, {}, {}), Ones(), Ones())
    ensures forall bases: nat -> int :: Address(SumPointer(), Ones(), bases) == Address(StepPointer(), Ones(), bases)
    ensures AliasOf(SumPointer(), 4, StepPointer(), 4, Facts({X}, {}, {})) == NoAlias
  {
    hide *;
    var facts := Facts({X}, {}, {});
    SumPointerIs();
    StepPointerIs();
    KnownOnes(facts);
    var d1, d2 := Decomposition(Base(0), 127, [VarIndex(X, SignExt, 1)], false), Decomposition(Base(0), -129, [VarIndex(X, SignExt, 1)], false);
    FarApartForm(d1, d2, facts);
    AnswerIs(SumPointer(), StepPointer(), 4, facts, d1, d2);
  }

  lemma AnswerIs(p: Pointer, q: Pointer, size: nat, facts: Facts, d1: Decomposition, d2: Decomposition)
    requires PointerValid(p) && PointerValid(q) && Decompose(p) == d1 && Decompose(q) == d2
    ensures AliasOf(p, size, q, size, facts)
         == if OneBase(d1, d2) then FromOffset(OffsetBetween(d1, d2), TermsBetween(d1, d2, facts), size, size, facts) else MayAlias
  {
  }

  lemma FarApartForm(d1: Decomposition, d2: Decomposition, facts: Facts)
    requires d1 == Decomposition(Base(0), 127, [VarIndex(X, SignExt, 1)], false)
    requires d2 == Decomposition(Base(0), -129, [VarIndex(X, SignExt, 1)], false) && X in facts.sameRead
    ensures OneBase(d1, d2) && FromOffset(OffsetBetween(d1, d2), TermsBetween(d1, d2, facts), 4, 4, facts) == NoAlias
  {
    hide Signed64, Tagged, Difference;
    OneTagged(X, SignExt, 1, false);
    OneTagged(X, SignExt, 1, true);
    SmallSigned(256);
    SameTermsCancel(Term(X, SignExt, 1, false), Term(X, SignExt, 1, true), facts);
  }

  lemma OneApartForm(d1: Decomposition, d2: Decomposition, v: Expr, ext: Extension, k: Int64, facts: Facts)
    requires d1 == Decomposition(Base(0), d2.off + 1, [VarIndex(v, ext, k)], false)
    requires d2 == Decomposition(Base(0), d2.off, [], false) && v in facts.signZero && k > 0
    ensures OneBase(d1, d2) && OffsetBetween(d1, d2) == 1 && TermsBetween(d1, d2, facts) == [Term(v, ext, k, false)]
    ensures FromOffset(OffsetBetween(d1, d2), TermsBetween(d1, d2, facts), 1, 1, facts) == NoAlias
  {
    hide Signed64, Tagged, FitsGap;
    OneTagged(v, ext, k, false);
    OneTagged(v, ext, k, true);
    SmallSigned(1);
    assert KnownNonNegative(Term(v, ext, k, false), facts);
  }

  lemma SameTermsCancel(t: Term, u: Term, facts: Facts)
    requires Matches(t, u, facts) && t.scale == u.scale
    ensures Difference([t], [u], facts) == []
  {
    assert [u][..0] == [] && Difference([t], [], facts) == [t] && FindMatch([t], u, facts, 0) == 0;
  }

  /** A negative factor below an extension, and no overflow at all: the scale is zero-extended. With x = 1, base + sext(-x) and
      base - 1 are one address, and the answer for single bytes is NoAlias when x is known not to be negative. */
  lemma NegativeScaleIsMisread()
    ensures PointerValid(NegatedPointer()) && PointerValid(PreviousPointer()) && FactsHold(Facts({X}, {X}, {}), Ones(), Ones())
    ensures forall bases: nat -> int :: Address(NegatedPointer(), Ones(), bases) == Address(PreviousPointer(), Ones(), bases)
    ensures AliasOf(NegatedPointer(), 1, PreviousPointer(), 1, Facts({X}, {X}, {})) == NoAlias
  {
    var k: Int64 := 255;
    hide *;
    var facts := Facts({X}, {X}, {});
    NegatedPointerIs();
    PreviousPointerIs();
    KnownOnes(facts);
    var d1, d2 := Decomposition(Base(0), 0, [VarIndex(X, SignExt, 255)], false), Decomposition(Base(0), -1, [], false);
    OneApartForm(d1, d2, X, SignExt, k, facts);
    AnswerIs(NegatedPointer(), PreviousPointer(), 1, facts, d1, d2);
  }

  const Y := Var(0, 64)

  /** A third of 2^64 - 1. */
  const THIRD: nat := 0x5555_5555_5555_5555

  function Thirds(): nat -> nat { (i: nat) => THIRD }

  /** base + 3 * y + 1, in two steps. */
  function TriplePointer(): Pointer { Gep(Gep(Base(0), [Element(1, MulC(Y, 3))]), [Element(1, Const(1, 64))]) }

  lemma IndicesOfY()
    ensures Valid(MulC(Y, 3)) && Valid(Const(1, 64)) && GetLinear(MulC(Y, 3), NotExtended, 0) == Linear(Y, 3, 0, NotExtended)
    ensures IndexValid(Element(1, MulC(Y, 3))) && IndexKnown(Element(1, MulC(Y, 3)), Thirds()) && Moves(Element(1, MulC(Y, 3)), Thirds()) == -1
    ensures IndexValid(Element(1, Const(1, 64))) && IndexKnown(Element(1, Const(1, 64)), Thirds()) && Moves(Element(1, Const(1, 64)), Thirds()) == 1
  {
    Widths();
    hide Pow2;
    assert GetLinear(Y, NotExtended, 1) == Linear(Y, 1, 0, NotExtended);
    assert Eval(Y, Thirds()) == THIRD && Eval(MulC(Y, 3), Thirds()) == TWO_64 - 1;
  }

  lemma TriplePointerIs()
    ensures PointerValid(TriplePointer()) && Decompose(TriplePointer()) == Decomposition(Base(0), 1, [VarIndex(Y, NotExtended, 3)], false)
    ensures forall bases: nat -> int :: Address(TriplePointer(), Thirds(), bases) == bases(0)
  {
    hide Moves, Decompose, Valid, Address, Thirds, PointerValid, GetLinear, WithIndices, Signed, Signed64, DecomposeFrom, IndexKnown;
    IndicesOfY();
    SmallSignedWord(1);
    SmallSigned(1);
    OneConstant(1, 0);
    StepsForm(MulC(Y, 3), Y, 3, NotExtended, Element(1, Const(1, 64)), 1);
    forall bases: nat -> int ensures Address(TriplePointer(), Thirds(), bases) == bases(0) {
      TwoGeps(Element(1, MulC(Y, 3)), Element(1, Const(1, 64)), Thirds(), bases);
    }
  }

  /** Nothing is crossed: every index is read as what it is. */
  lemma TripleIsGood()
    ensures PointerValid(TriplePointer()) && GoodRun(TriplePointer(), Base(0), Facts({Y}, {Y}, {}), Thirds(), Thirds())
  {
    hide Moves, Thirds, GetLinear, Reads, IndexKnown, FactsHold;
    IndicesOfY();
    FullWidthIsExact(Element(1, MulC(Y, 3)), Thirds());
    KnownThirds();
    TripleIsRead();
  }

  lemma TripleIsRead()
    requires IndexValid(Element(1, MulC(Y, 3))) && IndexKnown(Element(1, MulC(Y, 3)), Thirds()) && Reads(Element(1, MulC(Y, 3)), Thirds())
    requires IndexValid(Element(1, Const(1, 64)))
    ensures PointerValid(TriplePointer()) && AllKnown(TriplePointer(), Thirds()) && AllRead(TriplePointer(), Thirds())
  {
  }

  lemma KnownThirds()
    ensures FactsHold(Facts({Y}, {Y}, {}), Thirds(), Thirds())
  {
    Widths();
    assert Eval(Y, Thirds()) == THIRD;
  }

  lemma BaseIs()
    ensures Decompose(Base(0)) == Decomposition(Base(0), 0, [], false)
    ensures forall bases: nat -> int :: Address(Base(0), Thirds(), bases) == bases(0)
  {
    assert DecomposeFrom(Base(0), 0, [], 6) == Decomposition(Base(0), 0, [], false);
  }

  lemma TripledSum()
    ensures Sum([Term(Y, NotExtended, 3, false)], Reading(Thirds(), Thirds())) == TWO_64 - 1
  {
    Widths();
    var t, val := Term(Y, NotExtended, 3, false), Reading(Thirds(), Thirds());
    assert Eval(Y, Thirds()) == THIRD;
    ReadingIs(Y, NotExtended, Thirds(), Thirds());
    assert [t][1..] == [] && Sum([], val) == 0 && Part(t, val) == 3 * THIRD;
  }

  /** A product that overflows 64 bits, with no extension, every index read as what it is, and no address that wraps around:
      with y = (2^64 - 1) / 3, base + 3 * y + 1 and base are one address, and the answer for single bytes is NoAlias when y is
      known not to be negative. The symbolic distance is 2^64. */
  lemma ProductIsMisread()
    ensures PointerValid(TriplePointer()) && GoodRun(TriplePointer(), Base(0), Facts({Y}, {Y}, {}), Thirds(), Thirds())
    ensures forall bases: nat -> int :: Address(TriplePointer(), Thirds(), bases) == Address(Base(0), Thirds(), bases)
    ensures AliasOf(TriplePointer(), 1, Base(0), 1, Facts({Y}, {Y}, {})) == NoAlias
    ensures Symbolic(TriplePointer(), Base(0), Facts({Y}, {Y}, {}), Thirds(), Thirds()) == TWO_64
  {
    var k: Int64 := 3;
    hide *;
    var facts := Facts({Y}, {Y}, {});
    TriplePointerIs();
    BaseIs();
    TripleIsGood();
    var d1, d2 := Decomposition(Base(0), 1, [VarIndex(Y, NotExtended, 3)], false), Decomposition(Base(0), 0, [], false);
    OneApartForm(d1, d2, Y, NotExtended, k, facts);
    AnswerIs(TriplePointer(), Base(0), 1, facts, d1, d2);
    TripledSum();
    SymbolicIs(TriplePointer(), Base(0), facts, Thirds(), Thirds());
  }

  lemma SymbolicIs(p: Pointer, q: Pointer, facts: Facts, env1: nat -> nat, env2: nat -> nat)
    requires PointerValid(p) && PointerValid(q)
    ensures Symbolic(p, q, facts, env1, env2)
         == OffsetBetween(Decompose(p), Decompose(q)) + Sum(TermsBetween(Decompose(p), Decompose(q), facts), Reading(env1, env2))
  {
  }

  lemma KnownOnes(facts: Facts)
    requires facts.sameRead == {X} && facts.signZero <= {X} && facts.signOne == {}
    ensures FactsHold(facts, Ones(), Ones())
  {
    Widths();
    assert Eval(X, Ones()) == 1;
  }
}
