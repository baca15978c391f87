/** DecomposeGEPExpression: a pointer expression as base, constant offset and scaled variables, each variable once. What it
    reads for an index, and exactly when that is the index. */
module GepDecomposition {
  import opened Bits
  import opened LinearExpressions
  import opened LinearExactness

  const MAX_LOOKUP: nat := 6
  const TWO_64 := 0x1_0000_0000_0000_0000

  /** A struct field at an offset, or an element of an array of elements of a size. */
  datatype Index = Field(offset: nat) | Element(size: nat, index: Expr)

  /** Pointers are 64 bits wide. */
  datatype Pointer = Base(id: nat) | Cast(from: Pointer) | Gep(from: Pointer, indices: seq<Index>)

  /** scale times a variable, extended to pointer width. */
  datatype VarIndex = VarIndex(v: Expr, ext: Extension, scale: int)

  /** Base pointer, constant offset, variables, and whether the search stopped before the base. */
  datatype Decomposition = Decomposition(v: Pointer, off: int, ts: seq<VarIndex>, maxLookupReached: bool)

  predicate IndexValid(i: Index) { i.Element? ==> Valid(i.index) && Width(i.index) <= 64 }

  predicate PointerValid(p: Pointer) {
    match p
    case Base(_) => true
    case Cast(q) => PointerValid(q)
    case Gep(q, indices) => PointerValid(q) && forall i | i in indices :: IndexValid(i)
  }

  // Addresses

  /** How far an index moves the pointer: element numbers are signed. */
  function Moves(i: Index, env: nat -> nat): int
    requires IndexValid(i)
  {
    match i
    case Field(offset) => offset
    case Element(size, index) => size * Signed(Eval(index, env), Width(index))
  }

  function StartExtension(index: Expr): Extension { if Width(index) < 64 then SignExt else NotExtended }

  /** The number that the linear form read for an index comes to, its constants being sign-extended. */
  function ReadForm(index: Expr, env: nat -> nat): int
    requires Valid(index)
  {
    var l := GetLinear(index, StartExtension(index), 0);
    Lin(Signed(l.scale, Width(index)), Extend(l.v, l.ext, env), Signed(l.offset, Width(index)))
  }

  /** How far the pointer moves according to what is read. */
  function ReadMoves(i: Index, env: nat -> nat): int
    requires IndexValid(i)
  {
    match i
    case Field(offset) => offset
    case Element(size, index) => size * if index.Const? then Signed(index.c, Width(index)) else ReadForm(index, env)
  }

  /** The sum over indices of what they move, or of what is read for that. */
  function AllMoves(indices: seq<Index>, env: nat -> nat, read: bool): int
    requires forall i | i in indices :: IndexValid(i)
  {
    if indices == [] then 0
    else
      var first, last := indices[..|indices| - 1], indices[|indices| - 1];
      assert last in indices && forall i | i in first :: i in indices;
      AllMoves(first, env, read) + if read then ReadMoves(last, env) else Moves(last, env)
  }

  function AddressOf(p: Pointer, env: nat -> nat, bases: nat -> int, read: bool): int
    requires PointerValid(p)
  {
    match p
    case Base(id) => bases(id)
    case Cast(q) => AddressOf(q, env, bases, read)
    case Gep(q, indices) => AddressOf(q, env, bases, read) + AllMoves(indices, env, read)
  }

  /** The address a pointer expression computes, were there no bound on addresses. */
  function Address(p: Pointer, env: nat -> nat, bases: nat -> int): int
    requires PointerValid(p)
  {
    AddressOf(p, env, bases, false)
  }

  predicate TermsValid(ts: seq<VarIndex>) { forall t | t in ts :: Valid(t.v) }

  function Product(k: int, x: int): int { k * x }

  function Value(t: VarIndex, env: nat -> nat): int
    requires Valid(t.v)
  {
    Product(t.scale, Extend(t.v, t.ext, env))
  }

  function Values(ts: seq<VarIndex>, env: nat -> nat): int
    requires TermsValid(ts)
  {
    if ts == [] then 0
    else
      var first, last := ts[..|ts| - 1], ts[|ts| - 1];
      assert last in ts && forall t | t in first :: t in ts;
      Values(first, env) + Value(last, env)
  }

  // When an index is read as what it is

  /** What the analysis knows of low bits is true of an index. */
  predicate IndexKnown(i: Index, env: nat -> nat)
    requires IndexValid(i)
  {
    i.Element? ==> OracleOk(i.index, env)
  }

  /** The read form is in range at every extension that the address depends on: those looked through and, for an index
      narrower than a pointer, its own. */
  predicate Reads(i: Index, env: nat -> nat)
    requires IndexValid(i)
  {
    i.Field? || i.index.Const? || i.size == 0 || Zeros(i.size) >= 64 || ReadsTo(i.index, 64 - Zeros(i.size), env)
  }

  predicate ReadsTo(index: Expr, t: nat, env: nat -> nat)
    requires Valid(index)
  {
    var ext, w := StartExtension(index), Width(index);
    if t <= w then FitsTo(index, ext, 0, t, env)
    else FitsTo(index, ext, 0, w, env) && InRange(ReadForm(index, env), w, t, true)
  }

  lemma ReadFormIs(index: Expr, env: nat -> nat)
    requires Valid(index)
    ensures var w := Width(index); Cong(Pow2(w), ReadForm(index, env), Form(index, StartExtension(index), 0, env))
  {
    var l, w := GetLinear(index, StartExtension(index), 0), Width(index);
    var x := Extend(l.v, l.ext, env);
    hide Cong, GetLinear, Pow2;
    ScaleBound(index, StartExtension(index), 0);
    SignedIs(l.scale, w);
    SignedIs(l.offset, w);
    CongScale(Pow2(w), Signed(l.scale, w), l.scale, x);
    CongAdd(Pow2(w), Signed(l.scale, w) * x, l.scale * x, Signed(l.offset, w), l.offset);
  }

  lemma {:induction false} ScaleBound(e: Expr, ext: Extension, depth: nat)
    requires Valid(e) && depth <= MAX_DEPTH
    ensures GetLinear(e, ext, depth).scale < Pow2(Width(e))
    decreases e
  {
    OneFits(Width(e));
    if !IsLeaf(e, ext, depth) {
      match e {
        case AddC(e0, _) => ScaleBound(e0, ext, depth + 1);
        case OrC(e0, _, _) => ScaleBound(e0, ext, depth + 1);
        case MulC(_, _) =>
        case ShlC(_, _) =>
        case SExt(e0, to) =>
          ScaleBound(e0, SignExt, depth + 1);
          Pow2Grows(Width(e0), to);
        case ZExt(e0, to) =>
          ScaleBound(e0, ZeroExt, depth + 1);
          Pow2Grows(Width(e0), to);
        case _ =>
      }
    }
  }

  lemma OneFits(w: nat)
    requires w > 0
    ensures 1 < Pow2(w)
  {
    Pow2Grows(1, w);
    assert Pow2(1) == 2;
  }

  /** In t bits, an index is what is read for it exactly when the forms are in range. */
  lemma ReadsToIsExact(index: Expr, t: nat, env: nat -> nat)
    requires Valid(index) && t <= 64 && OracleOk(index, env)
    ensures Cong(Pow2(t), Signed(Eval(index, env), Width(index)), ReadForm(index, env)) <==> ReadsTo(index, t, env)
  {
    var ext, w := StartExtension(index), Width(index);
    var e, v, form, f := Eval(index, env), Signed(Eval(index, env), w), ReadForm(index, env), Form(index, ext, 0, env);
    SignedIs(e, w);
    ReadFormIs(index, env);
    FormIsRight(index, ext, 0, if t <= w then t else w, env);
    hide Cong, Pow2, InRange, ReadForm, Form, FitsTo, Signed;
    if t <= w {
      CongLower(t, w, v, e);
      CongLower(t, w, form, f);
      CongBoth(Pow2(t), e, v, f, form);
    } else {
      Crossing(v, e, form, f, w, t, true);
    }
  }

  /** One index moves the address by what is read for it exactly when it is in range, whatever its size. */
  lemma ReadsIsExact(i: Index, env: nat -> nat)
    requires IndexValid(i) && IndexKnown(i, env)
    ensures Cong(TWO_64, Moves(i, env), ReadMoves(i, env)) <==> Reads(i, env)
  {
    hide Cong, ReadForm, ReadsTo, Zeros, Signed, Pow2;
    CongSelf(TWO_64, Moves(i, env));
    if i.Element? && !i.index.Const? {
      var v, form, size := Signed(Eval(i.index, env), Width(i.index)), ReadForm(i.index, env), i.size;
      Pow2Values();
      CongSelf(TWO_64, size * v);
      CongSelf(TWO_64, size * form);
      Multiplied(v, form, size, 64, 64, size * v, size * form) by { assert size * v == v * size && size * form == form * size; }
      if size != 0 && Zeros(size) < 64 { ReadsToIsExact(i.index, 64 - Zeros(size), env); }
    }
  }

  /** Forms that never leave the widths they are in, as plain integers, are enough. */
  predicate IndexNoOverflow(i: Index, env: nat -> nat)
    requires IndexValid(i)
  {
    i.Element? && !i.index.Const? ==>
      && NoOverflow(i.index, StartExtension(i.index), 0, env)
      && (Width(i.index) < 64 ==> Holds(ReadForm(i.index, env), Width(i.index), true))
  }

  lemma NoOverflowReads(i: Index, env: nat -> nat)
    requires IndexValid(i) && IndexNoOverflow(i, env)
    ensures Reads(i, env)
  {
    hide NoOverflow, Holds, FitsTo, InRange, ReadForm;
    if i.Element? && !i.index.Const? && i.size > 0 && Zeros(i.size) < 64 {
      var t, w := 64 - Zeros(i.size), Width(i.index);
      NoOverflowFits(i.index, StartExtension(i.index), 0, if t <= w then t else w, env);
      if t > w { HeldIsInRange(ReadForm(i.index, env), w, t, true); }
    }
  }

  /** An index of bytes, narrower than a pointer, in which no extension is looked through. */
  lemma NarrowIndex(index: Expr, env: nat -> nat)
    requires Valid(index) && Width(index) < 64 && !index.Const?
    requires Width(GetLinear(index, SignExt, 0).v) == Width(index)
    ensures Reads(Element(1, index), env) <==> InRange(ReadForm(index, env), Width(index), 64, true)
  {
    hide InRange, ReadForm, FitsTo, GetLinear, NoOverflow;
    NoExtensionFits(index, SignExt, 0, env);
    NoOverflowFits(index, SignExt, 0, Width(index), env);
  }

  /** A 64-bit index in which no extension is looked through is always read as what it is. */
  lemma FullWidthIsExact(i: Index, env: nat -> nat)
    requires i.Element? && Valid(i.index) && Width(i.index) == 64
    requires Width(GetLinear(i.index, NotExtended, 0).v) == 64
    ensures IndexNoOverflow(i, env) && Reads(i, env)
  {
    NoExtensionFits(i.index, NotExtended, 0, env);
    NoOverflowReads(i, env);
  }

  // Decomposing

  /** The low 64 bits as a signed number. */
  function Signed64(x: int): (s: int)
    ensures -(TWO_64 / 2) <= s < TWO_64 / 2
  {
    if x % TWO_64 < TWO_64 / 2 then x % TWO_64 else x % TWO_64 - TWO_64
  }

  lemma Signed64Cong(x: int)
    ensures Cong(TWO_64, Signed64(x), x)
  {
    DividesMod(TWO_64, x);
    DividesProduct(TWO_64, x - x % TWO_64, -1);
    DividesBy(TWO_64, TWO_64, 1);
    if x % TWO_64 >= TWO_64 / 2 { DividesSum(TWO_64, x % TWO_64 - x, TWO_64); }
  }

  /** Each variable, in one extension, occurs once, and no scale is zero or exceeds 64 bits. */
  predicate Once(ts: seq<VarIndex>) {
    && (forall i, j | 0 <= i < j < |ts| :: ts[i].v != ts[j].v || ts[i].ext != ts[j].ext)
    && forall i | 0 <= i < |ts| :: ts[i].scale != 0 && -(TWO_64 / 2) <= ts[i].scale < TWO_64 / 2
  }

  function Without(ts: seq<VarIndex>, k: nat): seq<VarIndex>
    requires k < |ts|
  {
    ts[..k] + ts[k + 1..]
  }

  /** The first term from i on of this variable and extension. */
  function Find(ts: seq<VarIndex>, v: Expr, ext: Extension, i: nat): (k: nat)
    requires i <= |ts|
    ensures i <= k <= |ts| && (k < |ts| ==> ts[k].v == v && ts[k].ext == ext)
    ensures forall j | i <= j < k :: ts[j].v != v || ts[j].ext != ext
    decreases |ts| - i
  {
    if i == |ts| || (ts[i].v == v && ts[i].ext == ext) then i else Find(ts, v, ext, i + 1)
  }

  /** The terms but the one found. */
  function Rest(ts: seq<VarIndex>, k: nat): seq<VarIndex> { if k < |ts| then Without(ts, k) else ts }

  /** A variable times a scale, merged into the list. */
  function WithTerm(ts: seq<VarIndex>, v: Expr, ext: Extension, scale: int): seq<VarIndex> {
    var k := Find(ts, v, ext, 0);
    var s := Signed64(if k < |ts| then scale + ts[k].scale else scale);
    if s != 0 then Rest(ts, k) + [VarIndex(v, ext, s)] else Rest(ts, k)
  }

  /** What an index adds to the offset and the variables. */
  function WithIndex(i: Index, off: int, ts: seq<VarIndex>): (int, seq<VarIndex>)
    requires IndexValid(i)
  {
    match i
    case Field(offset) => (if offset == 0 then off else Signed64(off + offset), ts)
    case Element(size, index) =>
      var w := Width(index);
      if index.Const? then (if Signed(index.c, w) == 0 then off else Signed64(off + size * Signed(index.c, w)), ts)
      else
        var l := GetLinear(index, StartExtension(index), 0);
        (Signed64(off + Signed(l.offset, w) * size), WithTerm(ts, l.v, l.ext, size * Signed(l.scale, w)))
  }

  function WithIndices(indices: seq<Index>, off: int, ts: seq<VarIndex>): (int, seq<VarIndex>)
    requires forall i | i in indices :: IndexValid(i)
  {
    if indices == [] then (off, ts)
    else
      var first, last := indices[..|indices| - 1], indices[|indices| - 1];
      assert last in indices && forall i | i in first :: i in indices;
      var (o, us) := WithIndices(first, off, ts);
      WithIndex(last, o, us)
  }

  /** The search from v, with that many lookups left. */
  function DecomposeFrom(v: Pointer, off: int, ts: seq<VarIndex>, lookups: nat): Decomposition
    requires PointerValid(v)
    decreases lookups
  {
    if lookups == 0 then Decomposition(v, off, ts, true)
    else
      match v
      case Base(_) => Decomposition(v, off, ts, false)
      case Cast(q) => DecomposeFrom(q, off, ts, lookups - 1)
      case Gep(q, indices) =>
        var (o, us) := WithIndices(indices, off, ts);
        DecomposeFrom(q, o, us, lookups - 1)
  }

  function Decompose(p: Pointer): Decomposition
    requires PointerValid(p)
  {
    DecomposeFrom(p, 0, [], MAX_LOOKUP)
  }

  function Depth(p: Pointer): nat {
    match p
    case Base(_) => 0
    case Cast(q) => 1 + Depth(q)
    case Gep(q, _) => 1 + Depth(q)
  }

  // The loops of the source

  /** Looks for the variable and merges the scales. */
  method AddTerm(ts0: seq<VarIndex>, v: Expr, ext: Extension, scale0: int) returns (ts: seq<VarIndex>)
    ensures ts == WithTerm(ts0, v, ext, scale0)
  {
    ts := ts0;
    var scale, i := scale0, 0;
    while i < |ts|
      invariant 0 <= i <= |ts| && ts == ts0 && scale == scale0 && Find(ts0, v, ext, 0) == Find(ts0, v, ext, i)
    {
      if ts[i].v == v && ts[i].ext == ext {
        scale := scale + ts[i].scale;
        ts := ts[..i] + ts[i + 1..];
        break;
      }
      i := i + 1;
    }
    scale := Signed64(scale);
    if scale != 0 { ts := ts + [VarIndex(v, ext, scale)]; }
  }

  /** The loop over the indices of one GEP. */
  method AddIndices(indices: seq<Index>, off0: int, ts0: seq<VarIndex>) returns (off: int, ts: seq<VarIndex>)
    requires forall i | i in indices :: IndexValid(i)
    ensures (off, ts) == WithIndices(indices, off0, ts0)
  {
    hide WithTerm, GetLinear, Signed64;
    off, ts := off0, ts0;
    for k := 0 to |indices|
      invariant (forall i | i in indices[..k] :: i in indices) && (off, ts) == WithIndices(indices[..k], off0, ts0)
    {
      assert indices[k] in indices && indices[..k + 1][..k] == indices[..k] && indices[..k + 1][k] == indices[k];
      match indices[k] {
        case Field(offset) =>
          if offset != 0 { off := Signed64(off + offset); }
        case Element(size, index) =>
          var w := Width(index);
          if index.Const? {
            if Signed(index.c, w) != 0 { off := Signed64(off + size * Signed(index.c, w)); }
          } else {
            var l := GetLinear(index, StartExtension(index), 0);
            off := Signed64(off + Signed(l.offset, w) * size);
            ts := AddTerm(ts, l.v, l.ext, size * Signed(l.scale, w));
          }
      }
    }
    assert indices[..|indices|] == indices;
  }

  method DecomposeGEPExpression(p: Pointer) returns (v: Pointer, off: int, ts: seq<VarIndex>, maxLookupReached: bool)
    requires PointerValid(p)
    ensures Decomposition(v, off, ts, maxLookupReached) == Decompose(p)
  {
    hide WithIndices;
    v, off, ts := p, 0, [];
    var maxLookup := MAX_LOOKUP;
    while maxLookup > 0
      invariant 0 <= maxLookup && PointerValid(v) && DecomposeFrom(v, off, ts, maxLookup) == Decompose(p)
      decreases maxLookup
    {
      match v {
        case Base(_) =>
          maxLookupReached := false;
          return;
        case Cast(q) =>
          v := q;
        case Gep(q, indices) =>
          off, ts := AddIndices(indices, off, ts);
          v := q;
      }
      maxLookup := maxLookup - 1;
    }
    maxLookupReached := true;
  }

  // What decomposing keeps

  lemma ValuesPush(ts: seq<VarIndex>, t: VarIndex, env: nat -> nat)
    requires TermsValid(ts) && Valid(t.v)
    ensures TermsValid(ts + [t]) && Values(ts + [t], env) == Values(ts, env) + Value(t, env)
  {
    assert (ts + [t])[..|ts|] == ts;
  }

  lemma {:induction false} ValuesErase(ts: seq<VarIndex>, k: nat, env: nat -> nat)
    requires TermsValid(ts) && k < |ts|
    ensures TermsValid(Without(ts, k)) && Valid(ts[k].v)
    ensures Values(Without(ts, k), env) == Values(ts, env) - Value(ts[k], env)
    decreases |ts|
  {
    assert ts[k] in ts;
    var n := |ts| - 1;
    if k == n {
      assert Without(ts, k) == ts[..n];
    } else {
      assert forall t | t in ts[..n] :: t in ts;
      ValuesErase(ts[..n], k, env);
      assert Without(ts, k) == Without(ts[..n], k) + [ts[n]];
      assert ts[n] in ts;
      ValuesPush(Without(ts[..n], k), ts[n], env);
    }
  }

  lemma OnceErase(ts: seq<VarIndex>, k: nat)
    requires Once(ts) && TermsValid(ts) && k < |ts|
    ensures Once(Without(ts, k)) && TermsValid(Without(ts, k))
    ensures forall j | 0 <= j < |Without(ts, k)| :: Without(ts, k)[j].v != ts[k].v || Without(ts, k)[j].ext != ts[k].ext
  {
    var r := Without(ts, k);
    forall j | 0 <= j < |r| ensures r[j] == ts[if j < k then j else j + 1] {}
  }

  lemma TermKept(ts: seq<VarIndex>, v: Expr, ext: Extension, scale: int)
    requires TermsValid(ts) && Once(ts) && Valid(v)
    ensures TermsValid(WithTerm(ts, v, ext, scale)) && Once(WithTerm(ts, v, ext, scale))
  {
    hide Valid, Signed64, Without;
    var k := Find(ts, v, ext, 0);
    if k < |ts| { OnceErase(ts, k); }
  }

  lemma RestValue(ts: seq<VarIndex>, k: nat, x: int, env: nat -> nat)
    requires TermsValid(ts) && k <= |ts| && (k < |ts| && Valid(ts[k].v) ==> x == Extend(ts[k].v, ts[k].ext, env))
    ensures TermsValid(Rest(ts, k))
    ensures Values(Rest(ts, k), env) == Values(ts, env) - (if k < |ts| then Product(ts[k].scale, x) else 0)
  {
    hide Values, Extend, Product;
    if k < |ts| {
      assert ts[k] in ts;
      ValuesErase(ts, k, env);
    }
  }

  lemma PushValue(rest: seq<VarIndex>, v: Expr, ext: Extension, s: int, env: nat -> nat)
    requires TermsValid(rest) && Valid(v)
    ensures var us := if s != 0 then rest + [VarIndex(v, ext, s)] else rest;
            TermsValid(us) && Values(us, env) == Values(rest, env) + Product(s, Extend(v, ext, env))
  {
    hide Values, Extend;
    if s != 0 { ValuesPush(rest, VarIndex(v, ext, s), env); }
  }

  lemma TermAdded(ts: seq<VarIndex>, v: Expr, ext: Extension, scale: int, env: nat -> nat)
    requires TermsValid(ts) && Once(ts) && Valid(v)
    ensures var us := WithTerm(ts, v, ext, scale);
            TermsValid(us) && Once(us) && Cong(TWO_64, Values(us, env), Values(ts, env) + Product(scale, Extend(v, ext, env)))
  {
    hide Cong, Values, Extend, Signed64, Once, Rest, Product, TermsValid;
    TermKept(ts, v, ext, scale);
    var us, k, x := WithTerm(ts, v, ext, scale), Find(ts, v, ext, 0), Extend(v, ext, env);
    var was := if k < |ts| then ts[k].scale else 0;
    var s := Signed64(scale + was);
    RestValue(ts, k, x, env);
    PushValue(Rest(ts, k), v, ext, s, env);
    Merged(Values(Rest(ts, k), env), Values(ts, env), scale, was, s, x, Values(us, env), k < |ts|);
  }

  lemma Merged(rest: int, all: int, add: int, was: int, scale: int, x: int, now: int, found: bool)
    requires rest == all - (if found then Product(was, x) else 0) && (!found ==> was == 0) && scale == Signed64(add + was)
    requires now == rest + Product(scale, x)
    ensures Cong(TWO_64, now, all + Product(add, x))
  {
    hide Signed64;
    assert was == 0 ==> was * x == 0;
    Signed64Cong(add + was);
    CongScale(TWO_64, scale, add + was, x);
    CongSelf(TWO_64, rest);
    CongAdd(TWO_64, rest, rest, scale * x, (add + was) * x);
    Distribute(x, add, -was);
    assert rest + (add + was) * x == all + add * x;
  }

  /** Offset and variables grow, modulo the width of a pointer, by what is read for the index. */
  lemma IndexAdded(i: Index, off: int, ts: seq<VarIndex>, env: nat -> nat)
    requires IndexValid(i) && TermsValid(ts) && Once(ts)
    ensures var (o, us) := WithIndex(i, off, ts);
            && TermsValid(us) && Once(us)
            && Cong(TWO_64, o + Values(us, env), off + Values(ts, env) + ReadMoves(i, env))
  {
    hide Cong, Values, Signed64, GetLinear, Extend, WithTerm, Signed, Once;
    var (o, us) := WithIndex(i, off, ts);
    match i {
      case Field(offset) => OffsetAdded(off, offset, o, Values(ts, env));
      case Element(size, index) =>
        var w := Width(index);
        if index.Const? {
          OffsetAdded(off, size * Signed(index.c, w), o, Values(ts, env));
        } else {
          var l := GetLinear(index, StartExtension(index), 0);
          var k := Signed(l.scale, w);
          TermAdded(ts, l.v, l.ext, size * k, env);
          ElementAdded(size, k, Extend(l.v, l.ext, env), Signed(l.offset, w), off, o, Values(ts, env), Values(us, env));
        }
    }
  }

  lemma OffsetAdded(off0: int, add: int, off: int, values: int)
    requires off == Signed64(off0 + add) || (add == 0 && off == off0)
    ensures Cong(TWO_64, off + values, off0 + values + add)
  {
    hide Signed64;
    CongSelf(TWO_64, off0);
    Signed64Cong(off0 + add);
    CongSelf(TWO_64, values);
    CongAdd(TWO_64, off, off0 + add, values, values);
  }

  lemma ElementAdded(size: int, k: int, x: int, o: int, off0: int, off: int, v0: int, v: int)
    requires off == Signed64(off0 + o * size) && Cong(TWO_64, v, v0 + Product(size * k, x))
    ensures Cong(TWO_64, off + v, off0 + v0 + size * Lin(k, x, o))
  {
    hide Signed64, Cong;
    Signed64Cong(off0 + o * size);
    CongAdd(TWO_64, off, off0 + o * size, v, v0 + size * k * x);
    Regroup(k, x, o, size);
    Commuted(k, x, size);
    assert off0 + o * size + (v0 + size * k * x) == off0 + v0 + size * Lin(k, x, o);
  }

  lemma Commuted(k: int, x: int, size: int)
    ensures k * size * x == size * k * x
  {
  }

  lemma {:induction false} IndicesAdded(indices: seq<Index>, off: int, ts: seq<VarIndex>, env: nat -> nat)
    requires (forall i | i in indices :: IndexValid(i)) && TermsValid(ts) && Once(ts)
    ensures var (o, us) := WithIndices(indices, off, ts);
            && TermsValid(us) && Once(us)
            && Cong(TWO_64, o + Values(us, env), off + Values(ts, env) + AllMoves(indices, env, true))
    decreases |indices|
  {
    hide Cong, Values, ReadMoves, WithIndex, Once;
    if indices == [] {
      CongSelf(TWO_64, off + Values(ts, env));
    } else {
      var first, last := indices[..|indices| - 1], indices[|indices| - 1];
      assert last in indices && forall i | i in first :: i in indices;
      var (o, us) := WithIndices(first, off, ts);
      var (p, vs) := WithIndex(last, o, us);
      IndicesAdded(first, off, ts, env);
      IndexAdded(last, o, us, env);
      var r := ReadMoves(last, env);
      CongSelf(TWO_64, r);
      CongAdd(TWO_64, o + Values(us, env), off + Values(ts, env) + AllMoves(first, env, true), r, r);
      CongTrans(TWO_64, p + Values(vs, env), o + Values(us, env) + r, off + Values(ts, env) + AllMoves(first, env, true) + r);
    }
  }

  /** For all values of the variables, base, offset and variables give, modulo the width of a pointer, the address that is
      read; each variable occurs once; and the search stops early exactly for deep expressions. */
  lemma {:induction false} DecompositionIs(v: Pointer, off: int, ts: seq<VarIndex>, lookups: nat, env: nat -> nat, bases: nat -> int)
    requires PointerValid(v) && TermsValid(ts) && Once(ts)
    ensures var d := DecomposeFrom(v, off, ts, lookups);
            && PointerValid(d.v) && TermsValid(d.ts) && Once(d.ts)
            && Cong(TWO_64, AddressOf(v, env, bases, true) + off + Values(ts, env), AddressOf(d.v, env, bases, true) + d.off + Values(d.ts, env))
            && (d.maxLookupReached <==> Depth(v) >= lookups) && (!d.maxLookupReached ==> d.v.Base?)
    decreases lookups
  {
    hide Cong, Values, Once, WithIndices, AllMoves;
    CongSelf(TWO_64, AddressOf(v, env, bases, true) + off + Values(ts, env));
    if lookups > 0 && v.Cast? {
      DecompositionIs(v.from, off, ts, lookups - 1, env, bases);
    } else if lookups > 0 && v.Gep? {
      var (o, us) := WithIndices(v.indices, off, ts);
      var b, moves := AddressOf(v.from, env, bases, true), AllMoves(v.indices, env, true);
      IndicesAdded(v.indices, off, ts, env);
      DecompositionIs(v.from, o, us, lookups - 1, env, bases);
      var d := DecomposeFrom(v.from, o, us, lookups - 1);
      CongSelf(TWO_64, b);
      CongSym(TWO_64, o + Values(us, env), off + Values(ts, env) + moves);
      CongAdd(TWO_64, b, b, off + Values(ts, env) + moves, o + Values(us, env));
      CongTrans(TWO_64, b + (off + Values(ts, env) + moves), b + (o + Values(us, env)), AddressOf(d.v, env, bases, true) + d.off + Values(d.ts, env));
    }
  }

  /** All indices of a pointer are read as what they are. */
  predicate AllRead(p: Pointer, env: nat -> nat)
    requires PointerValid(p)
  {
    match p
    case Base(_) => true
    case Cast(q) => AllRead(q, env)
    case Gep(q, indices) => AllRead(q, env) && forall i | i in indices :: Reads(i, env)
  }

  predicate AllKnown(p: Pointer, env: nat -> nat)
    requires PointerValid(p)
  {
    match p
    case Base(_) => true
    case Cast(q) => AllKnown(q, env)
    case Gep(q, indices) => AllKnown(q, env) && forall i | i in indices :: IndexKnown(i, env)
  }

  lemma {:induction false} MovesRead(indices: seq<Index>, env: nat -> nat)
    requires forall i | i in indices :: IndexValid(i) && IndexKnown(i, env) && Reads(i, env)
    ensures Cong(TWO_64, AllMoves(indices, env, false), AllMoves(indices, env, true))
    decreases |indices|
  {
    hide Cong, Reads, IndexKnown, Moves, ReadMoves;
    if indices == [] {
      CongSelf(TWO_64, 0);
    } else {
      var first, last := indices[..|indices| - 1], indices[|indices| - 1];
      assert last in indices && forall i | i in first :: i in indices;
      MovesRead(first, env);
      ReadsIsExact(last, env);
      CongAdd(TWO_64, AllMoves(first, env, false), AllMoves(first, env, true), Moves(last, env), ReadMoves(last, env));
    }
  }

  /** If all indices are in range, the address read is the address. */
  lemma {:induction false} AddressRead(p: Pointer, env: nat -> nat, bases: nat -> int)
    requires PointerValid(p) && AllKnown(p, env) && AllRead(p, env)
    ensures Cong(TWO_64, AddressOf(p, env, bases, false), AddressOf(p, env, bases, true))
  {
    hide Cong, Reads, IndexKnown, AllMoves;
    match p {
      case Base(id) => CongSelf(TWO_64, bases(id));
      case Cast(q) => AddressRead(q, env, bases);
      case Gep(q, indices) =>
        AddressRead(q, env, bases);
        MovesRead(indices, env);
        CongAdd(TWO_64, AddressOf(q, env, bases, false), AddressOf(q, env, bases, true), AllMoves(indices, env, false), AllMoves(indices, env, true));
    }
  }

  /** The decomposition of a pointer is its address when all its indices are in range. */
  lemma SameAddress(p: Pointer, env: nat -> nat, bases: nat -> int)
    requires PointerValid(p) && AllKnown(p, env) && AllRead(p, env) && Depth(p) < MAX_LOOKUP
    ensures var d := Decompose(p);
            && d.v.Base? && TermsValid(d.ts) && Once(d.ts) && !d.maxLookupReached
            && Cong(TWO_64, Address(p, env, bases), bases(d.v.id) + d.off + Values(d.ts, env))
  {
    hide Cong, Once, DecomposeFrom, AllRead, AllKnown, Values, AddressOf;
    NothingYet(env);
    DecompositionIs(p, 0, [], MAX_LOOKUP, env, bases);
    BaseAddress(Decompose(p).v, env, bases, true);
    AddressRead(p, env, bases);
    var d := Decompose(p);
    CongTrans(TWO_64, Address(p, env, bases), AddressOf(p, env, bases, true), bases(d.v.id) + d.off + Values(d.ts, env));
  }

  /** A pointer with one index is decomposed into its address exactly when the index is in range. */
  lemma OneIndexIsExact(id: nat, i: Index, env: nat -> nat, bases: nat -> int)
    requires IndexValid(i) && IndexKnown(i, env)
    ensures var p := Gep(Base(id), [i]); var d := Decompose(p);
            && d.v == Base(id) && TermsValid(d.ts)
            && (Cong(TWO_64, Address(p, env, bases), bases(id) + d.off + Values(d.ts, env)) <==> Reads(i, env))
  {
    hide Cong, Reads, Moves, ReadMoves, Once, WithIndices, DecomposeFrom, AllMoves, Values, AddressOf;
    var p := Gep(Base(id), [i]);
    var d, b := Decompose(p), bases(id);
    NothingYet(env);
    OneMove(i, env, false);
    OneMove(i, env, true);
    FoundBase(id, i);
    DecompositionIs(p, 0, [], MAX_LOOKUP, env, bases);
    ReadsIsExact(i, env);
    BaseAddress(d.v, env, bases, true);
    StepAddress(id, i, env, bases, false);
    StepAddress(id, i, env, bases, true);
    var there := b + d.off + Values(d.ts, env);
    assert Address(p, env, bases) == b + Moves(i, env) && Cong(TWO_64, b + ReadMoves(i, env), there);
    CongSelf(TWO_64, b + Moves(i, env));
    CongSym(TWO_64, b + ReadMoves(i, env), there);
    CongBoth(TWO_64, b + Moves(i, env), b + Moves(i, env), b + ReadMoves(i, env), there);
    Shifted(b, Moves(i, env), ReadMoves(i, env));
  }

  lemma NothingYet(env: nat -> nat)
    ensures TermsValid([]) && Once([]) && Values([], env) == 0
  {
  }

  lemma BaseAddress(p: Pointer, env: nat -> nat, bases: nat -> int, read: bool)
    requires PointerValid(p)
    ensures p.Base? ==> AddressOf(p, env, bases, read) == bases(p.id)
  {
  }

  lemma StepAddress(id: nat, i: Index, env: nat -> nat, bases: nat -> int, read: bool)
    requires IndexValid(i)
    ensures AddressOf(Gep(Base(id), [i]), env, bases, read) == bases(id) + AllMoves([i], env, read)
  {
  }

  lemma OneMove(i: Index, env: nat -> nat, read: bool)
    requires IndexValid(i)
    ensures AllMoves([i], env, read) == if read then ReadMoves(i, env) else Moves(i, env)
  {
    assert [i][..0] == [] && AllMoves([], env, read) == 0;
  }

  lemma FoundBase(id: nat, i: Index)
    requires IndexValid(i)
    ensures Decompose(Gep(Base(id), [i])).v == Base(id)
  {
    hide WithIndices;
    var (o, us) := WithIndices([i], 0, []);
    assert DecomposeFrom(Base(id), o, us, 5).v == Base(id);
  }

  lemma Shifted(b: int, x: int, y: int)
    ensures Cong(TWO_64, b + x, b + y) <==> Cong(TWO_64, x, y)
  {
    assert b + x - (b + y) == x - y;
  }
}
