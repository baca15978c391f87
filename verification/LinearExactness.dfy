/** When a linear form stands for the very value of an expression, and not only modulo the narrowest width looked through:
    exactly when, at each extension that matters, scale * variable + offset lies in the range of the narrow width. */
module LinearExactness {
  import opened Bits
  import opened LinearExpressions

  /** The number a variable stands for once it is extended: signed, unless zero-extended. */
  function Extend(v: Expr, ext: Extension, env: nat -> nat): int
    requires Valid(v)
  {
    if ext == ZeroExt then Eval(v, env) else Signed(Eval(v, env), Width(v))
  }

  function Lin(k: int, x: int, o: int): int { k * x + o }

  /** What the form of e comes to. */
  function Form(e: Expr, ext: Extension, depth: nat, env: nat -> nat): int
    requires Valid(e) && depth <= MAX_DEPTH
  {
    var l := GetLinear(e, ext, depth);
    Lin(l.scale, Extend(l.v, l.ext, env), l.offset)
  }

  /** The number congruent to x modulo m that is not below lo, by less than m. */
  function Residue(x: int, lo: int, m: int): int
    requires m > 0
  {
    lo + (x - lo) % m
  }

  /** Numbers of w bits begin here. */
  function Least(w: nat, signed: bool): int
    requires w > 0
  {
    if signed then -(Pow2(w - 1) as int) else 0
  }

  /** What the form comes to in t bits can be written in w bits. */
  predicate InRange(form: int, w: nat, t: nat, signed: bool)
    requires 0 < w <= t
  {
    Least(w, signed) <= Residue(form, Least(t, signed), Pow2(t)) < Least(w, signed) + Pow2(w)
  }

  /** The form of e is right in its low t bits: at every extension that those bits depend on, it is in range. A factor
      makes the low bits depend on fewer. */
  predicate FitsTo(e: Expr, ext: Extension, depth: nat, t: nat, env: nat -> nat)
    requires Valid(e) && depth <= MAX_DEPTH && t <= Width(e)
    decreases e, 0
  {
    t == 0 || depth == MAX_DEPTH ||
    match e
    case Var(_, _) => true
    case Const(_, _) => true
    case AddC(e0, _) => FitsTo(e0, ext, depth + 1, t, env)
    case OrC(e0, _, disjoint) => !disjoint || FitsTo(e0, ext, depth + 1, t, env)
    case MulC(e0, c) => c == 0 || t <= Zeros(c) || FitsTo(e0, ext, depth + 1, t - Zeros(c), env)
    case ShlC(e0, s) => t <= s || FitsTo(e0, ext, depth + 1, t - s, env)
    case SExt(e0, _) => ext == ZeroExt || FitsAcross(e0, SignExt, depth + 1, t, env, Form(e, ext, depth, env))
    case ZExt(e0, _) => ext == SignExt || FitsAcross(e0, ZeroExt, depth + 1, t, env, Form(e, ext, depth, env))
  }

  /** The same of e extended, where `form` is the form of the extended value. */
  predicate FitsAcross(e: Expr, ext: Extension, depth: nat, t: nat, env: nat -> nat, form: int)
    requires Valid(e) && depth <= MAX_DEPTH && ext != NotExtended
    decreases e, 1
  {
    if t <= Width(e) then FitsTo(e, ext, depth, t, env)
    else FitsTo(e, ext, depth, Width(e), env) && InRange(form, Width(e), t, ext == SignExt)
  }

  /** The value of e and its form agree in the low t bits. */
  ghost predicate Agrees(e: Expr, ext: Extension, depth: nat, t: nat, env: nat -> nat)
    requires Valid(e) && depth <= MAX_DEPTH
  {
    Cong(Pow2(t), Eval(e, env), Form(e, ext, depth, env))
  }

  // Congruences

  lemma CongBoth(m: int, a: int, a': int, b: int, b': int)
    requires Cong(m, a', a) && Cong(m, b', b)
    ensures Cong(m, a', b') <==> Cong(m, a, b)
  {
    hide Cong;
    CongSym(m, a', a);
    CongSym(m, b', b);
    if Cong(m, a', b') {
      CongTrans(m, a, a', b');
      CongTrans(m, a, b', b);
    }
    if Cong(m, a, b) {
      CongTrans(m, a', a, b);
      CongTrans(m, a', b, b');
    }
  }

  lemma CongLower(t: nat, w: nat, a: int, b: int)
    requires t <= w && Cong(Pow2(w), a, b)
    ensures Cong(Pow2(t), a, b)
  {
    Pow2Divides(t, w);
    DividesThrough(Pow2(t), Pow2(w), a - b);
  }

  lemma ResidueCong(x: int, lo: int, m: int)
    requires m > 0
    ensures Cong(m, Residue(x, lo, m), x) && lo <= Residue(x, lo, m) < lo + m
  {
    DividesMod(m, x - lo);
    DividesProduct(m, x - lo - (x - lo) % m, -1);
  }

  /** Numbers in one window are equal if they are congruent. */
  lemma SameInWindow(a: int, b: int, lo: int, m: int)
    requires m > 0 && Cong(m, a, b) && lo <= a < lo + m && lo <= b < lo + m
    ensures a == b
  {
    var q: int :| a - b == q * m;
    if q >= 1 { AtLeast(q, m); }
    if q <= -1 { AtLeast(-q, m); }
  }

  lemma SignedIs(x: nat, w: nat)
    requires w > 0 && x < Pow2(w)
    ensures Cong(Pow2(w), Signed(x, w), x) && Least(w, true) <= Signed(x, w) < Least(w, true) + Pow2(w)
  {
    Twice(w);
    DividesBy(Pow2(w), 0, 0);
    DividesBy(Pow2(w), 0 - Pow2(w) as int, -1);
  }

  /** Across an extension from w bits: v is the value, e its low bits; form and f likewise. */
  lemma Crossing(v: int, e: int, form: int, f: int, w: nat, t: nat, signed: bool)
    requires 0 < w <= t && Cong(Pow2(w), v, e) && Cong(Pow2(w), form, f)
    requires Least(w, signed) <= v < Least(w, signed) + Pow2(w)
    ensures Cong(Pow2(t), v, form) <==> Cong(Pow2(w), e, f) && InRange(form, w, t, signed)
  {
    hide Cong;
    var lo, m := Least(t, signed), Pow2(t);
    var r := Residue(form, lo, m);
    ResidueCong(form, lo, m);
    CongBoth(Pow2(w), e, v, f, form);
    Wider(w, t, signed);
    if Cong(m, v, form) {
      CongLower(w, t, v, form);
      CongSym(m, r, form);
      CongTrans(m, v, form, r);
      SameInWindow(v, r, lo, m);
    }
    if Cong(Pow2(w), e, f) && InRange(form, w, t, signed) {
      CongLower(w, t, r, form);
      CongSym(Pow2(w), r, form);
      CongTrans(Pow2(w), v, form, r);
      SameInWindow(v, r, Least(w, signed), Pow2(w));
    }
  }

  lemma Wider(w: nat, t: nat, signed: bool)
    requires 0 < w <= t
    ensures Least(t, signed) <= Least(w, signed) && Least(w, signed) + Pow2(w) <= Least(t, signed) + Pow2(t)
  {
    Pow2Grows(w - 1, t - 1);
    Pow2Grows(w, t);
    Twice(w);
    Twice(t);
  }

  // The cases

  lemma ReadAsIs(e: Expr, ext: Extension, t: nat, env: nat -> nat)
    requires Valid(e) && t <= Width(e)
    ensures Cong(Pow2(t), Eval(e, env), Lin(1, Extend(e, ext, env), 0))
  {
    SignedIs(Eval(e, env), Width(e));
    CongSelf(Pow2(Width(e)), Eval(e, env));
    CongSym(Pow2(Width(e)), Extend(e, ext, env), Eval(e, env));
    CongLower(t, Width(e), Eval(e, env), Extend(e, ext, env));
  }

  lemma Added(x: int, f: int, c: int, w: nat, t: nat, sum: int, form: int)
    requires t <= w && Cong(Pow2(w), sum, x + c) && Cong(Pow2(w), form, f + c)
    ensures Cong(Pow2(t), sum, form) <==> Cong(Pow2(t), x, f)
  {
    CongLower(t, w, sum, x + c);
    CongLower(t, w, form, f + c);
    CongBoth(Pow2(t), x + c, sum, f + c, form);
    assert x + c - (f + c) == x - f;
  }

  lemma Multiplied(x: int, f: int, c: nat, w: nat, t: nat, product: int, form: int)
    requires t <= w && Cong(Pow2(w), product, x * c) && Cong(Pow2(w), form, f * c)
    ensures Cong(Pow2(t), product, form) <==> c == 0 || t <= Zeros(c) || Cong(Pow2(t - Zeros(c)), x, f)
  {
    CongLower(t, w, product, x * c);
    CongLower(t, w, form, f * c);
    CongBoth(Pow2(t), x * c, product, f * c, form);
    Distribute(c, x, f);
    if c == 0 {
      DividesBy(Pow2(t), 0, 0);
    } else {
      DividesScaled(t, c, x - f);
    }
  }

  /** The low w bits. */
  function Wrap(x: int, w: nat): (r: nat)
    ensures Cong(Pow2(w), r, x)
  {
    CongMod(w, w, x);
    x % Pow2(w)
  }

  lemma FormPlus(k: int, x: int, o: int, c: int, w: nat)
    ensures Cong(Pow2(w), Lin(k, x, Wrap(o + c, w)), Lin(k, x, o) + c)
  {
    CongMod(w, w, o + c);
    CongSelf(Pow2(w), k * x);
    CongAdd(Pow2(w), k * x, k * x, (o + c) % Pow2(w), o + c);
  }

  lemma FormExtended(k: int, x: int, o: nat, w: nat, to: nat)
    requires 0 < w <= to && o < Pow2(w)
    ensures Cong(Pow2(w), Lin(k, x, Extended(o, w, to)), Lin(k, x, o))
  {
    CongExtend(w, o, w, to);
    CongSelf(Pow2(w), k * x);
    CongAdd(Pow2(w), k * x, k * x, Extended(o, w, to), o);
  }

  lemma FormTimes(k: int, x: int, o: int, c: int, w: nat)
    ensures Cong(Pow2(w), Lin(Wrap(k * c, w), x, Wrap(o * c, w)), Lin(k, x, o) * c)
  {
    var m := Pow2(w);
    CongMod(w, w, k * c);
    CongScale(m, (k * c) % m, k * c, x);
    CongMod(w, w, o * c);
    CongAdd(m, (k * c) % m * x, k * c * x, (o * c) % m, o * c);
    Regroup(k, x, o, c);
  }

  lemma SumValue(e: Expr, c: nat, env: nat -> nat)
    requires Valid(AddC(e, c))
    ensures Cong(Pow2(Width(e)), Eval(AddC(e, c), env), Eval(e, env) + c)
  {
    CongMod(Width(e), Width(e), Eval(e, env) + c);
    hide Pow2, Cong;
  }

  lemma ProductValue(e: Expr, f: Expr, c: nat, env: nat -> nat)
    requires Valid(e) && Valid(f) && (f == MulC(e, c) || (f.ShlC? && f.e == e && c == Pow2(f.amount)))
    ensures Cong(Pow2(Width(e)), Eval(f, env), Eval(e, env) * c)
  {
    CongMod(Width(e), Width(e), Eval(e, env) * c);
    hide Pow2, Cong;
  }

  lemma FormIs(e: Expr, ext: Extension, depth: nat, env: nat -> nat)
    requires Valid(e) && depth <= MAX_DEPTH
    ensures var l := GetLinear(e, ext, depth); Form(e, ext, depth, env) == Lin(l.scale, Extend(l.v, l.ext, env), l.offset)
  {
  }

  lemma SumForm(e: Expr, c: nat, ext: Extension, depth: nat, env: nat -> nat)
    requires Valid(e) && Valid(AddC(e, c)) && depth < MAX_DEPTH
    ensures Cong(Pow2(Width(e)), Form(AddC(e, c), ext, depth, env), Form(e, ext, depth + 1, env) + c)
  {
    hide Cong, Pow2, GetLinear, Lin, Eval, Wrap, Extend, Form, Valid;
    Unfold(AddC(e, c), ext, depth);
    FormIs(AddC(e, c), ext, depth, env);
    FormIs(e, ext, depth + 1, env);
    var l := GetLinear(e, ext, depth + 1);
    FormPlus(l.scale, Extend(l.v, l.ext, env), l.offset, c, Width(e));
  }

  lemma ProductForm(e: Expr, f: Expr, c: nat, ext: Extension, depth: nat, env: nat -> nat)
    requires Valid(e) && Valid(f) && Width(f) == Width(e) && depth < MAX_DEPTH
    requires f == MulC(e, c) || (f.ShlC? && f.e == e && c == Pow2(f.amount))
    ensures Cong(Pow2(Width(e)), Form(f, ext, depth, env), Form(e, ext, depth + 1, env) * c)
  {
    hide Cong, Pow2, GetLinear, Lin, Eval, Wrap, Extend;
    Unfold(f, ext, depth);
    var l := GetLinear(e, ext, depth + 1);
    FormTimes(l.scale, Extend(l.v, l.ext, env), l.offset, c, Width(e));
  }

  lemma AgreesAdd(e: Expr, c: nat, ext: Extension, depth: nat, t: nat, env: nat -> nat)
    requires Valid(AddC(e, c)) && depth < MAX_DEPTH && t <= Width(e)
    ensures Agrees(AddC(e, c), ext, depth, t, env) <==> Agrees(e, ext, depth + 1, t, env)
  {
    hide Cong, Pow2, Form, Eval;
    SumValue(e, c, env);
    SumForm(e, c, ext, depth, env);
    Added(Eval(e, env), Form(e, ext, depth + 1, env), c, Width(e), t, Eval(AddC(e, c), env), Form(AddC(e, c), ext, depth, env));
  }

  lemma AgreesMul(e: Expr, f: Expr, c: nat, ext: Extension, depth: nat, t: nat, env: nat -> nat)
    requires Valid(e) && Valid(f) && Width(f) == Width(e) && depth < MAX_DEPTH && t <= Width(e)
    requires f == MulC(e, c) || (f.ShlC? && f.e == e && c == Pow2(f.amount))
    ensures Agrees(f, ext, depth, t, env) <==> c == 0 || t <= Zeros(c) || Agrees(e, ext, depth + 1, t - Zeros(c), env)
  {
    hide Cong, Pow2, Form, Eval, Zeros;
    ProductValue(e, f, c, env);
    ProductForm(e, f, c, ext, depth, env);
    Multiplied(Eval(e, env), Form(e, ext, depth + 1, env), c, Width(e), t, Eval(f, env), Form(f, ext, depth, env));
  }

  /** One step of GetLinear. */
  lemma Unfold(e: Expr, ext: Extension, depth: nat)
    requires Valid(e) && depth < MAX_DEPTH
    ensures e.AddC? ==> GetLinear(e, ext, depth) == Plus(GetLinear(e.e, ext, depth + 1), e.c, Width(e))
    ensures e.MulC? ==> GetLinear(e, ext, depth) == Times(GetLinear(e.e, ext, depth + 1), e.c, Width(e))
    ensures e.ShlC? ==> GetLinear(e, ext, depth) == Times(GetLinear(e.e, ext, depth + 1), Pow2(e.amount), Width(e))
  {
  }

  function Plus(l: Linear, c: nat, w: nat): Linear { l.(offset := Wrap(l.offset + c, w)) }

  function Times(l: Linear, c: nat, w: nat): Linear { l.(scale := Wrap(l.scale * c, w), offset := Wrap(l.offset * c, w)) }

  /** Across an extension. */
  lemma AgreesExtended(e: Expr, big: Expr, outer: Extension, ext: Extension, depth: nat, t: nat, env: nat -> nat)
    requires Valid(e) && Valid(big) && depth < MAX_DEPTH && t <= Width(big)
    requires (big == SExt(e, Width(big)) && ext == SignExt && outer != ZeroExt)
             || (big == ZExt(e, Width(big)) && ext == ZeroExt && outer != SignExt)
    ensures var form := Form(big, outer, depth, env); var w := Width(e);
            Agrees(big, outer, depth, t, env) <==>
              if t <= w then Agrees(e, ext, depth + 1, t, env)
              else Agrees(e, ext, depth + 1, w, env) && InRange(form, w, t, ext == SignExt)
  {
    hide Cong, InRange, Lin, Pow2;
    var w, to := Width(e), Width(big);
    var l := GetLinear(e, ext, depth + 1);
    var x := Extend(l.v, l.ext, env);
    assert GetLinear(big, outer, depth) == l.(offset := Extended(l.offset, w, to));
    var form, f := Lin(l.scale, x, Extended(l.offset, w, to)), Lin(l.scale, x, l.offset);
    FormExtended(l.scale, x, l.offset, w, to);
    var e0, v := Eval(e, env), Extend(e, ext, env);
    SignedIs(e0, w);
    CongSelf(Pow2(w), e0);
    Widened(e, big, ext, env);
    CongLower(t, to, Eval(big, env), v);
    CongSelf(Pow2(t), form);
    CongBoth(Pow2(t), v, Eval(big, env), form, form);
    if t <= w {
      CongLower(t, w, v, e0);
      CongLower(t, w, form, f);
      CongBoth(Pow2(t), e0, v, f, form);
    } else {
      Crossing(v, e0, form, f, w, t, ext == SignExt);
    }
  }

  lemma Widened(e: Expr, big: Expr, ext: Extension, env: nat -> nat)
    requires Valid(e) && Valid(big) && (big == SExt(e, Width(big)) || big == ZExt(e, Width(big)))
    requires ext == if big.SExt? then SignExt else ZeroExt
    ensures Cong(Pow2(Width(big)), Eval(big, env), Extend(e, ext, env))
  {
    var m := Pow2(Width(big));
    DividesBy(m, 0, 0);
    DividesBy(m, m, 1);
    Pow2Grows(Width(e), Width(big));
  }

  /** The form of any expression is right in its low t bits exactly when it is in range at every extension that those bits
      depend on. */
  lemma {:induction false} FormIsRight(e: Expr, ext: Extension, depth: nat, t: nat, env: nat -> nat)
    requires Valid(e) && depth <= MAX_DEPTH && t <= Width(e) && OracleOk(e, env)
    ensures Agrees(e, ext, depth, t, env) <==> FitsTo(e, ext, depth, t, env)
    decreases e
  {
    hide Agrees, InRange, Pow2, Eval;
    if t == 0 {
      NoBits(e, ext, depth, env);
    } else if GetLinear(e, ext, depth) == Linear(e, 1, 0, ext) && IsLeaf(e, ext, depth) {
      LeafAgrees(e, ext, depth, t, env);
    } else {
      match e {
        case Const(c, _) => ConstAgrees(e, ext, depth, t, env);
        case AddC(e0, c) =>
          AgreesAdd(e0, c, ext, depth, t, env);
          FormIsRight(e0, ext, depth + 1, t, env);
        case OrC(e0, c, _) =>
          OrAgrees(e0, c, ext, depth, t, env);
          AgreesAdd(e0, c, ext, depth, t, env);
          FormIsRight(e0, ext, depth + 1, t, env);
        case MulC(e0, c) =>
          AgreesMul(e0, e, c, ext, depth, t, env);
          if c != 0 && t > Zeros(c) { FormIsRight(e0, ext, depth + 1, t - Zeros(c), env); }
        case ShlC(e0, s) =>
          AgreesMul(e0, e, Pow2(s), ext, depth, t, env);
          ZerosOfPow2(s);
          if t > s { FormIsRight(e0, ext, depth + 1, t - s, env); }
        case SExt(e0, _) =>
          AgreesExtended(e0, e, ext, SignExt, depth, t, env);
          FormIsRight(e0, SignExt, depth + 1, if t <= Width(e0) then t else Width(e0), env);
        case ZExt(e0, _) =>
          AgreesExtended(e0, e, ext, ZeroExt, depth, t, env);
          FormIsRight(e0, ZeroExt, depth + 1, if t <= Width(e0) then t else Width(e0), env);
        case Var(_, _) => LeafAgrees(e, ext, depth, t, env);
      }
    }
  }

  /** The expression is not looked into. */
  predicate IsLeaf(e: Expr, ext: Extension, depth: nat) {
    || depth == MAX_DEPTH || e.Var? || (e.OrC? && !e.disjoint) || (e.SExt? && ext == ZeroExt) || (e.ZExt? && ext == SignExt)
  }

  lemma LeafAgrees(e: Expr, ext: Extension, depth: nat, t: nat, env: nat -> nat)
    requires Valid(e) && depth <= MAX_DEPTH && t <= Width(e) && IsLeaf(e, ext, depth)
    ensures GetLinear(e, ext, depth) == Linear(e, 1, 0, ext)
    ensures Agrees(e, ext, depth, t, env) && FitsTo(e, ext, depth, t, env)
  {
    ReadAsIs(e, ext, t, env);
  }

  lemma NoBits(e: Expr, ext: Extension, depth: nat, env: nat -> nat)
    requires Valid(e) && depth <= MAX_DEPTH
    ensures Agrees(e, ext, depth, 0, env)
  {
    DividesBy(1, Eval(e, env) - Form(e, ext, depth, env), Eval(e, env) - Form(e, ext, depth, env));
  }

  lemma ConstAgrees(e: Expr, ext: Extension, depth: nat, t: nat, env: nat -> nat)
    requires Valid(e) && e.Const? && depth <= MAX_DEPTH && depth < MAX_DEPTH
    ensures Agrees(e, ext, depth, t, env)
  {
    CongSelf(Pow2(t), e.c);
  }

  lemma OrAgrees(e: Expr, c: nat, ext: Extension, depth: nat, t: nat, env: nat -> nat)
    requires Valid(OrC(e, c, true)) && And(Eval(e, env), c) == 0 && depth < MAX_DEPTH
    ensures Valid(AddC(e, c)) && (Agrees(OrC(e, c, true), ext, depth, t, env) <==> Agrees(AddC(e, c), ext, depth, t, env))
  {
    OrIsAdd(e, c, env);
    assert GetLinear(OrC(e, c, true), ext, depth) == GetLinear(AddC(e, c), ext, depth);
  }

  // Simpler conditions

  /** At every extension looked through, scale * variable + offset can be written in the narrow width. */
  predicate NoOverflow(e: Expr, ext: Extension, depth: nat, env: nat -> nat)
    requires Valid(e) && depth <= MAX_DEPTH
    decreases e, 0
  {
    depth == MAX_DEPTH ||
    match e
    case Var(_, _) => true
    case Const(_, _) => true
    case AddC(e0, _) => NoOverflow(e0, ext, depth + 1, env)
    case OrC(e0, _, disjoint) => !disjoint || NoOverflow(e0, ext, depth + 1, env)
    case MulC(e0, _) => NoOverflow(e0, ext, depth + 1, env)
    case ShlC(e0, _) => NoOverflow(e0, ext, depth + 1, env)
    case SExt(e0, _) => ext == ZeroExt || (NoOverflow(e0, SignExt, depth + 1, env) && Holds(Form(e, ext, depth, env), Width(e0), true))
    case ZExt(e0, _) => ext == SignExt || (NoOverflow(e0, ZeroExt, depth + 1, env) && Holds(Form(e, ext, depth, env), Width(e0), false))
  }

  predicate Holds(x: int, w: nat, signed: bool)
    requires w > 0
  {
    Least(w, signed) <= x < Least(w, signed) + Pow2(w)
  }

  lemma HeldIsInRange(x: int, w: nat, t: nat, signed: bool)
    requires 0 < w <= t && Holds(x, w, signed)
    ensures InRange(x, w, t, signed)
  {
    Wider(w, t, signed);
    var lo, m := Least(t, signed), Pow2(t);
    ResidueCong(x, lo, m);
    SameInWindow(Residue(x, lo, m), x, lo, m);
  }

  lemma {:induction false} NoOverflowFits(e: Expr, ext: Extension, depth: nat, t: nat, env: nat -> nat)
    requires Valid(e) && depth <= MAX_DEPTH && t <= Width(e) && NoOverflow(e, ext, depth, env)
    ensures FitsTo(e, ext, depth, t, env)
    decreases e
  {
    hide Holds, InRange, Pow2, Form;
    if t > 0 && !IsLeaf(e, ext, depth) && !e.Const? {
      var w := Width(e.e);
      match e {
        case AddC(e0, _) => NoOverflowFits(e0, ext, depth + 1, t, env);
        case OrC(e0, _, _) => NoOverflowFits(e0, ext, depth + 1, t, env);
        case MulC(e0, c) => if c != 0 && t > Zeros(c) { NoOverflowFits(e0, ext, depth + 1, t - Zeros(c), env); }
        case ShlC(e0, s) => if t > s { NoOverflowFits(e0, ext, depth + 1, t - s, env); }
        case SExt(e0, _) =>
          NoOverflowFits(e0, SignExt, depth + 1, if t <= w then t else w, env);
          if t > w { HeldIsInRange(Form(e, ext, depth, env), w, t, true); }
        case ZExt(e0, _) =>
          NoOverflowFits(e0, ZeroExt, depth + 1, if t <= w then t else w, env);
          if t > w { HeldIsInRange(Form(e, ext, depth, env), w, t, false); }
        case Var(_, _) =>
        case Const(_, _) =>
      }
    }
  }

  /** Where no extension is looked through there is nothing to exceed. */
  lemma {:induction false} NoExtensionFits(e: Expr, ext: Extension, depth: nat, env: nat -> nat)
    requires Valid(e) && depth <= MAX_DEPTH && Width(GetLinear(e, ext, depth).v) == Width(e)
    ensures NoOverflow(e, ext, depth, env)
    decreases e
  {
    hide Holds, Pow2, Form;
    if !IsLeaf(e, ext, depth) && !e.Const? {
      assert !e.SExt? && !e.ZExt?;
      match e {
        case AddC(e0, _) => NoExtensionFits(e0, ext, depth + 1, env);
        case OrC(e0, _, _) => NoExtensionFits(e0, ext, depth + 1, env);
        case MulC(e0, _) => NoExtensionFits(e0, ext, depth + 1, env);
        case ShlC(e0, _) => NoExtensionFits(e0, ext, depth + 1, env);
        case _ =>
      }
    }
  }

  /** One extension around arithmetic of one width: its value is the form's exactly when the form is in range. */
  lemma OneExtension(e: Expr, big: Expr, ext: Extension, depth: nat, env: nat -> nat)
    requires Valid(e) && Valid(big) && depth < MAX_DEPTH && OracleOk(big, env)
    requires (big == SExt(e, Width(big)) && ext == SignExt) || (big == ZExt(e, Width(big)) && ext == ZeroExt)
    requires Width(GetLinear(e, ext, depth + 1).v) == Width(e)
    ensures Agrees(big, NotExtended, depth, Width(big), env)
       <==> InRange(Form(big, NotExtended, depth, env), Width(e), Width(big), ext == SignExt)
  {
    hide Agrees, InRange, Form, NoOverflow;
    FormIsRight(big, NotExtended, depth, Width(big), env);
    NoExtensionFits(e, ext, depth + 1, env);
    NoOverflowFits(e, ext, depth + 1, Width(e), env);
  }
}
