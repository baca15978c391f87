/** GetLinearExpression: reading an integer expression as scale * variable + offset, across extensions. */
module LinearExpressions {
  import opened Bits

  datatype Extension = NotExtended | SignExt | ZeroExt

  const MAX_DEPTH := 6

  /** Binary operators have a constant on the right. `disjoint` is the answer of MaskedValueIsZero. */
  datatype Expr =
    | Var(id: nat, width: nat)
    | Const(c: nat, width: nat)
    | AddC(e: Expr, c: nat)
    | OrC(e: Expr, c: nat, disjoint: bool)
    | MulC(e: Expr, c: nat)
    | ShlC(e: Expr, amount: nat)
    | SExt(e: Expr, to: nat)
    | ZExt(e: Expr, to: nat)

  function Width(e: Expr): nat {
    match e
    case Var(_, w) => w
    case Const(_, w) => w
    case AddC(e, _) => Width(e)
    case OrC(e, _, _) => Width(e)
    case MulC(e, _) => Width(e)
    case ShlC(e, _) => Width(e)
    case SExt(_, to) => to
    case ZExt(_, to) => to
  }

  predicate Valid(e: Expr) {
    Width(e) > 0
    && match e
       case Var(_, _) => true
       case Const(c, w) => c < Pow2(w)
       case AddC(e, c) => Valid(e) && c < Pow2(Width(e))
       case OrC(e, c, _) => Valid(e) && c < Pow2(Width(e))
       case MulC(e, c) => Valid(e) && c < Pow2(Width(e))
       case ShlC(e, s) => Valid(e) && s < Width(e)
       case SExt(e, to) => Valid(e) && Width(e) < to
       case ZExt(e, to) => Valid(e) && Width(e) < to
  }

  /** The two's-complement value of x extended from w to `to` bits. */
  function SignExtend(x: nat, w: nat, to: nat): nat
    requires w > 0 && w <= to && x < Pow2(w)
  {
    Pow2Grows(w, to);
    if x < Pow2(w - 1) then x else x + (Pow2(to) - Pow2(w))
  }

  /** The value of an expression, as an unsigned number of its width. */
  function Eval(e: Expr, env: nat -> nat): (v: nat)
    requires Valid(e)
    ensures v < Pow2(Width(e))
  {
    var m := Pow2(Width(e));
    match e
    case Var(id, _) => env(id) % m
    case Const(c, _) => c
    case AddC(e, c) => (Eval(e, env) + c) % m
    case OrC(e, c, _) => OrBound(Eval(e, env), c, Width(e)); Or(Eval(e, env), c)
    case MulC(e, c) => (Eval(e, env) * c) % m
    case ShlC(e, s) => (Eval(e, env) * Pow2(s)) % m
    case SExt(e, to) => Pow2Grows(Width(e), to); SignExtend(Eval(e, env), Width(e), to)
    case ZExt(e, to) => Pow2Grows(Width(e), to); Eval(e, env)
  }

  /** MaskedValueIsZero is right wherever it says yes. */
  predicate OracleOk(e: Expr, env: nat -> nat)
    requires Valid(e)
  {
    match e
    case Var(_, _) => true
    case Const(_, _) => true
    case AddC(e, _) => OracleOk(e, env)
    case OrC(e, c, d) => OracleOk(e, env) && (d ==> And(Eval(e, env), c) == 0)
    case MulC(e, _) => OracleOk(e, env)
    case ShlC(e, _) => OracleOk(e, env)
    case SExt(e, _) => OracleOk(e, env)
    case ZExt(e, _) => OracleOk(e, env)
  }

  /** scale * v + offset, and the extensions looked through. */
  datatype Linear = Linear(v: Expr, scale: nat, offset: nat, ext: Extension)

  function GetLinear(e: Expr, ext: Extension, depth: nat): (l: Linear)
    requires Valid(e) && depth <= MAX_DEPTH
    ensures Valid(l.v) && Width(l.v) <= Width(e)
    ensures l.offset < Pow2(Width(e))
    decreases e
  {
    var m := Pow2(Width(e));
    if depth == MAX_DEPTH then Linear(e, 1, 0, ext)
    else
      match e
      case Const(c, _) => Linear(e, 0, c, ext)
      case AddC(e0, c) =>
        var l := GetLinear(e0, ext, depth + 1);
        l.(offset := (l.offset + c) % m)
      case OrC(e0, c, disjoint) =>
        if !disjoint then Linear(e, 1, 0, ext)
        else
          var l := GetLinear(e0, ext, depth + 1);
          l.(offset := (l.offset + c) % m)
      case MulC(e0, c) =>
        var l := GetLinear(e0, ext, depth + 1);
        l.(scale := (l.scale * c) % m, offset := (l.offset * c) % m)
      case ShlC(e0, s) =>
        var l := GetLinear(e0, ext, depth + 1);
        l.(scale := (l.scale * Pow2(s)) % m, offset := (l.offset * Pow2(s)) % m)
      case SExt(e0, to) =>
        if ext == ZeroExt then Linear(e, 1, 0, ext)
        else
          var l := GetLinear(e0, SignExt, depth + 1);
          l.(offset := Extended(l.offset, Width(e0), to))
      case ZExt(e0, to) =>
        // The offset is sign-extended here too.
        if ext == SignExt then Linear(e, 1, 0, ext)
        else
          var l := GetLinear(e0, ZeroExt, depth + 1);
          l.(offset := Extended(l.offset, Width(e0), to))
      case Var(_, _) => Linear(e, 1, 0, ext)
  }

  function Extended(x: nat, w: nat, to: nat): (r: nat)
    requires w > 0 && w <= to && x < Pow2(w)
    ensures r < Pow2(to)
  {
    Pow2Grows(w, to);
    SignExtend(x, w, to)
  }

  /** Operators around the variable or constant. */
  function Height(e: Expr): nat {
    match e
    case Var(_, _) => 0
    case Const(_, _) => 0
    case AddC(e, _) => 1 + Height(e)
    case OrC(e, _, _) => 1 + Height(e)
    case MulC(e, _) => 1 + Height(e)
    case ShlC(e, _) => 1 + Height(e)
    case SExt(e, _) => 1 + Height(e)
    case ZExt(e, _) => 1 + Height(e)
  }

  /** Every or is a sum, and extensions are all of one kind. */
  predicate Transparent(e: Expr, ext: Extension) {
    match e
    case Var(_, _) => true
    case Const(_, _) => true
    case AddC(e, _) => Transparent(e, ext)
    case OrC(e, _, disjoint) => disjoint && Transparent(e, ext)
    case MulC(e, _) => Transparent(e, ext)
    case ShlC(e, _) => Transparent(e, ext)
    case SExt(e, _) => ext != ZeroExt && Transparent(e, SignExt)
    case ZExt(e, _) => ext != SignExt && Transparent(e, ZeroExt)
  }

  /** The form is one of the variable or constant itself exactly if nothing hides it and it is no more than six operators away. */
  lemma {:induction false} LeafIsFound(e: Expr, ext: Extension, depth: nat)
    requires Valid(e) && depth <= MAX_DEPTH
    ensures var v := GetLinear(e, ext, depth).v; v.Var? || v.Const? <==> Transparent(e, ext) && depth + Height(e) <= 6
    decreases e
  {
    if depth < MAX_DEPTH {
      match e {
        case AddC(e0, _) => LeafIsFound(e0, ext, depth + 1);
        case OrC(e0, _, disjoint) => if disjoint { LeafIsFound(e0, ext, depth + 1); }
        case MulC(e0, _) => LeafIsFound(e0, ext, depth + 1);
        case ShlC(e0, _) => LeafIsFound(e0, ext, depth + 1);
        case SExt(e0, _) => if ext != ZeroExt { LeafIsFound(e0, SignExt, depth + 1); }
        case ZExt(e0, _) => if ext != SignExt { LeafIsFound(e0, ZeroExt, depth + 1); }
        case _ =>
      }
    }
  }

  /** a and b agree modulo m. */
  ghost predicate Cong(m: int, a: int, b: int) { Divides(m, a - b) }

  lemma CongMod(m: nat, w: nat, x: int)
    requires m <= w
    ensures Cong(Pow2(m), x % Pow2(w), x)
  {
    Pow2Divides(m, w);
    DividesMod(Pow2(w), x);
    DividesThrough(Pow2(m), Pow2(w), x - x % Pow2(w));
    DividesProduct(Pow2(m), x - x % Pow2(w), -1);
  }

  lemma CongAdd(m: int, a: int, b: int, c: int, d: int)
    requires Cong(m, a, b) && Cong(m, c, d)
    ensures Cong(m, a + c, b + d)
  {
    DividesSum(m, a - b, c - d);
  }

  lemma CongScale(m: int, a: int, b: int, k: int)
    requires Cong(m, a, b)
    ensures Cong(m, a * k, b * k)
  {
    DividesProduct(m, a - b, k);
    Distribute(k, a, b);
  }

  lemma CongTrans(m: int, a: int, b: int, c: int)
    requires Cong(m, a, b) && Cong(m, b, c)
    ensures Cong(m, a, c)
  {
    DividesSum(m, a - b, b - c);
  }

  lemma CongSym(m: int, a: int, b: int)
    requires Cong(m, a, b)
    ensures Cong(m, b, a)
  {
    DividesProduct(m, a - b, -1);
  }

  lemma CongSelf(m: int, a: int)
    ensures Cong(m, a, a)
  {
    DividesBy(m, a - a, 0);
  }

  lemma CongExtend(m: nat, x: nat, w: nat, to: nat)
    requires w > 0 && m <= w && w <= to && x < Pow2(w)
    ensures Cong(Pow2(m), SignExtend(x, w, to), x)
  {
    Pow2Divides(m, w);
    Pow2Divides(m, to);
    DividesSum(Pow2(m), Pow2(to), Pow2(w));
    CongSelf(Pow2(m), x);
  }

  /** x is k * v + o modulo two to the m. */
  ghost predicate Fits(m: nat, x: int, k: int, v: int, o: int) { Cong(Pow2(m), x, k * v + o) }

  /** Adding a constant on both sides, each reduced to w bits. */
  lemma CongAddConst(m: nat, w: nat, x: int, k: int, v: int, o: int, c: int)
    requires m <= w && Fits(m, x, k, v, o)
    ensures Fits(m, (x + c) % Pow2(w), k, v, (o + c) % Pow2(w))
  {
    hide Cong, Pow2;
    var p, s := Pow2(m), k * v;
    CongMod(m, w, x + c);
    CongMod(m, w, o + c);
    CongSelf(p, c);
    CongAdd(p, x, s + o, c, c);
    CongTrans(p, (x + c) % Pow2(w), x + c, s + o + c);
    CongSelf(p, s);
    CongAdd(p, s, s, (o + c) % Pow2(w), o + c);
    CongSym(p, s + (o + c) % Pow2(w), s + o + c);
    CongTrans(p, (x + c) % Pow2(w), s + o + c, s + (o + c) % Pow2(w));
  }

  /** Multiplying by a constant on both sides, everything reduced to w bits. */
  lemma CongMulConst(m: nat, w: nat, x: int, k: int, v: int, o: int, c: int)
    requires m <= w && Fits(m, x, k, v, o)
    ensures Fits(m, (x * c) % Pow2(w), (k * c) % Pow2(w), v, (o * c) % Pow2(w))
  {
    hide Cong, Pow2;
    var p, q := Pow2(m), Pow2(w);
    CongMod(m, w, x * c);
    CongScale(p, x, k * v + o, c);
    CongTrans(p, (x * c) % q, x * c, (k * v + o) * c);
    CongMod(m, w, k * c);
    CongScale(p, (k * c) % q, k * c, v);
    CongMod(m, w, o * c);
    CongAdd(p, (k * c) % q * v, k * c * v, (o * c) % q, o * c);
    Regroup(k, v, o, c);
    CongSym(p, (k * c) % q * v + (o * c) % q, (k * v + o) * c);
    CongTrans(p, (x * c) % q, (k * v + o) * c, (k * c) % q * v + (o * c) % q);
  }

  lemma Regroup(k: int, v: int, o: int, c: int)
    ensures (k * v + o) * c == k * c * v + o * c
  {
    Distribute(c, k * v, -o);
    assert k * v * c == k * c * v;
  }

  /** The linear form gives the value modulo two to the width of the variable it names. */
  ghost predicate Right(e: Expr, l: Linear, env: nat -> nat)
    requires Valid(e) && Valid(l.v)
  {
    Fits(Width(l.v), Eval(e, env), l.scale, Eval(l.v, env), l.offset)
  }

  lemma Unread(e: Expr, ext: Extension, env: nat -> nat)
    requires Valid(e)
    ensures Right(e, Linear(e, 1, 0, ext), env)
  {
    CongSelf(Pow2(Width(e)), Eval(e, env));
    assert 1 * Eval(e, env) + 0 == Eval(e, env);
  }

  lemma AddedRight(e: Expr, c: nat, l: Linear, env: nat -> nat)
    requires Valid(AddC(e, c)) && Valid(l.v) && Width(l.v) <= Width(e) && Right(e, l, env)
    ensures Right(AddC(e, c), l.(offset := (l.offset + c) % Pow2(Width(e))), env)
  {
    hide Fits, Pow2;
    CongAddConst(Width(l.v), Width(e), Eval(e, env), l.scale, Eval(l.v, env), l.offset, c);
  }

  lemma OrIsAdd(e: Expr, c: nat, env: nat -> nat)
    requires Valid(OrC(e, c, true)) && And(Eval(e, env), c) == 0
    ensures Valid(AddC(e, c)) && Eval(OrC(e, c, true), env) == Eval(AddC(e, c), env)
  {
    OrIsSum(Eval(e, env), c);
    OrBound(Eval(e, env), c, Width(e));
    UniqueRemainder(Or(Eval(e, env), c), Pow2(Width(e)), 0, Or(Eval(e, env), c));
  }

  function Scaled(l: Linear, c: nat, m: nat): Linear
    requires m > 0
  {
    l.(scale := (l.scale * c) % m, offset := (l.offset * c) % m)
  }

  lemma MultipliedRight(e: Expr, c: nat, l: Linear, env: nat -> nat)
    requires Valid(MulC(e, c)) && Valid(l.v) && Width(l.v) <= Width(e) && Right(e, l, env)
    ensures Right(MulC(e, c), Scaled(l, c, Pow2(Width(e))), env)
  {
    hide Fits, Pow2;
    CongMulConst(Width(l.v), Width(e), Eval(e, env), l.scale, Eval(l.v, env), l.offset, c);
  }

  lemma ShiftedRight(e: Expr, s: nat, l: Linear, env: nat -> nat)
    requires Valid(ShlC(e, s)) && Valid(l.v) && Width(l.v) <= Width(e) && Right(e, l, env)
    ensures Right(ShlC(e, s), Scaled(l, Pow2(s), Pow2(Width(e))), env)
  {
    hide Fits, Pow2;
    CongMulConst(Width(l.v), Width(e), Eval(e, env), l.scale, Eval(l.v, env), l.offset, Pow2(s));
  }

  lemma ExtendedRight(e: Expr, big: Expr, l: Linear, env: nat -> nat)
    requires Valid(e) && Valid(big) && (big == SExt(e, Width(big)) || big == ZExt(e, Width(big)))
    requires Valid(l.v) && Width(l.v) <= Width(e) && l.offset < Pow2(Width(e)) && Right(e, l, env)
    ensures Right(big, l.(offset := Extended(l.offset, Width(e), Width(big))), env)
  {
    var m, w, to := Width(l.v), Width(e), Width(big);
    if big.SExt? {
      CongExtend(m, Eval(e, env), w, to);
    } else {
      CongSelf(Pow2(m), Eval(e, env));
    }
    ExtendedForm(m, Eval(big, env), Eval(e, env), l, Eval(l.v, env), w, to);
  }

  /** For every expression, extension state and depth the linear form is right modulo two to the width of the
      variable found, which is the narrowest width looked through. */
  lemma {:induction false} LinearIsRight(e: Expr, ext: Extension, depth: nat, env: nat -> nat)
    requires Valid(e) && depth <= MAX_DEPTH && OracleOk(e, env)
    ensures Right(e, GetLinear(e, ext, depth), env)
    decreases e
  {
    hide Right, Cong, Pow2, Extended, SignExtend;
    if GetLinear(e, ext, depth) == Linear(e, 1, 0, ext) {
      Unread(e, ext, env);
    } else {
      match e {
        case Const(c, _) => ConstRight(e, ext, env);
        case AddC(e0, c) =>
          LinearIsRight(e0, ext, depth + 1, env);
          AddedRight(e0, c, GetLinear(e0, ext, depth + 1), env);
        case OrC(e0, c, _) =>
          LinearIsRight(e0, ext, depth + 1, env);
          OrIsAdd(e0, c, env);
          AddedRight(e0, c, GetLinear(e0, ext, depth + 1), env);
          SameValue(AddC(e0, c), e, GetLinear(e, ext, depth), env);
        case MulC(e0, c) =>
          LinearIsRight(e0, ext, depth + 1, env);
          MultipliedRight(e0, c, GetLinear(e0, ext, depth + 1), env);
        case ShlC(e0, s) =>
          LinearIsRight(e0, ext, depth + 1, env);
          ShiftedRight(e0, s, GetLinear(e0, ext, depth + 1), env);
        case SExt(e0, to) =>
          LinearIsRight(e0, SignExt, depth + 1, env);
          ExtendedRight(e0, e, GetLinear(e0, SignExt, depth + 1), env);
        case ZExt(e0, to) =>
          LinearIsRight(e0, ZeroExt, depth + 1, env);
          ExtendedRight(e0, e, GetLinear(e0, ZeroExt, depth + 1), env);
        case Var(_, _) =>
      }
    }
  }

  lemma ConstRight(e: Expr, ext: Extension, env: nat -> nat)
    requires Valid(e) && e.Const?
    ensures Right(e, Linear(e, 0, e.c, ext), env)
  {
    CongSelf(Pow2(Width(e)), e.c);
  }

  lemma SameValue(e: Expr, f: Expr, l: Linear, env: nat -> nat)
    requires Valid(e) && Valid(f) && Valid(l.v) && Eval(e, env) == Eval(f, env) && Right(e, l, env)
    ensures Right(f, l, env)
  {
  }

  lemma ExtendedForm(m: nat, x: int, x0: int, l0: Linear, v: int, w: nat, to: nat)
    requires w > 0 && m <= w && w <= to && l0.offset < Pow2(w)
    requires Cong(Pow2(m), x, x0) && Cong(Pow2(m), x0, l0.scale * v + l0.offset)
    ensures Cong(Pow2(m), x, l0.scale * v + Extended(l0.offset, w, to))
  {
    var p := Pow2(m);
    CongTrans(p, x, x0, l0.scale * v + l0.offset);
    CongExtend(m, l0.offset, w, to);
    CongSelf(p, l0.scale * v);
    CongAdd(p, l0.scale * v, l0.scale * v, Extended(l0.offset, w, to), l0.offset);
    CongSym(p, l0.scale * v + Extended(l0.offset, w, to), l0.scale * v + l0.offset);
    CongTrans(p, x, l0.scale * v + l0.offset, l0.scale * v + Extended(l0.offset, w, to));
  }

  lemma CongruentRemainder(m: int, x: int, y: int)
    requires m > 0 && 0 <= x < m && Cong(m, x, y)
    ensures x == y % m
  {
    var q: int :| x - y == q * m;
    Distribute(m, y / m, -q);
    UniqueRemainder(x, m, y / m + q, y % m);
    UniqueRemainder(x, m, 0, x);
  }

  /** Where no extension is looked through, the form gives the value itself. */
  lemma LinearIsExact(e: Expr, ext: Extension, depth: nat, env: nat -> nat)
    requires Valid(e) && depth <= MAX_DEPTH && OracleOk(e, env)
    requires Width(GetLinear(e, ext, depth).v) == Width(e)
    ensures var l := GetLinear(e, ext, depth);
            Eval(e, env) == (l.scale * Eval(l.v, env) + l.offset) % Pow2(Width(e))
  {
    hide Cong, Pow2, GetLinear, Eval;
    var l := GetLinear(e, ext, depth);
    LinearIsRight(e, ext, depth, env);
    CongruentRemainder(Pow2(Width(e)), Eval(e, env), l.scale * Eval(l.v, env) + l.offset);
  }

  // What looking through an extension loses

  function Signed(x: nat, w: nat): int
    requires w > 0
  {
    if x < Pow2(w - 1) then x else x - Pow2(w)
  }

  lemma Twice(w: nat)
    requires w > 0
    ensures Pow2(w) == 2 * Pow2(w - 1)
  {
  }
}
