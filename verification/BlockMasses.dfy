/** BlockMass: a fraction of a unit in 64 bits, and its product with a branch probability. */
module BlockMasses {
  import opened Bits

  const TWO_32: nat := 0x1_0000_0000
  const TWO_64: nat := 0x1_0000_0000_0000_0000
  const FULL: nat := TWO_64 - 1

  type Mass = m: nat | m < TWO_64

  type Word = w: nat | w < TWO_32

  /** Sums stop at full mass; the source adds modulo 2^64 and compares. */
  function Add(x: Mass, y: Mass): Mass {
    var sum := (x + y) % TWO_64;
    if sum < x then FULL else sum
  }

  function Subtract(x: Mass, y: Mass): Mass {
    var diff := (x - y) % TWO_64;
    if diff > x then 0 else diff
  }

  lemma Saturates(x: Mass, y: Mass)
    ensures Add(x, y) == if x + y < TWO_64 then x + y else FULL
    ensures Subtract(x, y) == if x >= y then x - y else 0
  {
    if x + y >= TWO_64 { UniqueRemainder(x + y, TWO_64, 1, x + y - TWO_64); }
    if x < y { UniqueRemainder(x - y, TWO_64, -1, x - y + TWO_64); }
  }

  function Quotient(x: nat, d: nat): nat
    requires d > 0
  {
    x / d
  }

  function Remainder(x: nat, d: nat): nat
    requires d > 0
  {
    x % d
  }

  /** num * n / d by two divisions of 64 by 32 bits. */
  function Scale(num: Mass, n: Word, d: Word): Mass
    requires d > 0
  {
    if num == 0 || d == n then num
    else
      var productHigh := num / TWO_32 * n;
      var productLow := num % TWO_32 * n;
      Divide(UpperDigit(productHigh, productLow), MiddleDigit(productHigh, productLow), productLow % TWO_32, d)
  }

  function MiddleDigit(productHigh: nat, productLow: nat): Word {
    (productHigh % TWO_32 + productLow / TWO_32) % TWO_32
  }

  function UpperDigit(productHigh: nat, productLow: nat): Word {
    (productHigh / TWO_32 + if MiddleDigit(productHigh, productLow) < productHigh % TWO_32 then 1 else 0) % TWO_32
  }

  function Divide(upper32: Word, mid32: Word, lower32: Word, d: Word): Mass
    requires d > 0
  {
    if upper32 >= d then FULL
    else
      var rem := upper32 * TWO_32 + mid32;
      var upperQ := Quotient(rem, d);
      if upperQ >= TWO_32 then FULL
      else
        var lowerQ := Quotient((Remainder(rem, d) * TWO_32 + lower32) % TWO_64, d);
        var q := (upperQ * TWO_32 + lowerQ) % TWO_64;
        if q < lowerQ then FULL else q
  }

  lemma ProductBound(x: nat, y: nat, a: nat, b: nat)
    requires x <= a && y <= b
    ensures x * y <= a * b
  {
    Distribute(y, a, x);
    Distribute(a, b, y);
    assert a * y - x * y == (a - x) * y >= 0;
    assert a * b - a * y == a * (b - y) >= 0;
  }

  /** The carry of the middle digit is seen by comparing. */
  lemma Digits(high: nat, low: nat)
    requires high <= (TWO_32 - 1) * (TWO_32 - 1) && low <= (TWO_32 - 1) * (TWO_32 - 1)
    ensures high * TWO_32 + low == (UpperDigit(high, low) * TWO_32 + MiddleDigit(high, low)) * TWO_32 + low % TWO_32
  {
    var part, carry := high % TWO_32, low / TWO_32;
    assert carry < TWO_32;
    if part + carry < TWO_32 {
      UniqueRemainder(part + carry, TWO_32, 0, part + carry);
    } else {
      UniqueRemainder(part + carry, TWO_32, 1, part + carry - TWO_32);
    }
  }

  lemma ProductDigits(num: Mass, n: Word)
    ensures num / TWO_32 * n <= (TWO_32 - 1) * (TWO_32 - 1) && num % TWO_32 * n <= (TWO_32 - 1) * (TWO_32 - 1)
    ensures num * n == (num / TWO_32 * n) * TWO_32 + num % TWO_32 * n
  {
    var h, l := num / TWO_32, num % TWO_32;
    ProductBound(h, n, TWO_32 - 1, TWO_32 - 1);
    ProductBound(l, n, TWO_32 - 1, TWO_32 - 1);
    Distribute(n, h * TWO_32, -l);
    assert num == h * TWO_32 + l;
    assert h * TWO_32 * n == (h * n) * TWO_32;
  }

  /** Long division by one digit at a time. */
  lemma TwoStepDivision(r: nat, l: Word, d: Word)
    requires d > 0
    ensures Remainder(r, d) < d
    ensures Quotient(r * TWO_32 + l, d) == Quotient(r, d) * TWO_32 + Quotient(Remainder(r, d) * TWO_32 + l, d)
    ensures Quotient(Remainder(r, d) * TWO_32 + l, d) < TWO_32
  {
    var q1, r1 := r / d, r % d;
    var x := r1 * TWO_32 + l;
    var q2, r2 := x / d, x % d;
    assert r == q1 * d + r1 && x == q2 * d + r2;
    Distribute(d, q1 * TWO_32, -q2);
    assert q1 * d * TWO_32 == q1 * TWO_32 * d;
    UniqueRemainder(r * TWO_32 + l, d, q1 * TWO_32 + q2, r2);
    if q2 >= TWO_32 { ProductBound(TWO_32, d, q2, d); }
  }

  lemma QuotientAtLeast(x: int, d: int, q: int)
    requires d > 0 && x >= q * d
    ensures x / d >= q
  {
    if x / d < q {
      Distribute(d, q, x / d);
      AtLeast(q - x / d, d);
    }
  }

  lemma QuotientBelow(x: int, d: int, q: int)
    requires d > 0 && x < q * d
    ensures x / d < q
  {
    if x / d >= q {
      Distribute(d, x / d, q);
      if x / d > q { AtLeast(x / d - q, d); }
    }
  }

  lemma DivideIsFloor(x: nat, upper: Word, mid: Word, l: Word, d: Word)
    requires d > 0 && x == (upper * TWO_32 + mid) * TWO_32 + l
    ensures Divide(upper, mid, l, d) == Capped(Quotient(x, d))
  {
    if upper >= d {
      QuotientAtLeast(x, d, TWO_64);
    } else {
      DivideSmall(x, upper, mid, l, d);
    }
  }

  lemma DivideSmall(x: nat, upper: Word, mid: Word, l: Word, d: Word)
    requires upper < d && x == (upper * TWO_32 + mid) * TWO_32 + l
    ensures Divide(upper, mid, l, d) == Quotient(x, d) < TWO_64
  {
    hide Quotient, Remainder;
    var rem := upper * TWO_32 + mid;
    QuotientSmall(rem, d);
    TwoStepDivision(rem, l, d);
  }

  lemma QuotientSmall(x: nat, d: Word)
    requires d > 0 && x < d * TWO_32
    ensures Quotient(x, d) < TWO_32
  {
    QuotientBelow(x, d, TWO_32);
  }

  /** Never above full mass. */
  function Capped(x: nat): Mass { if x < TWO_64 then x else FULL }

  /** The digit-wise division is the floor of the exact quotient, stopped at full mass. */
  lemma ScaleIsFloor(num: Mass, n: Word, d: Word)
    requires d > 0
    ensures Scale(num, n, d) == Capped(Quotient(num * n, d))
  {
    if num == 0 {
    } else if d == n {
      UniqueRemainder(num * n, d, num, 0);
    } else {
      ScaleDivides(num, n, d, num * n);
    }
  }

  lemma ScaleDivides(num: Mass, n: Word, d: Word, x: nat)
    requires d > 0 && num != 0 && d != n && x == num * n
    ensures Scale(num, n, d) == Capped(Quotient(x, d))
  {
    hide Divide, UpperDigit, MiddleDigit, Capped, Quotient;
    ProductDigits(num, n);
    DigitsDivide(num / TWO_32 * n, num % TWO_32 * n, d, x);
  }

  lemma DigitsDivide(high: nat, low: nat, d: Word, x: nat)
    requires d > 0 && x == high * TWO_32 + low
    requires high <= (TWO_32 - 1) * (TWO_32 - 1) && low <= (TWO_32 - 1) * (TWO_32 - 1)
    ensures Divide(UpperDigit(high, low), MiddleDigit(high, low), low % TWO_32, d) == Capped(Quotient(x, d))
  {
    hide Divide, UpperDigit, MiddleDigit, Quotient;
    Digits(high, low);
    DivideIsFloor(x, UpperDigit(high, low), MiddleDigit(high, low), low % TWO_32, d);
  }

  /** A share of at most the whole is at most the whole, and the whole at w == r. */
  lemma ShareBound(m: Mass, w: Word, r: Word)
    requires 0 < w <= r
    ensures Scale(m, w, r) == Quotient(m * w, r) <= m
    ensures w == r ==> Scale(m, w, r) == m
  {
    hide Scale;
    ScaleIsFloor(m, w, r);
    ProductBound(m, w, m, r);
    QuotientBelow(m * w, r, m + 1);
    if w == r { UniqueRemainder(m * r, r, m, 0); }
  }
}
