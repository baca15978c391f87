/** Bitwise operations on naturals by recursion on the bits, powers of two and divisibility. */
module Bits {
  function And(x: nat, y: nat): nat {
    if x == 0 || y == 0 then 0 else (if x % 2 == 1 && y % 2 == 1 then 1 else 0) + 2 * And(x / 2, y / 2)
  }

  function Or(x: nat, y: nat): nat
    decreases x + y
  {
    if x == 0 then y else if y == 0 then x
    else (if x % 2 == 1 || y % 2 == 1 then 1 else 0) + 2 * Or(x / 2, y / 2)
  }

  function Xor(x: nat, y: nat): nat
    decreases x + y
  {
    if x == 0 then y else if y == 0 then x
    else (if x % 2 != y % 2 then 1 else 0) + 2 * Xor(x / 2, y / 2)
  }

  function Pow2(n: nat): (p: nat)
    ensures p > 0
  {
    if n == 0 then 1 else 2 * Pow2(n - 1)
  }

  lemma {:induction false} Pow2Grows(a: nat, b: nat)
    requires a <= b
    ensures Pow2(a) <= Pow2(b)
    decreases b
  {
    if a < b { Pow2Grows(a, b - 1); }
  }

  lemma {:induction false} Pow2Sum(a: nat, b: nat)
    ensures Pow2(a + b) == Pow2(a) * Pow2(b)
    decreases b
  {
    if b > 0 { Pow2Sum(a, b - 1); }
  }

  lemma Pow2Values()
    ensures Pow2(31) == 0x8000_0000 && Pow2(32) == 0x1_0000_0000 && Pow2(64) == 0x1_0000_0000_0000_0000
  {
    assert Pow2(8) == 256;
    Pow2Sum(8, 8);
    Pow2Sum(16, 16);
    Pow2Sum(32, 32);
    assert Pow2(32) == 2 * Pow2(31);
  }

  /** The position of the highest bit. */
  function Log2(x: nat): (n: nat)
    requires x > 0
    ensures Pow2(n) <= x < 2 * Pow2(n)
  {
    if x == 1 then 0 else 1 + Log2(x / 2)
  }

  /** m divides x. */
  ghost predicate Divides(m: int, x: int) { exists q: int :: x == q * m }

  lemma DividesBy(m: int, x: int, q: int)
    requires x == q * m
    ensures Divides(m, x)
  {
  }

  lemma DividesSum(m: int, x: int, y: int)
    requires Divides(m, x) && Divides(m, y)
    ensures Divides(m, x + y) && Divides(m, x - y)
  {
    var p: int :| x == p * m;
    var q: int :| y == q * m;
    DividesBy(m, x + y, p + q);
    DividesBy(m, x - y, p - q);
  }

  lemma DividesProduct(m: int, x: int, k: int)
    requires Divides(m, x)
    ensures Divides(m, x * k)
  {
    var p: int :| x == p * m;
    assert x * k == (p * k) * m;
    DividesBy(m, x * k, p * k);
  }

  lemma DividesThrough(m: int, x: int, y: int)
    requires Divides(m, x) && Divides(x, y)
    ensures Divides(m, y)
  {
    var p: int :| x == p * m;
    var q: int :| y == q * x;
    assert y == (q * p) * m;
    DividesBy(m, y, q * p);
  }

  lemma DividesMod(m: int, x: int)
    requires m > 0
    ensures Divides(m, x - x % m)
  {
    DividesBy(m, x - x % m, x / m);
  }

  lemma {:induction false} Pow2Divides(a: nat, b: nat)
    requires a <= b
    ensures Divides(Pow2(a), Pow2(b))
    decreases b
  {
    if a == b {
      DividesBy(Pow2(a), Pow2(b), 1);
    } else {
      Pow2Divides(a, b - 1);
      DividesProduct(Pow2(a), Pow2(b - 1), 2);
    }
  }

  /** The lowest bit that is set. */
  function Low(x: nat): (l: nat)
    requires x > 0
    ensures 0 < l <= x
  {
    if x % 2 == 1 then 1 else 2 * Low(x / 2)
  }

  /** The number of low bits that are zero. */
  function Zeros(x: nat): (z: nat)
    requires x > 0
  {
    if x % 2 == 1 then 0 else 1 + Zeros(x / 2)
  }

  /** Two to the t divides a multiple of c exactly when what c lacks divides the other factor. */
  lemma {:induction false} DividesScaled(t: nat, c: nat, d: int)
    requires c > 0
    ensures Divides(Pow2(t), d * c) <==> t <= Zeros(c) || Divides(Pow2(t - Zeros(c)), d)
    decreases t + c
  {
    hide Divides;
    if t == 0 {
      DividesBy(1, d * c, d * c);
    } else if c % 2 == 0 {
      DividesScaled(t - 1, c / 2, d);
      Halved(d, c);
      DividesTwice(Pow2(t - 1), d * (c / 2));
    } else {
      if d % 2 == 0 {
        DividesScaled(t - 1, c, d / 2);
        if t == 1 { DividesBy(1, d / 2, d / 2); }
        Halved(c, d);
        DividesTwice(Pow2(t - 1), d / 2 * c);
        DividesTwice(Pow2(t - 1), d / 2);
      } else {
        EvenFactor(d, c, Pow2(t - 1));
        EvenFactor(d, 1, Pow2(t - 1));
      }
    }
  }

  lemma Halved(d: int, c: int)
    requires c % 2 == 0
    ensures d * c == 2 * (d * (c / 2)) && c * d == 2 * (c / 2 * d)
  {
    assert c == 2 * (c / 2);
  }

  lemma EvenFactor(d: int, c: int, h: int)
    requires c % 2 == 1 && d % 2 == 1
    ensures !Divides(2 * h, d * c)
  {
    var i, j := d / 2, c / 2;
    Distribute(c, 2 * i, -1);
    assert d * c == 2 * (i * c + j) + 1;
    forall q: int ensures d * c != q * (2 * h) { assert q * (2 * h) == 2 * (q * h); }
  }

  lemma {:induction false} ZerosOfPow2(s: nat)
    ensures Zeros(Pow2(s)) == s
  {
    if s > 0 { ZerosOfPow2(s - 1); }
  }

  /** x ^ (x & (x - 1)) keeps exactly the lowest set bit. */
  lemma {:induction false} LowestBitTrick(x: nat)
    requires x > 0
    ensures Xor(x, And(x, x - 1)) == Low(x)
  {
    if x % 2 == 1 {
      AndSelf(x / 2);
      XorSelf(x / 2);
      if x > 1 { assert (x - 1) / 2 == x / 2 && And(x, x - 1) == 2 * And(x / 2, x / 2); }
    } else {
      var y := x / 2;
      LowestBitTrick(y);
      assert (x - 1) / 2 == y - 1 && (x - 1) % 2 == 1;
      assert And(x, x - 1) == 2 * And(y, y - 1);
    }
  }

  lemma {:induction false} AndSelf(x: nat)
    ensures And(x, x) == x
  {
    if x > 0 { AndSelf(x / 2); }
  }

  lemma {:induction false} XorSelf(x: nat)
    ensures Xor(x, x) == 0
  {
    if x > 0 { XorSelf(x / 2); }
  }

  lemma {:induction false} OrPositive(x: nat, y: nat)
    ensures x > 0 || y > 0 ==> Or(x, y) > 0
    decreases x + y
  {
    if x > 0 && y > 0 { OrPositive(x / 2, y / 2); }
  }

  lemma {:induction false} OrBound(x: nat, y: nat, n: nat)
    requires x < Pow2(n) && y < Pow2(n)
    ensures Or(x, y) < Pow2(n)
    decreases n
  {
    if x > 0 && y > 0 { OrBound(x / 2, y / 2, n - 1); }
  }

  lemma OrHalves(x: nat, y: nat)
    requires x > 0 && y > 0
    ensures Or(x, y) / 2 == Or(x / 2, y / 2) && (Or(x, y) % 2 == 1 <==> x % 2 == 1 || y % 2 == 1)
  {
  }

  lemma DividesTwice(a: int, b: int)
    ensures Divides(2 * a, 2 * b) <==> Divides(a, b)
  {
    if Divides(a, b) {
      var q: int :| b == q * a;
      DividesBy(2 * a, 2 * b, q);
    }
    if Divides(2 * a, 2 * b) {
      var q: int :| 2 * b == q * (2 * a);
      assert q * (2 * a) == 2 * (q * a);
      DividesBy(a, b, q);
    }
  }

  /** Adding bits can only lower the lowest one: it divides what it divided before, and the operands. */
  lemma {:induction false} LowOfOr(x: nat, y: nat)
    requires x > 0
    ensures Or(x, y) > 0 && Divides(Low(Or(x, y)), Low(x))
    ensures Or(y, x) == Or(x, y)
    decreases x + y
  {
    hide Divides;
    OrPositive(x, y);
    OrPositive(x / 2, y / 2);
    OrCommutes(x, y);
    if y > 0 { OrHalves(x, y); }
    if y == 0 {
      DividesBy(Low(x), Low(x), 1);
    } else if x % 2 == 1 || y % 2 == 1 {
      assert Low(Or(x, y)) == 1;
      DividesBy(1, Low(x), Low(x));
    } else {
      LowOfOr(x / 2, y / 2);
      DividesTwice(Low(Or(x / 2, y / 2)), Low(x / 2));
    }
  }

  /** The lowest bit of an or is the lowest bit of one side. */
  lemma {:induction false} LowIsAttained(x: nat, y: nat)
    requires x > 0 && y > 0
    ensures Or(x, y) > 0 && (Low(Or(x, y)) == Low(x) || Low(Or(x, y)) == Low(y))
    decreases x + y
  {
    OrHalves(x, y);
    OrPositive(x, y);
    if x % 2 == 0 && y % 2 == 0 { LowIsAttained(x / 2, y / 2); }
  }

  lemma {:induction false} LowIsPow2(x: nat)
    requires x > 0
    ensures Low(x) == Pow2(Zeros(x))
  {
    if x % 2 == 0 { LowIsPow2(x / 2); }
  }

  /** No larger power of two divides x. */
  lemma {:induction false} LowIsAll(x: nat)
    requires x > 0
    ensures !Divides(2 * Low(x), x)
  {
    if x % 2 == 0 {
      LowIsAll(x / 2);
      DividesTwice(2 * Low(x / 2), x / 2);
    }
  }

  lemma {:induction false} OrCommutes(x: nat, y: nat)
    ensures Or(x, y) == Or(y, x)
    decreases x + y
  {
    if x > 0 && y > 0 { OrCommutes(x / 2, y / 2); }
  }

  lemma {:induction false} LowDivides(x: nat)
    requires x > 0
    ensures Divides(Low(x), x)
  {
    if x % 2 == 1 {
      DividesBy(1, x, x);
    } else {
      LowDivides(x / 2);
      var q: int :| x / 2 == q * Low(x / 2);
      DividesBy(Low(x), x, q);
    }
  }

  lemma {:induction false} LowDividesPow(x: nat, n: nat)
    requires 0 < x < Pow2(n)
    ensures Divides(Low(x), Pow2(n))
    decreases n
  {
    if x % 2 == 1 {
      DividesBy(1, Pow2(n), Pow2(n));
    } else {
      LowDividesPow(x / 2, n - 1);
      var q: int :| Pow2(n - 1) == q * Low(x / 2);
      DividesBy(Low(x), Pow2(n), q);
    }
  }

  /** Masking with a single bit less one is the remainder modulo that bit. */
  lemma {:induction false} MaskIsRemainder(y: nat, x: nat)
    requires x > 0
    ensures And(y, Low(x) - 1) == y % Low(x)
    decreases x
  {
    if x % 2 == 1 {
      assert And(y, 0) == 0;
    } else {
      var m := Low(x / 2);
      MaskIsRemainder(y / 2, x / 2);
      HalfRemainder(y, m);
      if y > 0 {
        assert Low(x) - 1 == 2 * (m - 1) + 1;
        assert (Low(x) - 1) / 2 == m - 1 && (Low(x) - 1) % 2 == 1;
      }
    }
  }

  lemma HalfRemainder(y: nat, m: nat)
    requires m > 0
    ensures y % (2 * m) == y % 2 + 2 * ((y / 2) % m)
  {
    var q, r := (y / 2) / m, (y / 2) % m;
    assert y == y % 2 + 2 * (q * m + r);
    assert y == q * (2 * m) + (y % 2 + 2 * r);
    UniqueRemainder(y, 2 * m, q, y % 2 + 2 * r);
  }

  lemma UniqueRemainder(x: int, m: int, q: int, r: int)
    requires m > 0 && x == q * m + r && 0 <= r < m
    ensures x % m == r && x / m == q
  {
    var d := q - x / m;
    Distribute(m, q, x / m);
    assert x % m - r == d * m;
    if d >= 1 { AtLeast(d, m); }
    if d <= -1 { AtLeast(-d, m); }
  }

  lemma Distribute(m: int, a: int, b: int)
    ensures (a - b) * m == a * m - b * m
  {
  }

  lemma AtLeast(k: int, m: int)
    requires k >= 1 && m > 0
    ensures k * m >= m && (-k) * m <= -m
  {
  }

  /** Disjoint bits add without carry. */
  lemma {:induction false} OrIsSum(x: nat, y: nat)
    requires And(x, y) == 0
    ensures Or(x, y) == x + y
    decreases x + y
  {
    if x > 0 && y > 0 { OrIsSum(x / 2, y / 2); }
  }
}
