/** Variable length numbers of section 7.6 of DWARF 3, as the demo's runtime reads them. */
module Leb128 {
  import opened Bits

  type byte = b: nat | b < 256

  const TWO_64: nat := 0x1_0000_0000_0000_0000

  /** An encoding ends with the first byte below 128. */
  predicate Terminated(s: seq<byte>) { s != [] && (s[0] < 128 || Terminated(s[1..])) }

  function Length(s: seq<byte>): (n: nat)
    requires Terminated(s)
    ensures 0 < n <= |s|
  {
    if s[0] < 128 then 1 else 1 + Length(s[1..])
  }

  function UValue(s: seq<byte>): nat
    requires Terminated(s)
  {
    if s[0] < 128 then s[0] else s[0] % 128 + 128 * UValue(s[1..])
  }

  function SValue(s: seq<byte>): int
    requires Terminated(s)
  {
    if s[0] < 128 then (if s[0] < 64 then s[0] else s[0] - 128) else s[0] % 128 + 128 * SValue(s[1..])
  }

  function EncodeU(n: nat): (s: seq<byte>)
    ensures Terminated(s)
  {
    if n < 128 then [n] else [n % 128 + 128] + EncodeU(n / 128)
  }

  function EncodeS(x: int): (s: seq<byte>)
    ensures Terminated(s)
    decreases if x < 0 then -x else x
  {
    if -64 <= x < 64 then [x % 128] else [x % 128 + 128] + EncodeS(x / 128)
  }

  /** What follows an encoding does not matter. */
  lemma {:induction false} EncodedU(n: nat, rest: seq<byte>)
    ensures Terminated(EncodeU(n) + rest) && UValue(EncodeU(n) + rest) == n && Length(EncodeU(n) + rest) == |EncodeU(n)|
  {
    if n >= 128 {
      EncodedU(n / 128, rest);
      assert (EncodeU(n) + rest)[1..] == EncodeU(n / 128) + rest;
    }
  }

  lemma {:induction false} EncodedS(x: int, rest: seq<byte>)
    ensures Terminated(EncodeS(x) + rest) && SValue(EncodeS(x) + rest) == x && Length(EncodeS(x) + rest) == |EncodeS(x)|
    decreases if x < 0 then -x else x
  {
    if !(-64 <= x < 64) {
      EncodedS(x / 128, rest);
      assert (EncodeS(x) + rest)[1..] == EncodeS(x / 128) + rest;
    }
  }

  /** Four bytes hold exactly the numbers of 28 bits. */
  lemma FourBytesU(n: nat)
    ensures |EncodeU(n)| <= 4 <==> n < 0x1000_0000
  {
    LongerU(n / 128);
    LongerU(n / 128 / 128);
    LongerU(n / 128 / 128 / 128);
  }

  lemma LongerU(n: nat)
    ensures |EncodeU(n)| == if n < 128 then 1 else 1 + |EncodeU(n / 128)|
    ensures |EncodeU(n)| >= 1
  {
  }

  lemma FourBytesS(x: int)
    ensures |EncodeS(x)| <= 4 <==> -0x800_0000 <= x < 0x800_0000
  {
    LongerS(x / 128);
    LongerS(x / 128 / 128);
    LongerS(x / 128 / 128 / 128);
  }

  lemma LongerS(x: int)
    ensures |EncodeS(x)| == if -64 <= x < 64 then 1 else 1 + |EncodeS(x / 128)|
    ensures |EncodeS(x)| >= 1
  {
  }

  // Bits

  /** Bits below 2^s and a multiple of 2^s do not meet. */
  lemma {:induction false} BelowShifted(x: nat, k: nat, s: nat)
    requires x < Pow2(s)
    ensures And(x, k * Pow2(s)) == 0
    decreases s
  {
    if s > 0 && x > 0 && k > 0 {
      var y := k * Pow2(s - 1);
      assert k * Pow2(s) == 2 * y;
      BelowShifted(x / 2, k, s - 1);
    }
  }

  lemma OrShifted(x: nat, k: nat, s: nat)
    requires x < Pow2(s)
    ensures Or(x, k * Pow2(s)) == x + k * Pow2(s)
  {
    BelowShifted(x, k, s);
    OrIsSum(x, k * Pow2(s));
  }

  lemma LowSeven(b: byte)
    ensures And(b, 0x7f) == b % 128
  {
    assert Low(2) == 2 && Low(8) == 8 && Low(32) == 32 && Low(128) == 128;
    MaskIsRemainder(b, 128);
  }

  lemma BitSeven(b: byte)
    ensures And(b, 0x80) != 0 <==> b >= 128
  {
    HighBit(b, 0x80, 7);
  }

  lemma BitSix(b: byte)
    ensures And(b, 0x40) != 0 <==> b % 128 >= 64
  {
    HighBit(b, 0x40, 6);
    assert b / 64 % 2 == 1 <==> b % 128 >= 64;
  }

  lemma {:induction false} HighBit(b: nat, m: nat, s: nat)
    requires m == Pow2(s)
    ensures And(b, m) != 0 <==> b / m % 2 == 1
    decreases s
  {
    if s > 0 {
      HighBit(b / 2, m / 2, s - 1);
      HalfQuotient(b, m / 2);
    } else {
      assert And(b / 2, 0) == 0;
    }
  }

  lemma HalfQuotient(b: nat, h: nat)
    requires h > 0
    ensures b / 2 / h == b / (2 * h)
  {
    var q, r := b / 2 / h, b / 2 % h;
    assert b / 2 == q * h + r && b == 2 * (b / 2) + b % 2;
    assert b == q * (2 * h) + (2 * r + b % 2);
    UniqueRemainder(b, 2 * h, q, 2 * r + b % 2);
  }

  // Reading

  /** What is read so far and what the rest is worth. */
  lemma ReadOne(s: seq<byte>, result: nat, shift: nat)
    requires Terminated(s) && result < Pow2(shift)
    ensures var next := Or(result, And(s[0], 0x7f) * Pow2(shift));
            && next < Pow2(shift + 7)
            && (s[0] >= 128 ==> next + UValue(s[1..]) * Pow2(shift + 7) == result + UValue(s) * Pow2(shift))
            && (s[0] >= 128 ==> next + SValue(s[1..]) * Pow2(shift + 7) == result + SValue(s) * Pow2(shift))
            && (s[0] < 128 ==> next == result + UValue(s) * Pow2(shift))
            && (s[0] < 64 ==> next == result + SValue(s) * Pow2(shift))
            && (64 <= s[0] < 128 ==> next - Pow2(shift + 7) == result + SValue(s) * Pow2(shift))
  {
    hide And, Or, UValue, SValue, Pow2;
    var p, d := Pow2(shift), s[0] % 128;
    NextBits(s[0], result, shift);
    Unfolded(s);
    if s[0] >= 128 {
      Rescaled(d, UValue(s[1..]), p);
      Rescaled(d, SValue(s[1..]), p);
    } else {
      Negative(d, p);
    }
  }

  lemma Negative(d: nat, p: nat)
    ensures d * p - 128 * p == (d - 128) * p
  {
    Distribute(p, d, 128);
  }

  lemma Unfolded(s: seq<byte>)
    requires Terminated(s)
    ensures s[0] < 128 ==> UValue(s) == s[0] == s[0] % 128 && SValue(s) == s[0] as int - (if s[0] < 64 then 0 else 128)
    ensures s[0] >= 128 ==> Terminated(s[1..]) && UValue(s) == s[0] % 128 + 128 * UValue(s[1..])
                            && SValue(s) == s[0] % 128 + 128 * SValue(s[1..])
  {
  }

  lemma NextBits(b: byte, result: nat, shift: nat)
    requires result < Pow2(shift)
    ensures Or(result, And(b, 0x7f) * Pow2(shift)) == result + b % 128 * Pow2(shift)
    ensures Pow2(shift + 7) == 128 * Pow2(shift) && result + b % 128 * Pow2(shift) < 128 * Pow2(shift)
  {
    LowSeven(b);
    OrShifted(result, b % 128, shift);
    Pow2Sum(7, shift);
    assert Pow2(7) == 128;
    Scaled(b % 128, Pow2(shift));
  }

  lemma Scaled(d: nat, p: nat)
    requires d < 128
    ensures d * p <= 127 * p
  {
    Distribute(p, 127, d);
    assert (127 - d) * p >= 0;
  }

  lemma Rescaled(d: nat, v: int, p: nat)
    ensures d * p + v * (128 * p) == (d + 128 * v) * p
  {
    Distribute(p, d, -(128 * v));
    assert 128 * v * p == v * (128 * p);
  }

  /** Reads an unsigned number and moves on by its length. The shifts are on int in the source: four bytes at most. */
  method ReadULEB128(mem: seq<byte>, pos: nat) returns (result: nat, next: nat)
    requires pos <= |mem| && Terminated(mem[pos..]) && Length(mem[pos..]) <= 4
    ensures result == UValue(mem[pos..]) && next == pos + Length(mem[pos..])
  {
    hide And, Or, Pow2;
    result := 0;
    var shift, p, more := 0, pos, true;
    Shift0();
    while more
      invariant pos <= p <= |mem| && 0 <= shift
      invariant more ==> Terminated(mem[p..]) && result < Pow2(shift)
                         && result + UValue(mem[p..]) * Pow2(shift) == UValue(mem[pos..])
                         && p + Length(mem[p..]) == pos + Length(mem[pos..])
      invariant !more ==> result == UValue(mem[pos..]) && p == pos + Length(mem[pos..])
      decreases |mem| - p, more
    {
      var b := mem[p];
      ReadOne(mem[p..], result, shift);
      BitSeven(b);
      assert mem[p..][1..] == mem[p + 1..];
      p := p + 1;
      result := Or(result, And(b, 0x7f) * Pow2(shift));
      shift := shift + 7;
      more := And(b, 0x80) != 0;
    }
    next := p;
  }

  lemma Shift0()
    ensures Pow2(0) == 1
  {
  }

  /** Two's complement in 64 bits. */
  function Wrapped(x: int): nat { x % TWO_64 }

  /** Reads a signed number: the bits above the last one read are set when its sign is. */
  method ReadSLEB128(mem: seq<byte>, pos: nat) returns (result: nat, next: nat)
    requires pos <= |mem| && Terminated(mem[pos..]) && Length(mem[pos..]) <= 4
    ensures result == Wrapped(SValue(mem[pos..])) && next == pos + Length(mem[pos..])
  {
    hide And, Or, Pow2;
    result := 0;
    var shift: nat, p, more := 0, pos, true;
    var b: byte := 0;
    Shift0();
    while more
      invariant pos <= p <= |mem| && result < Pow2(shift) && shift == 7 * (p - pos)
      invariant more ==> Terminated(mem[p..]) && p + Length(mem[p..]) == pos + Length(mem[pos..])
                         && result + SValue(mem[p..]) * Pow2(shift) == SValue(mem[pos..])
      invariant !more ==> p == pos + Length(mem[pos..])
                          && SValue(mem[pos..]) == if b < 64 then result else result - Pow2(shift)
      invariant !more ==> b < 128
      decreases |mem| - p, more
    {
      b := mem[p];
      ReadOne(mem[p..], result, shift);
      BitSeven(b);
      assert mem[p..][1..] == mem[p + 1..];
      p := p + 1;
      result := Or(result, And(b, 0x7f) * Pow2(shift));
      shift := shift + 7;
      more := And(b, 0x80) != 0;
    }
    next := p;
    BitSix(b);
    SignBits(result, shift);
    if And(b, 0x40) != 0 && shift < 64 {
      result := Or(result, TWO_64 - Pow2(shift));
    }
  }

  /** All ones from bit `shift` up is 2^64 less 2^shift. */
  lemma SignBits(result: nat, shift: nat)
    requires result < Pow2(shift) && shift <= 28
    ensures Pow2(shift) < TWO_64 && Or(result, TWO_64 - Pow2(shift)) == Wrapped(result - Pow2(shift))
    ensures Wrapped(result) == result
  {
    Pow2Values();
    Pow2Grows(shift, 31);
    Pow2Sum(64 - shift, shift);
    var k := Pow2(64 - shift) - 1;
    Distribute(Pow2(shift), Pow2(64 - shift), 1);
    OrShifted(result, k, shift);
    UniqueRemainder(result - Pow2(shift), TWO_64, -1, result - Pow2(shift) + TWO_64);
    UniqueRemainder(result, TWO_64, 0, result);
  }

  /** Reading undoes encoding, for all numbers of four bytes. */
  method RoundTrip(before: seq<byte>, n: nat, x: int, after: seq<byte>) returns (u: nat, s: nat)
    requires n < 0x1000_0000 && -0x800_0000 <= x < 0x800_0000
    ensures u == n && s == Wrapped(x)
  {
    FourBytesU(n);
    FourBytesS(x);
    var tail := EncodeS(x) + after;
    var mem := before + EncodeU(n) + tail;
    EncodedU(n, tail);
    EncodedS(x, after);
    assert mem[|before|..] == EncodeU(n) + tail;
    var next: nat;
    u, next := ReadULEB128(mem, |before|);
    assert mem[next..] == tail;
    s, next := ReadSLEB128(mem, next);
  }
}
