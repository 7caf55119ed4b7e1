/** The bit operations of src/compression/snappy.c on numbers: exclusive or, and counting the zero
    bits at either end of a word. */
module Bits {
  import opened Bytes

  function Pow2(n: nat): (p: nat)
    ensures p > 0
  {
    if n == 0 then 1 else 2 * Pow2(n - 1)
  }

  lemma {:induction false} Pow2Monotone(m: nat, n: nat)
    requires m <= n
    ensures Pow2(m) <= Pow2(n)
    decreases n
  {
    if m < n {
      Pow2Monotone(m, n - 1);
    }
  }

  lemma Pow2Bytes()
    ensures Pow2(8) == 256 && Pow2(16) == 65536 && Pow2(24) == 16777216 && Pow2(31) == 0x8000_0000 && Pow2(32) == POW32
  {
    assert Pow2(4) == 16 && Pow2(8) == 256 && Pow2(12) == 4096 && Pow2(16) == 65536;
    assert Pow2(20) == 1048576 && Pow2(24) == 16777216 && Pow2(28) == 0x1000_0000;
  }

  /** snappy_clz32_fallback: the zero bits above the highest one bit of a 32-bit word. */
  function CountLeadingZeros(x: nat): (n: nat)
    requires 0 < x < POW32
    ensures n <= 31 && Pow2(31 - n) <= x < Pow2(32 - n)
    decreases POW32 - x
  {
    Pow2Bytes();
    if x >= 0x8000_0000 then 0 else 1 + CountLeadingZeros(2 * x)
  }

  /** snappy_ctz64_fallback: the zero bits below the lowest one bit. */
  function CountTrailingZeros(x: nat): nat
    requires x > 0
  {
    if x % 2 == 1 then 0 else 1 + CountTrailingZeros(x / 2)
  }

  function Xor(a: nat, b: nat): nat
  {
    if a == 0 && b == 0 then 0
    else (if a % 2 != b % 2 then 1 else 0) + 2 * Xor(a / 2, b / 2)
  }

  lemma {:induction false} XorZero(a: nat, b: nat)
    ensures Xor(a, b) == 0 <==> a == b
    decreases a + b
  {
    if a != 0 || b != 0 {
      XorZero(a / 2, b / 2);
    }
  }

  lemma XorHalves(a: nat, b: nat)
    ensures Xor(a, b) == (if a % 2 != b % 2 then 1 else 0) + 2 * Xor(a / 2, b / 2)
  {
  }

  lemma XorDoubles(x: nat, y: nat, a: nat, b: nat, c: nat, p: nat)
    requires Xor(x / 2 + a, y / 2 + b) == Xor(x / 2, y / 2) + c && Xor(x / 2, y / 2) < p
    ensures Xor(x + 2 * a, y + 2 * b) == Xor(x, y) + 2 * c && Xor(x, y) < 2 * p
  {
    hide Xor;
    XorHalves(x, y);
    XorHalves(x + 2 * a, y + 2 * b);
    AddEven(x, a);
    AddEven(y, b);
  }

  lemma AddEven(x: nat, a: nat)
    ensures (x + 2 * a) / 2 == x / 2 + a && (x + 2 * a) % 2 == x % 2
  {
  }

  function ShiftLeft(a: nat, n: nat): (r: nat)
    ensures a > 0 ==> r > 0
    decreases n
  {
    if n == 0 then a else 2 * ShiftLeft(a, n - 1)
  }

  lemma XorNothing(x: nat, y: nat, a: nat)
    requires x < Pow2(0) && y < Pow2(0)
    ensures x == y == 0 && Xor(x, y) == 0 && Pow2(0) == 1 && ShiftLeft(a, 0) == a
  {
  }

  lemma HalfBelow(x: nat, n: nat)
    requires n > 0
    ensures x < Pow2(n) ==> x / 2 < Pow2(n - 1)
    ensures Pow2(n) == 2 * Pow2(n - 1)
  {
  }

  lemma ShiftHalf(a: nat, n: nat)
    requires n > 0
    ensures ShiftLeft(a, n) == 2 * ShiftLeft(a, n - 1)
  {
  }

  /** Exclusive or works on the low n bits and on the rest separately. */
  lemma {:induction false} XorSplit(n: nat, x: nat, y: nat, a: nat, b: nat)
    requires x < Pow2(n) && y < Pow2(n)
    ensures Xor(x, y) < Pow2(n)
    ensures Xor(x + ShiftLeft(a, n), y + ShiftLeft(b, n)) == Xor(x, y) + ShiftLeft(Xor(a, b), n)
    decreases n
  {
    hide Xor, ShiftLeft, Pow2;
    if n == 0 {
      XorNothing(x, y, a);
      XorNothing(x, y, b);
      XorNothing(x, y, Xor(a, b));
    } else {
      HalfBelow(x, n);
      HalfBelow(y, n);
      XorSplit(n - 1, x / 2, y / 2, a, b);
      ShiftHalf(a, n);
      ShiftHalf(b, n);
      ShiftHalf(Xor(a, b), n);
      XorDoubles(x, y, ShiftLeft(a, n - 1), ShiftLeft(b, n - 1), ShiftLeft(Xor(a, b), n - 1), Pow2(n - 1));
    }
  }

  lemma {:induction false} TrailingZerosLow(n: nat, x: nat, a: nat)
    requires 0 < x < Pow2(n)
    ensures CountTrailingZeros(x + ShiftLeft(a, n)) == CountTrailingZeros(x) < n
    decreases n
  {
    if x % 2 == 0 {
      TrailingZerosLow(n - 1, x / 2, a);
      assert (x + 2 * ShiftLeft(a, n - 1)) / 2 == x / 2 + ShiftLeft(a, n - 1);
    }
  }

  lemma {:induction false} TrailingZerosHigh(n: nat, a: nat)
    requires a > 0
    ensures CountTrailingZeros(ShiftLeft(a, n)) == n + CountTrailingZeros(a)
    decreases n
  {
    if n > 0 {
      TrailingZerosHigh(n - 1, a);
    }
  }

  lemma ShiftByte(a: nat)
    ensures ShiftLeft(a, 8) == 256 * a && Pow2(8) == 256
  {
    assert ShiftLeft(a, 4) == 16 * a && Pow2(4) == 16;
  }

  /** Comparing two words, lowest byte first. */
  lemma XorLowByte(x: nat, y: nat, a: nat, b: nat)
    requires x < 256 && y < 256
    ensures var diff := Xor(x + 256 * a, y + 256 * b);
            && (diff == 0 <==> x == y && a == b)
            && (x != y ==> CountTrailingZeros(diff) < 8)
            && (x == y && a != b ==> Xor(a, b) > 0 && CountTrailingZeros(diff) == 8 + CountTrailingZeros(Xor(a, b)))
  {
    hide Xor, CountTrailingZeros, ShiftLeft, Pow2;
    ShiftByte(a);
    ShiftByte(b);
    XorSplit(8, x, y, a, b);
    XorZero(x, y);
    XorZero(a, b);
    XorZero(x + 256 * a, y + 256 * b);
    if x != y {
      TrailingZerosLow(8, Xor(x, y), Xor(a, b));
    } else if a != b {
      TrailingZerosHigh(8, Xor(a, b));
    }
  }

  /** `k` is the first place where `s` and `t` differ. */
  predicate FirstDifference(s: seq<byte>, t: seq<byte>, k: nat)
  {
    k < |s| && k < |t| && s[..k] == t[..k] && s[k] != t[k]
  }

  lemma FirstDifferenceLater(s: seq<byte>, t: seq<byte>, k: nat)
    requires s != [] && t != [] && s[0] == t[0] && FirstDifference(s[1..], t[1..], k)
    ensures FirstDifference(s, t, k + 1)
  {
    assert s[..k + 1] == [s[0]] + s[1..][..k] && t[..k + 1] == [t[0]] + t[1..][..k];
  }

  /** The lowest one bit of the exclusive or of two little-endian words lies in the first byte that
      differs. */
  lemma {:induction false} XorFindsDifference(s: seq<byte>, t: seq<byte>)
    requires |s| == |t|
    ensures var diff := Xor(LittleEndian(s), LittleEndian(t));
            if diff == 0 then s == t else FirstDifference(s, t, CountTrailingZeros(diff) / 8)
  {
    hide Xor, CountTrailingZeros, LittleEndian;
    LittleEndianInjective(s, t);
    XorZero(LittleEndian(s), LittleEndian(t));
    if s != t {
      LittleEndianStep(s);
      LittleEndianStep(t);
      XorLowByte(s[0], t[0], LittleEndian(s[1..]), LittleEndian(t[1..]));
      if s[0] == t[0] {
        XorFindsDifference(s[1..], t[1..]);
        FirstDifferenceLater(s, t, CountTrailingZeros(Xor(LittleEndian(s[1..]), LittleEndian(t[1..]))) / 8);
      }
    }
  }
}
