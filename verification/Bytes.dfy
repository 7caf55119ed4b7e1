/** Bytes, and the unaligned little-endian loads and stores of src/compression/snappy.c. */
module Bytes {
  type byte = x: int | 0 <= x < 256

  /** The number of values of a uint32_t. */
  const POW32: int := 0x1_0000_0000

  datatype Option<+T> = None | Some(value: T)

  /** The codes of carquet_status_t that the Snappy functions return. */
  datatype Status = Ok | InvalidCompressedData | CompressionError

  /** A value read from the front of a byte string, and how many bytes it took. */
  datatype Parsed<+T> = Parsed(value: T, size: nat)

  /** The number whose little-endian digits are `s`. */
  function LittleEndian(s: seq<byte>): (v: nat)
  {
    if s == [] then 0 else s[0] + 256 * LittleEndian(s[1..])
  }

  lemma LittleEndianStep(s: seq<byte>)
    requires s != []
    ensures LittleEndian(s) == s[0] + 256 * LittleEndian(s[1..])
  {
  }

  /** Numbers written with equally many digits are equal exactly when the digits are. */
  lemma {:induction false} LittleEndianInjective(s: seq<byte>, t: seq<byte>)
    requires |s| == |t|
    ensures LittleEndian(s) == LittleEndian(t) <==> s == t
  {
    if s != [] {
      LittleEndianInjective(s[1..], t[1..]);
      var hs: int, ht: int, ts, tt := s[0], t[0], LittleEndian(s[1..]), LittleEndian(t[1..]);
      assert (hs + 256 * ts) % 256 == hs && (ht + 256 * tt) % 256 == ht;
      assert s == [s[0]] + s[1..] && t == [t[0]] + t[1..];
    }
  }

  /** The `k` lowest bytes of a number. */
  function LowBytes(v: nat, k: nat): (s: seq<byte>)
    ensures |s| == k
  {
    if k == 0 then [] else [v % 256] + LowBytes(v / 256, k - 1)
  }

  function Pow256(k: nat): nat
  {
    if k == 0 then 1 else 256 * Pow256(k - 1)
  }

  lemma Pow256Values()
    ensures Pow256(1) == 256 && Pow256(2) == 65536 && Pow256(3) == 16777216 && Pow256(4) == POW32
  {
    assert Pow256(2) == 256 * Pow256(1) && Pow256(3) == 256 * Pow256(2) && Pow256(4) == 256 * Pow256(3);
  }

  /** A number that fits is read back from its low bytes, however many more are written. */
  lemma {:induction false} LowBytesRoundTrip(v: nat, k: nat, n: nat)
    requires v < Pow256(k) && k <= n
    ensures LittleEndian(LowBytes(v, n)[..k]) == v
    decreases k
  {
    if k > 0 {
      LowBytesRoundTrip(v / 256, k - 1, n - 1);
      assert LowBytes(v, n)[..k][1..] == LowBytes(v / 256, n - 1)[..k - 1];
    }
  }

  lemma LittleEndianPair(a: byte, b: byte)
    ensures LittleEndian([a, b]) == a + 256 * (b as int)
  {
    assert [a, b][1..] == [b] && [b][1..] == [] && LittleEndian([b]) == b;
  }

  /** load32 and load64: the number in the four or eight bytes at index `i`. */
  function Load32(s: seq<byte>, i: nat): (v: nat)
    requires i + 4 <= |s|
  {
    LittleEndian(s[i..i + 4])
  }

  function Load64(s: seq<byte>, i: nat): (v: nat)
    requires i + 8 <= |s|
  {
    LittleEndian(s[i..i + 8])
  }

  /** `v` moved up by `k` bytes. */
  function ShiftBytes(v: nat, k: nat): nat
  {
    if k == 0 then v else 256 * ShiftBytes(v, k - 1)
  }

  /** The bytes of a number in two parts. */
  lemma {:induction false} LittleEndianSplit(s: seq<byte>, k: nat)
    requires k <= |s|
    ensures LittleEndian(s) == LittleEndian(s[..k]) + ShiftBytes(LittleEndian(s[k..]), k)
    ensures LittleEndian(s[..k]) < Pow256(k)
    decreases k
  {
    if k == 0 {
      assert s[0..] == s;
    } else {
      LittleEndianSplit(s[1..], k - 1);
      assert s[1..][k - 1..] == s[k..] && s[..k][1..] == s[1..][..k - 1];
    }
  }

  lemma ShiftWord(v: nat)
    ensures ShiftBytes(v, 4) == POW32 * v && Pow256(4) == POW32
  {
    assert ShiftBytes(v, 1) == 256 * v;
    assert ShiftBytes(v, 2) == 65536 * v && Pow256(2) == 65536;
    assert ShiftBytes(v, 3) == 16777216 * v && Pow256(3) == 16777216;
  }

  /** Truncating a word to 32 bits keeps its first four bytes. */
  lemma Truncate32(s: seq<byte>)
    requires |s| >= 4
    ensures LittleEndian(s) % POW32 == LittleEndian(s[..4])
  {
    hide LittleEndian, ShiftBytes;
    LittleEndianSplit(s, 4);
    ShiftWord(LittleEndian(s[4..]));
  }

  /** store32 at index `i` of `a`: four bytes are written, whatever the caller keeps of them. */
  method Store32(a: array<byte>, i: nat, v: nat)
    requires i + 4 <= a.Length && v < POW32
    modifies a
    ensures a[i] == v % 256 && a[i + 1] == v / 256 % 256 && a[i + 2] == v / 65536 % 256
    ensures a[i..i + 4] == LowBytes(v, 4)
    ensures forall k | 0 <= k < a.Length && !(i <= k < i + 4) :: a[k] == old(a[k])
  {
    a[i], a[i + 1], a[i + 2], a[i + 3] := v % 256, v / 256 % 256, v / 256 / 256 % 256, v / 256 / 256 / 256 % 256;
    LowBytesFour(v);
    DivideTwice(v);
    hide LowBytes;
    assert a[i..i + 4] == [a[i], a[i + 1], a[i + 2], a[i + 3]];
  }

  lemma DivideTwice(u: nat)
    ensures u / 65536 == u / 256 / 256
  {
  }

  lemma LowBytesFour(v: nat)
    ensures LowBytes(v, 4) == [v % 256, v / 256 % 256, v / 256 / 256 % 256, v / 256 / 256 / 256 % 256]
  {
    assert LowBytes(v, 4) == [v % 256, v / 256 % 256] + LowBytes(v / 256 / 256, 2);
  }

  /** memmove inside one array: all `n` bytes are loaded before the first is stored. copy64,
      copy128 and the 64-byte memmove are its instances with n = 8, 16 and 64. */
  method Move(a: array<byte>, from: nat, to: nat, n: nat)
    requires from + n <= a.Length && to + n <= a.Length
    modifies a
    ensures forall k | to <= k < to + n :: a[k] == old(a[k - to + from])
    ensures forall k | 0 <= k < a.Length && !(to <= k < to + n) :: a[k] == old(a[k])
  {
    forall k | to <= k < to + n {
      a[k] := a[k - to + from];
    }
  }

  /** memcpy of `s[from..from + n]` to index `to` of `a`. */
  method CopyIn(s: seq<byte>, from: nat, a: array<byte>, to: nat, n: nat)
    requires from + n <= |s| && to + n <= a.Length
    modifies a
    ensures forall k | to <= k < to + n :: a[k] == s[k - to + from]
    ensures forall k | 0 <= k < a.Length && !(to <= k < to + n) :: a[k] == old(a[k])
  {
    forall k | to <= k < to + n {
      a[k] := s[k - to + from];
    }
  }
}
