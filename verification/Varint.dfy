/** The preamble of a Snappy stream: section 1 of format_description.txt. */
module Varint {
  import opened Bytes

  /** The base-128 number at the front of `s`, from its digit `k` on. A digit of 128 or more says
      that another follows; the fifth may only hold the four bits that are left of 32. */
  function Decode(s: seq<byte>, k: nat := 0): (r: Option<Parsed<nat>>)
    requires k <= 4
    ensures r.Some? ==> r.value.value < Limit(k) && 1 <= r.value.size <= |s|
    decreases 4 - k
  {
    if s == [] then None
    else if s[0] < (if k == 4 then 16 else 128) then Some(Parsed(s[0], 1))
    else if k == 4 then None
    else
      match Decode(s[1..], k + 1)
      case None => None
      case Some(p) => Some(Parsed(s[0] - 128 + 128 * p.value, p.size + 1))
  }

  /** What the digits from `k` on can represent. */
  function Limit(k: nat): (n: nat)
    requires k <= 4
    ensures k == 0 ==> n == POW32
  {
    match k
    case 4 => 0x10
    case 3 => 0x800
    case 2 => 0x4_0000
    case 1 => 0x200_0000
    case _ => 0x1_0000_0000
  }

  function Encode(v: nat): (s: seq<byte>)
    ensures s != []
  {
    if v < 128 then [v] else [v % 128 + 128] + Encode(v / 128)
  }

  lemma LimitNext(v: nat, k: nat)
    requires k <= 4 && v < Limit(k)
    ensures k == 4 ==> v < 16
    ensures k < 4 ==> v / 128 < Limit(k + 1)
  {
  }

  /** Reading back what was written gives the value and consumes exactly its bytes, whatever
      follows them; a uint32 takes at most five. */
  lemma {:induction false} DecodeEncode(v: nat, rest: seq<byte>, k: nat := 0)
    requires k <= 4 && v < Limit(k)
    ensures Decode(Encode(v) + rest, k) == Some(Parsed(v, |Encode(v)|))
    ensures 1 <= |Encode(v)| <= 5 - k
    decreases 4 - k
  {
    hide Limit;
    LimitNext(v, k);
    if v >= 128 {
      DecodeEncode(v / 128, rest, k + 1);
      assert (Encode(v) + rest)[1..] == Encode(v / 128) + rest;
    }
  }

  /** Reading a number does not look past its end. */
  lemma {:induction false} DecodePrefix(s: seq<byte>, t: seq<byte>, k: nat := 0)
    requires k <= 4 && Decode(s, k).Some?
    ensures Decode(s + t, k) == Decode(s, k)
    decreases 4 - k
  {
    hide Limit;
    assert (s + t)[0] == s[0] && (s + t)[1..] == s[1..] + t;
    if s[0] >= (if k == 4 then 16 else 128) {
      DecodePrefix(s[1..], t, k + 1);
    }
  }

  /** A number can be read from more bytes than it is written to, but not from fewer, nor from others. */
  lemma {:induction false} DecodeShortest(s: seq<byte>, k: nat := 0)
    requires k <= 4 && Decode(s, k).Some?
    ensures var p := Decode(s, k).value;
            |Encode(p.value)| <= p.size && (|Encode(p.value)| == p.size ==> s[..p.size] == Encode(p.value))
    decreases 4 - k
  {
    hide Limit, Encode;
    if s[0] < (if k == 4 then 16 else 128) {
      EncodeDigit(s[0], 0);
      assert s[..1] == [s[0]];
    } else {
      DecodeShortest(s[1..], k + 1);
      var p := Decode(s[1..], k + 1).value;
      EncodeDigit(s[0] - 128, p.value);
      assert s[..1 + p.size] == [s[0]] + s[1..][..p.size];
    }
  }

  lemma EncodeDigit(low: nat, high: nat)
    requires low < 128
    ensures Encode(low + 128 * high) == if high == 0 then [low] else [low + 128] + Encode(high)
  {
    LowDigit(low, high);
  }

  lemma LowDigit(low: nat, high: nat)
    requires low < 128
    ensures (low + 128 * high) % 128 == low && (low + 128 * high) / 128 == high
  {
  }

  /** What digit `k` counts for. */
  function Weight(k: nat): nat
    requires k <= 4
  {
    match k
    case 0 => 1
    case 1 => 0x80
    case 2 => 0x4000
    case 3 => 0x20_0000
    case _ => 0x1000_0000
  }

  /** The number at the front of `s`, when its digits before `k` make `low`. */
  function From(s: seq<byte>, low: nat, k: nat): Option<Parsed<nat>>
    requires k <= 4 && k <= |s|
  {
    match Decode(s[k..], k)
    case None => None
    case Some(p) => Some(Parsed(low + Weight(k) * p.value, k + p.size))
  }

  lemma FromStart(s: seq<byte>)
    ensures From(s, 0, 0) == Decode(s)
  {
    hide Decode;
    assert s[0..] == s;
  }

  /** One more digit: it is missing or too large, or the last, or one that goes on. */
  lemma FromNext(s: seq<byte>, low: nat, k: nat, w: nat)
    requires k <= 4 && k <= |s| && w == Weight(k)
    ensures From(s, low, k) == (
              if k == |s| then None
              else if s[k] < (if k == 4 then 16 else 128) then Some(Parsed(low + s[k] % 128 * w, k + 1))
              else if k == 4 then None
              else From(s, low + s[k] % 128 * w, k + 1))
  {
    DecodeDigit(s, k);
    hide Decode;
    if k < 4 && k < |s| && s[k] >= 128 && Decode(s[k + 1..], k + 1).Some? {
      WeightNext(k, s[k] % 128, Decode(s[k + 1..], k + 1).value.value);
    }
  }

  lemma WeightNext(k: nat, digit: nat, rest: nat)
    requires k < 4
    ensures Weight(k) * (digit + 128 * rest) == digit * Weight(k) + Weight(k + 1) * rest
  {
    match k case 0 => case 1 => case 2 => case _ =>
  }

  lemma DecodeDigit(s: seq<byte>, k: nat)
    requires k <= 4 && k <= |s|
    ensures Decode(s[k..], k) == (
              if k == |s| then None
              else if s[k] < (if k == 4 then 16 else 128) then Some(Parsed(s[k] % 128, 1))
              else if k == 4 || Decode(s[k + 1..], k + 1).None? then None
              else var p := Decode(s[k + 1..], k + 1).value;
                   Some(Parsed(s[k] % 128 + 128 * p.value, p.size + 1)))
  {
    if k < |s| {
      assert s[k..][1..] == s[k + 1..];
    }
  }

  /** Up to five digits of seven bits each make the number, also when there are more than it needs; of
      the fifth, only four bits are left. */
  lemma DecodeDigits(s: seq<byte>, n: nat)
    requires 1 <= n <= 5 && n <= |s| && (forall i | 0 <= i < n - 1 :: s[i] >= 128)
    requires s[n - 1] < if n == 5 then 16 else 128
    ensures Decode(s) ==
            Some(Parsed(s[0] as int % 128
                        + (if n > 1 then s[1] as int % 128 * 128 else 0)
                        + (if n > 2 then s[2] as int % 128 * 16384 else 0)
                        + (if n > 3 then s[3] as int % 128 * 2097152 else 0)
                        + (if n > 4 then s[4] as int % 128 * 268435456 else 0), n))
  {
    hide Decode, From;
    FromStart(s);
    FromNext(s, 0, 0, 1);
    var low: nat := s[0] as int % 128;
    if n > 1 {
      FromNext(s, low, 1, 128);
      low := low + s[1] as int % 128 * 128;
    }
    if n > 2 {
      FromNext(s, low, 2, 16384);
      low := low + s[2] as int % 128 * 16384;
    }
    if n > 3 {
      FromNext(s, low, 3, 2097152);
      low := low + s[3] as int % 128 * 2097152;
    }
    if n > 4 {
      FromNext(s, low, 4, 268435456);
    }
  }

  /** A number that is cut short is refused, and one whose fifth digit does not fit. */
  lemma DecodeRefuses(s: seq<byte>)
    requires forall i | 0 <= i < |s| && i < 4 :: s[i] >= 128
    requires |s| > 4 ==> s[4] >= 16
    ensures Decode(s) == None
  {
    hide Decode, From;
    FromStart(s);
    FromNext(s, 0, 0, 1);
    if |s| > 0 {
      var low: nat := s[0] as int % 128;
      FromNext(s, low, 1, 128);
      if |s| > 1 {
        low := low + s[1] as int % 128 * 128;
        FromNext(s, low, 2, 16384);
        if |s| > 2 {
          low := low + s[2] as int % 128 * 16384;
          FromNext(s, low, 3, 2097152);
          if |s| > 3 {
            low := low + s[3] as int % 128 * 2097152;
            FromNext(s, low, 4, 268435456);
          }
        }
      }
    }
  }

  /** The fifth digit fits into what is left of 32 bits when it is the last. */
  lemma FifthDigit(low: nat, b: nat)
    requires low < 0x1000_0000
    ensures b < 16 ==> (low + b % 128 * 0x1000_0000) % POW32 == low + b % 128 * 0x1000_0000
  {
  }

  /** snappy_read_varint. */
  method Read(src: seq<byte>) returns (r: Option<Parsed<nat>>)
    ensures r == Decode(src)
  {
    hide Decode, Limit, From;
    FromStart(src);
    FromNext(src, 0, 0, 1);
    if |src| <= 0 { return None; }
    var b: int := src[0];
    var result: nat := b % 128;
    assert result < 0x80;
    if b < 128 { return Some(Parsed(result, 1)); }
    FromNext(src, result, 1, 0x80);
    if |src| <= 1 { return None; }
    b := src[1];
    result := result + b % 128 * 0x80;
    assert result < 0x4000;
    if b < 128 { return Some(Parsed(result, 2)); }
    FromNext(src, result, 2, 0x4000);
    if |src| <= 2 { return None; }
    b := src[2];
    result := result + b % 128 * 0x4000;
    assert result < 0x20_0000;
    if b < 128 { return Some(Parsed(result, 3)); }
    FromNext(src, result, 3, 0x20_0000);
    if |src| <= 3 { return None; }
    b := src[3];
    result := result + b % 128 * 0x20_0000;
    assert result < 0x1000_0000;
    if b < 128 { return Some(Parsed(result, 4)); }
    FromNext(src, result, 4, 0x1000_0000);
    if |src| <= 4 { return None; }
    b := src[4];
    FifthDigit(result, b);
    result := (result + b % 128 * 0x1000_0000) % POW32;
    if b < 16 { return Some(Parsed(result, 5)); }
    return None;
  }

  /** snappy_write_varint. */
  method Write(dst: array<byte>, op0: nat, value0: nat) returns (op: nat)
    requires value0 < POW32 && op0 + 5 <= dst.Length
    modifies dst
    ensures op0 < op <= op0 + 5 && dst[op0..op] == Encode(value0)
    ensures forall k | 0 <= k < dst.Length && !(op0 <= k < op) :: dst[k] == old(dst[k])
  {
    hide Decode, Limit, Encode;
    op := op0;
    var value := value0;
    EncodedSize(value);
    EncodeAll([], value);
    ghost var done: seq<byte> := [];
    while value >= 0x80
      invariant op == op0 + |done| && done + Encode(value) == Encode(value0)
      invariant forall k | 0 <= k < |done| :: dst[op0 + k] == done[k]
      invariant forall k | 0 <= k < dst.Length && !(op0 <= k < op) :: dst[k] == old(dst[k])
    {
      dst[op] := value % 128 + 128;
      EncodeMore(done, value);
      done := done + [value % 128 + 128];
      value, op := value / 128, op + 1;
    }
    dst[op] := value;
    op := op + 1;
    EncodeLast(value);
    assert dst[op0..op] == done + [value];
  }

  lemma EncodedSize(v: nat)
    requires v < POW32
    ensures |Encode(v)| <= 5
  {
    hide Decode;
    DecodeEncode(v, []);
  }

  lemma EncodeAll(done: seq<byte>, v: nat)
    requires done == []
    ensures done + Encode(v) == Encode(v)
  {
  }

  lemma EncodeMore(done: seq<byte>, v: nat)
    requires v >= 128
    ensures done + Encode(v) == done + [v % 128 + 128] + Encode(v / 128)
  {
  }

  lemma EncodeLast(v: nat)
    requires v < 128
    ensures Encode(v) == [v]
  {
  }
}
