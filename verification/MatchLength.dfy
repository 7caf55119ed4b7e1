/** fast_match_length: eight bytes at a time. */
module MatchLength {
  import opened Bits
  import opened Bytes

  /** `len` is the length of the longest common prefix of src[p..limit] and src[q..]. */
  predicate IsMatchLength(src: seq<byte>, p: nat, q: nat, limit: nat, len: nat)
    requires q <= p <= limit <= |src|
  {
    && p + len <= limit
    && src[p..p + len] == src[q..q + len]
    && (p + len < limit ==> src[p + len] != src[q + len])
  }

  function MatchLen(src: seq<byte>, p: nat, q: nat, limit: nat): (len: nat)
    requires q <= p <= limit <= |src|
    decreases limit - p
  {
    if p < limit && src[p] == src[q] then 1 + MatchLen(src, p + 1, q + 1, limit) else 0
  }

  /** There is one such length. */
  lemma {:induction false} MatchLenUnique(src: seq<byte>, p: nat, q: nat, limit: nat, len: nat)
    requires q <= p <= limit <= |src|
    ensures IsMatchLength(src, p, q, limit, len) <==> len == MatchLen(src, p, q, limit)
    decreases limit - p
  {
    hide IsMatchLength;
    MatchLengthNone(src, p, q, limit);
    if p < limit && src[p] == src[q] {
      if len > 0 {
        MatchLengthStep(src, p, q, limit, len - 1);
        MatchLenUnique(src, p + 1, q + 1, limit, len - 1);
      }
    } else {
      MatchLengthFirst(src, p, q, limit, len);
    }
  }

  lemma MatchLengthNone(src: seq<byte>, p: nat, q: nat, limit: nat)
    requires q <= p <= limit <= |src|
    ensures IsMatchLength(src, p, q, limit, 0) <==> p == limit || src[p] != src[q]
  {
  }

  lemma MatchLengthFirst(src: seq<byte>, p: nat, q: nat, limit: nat, len: nat)
    requires q <= p <= limit <= |src|
    ensures len > 0 && IsMatchLength(src, p, q, limit, len) ==> p < limit && src[p] == src[q]
  {
    if len > 0 && p + len <= limit {
      assert src[p..p + len][0] == src[p] && src[q..q + len][0] == src[q];
    }
  }

  lemma MatchLengthStep(src: seq<byte>, p: nat, q: nat, limit: nat, n: nat)
    requires q <= p < limit <= |src| && src[p] == src[q]
    ensures IsMatchLength(src, p, q, limit, 1 + n) <==> IsMatchLength(src, p + 1, q + 1, limit, n)
  {
    if p + 1 + n <= limit {
      SliceStep(src, p, n);
      SliceStep(src, q, n);
    }
  }

  lemma SliceStep(s: seq<byte>, p: nat, n: nat)
    requires p + 1 + n <= |s|
    ensures s[p..p + (1 + n)] == [s[p]] + s[p + 1..p + 1 + n]
  {
  }

  method FastMatchLength(src: seq<byte>, p0: nat, match0: nat, limit: nat) returns (len: nat)
    requires match0 <= p0 <= limit <= |src|
    ensures IsMatchLength(src, p0, match0, limit, len)
  {
    hide Xor, CountTrailingZeros, Load64, IsMatchLength;
    var p, q := p0, match0;
    while p + 8 <= limit
      invariant p0 <= p <= limit && p - q == p0 - match0
      invariant src[p0..p] == src[match0..q]
    {
      var diff := Xor(Load64(src, p), Load64(src, q));
      WordDifference(src, p, q);
      if diff != 0 {
        var k := CountTrailingZeros(diff) / 8;
        Extend(src, p0, match0, p, q, k);
        EndsHere(src, p0, match0, limit, p - p0 + k);
        return p - p0 + k;
      }
      Extend(src, p0, match0, p, q, 8);
      p, q := p + 8, q + 8;
    }
    p := MatchTail(src, p0, match0, p, q, limit);
    return p - p0;
  }

  /** Two words that differ do so first in the byte that the trailing zeros point at. */
  lemma WordDifference(src: seq<byte>, p: nat, q: nat)
    requires q <= p && p + 8 <= |src|
    ensures var diff := Xor(Load64(src, p), Load64(src, q));
            if diff == 0 then src[p..p + 8] == src[q..q + 8]
            else
              var k := CountTrailingZeros(diff) / 8;
              k < 8 && src[p..p + k] == src[q..q + k] && src[p + k] != src[q + k]
  {
    hide Xor, CountTrailingZeros, LittleEndian;
    var diff := Xor(Load64(src, p), Load64(src, q));
    XorFindsDifference(src[p..p + 8], src[q..q + 8]);
    if diff != 0 {
      DifferenceInWord(src, p, q, CountTrailingZeros(diff) / 8);
    }
  }

  /** The last bytes, one at a time. */
  method MatchTail(src: seq<byte>, ghost p0: nat, ghost match0: nat, p1: nat, q1: nat, limit: nat) returns (p: nat)
    requires match0 <= p0 <= p1 <= limit <= |src| && p1 - q1 == p0 - match0 && src[p0..p1] == src[match0..q1]
    ensures p0 <= p && IsMatchLength(src, p0, match0, limit, p - p0)
  {
    p := p1;
    var q := q1;
    while p < limit && src[p] == src[q]
      invariant p0 <= p <= limit && p - q == p0 - match0
      invariant src[p0..p] == src[match0..q]
    {
      assert src[p..p + 1] == [src[p]] && src[q..q + 1] == [src[q]];
      Extend(src, p0, match0, p, q, 1);
      p, q := p + 1, q + 1;
    }
  }

  lemma EndsHere(src: seq<byte>, p: nat, q: nat, limit: nat, len: nat)
    requires q <= p && p + len < limit <= |src| && src[p..p + len] == src[q..q + len] && src[p + len] != src[q + len]
    ensures IsMatchLength(src, p, q, limit, len)
  {
  }

  lemma DifferenceInWord(src: seq<byte>, p: nat, q: nat, k: nat)
    requires q <= p && p + 8 <= |src| && FirstDifference(src[p..p + 8], src[q..q + 8], k)
    ensures k < 8 && src[p..p + k] == src[q..q + k] && src[p + k] != src[q + k]
  {
    var s, t := src[p..p + 8], src[q..q + 8];
    assert src[p..p + k] == s[..k] && src[q..q + k] == t[..k] && src[p + k] == s[k] && src[q + k] == t[k];
  }

  lemma Extend(src: seq<byte>, p0: nat, q0: nat, p: nat, q: nat, n: nat)
    requires p0 <= p && q0 <= q && p + n <= |src| && q + n <= |src|
    requires src[p0..p] == src[q0..q] && src[p..p + n] == src[q..q + n]
    ensures src[p0..p + n] == src[q0..q + n]
  {
    assert src[p0..p + n] == src[p0..p] + src[p..p + n] && src[q0..q + n] == src[q0..q] + src[q..q + n];
  }
}
