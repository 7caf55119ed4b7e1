/** snappy_emit_literal and snappy_emit_copy: the bytes they write decode to the element they were
    asked for, although some of their stores are wider than what they keep. */
module Emit {
  import opened Bits
  import opened Bytes
  import opened Shortest
  import opened SnappyFormat

  lemma OneElement(s: seq<byte>, e: Element)
    requires |s| > 0 && NextElement(s) == Some(Parsed(e, |s|))
    ensures Elements(s) == Some([e])
  {
    hide NextElement;
    assert s[|s|..] == [] && [e] + [] == [e];
  }

  // ---- literals ----

  /** The length less one is held in as many bytes as it needs. */
  function ExtraBytes(n: nat): (count: nat)
    requires 0 < n < POW32
  {
    (31 - CountLeadingZeros(n)) / 8 + 1
  }

  lemma ExtraBytesSuffice(n: nat)
    requires 0 < n < POW32
    ensures 1 <= ExtraBytes(n) <= 4 && n < Pow256(ExtraBytes(n))
    ensures n >= 60 ==> ExtraBytes(n) <= (n + 1) / 60
    ensures ExtraBytes(n) == if n < 256 then 1 else if n < 65536 then 2 else if n < 16777216 then 3 else 4
  {
    hide CountLeadingZeros, Pow2, Pow256;
    var bits := 32 - CountLeadingZeros(n);
    Pow2Bytes();
    Pow256Values();
    assert ExtraBytes(n) == (bits - 1) / 8 + 1;
    if bits <= 8 {
      Pow2Monotone(bits, 8);
    } else if bits <= 16 {
      Pow2Monotone(bits, 16);
      Pow2Monotone(8, bits - 1);
    } else if bits <= 24 {
      Pow2Monotone(bits, 24);
      Pow2Monotone(16, bits - 1);
    } else {
      Pow2Monotone(24, bits - 1);
    }
  }

  /** The header of a literal of `len` bytes, in the form the encoder chooses. */
  function HeaderBytes(len: nat): (s: seq<byte>)
    requires 1 <= len < POW32
    ensures 1 <= |s| <= 1 + len / 60 && (len <= 60 ==> |s| == 1) && |s| <= 5
  {
    var n := len - 1;
    if n < 60 then [n * 4]
    else
      ExtraBytesSuffice(n);
      [(59 + ExtraBytes(n)) * 4] + LowBytes(n, 4)[..ExtraBytes(n)]
  }

  lemma HeaderForms(len: nat)
    requires 1 <= len < POW32
    ensures len <= 60 ==> HeaderBytes(len) == [(len - 1) * 4]
    ensures len > 60 ==>
              var count := ExtraBytes(len - 1);
              count <= 4 && HeaderBytes(len) == [(59 + count) * 4] + LowBytes(len - 1, 4)[..count]
  {
    hide ExtraBytes, LowBytes;
    if len > 60 { ExtraBytesSuffice(len - 1); }
  }

  /** No shorter header would do. */
  lemma HeaderShortest(literal: seq<byte>)
    requires 1 <= |literal| < POW32
    ensures |HeaderBytes(|literal|)| + |literal| == ShortestSize(Literal(literal))
  {
    hide ExtraBytes, LowBytes, HeaderBytes;
    HeaderForms(|literal|);
    if |literal| > 60 { ExtraBytesSuffice(|literal| - 1); }
  }

  /** Whichever form it takes, the header is read back as the length. */
  lemma HeaderRoundTrip(len: nat, rest: seq<byte>)
    requires 1 <= len < POW32
    ensures HeaderBytes(len)[0] % 4 == 0
    ensures LiteralHeader(HeaderBytes(len) + rest) == Some(Parsed(len, |HeaderBytes(len)|))
  {
    hide LittleEndian, ExtraBytes, LowBytes, HeaderBytes;
    var s, n := HeaderBytes(len) + rest, len - 1;
    HeaderForms(len);
    if n >= 60 {
      ExtraBytesSuffice(n);
      LowBytesRoundTrip(n, ExtraBytes(n), 4);
      assert s[1..1 + ExtraBytes(n)] == LowBytes(n, 4)[..ExtraBytes(n)];
    }
  }

  lemma LiteralAfter(header: seq<byte>, literal: seq<byte>)
    requires header != [] && header[0] % 4 == 0
    requires LiteralHeader(header + literal) == Some(Parsed(|literal|, |header|))
    ensures Elements(header + literal) == Some([Literal(literal)])
  {
    hide LiteralHeader, NextElement, Elements;
    var s := header + literal;
    SuffixOf(header, literal);
    NextLiteral(s);
    OneElement(s, Literal(literal));
  }

  lemma SuffixOf(a: seq<byte>, b: seq<byte>)
    ensures (a + b)[|a|..|a| + |b|] == b
    ensures a != [] ==> (a + b)[0] == a[0]
  {
  }

  lemma LiteralRoundTrip(literal: seq<byte>)
    requires 1 <= |literal| < POW32
    ensures Elements(HeaderBytes(|literal|) + literal) == Some([Literal(literal)])
  {
    hide HeaderBytes, LiteralHeader, Elements;
    HeaderRoundTrip(|literal|, literal);
    LiteralAfter(HeaderBytes(|literal|), literal);
  }

  lemma TagAndLength(s: seq<byte>, word: seq<byte>, count: nat)
    requires |s| == 5 && count <= 4
    ensures s[1..] == word ==> s[..1 + count] == [s[0]] + word[..count]
  {
  }

  /** The long form: a tag, and as many bytes of the length as it needs, stored as a whole word. */
  method StoreLength(dst: array<byte>, op0: nat, n: nat) returns (op: nat)
    requires 60 <= n < POW32 && op0 + 5 <= dst.Length
    modifies dst
    ensures 1 <= ExtraBytes(n) <= 4 && op == op0 + 1 + ExtraBytes(n)
    ensures dst[op0..op] == [(59 + ExtraBytes(n)) * 4] + LowBytes(n, 4)[..ExtraBytes(n)]
    ensures forall k | 0 <= k < dst.Length && !(op0 <= k < op0 + 5) :: dst[k] == old(dst[k])
  {
    hide LowBytes, CountLeadingZeros, Pow256;
    ExtraBytesSuffice(n);
    var count := (31 - CountLeadingZeros(n)) / 8 + 1;
    dst[op0] := (59 + count) * 4;
    Store32(dst, op0 + 1, n);
    op := op0 + 1 + count;
    TagAndLength(dst[op0..op0 + 5], LowBytes(n, 4), count);
    assert dst[op0..op0 + 5][1..] == dst[op0 + 1..op0 + 5];
    assert dst[op0..op] == dst[op0..op0 + 5][..1 + count];
  }

  method EmitLiteralHeader(dst: array<byte>, op0: nat, len: nat) returns (op: nat)
    requires 1 <= len < POW32 && op0 + len + 1 + len / 60 <= dst.Length
    modifies dst
    ensures op == op0 + |HeaderBytes(len)| && dst[op0..op] == HeaderBytes(len)
    ensures forall k | 0 <= k < dst.Length && !(op0 <= k < op + len) :: dst[k] == old(dst[k])
  {
    hide HeaderBytes;
    var n := len - 1;
    HeaderForms(len);
    if n < 60 {
      dst[op0] := n * 4;
      assert dst[op0..op0 + 1] == [dst[op0]];
      return op0 + 1;
    }
    op := StoreLength(dst, op0, n);
  }

  /** snappy_emit_literal: the literal is src[from..from + len]. It costs at most one byte and a
      sixtieth more than its content. */
  method EmitLiteral(dst: array<byte>, op0: nat, src: seq<byte>, from: nat, len: nat) returns (op: nat)
    requires 1 <= len < POW32 && from + len <= |src| && op0 + len + 1 + len / 60 <= dst.Length
    modifies dst
    ensures op0 < op <= op0 + len + 1 + len / 60
    ensures Elements(dst[op0..op]) == Some([Literal(src[from..from + len])])
    ensures op - op0 == ShortestSize(Literal(src[from..from + len]))
    ensures forall k | 0 <= k < dst.Length && !(op0 <= k < op) :: dst[k] == old(dst[k])
  {
    hide HeaderBytes, Elements, ShortestSize;
    op := EmitLiteralHeader(dst, op0, len);
    CopyIn(src, from, dst, op, len);
    ghost var literal, start := src[from..from + len], op;
    op := op + len;
    forall j | 0 <= j < len ensures dst[start..op][j] == literal[j] {
      assert dst[start + j] == src[start + j - start + from];
    }
    assert dst[start..op] == literal;
    assert dst[op0..start] == HeaderBytes(len);
    assert dst[op0..op] == HeaderBytes(len) + literal;
    LiteralRoundTrip(literal);
    HeaderShortest(literal);
  }

  // ---- copies ----

  /** The copies that one of `len` bytes is split into: of 64 bytes as long as four are left. */
  function CopyElements(offset: nat, len: nat): (es: seq<Element>)
    requires len >= 4
    decreases len
  {
    if len >= 68 then [Copy(offset, 64)] + CopyElements(offset, len - 64)
    else if len > 64 then [Copy(offset, 60), Copy(offset, len - 60)]
    else [Copy(offset, len)]
  }

  /** They have from 4 to 64 bytes each, and `len` together. */
  lemma {:induction false} CopyElementsSplit(offset: nat, len: nat)
    requires len >= 4
    ensures SplitsCopy(CopyElements(offset, len), offset, len)
    decreases len
  {
    var es := CopyElements(offset, len);
    if len >= 68 {
      CopyElementsSplit(offset, len - 64);
      assert es[1..] == CopyElements(offset, len - 64);
    } else if len > 64 {
      assert es[1..] == [Copy(offset, len - 60)] && es[1..][1..] == [];
    } else {
      assert es[1..] == [];
    }
  }

  /** There are as few as there can be. All but the last are of 64 bytes, except that the last but one
      is of 60 when only one to three would be left for the last. */
  lemma {:induction false} CopyElementsLengths(offset: nat, len: nat)
    requires len >= 4
    ensures var es := CopyElements(offset, len);
            && |es| == (len + 63) / 64
            && (forall i | 0 <= i < |es| - 2 :: es[i] == Copy(offset, 64))
            && (|es| >= 2 ==> es[|es| - 2] == Copy(offset, if 1 <= len % 64 <= 3 then 60 else 64))
    decreases len
  {
    if len >= 68 {
      CopyElementsLengths(offset, len - 64);
      PieceCount(len);
    } else {
      LastPieces(len);
    }
  }

  lemma PieceCount(len: nat)
    requires len >= 64
    ensures (len - 64) % 64 == len % 64 && (len - 64 + 63) / 64 + 1 == (len + 63) / 64
  {
  }

  lemma LastPieces(len: nat)
    requires 4 <= len < 68
    ensures len <= 64 ==> (len + 63) / 64 == 1
    ensures len > 64 ==> (len + 63) / 64 == 2 && 1 <= len % 64 <= 3
  {
  }

  /** `es` are copies with the given offset, of 4 to 64 bytes each and `len` together. */
  predicate SplitsCopy(es: seq<Element>, offset: nat, len: nat)
    decreases |es|
  {
    if es == [] then len == 0
    else es[0].Copy? && es[0].offset == offset && 4 <= es[0].len <= 64 && es[0].len <= len &&
         SplitsCopy(es[1..], offset, len - es[0].len)
  }

  /** Together they do what one copy of that length would. */
  lemma {:induction false} SplitCopyIsCopy(es: seq<Element>, offset: nat, len: nat, out: seq<byte>)
    requires SplitsCopy(es, offset, len) && 1 <= offset <= |out|
    ensures Replay(es, out) == Some(OverlapCopy(out, offset, len))
    decreases |es|
  {
    hide OverlapCopy;
    if es == [] {
      assert OverlapCopy(out, offset, 0) == out by { OverlapCopyNothing(out, offset); }
    } else {
      OverlapCopySplits(out, offset, es[0].len, len - es[0].len);
      SplitCopyIsCopy(es[1..], offset, len - es[0].len, OverlapCopy(out, offset, es[0].len));
    }
  }

  lemma OverlapCopyNothing(out: seq<byte>, offset: nat)
    requires 1 <= offset <= |out|
    ensures OverlapCopy(out, offset, 0) == out
  {
  }

  /** The three bytes of a copy with a 16-bit offset. */
  lemma Copy2RoundTrip(s: seq<byte>, offset: nat, len: nat)
    requires 1 <= len <= 64 && offset < 65536
    requires |s| == 3 && s[0] == (len - 1) * 4 + 2 && s[1] == offset % 256 && s[2] == offset / 256
    ensures Elements(s) == Some([Copy(offset, len)])
  {
    hide Elements, LittleEndian, LiteralHeader;
    assert s[1..3] == [s[1], s[2]];
    LittleEndianPair(s[1], s[2]);
    OneElement(s, Copy(offset, len));
  }

  /** The two bytes of a copy of 4 to 11 bytes with an 11-bit offset. */
  lemma Copy1RoundTrip(s: seq<byte>, offset: nat, len: nat)
    requires 4 <= len < 12 && offset < 2048
    requires |s| == 2 && s[0] == (len - 4) * 4 + 1 + offset / 256 * 32 && s[1] == offset % 256
    ensures Elements(s) == Some([Copy(offset, len)])
  {
    hide Elements, LittleEndian, LiteralHeader;
    var tag: int := s[0];
    assert tag % 4 == 1 && tag / 32 == offset / 256 && tag / 4 % 8 == len - 4;
    OneElement(s, Copy(offset, len));
  }

  method StoreCopy2(dst: array<byte>, op: nat, offset: nat, len: nat)
    requires 1 <= len <= 64 && offset < 65536 && op + 3 <= dst.Length
    modifies dst
    ensures Elements(dst[op..op + 3]) == Some([Copy(offset, len)])
    ensures forall k | 0 <= k < dst.Length && !(op <= k < op + 3) :: dst[k] == old(dst[k])
  {
    hide Elements;
    dst[op], dst[op + 1], dst[op + 2] := (len - 1) * 4 + 2, offset % 256, offset / 256;
    Copy2RoundTrip(dst[op..op + 3], offset, len);
  }

  lemma Copy1Word(offset: nat, len: nat)
    requires 4 <= len < 12 && offset < 2048
    ensures var u := len * 4 + offset * 256 + (1 - 16 + offset / 8 / 32 % 8 * 32);
            0 <= u < POW32 && u % 256 == (len - 4) * 4 + 1 + offset / 256 * 32 && u / 256 % 256 == offset % 256
  {
    HighOffsetBits(offset);
    var low := (len - 4) * 4 + 1 + offset / 256 * 32;
    SplitByte(offset, low);
  }

  lemma HighOffsetBits(offset: nat)
    requires offset < 2048
    ensures offset / 8 / 32 % 8 == offset / 256
  {
    var q := offset / 256;
    assert 32 * q <= offset / 8 < 32 * (q + 1);
  }

  lemma SplitByte(high: nat, low: nat)
    requires low < 256
    ensures (256 * high + low) % 256 == low && (256 * high + low) / 256 == high
  {
  }

  lemma Copy2Word(offset: nat, len: nat)
    requires 1 <= len <= 64 && offset < 65536
    ensures var u := 2 + (len - 1) * 4 + offset * 256;
            && u < POW32 && u % 256 == (len - 1) * 4 + 2
            && u / 256 % 256 == offset % 256 && u / 65536 % 256 == offset / 256
  {
    SplitByte(offset, (len - 1) * 4 + 2);
    DivideTwice(2 + (len - 1) * 4 + offset * 256);
  }

  /** The last element of a copy, in the shorter form when that can hold it. Both words are stored
      whole, four bytes for the two or three that count. */
  method EmitLastCopy(dst: array<byte>, op0: nat, offset: nat, len: nat) returns (op: nat)
    requires 4 <= len <= 64 && 1 <= offset < 65536 && op0 + len + 1 <= dst.Length
    modifies dst
    ensures op0 < op <= op0 + len - 1 && op - op0 == ShortestSize(Copy(offset, len))
    ensures Elements(dst[op0..op]) == Some([Copy(offset, len)])
    ensures forall k | 0 <= k < dst.Length && !(op0 <= k < op + 2) :: dst[k] == old(dst[k])
  {
    hide Elements, LowBytes;
    if len < 12 && offset < 2048 {
      var u := len * 4 + offset * 256;
      u := u + (1 - 16 + offset / 8 / 32 % 8 * 32);
      Copy1Word(offset, len);
      Store32(dst, op0, u);
      Copy1RoundTrip(dst[op0..op0 + 2], offset, len);
      return op0 + 2;
    } else if len < 12 {
      var u := 2 + (len - 1) * 4 + offset * 256;
      Copy2Word(offset, len);
      Store32(dst, op0, u);
      Copy2RoundTrip(dst[op0..op0 + 3], offset, len);
      return op0 + 3;
    } else {
      StoreCopy2(dst, op0, offset, len);
      return op0 + 3;
    }
  }

  /** An element is appended to those written so far. */
  method AppendCopy2(dst: array<byte>, op0: nat, op: nat, offset: nat, ghost done: seq<Element>, len: nat)
    requires 12 <= len <= 64 && offset < 65536 && op0 <= op && op + 3 <= dst.Length
    requires Elements(dst[op0..op]) == Some(done) && op - op0 == ShortestTotal(done)
    modifies dst
    ensures Elements(dst[op0..op + 3]) == Some(done + [Copy(offset, len)])
    ensures op + 3 - op0 == ShortestTotal(done + [Copy(offset, len)])
    ensures forall k | 0 <= k < dst.Length && !(op <= k < op + 3) :: dst[k] == old(dst[k])
  {
    hide Elements, ShortestTotal;
    ghost var bytes := dst[op0..op];
    StoreCopy2(dst, op, offset, len);
    ShortestMore(done, Copy(offset, len));
    ElementsAppend(bytes, dst[op..op + 3]);
    assert dst[op0..op + 3] == bytes + dst[op..op + 3];
  }

  /** The last one or two elements. */
  method AppendLastCopies(dst: array<byte>, op0: nat, op1: nat, offset: nat, ghost done0: seq<Element>, len0: nat)
    returns (op: nat)
    requires 4 <= len0 < 68 && 1 <= offset < 65536 && op0 <= op1 && op1 + len0 + 1 <= dst.Length
    requires Elements(dst[op0..op1]) == Some(done0) && op1 - op0 == ShortestTotal(done0)
    modifies dst
    ensures op1 < op <= op1 + len0 - 1 && Elements(dst[op0..op]) == Some(done0 + CopyElements(offset, len0))
    ensures op - op0 == ShortestTotal(done0 + CopyElements(offset, len0))
    ensures forall k | 0 <= k < dst.Length && !(op1 <= k < op + 2) :: dst[k] == old(dst[k])
  {
    hide Elements, ShortestTotal, ShortestSize;
    var len := len0;
    op := op1;
    ghost var done := done0;
    if len > 64 {
      AppendCopy2(dst, op0, op, offset, done, 60);
      op, len, done := op + 3, len - 60, done + [Copy(offset, 60)];
    }
    ghost var bytes, start := dst[op0..op], op;
    op := EmitLastCopy(dst, op, offset, len);
    ShortestMore(done, Copy(offset, len));
    ElementsAppend(bytes, dst[start..op]);
    assert dst[op0..op] == bytes + dst[start..op];
    assert done + [Copy(offset, len)] == done0 + CopyElements(offset, len0);
  }

  lemma NoElements(s: seq<byte>, es: seq<Element>)
    requires s == []
    ensures Elements(s) == Some([]) && [] + es == es
  {
  }

  lemma CopyElementsStep(done: seq<Element>, offset: nat, len: nat)
    requires len >= 68
    ensures done + CopyElements(offset, len) == done + [Copy(offset, 64)] + CopyElements(offset, len - 64)
  {
  }

  /** snappy_emit_copy. What it writes are the elements that the copy is split into, in fewer bytes
      than the match has; the last store may spill two bytes past the end. */
  method EmitCopy(dst: array<byte>, op0: nat, offset: nat, len0: nat) returns (op: nat)
    requires 4 <= len0 && 1 <= offset < 65536 && op0 + len0 + 1 <= dst.Length
    modifies dst
    ensures op0 < op <= op0 + len0 - 1
    ensures Elements(dst[op0..op]) == Some(CopyElements(offset, len0))
    ensures op - op0 == ShortestTotal(CopyElements(offset, len0))
    ensures forall k | 0 <= k < dst.Length && !(op0 <= k < op + 2) :: dst[k] == old(dst[k])
  {
    hide Elements, CopyElements, ShortestTotal;
    op := op0;
    var len := len0;
    ghost var done: seq<Element> := [];
    NoElements(dst[op0..op], CopyElements(offset, len));
    assert ShortestTotal(done) == 0 by { ShortestNone(done); }
    while len >= 68
      invariant op0 <= op && op - op0 + len <= len0 && 4 <= len
      invariant Elements(dst[op0..op]) == Some(done) && op - op0 == ShortestTotal(done)
      invariant done + CopyElements(offset, len) == CopyElements(offset, len0)
      invariant forall k | 0 <= k < dst.Length && !(op0 <= k < op) :: dst[k] == old(dst[k])
      decreases len
    {
      AppendCopy2(dst, op0, op, offset, done, 64);
      CopyElementsStep(done, offset, len);
      op, len, done := op + 3, len - 64, done + [Copy(offset, 64)];
    }
    op := AppendLastCopies(dst, op0, op, offset, done, len);
  }
}
