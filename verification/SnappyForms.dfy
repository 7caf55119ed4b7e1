/** The forms an element can be written in, byte by byte: sections 2.1 and 2.2 of
    format_description.txt. Every one of them is read, whatever follows it, and nothing else is. */
module SnappyForms {
  import opened Bytes
  import opened SnappyFormat
  import opened SnappyReference
  import Varint

  lemma ShortLiteralForm(b: seq<byte>, rest: seq<byte>)
    requires 1 <= |b| <= 60
    ensures NextElement([(|b| - 1) * 4] + b + rest) == Some(Parsed(Literal(b), 1 + |b|))
  {
    hide NextElement, LittleEndian;
    var s := [(|b| - 1) * 4] + b + rest;
    NextLiteral(s);
    assert s[1..1 + |b|] == b;
  }

  /** One to four bytes hold the length less one, as many as are left over from it or more. A length of
      2^32 becomes none in the 32 bits that the decoder computes in. */
  lemma LongLiteralForm(count: nat, n: nat, b: seq<byte>, rest: seq<byte>)
    requires 1 <= count <= 4 && n < Pow256(count) && |b| == if n == 0xFFFF_FFFF then 0 else n + 1
    ensures NextElement([(59 + count) * 4] + LowBytes(n, count) + b + rest) ==
            Some(Parsed(Literal(b), 1 + count + |b|))
  {
    hide NextElement, LittleEndian, LowBytes, Pow256;
    var tag, stored := (59 + count) * 4, LowBytes(n, count);
    var s := [tag] + stored + b + rest;
    assert s[0] == tag && tag % 4 == 0 && tag / 4 == 59 + count;
    assert s[1..1 + count] == stored && stored[..count] == stored;
    LowBytesRoundTrip(n, count, count);
    Pow256Bound(count);
    WrapsAt32(n);
    assert LiteralHeader(s) == Some(Parsed(|b|, 1 + count));
    NextLiteral(s);
    assert s[1 + count..1 + count + |b|] == b;
  }

  lemma Pow256Bound(count: nat)
    requires 1 <= count <= 4
    ensures Pow256(count) <= POW32
  {
    Pow256Values();
  }

  lemma WrapsAt32(n: nat)
    requires n < POW32
    ensures (n + 1) % POW32 == if n == 0xFFFF_FFFF then 0 else n + 1
  {
  }

  /** Four to eleven bytes from up to 2047 back, in two bytes. */
  lemma Copy1Form(offset: nat, len: nat, rest: seq<byte>)
    requires 4 <= len <= 11 && offset < 2048
    ensures NextElement([offset / 256 * 32 + (len - 4) * 4 + 1, offset % 256] + rest) ==
            Some(Parsed(Copy(offset, len), 2))
  {
    hide LittleEndian, LiteralHeader;
    var tag := offset / 256 * 32 + (len - 4) * 4 + 1;
    assert tag % 4 == 1 && tag / 32 == offset / 256 && tag / 4 % 8 == len - 4;
  }

  /** One to 64 bytes from up to 65535 back, in three bytes. */
  lemma Copy2Form(offset: nat, len: nat, rest: seq<byte>)
    requires 1 <= len <= 64 && offset < 65536
    ensures NextElement([(len - 1) * 4 + 2, offset % 256, offset / 256] + rest) == Some(Parsed(Copy(offset, len), 3))
  {
    hide LittleEndian, LiteralHeader;
    var s := [(len - 1) * 4 + 2, offset % 256, offset / 256] + rest;
    assert s[1..3] == [offset % 256, offset / 256];
    LittleEndianPair(offset % 256, offset / 256);
  }

  /** One to 64 bytes from any 32-bit distance back, in five bytes. */
  lemma Copy4Form(offset: nat, len: nat, rest: seq<byte>)
    requires 1 <= len <= 64 && offset < 0x1_0000_0000
    ensures NextElement([(len - 1) * 4 + 3] + LowBytes(offset, 4) + rest) == Some(Parsed(Copy(offset, len), 5))
  {
    hide LittleEndian, LiteralHeader, LowBytes, Pow256;
    var s := [(len - 1) * 4 + 3] + LowBytes(offset, 4) + rest;
    assert s[1..5] == LowBytes(offset, 4) == LowBytes(offset, 4)[..4];
    Pow256Values();
    LowBytesRoundTrip(offset, 4, 4);
  }

  lemma {:induction false} LowBytesOf(s: seq<byte>)
    ensures LowBytes(LittleEndian(s), |s|) == s && LittleEndian(s) < Pow256(|s|)
  {
    if s != [] {
      LowBytesOf(s[1..]);
      var low: nat, high := s[0], LittleEndian(s[1..]);
      assert (low + 256 * high) % 256 == low && (low + 256 * high) / 256 == high;
      assert s == [s[0]] + s[1..];
    }
  }

  /** What is read as a literal is one of the two forms. */
  lemma LiteralForms(s: seq<byte>, b: seq<byte>, n: nat)
    requires s != [] && NextElement(s) == Some(Parsed(Literal(b), n))
    ensures s[0] / 4 < 60 ==> 1 <= |b| <= 60 && s[..n] == [(|b| - 1) * 4] + b
    ensures s[0] / 4 >= 60 ==>
              exists count: nat, stored: nat | 1 <= count <= 4 && stored < Pow256(count) ::
                s[..n] == [(59 + count) * 4] + LowBytes(stored, count) + b &&
                |b| == if stored == 0xFFFF_FFFF then 0 else stored + 1
  {
    hide NextElement, LittleEndian, LowBytes, Pow256;
    LiteralTag(s);
    NextLiteral(s);
    var h := LiteralHeader(s).value;
    assert s[..n] == s[..h.size] + b && s[..1] == [s[0]];
    if s[0] / 4 >= 60 {
      var count: nat, field := s[0] / 4 - 59, s[1..s[0] / 4 - 58];
      LowBytesOf(field);
      Pow256Bound(count);
      WrapsAt32(LittleEndian(field));
      assert s[..h.size] == [s[0]] + field;
      assert s[..n] == [(59 + count) * 4] + LowBytes(LittleEndian(field), count) + b;
    }
  }

  lemma LiteralTag(s: seq<byte>)
    requires s != [] && NextElement(s).Some? && NextElement(s).value.value.Literal?
    ensures s[0] % 4 == 0
  {
    hide LittleEndian, LiteralHeader;
  }

  lemma Copy1Only(s: seq<byte>, offset: nat, len: nat, n: nat)
    requires s != [] && s[0] % 4 == 1 && NextElement(s) == Some(Parsed(Copy(offset, len), n))
    ensures 4 <= len <= 11 && offset < 2048 && s[..n] == [offset / 256 * 32 + (len - 4) * 4 + 1, offset % 256]
  {
    hide LittleEndian, LiteralHeader;
    assert s[..2] == [s[0], s[1]];
    Copy1Fields(s[0], s[1]);
  }

  lemma Copy1Fields(tag: nat, low: nat)
    requires tag < 256 && tag % 4 == 1 && low < 256
    ensures (tag / 32 * 256 + low) / 256 == tag / 32 && (tag / 32 * 256 + low) % 256 == low
    ensures tag == tag / 32 * 32 + tag / 4 % 8 * 4 + 1
  {
  }

  lemma Copy2Only(s: seq<byte>, offset: nat, len: nat, n: nat)
    requires s != [] && s[0] % 4 == 2 && NextElement(s) == Some(Parsed(Copy(offset, len), n))
    ensures 1 <= len <= 64 && offset < 65536 && s[..n] == [(len - 1) * 4 + 2, offset % 256, offset / 256]
  {
    hide LittleEndian, LiteralHeader;
    assert s[1..3] == [s[1], s[2]] && s[..3] == [s[0], s[1], s[2]];
    LittleEndianPair(s[1], s[2]);
  }

  lemma Copy4Only(s: seq<byte>, offset: nat, len: nat, n: nat)
    requires s != [] && s[0] % 4 == 3 && NextElement(s) == Some(Parsed(Copy(offset, len), n))
    ensures 1 <= len <= 64 && offset < 0x1_0000_0000 && s[..n] == [(len - 1) * 4 + 3] + LowBytes(offset, 4)
  {
    hide LittleEndian, LiteralHeader, LowBytes, Pow256;
    LowBytesOf(s[1..5]);
    Pow256Values();
    assert s[..5] == [s[0]] + s[1..5];
  }

  /** What is read as a copy is one of the three forms. */
  lemma CopyForms(s: seq<byte>, offset: nat, len: nat, n: nat)
    requires s != [] && NextElement(s) == Some(Parsed(Copy(offset, len), n))
    ensures || (4 <= len <= 11 && offset < 2048 &&
                s[..n] == [offset / 256 * 32 + (len - 4) * 4 + 1, offset % 256])
            || (1 <= len <= 64 && offset < 65536 && s[..n] == [(len - 1) * 4 + 2, offset % 256, offset / 256])
            || (1 <= len <= 64 && offset < 0x1_0000_0000 && s[..n] == [(len - 1) * 4 + 3] + LowBytes(offset, 4))
  {
    CopyTag(s);
    hide NextElement, LowBytes;
    match s[0] % 4
    case 1 => Copy1Only(s, offset, len, n);
    case 2 => Copy2Only(s, offset, len, n);
    case _ => Copy4Only(s, offset, len, n);
  }

  lemma CopyTag(s: seq<byte>)
    requires s != [] && NextElement(s).Some? && NextElement(s).value.value.Copy?
    ensures s[0] % 4 != 0
  {
    hide LittleEndian, LiteralHeader;
  }

  // ---- the meaning of one element ----

  /** A literal appends its bytes. A copy from before the start of the output is refused, and so is one
      from no distance; any other gives the one longer output that repeats at its offset. */
  lemma ElementMeaning(e: Element, out: seq<byte>, r: seq<byte>)
    ensures e.Literal? ==> Replay([e], out) == Some(out + e.bytes)
    ensures e.Copy? && (e.offset == 0 || e.offset > |out|) ==> Replay([e], out) == None
    ensures e.Copy? && 1 <= e.offset <= |out| ==>
              (Replay([e], out) == Some(r) <==>
               |r| == |out| + e.len && r[..|out|] == out && forall k | |out| <= k < |r| :: r[k] == r[k - e.offset])
  {
    hide OverlapCopy;
    assert [e] + [] == [e];
    ReplayStep(e, [], out);
    if e.Copy? && 1 <= e.offset <= |out| && |r| == |out| + e.len {
      OverlapCopyRepeats(out, r, e.offset);
    }
  }

  // ---- an example ----

  /** "WXYZ", and a copy of twelve bytes from four back in the longest form. */
  function Copy4Block(): seq<byte>
  {
    [16, 0x0C, 87, 88, 89, 90, 0x2F, 4, 0, 0, 0]
  }

  lemma Copy4BlockForms(t: seq<byte>, u: seq<byte>)
    requires t == Copy4Block()[1..] && u == [0x2F, 4, 0, 0, 0]
    ensures NextElement(t) == Some(Parsed(Literal([87, 88, 89, 90]), 5)) && t[5..] == u
    ensures NextElement(u) == Some(Parsed(Copy(4, 12), 5)) && u[5..] == []
  {
    var word: seq<byte> := [87, 88, 89, 90];
    LowBytesFour(4);
    assert u == [(12 - 1) * 4 + 3] + LowBytes(4, 4) + [];
    assert t == [(4 - 1) * 4] + word + u;
    hide NextElement, LowBytes;
    Copy4Form(4, 12, []);
    ShortLiteralForm(word, u);
  }

  lemma Copy4BlockElements()
    ensures Varint.Decode(Copy4Block()) == Some(Parsed(16, 1))
    ensures Elements(Copy4Block()[1..]) == Some([Literal([87, 88, 89, 90])] + [Copy(4, 12)])
  {
    var t, u: seq<byte> := Copy4Block()[1..], [0x2F, 4, 0, 0, 0];
    assert Copy4Block()[0] == 16;
    hide NextElement;
    Copy4BlockForms(t, u);
    ElementsStep(u, Parsed(Copy(4, 12), 5));
    ElementsStep(t, Parsed(Literal([87, 88, 89, 90]), 5));
    assert [Copy(4, 12)] + [] == [Copy(4, 12)];
  }

  /** It decodes to four times the word. */
  lemma Copy4BlockDecodes()
    ensures Reference(Copy4Block()) ==
            Some([87, 88, 89, 90] + [87, 88, 89, 90] + [87, 88, 89, 90] + [87, 88, 89, 90])
  {
    hide Elements, Varint.Decode, OverlapCopy;
    var word: seq<byte> := [87, 88, 89, 90];
    var r := word + word + word + word;
    Copy4BlockElements();
    ReplayStep(Literal(word), [Copy(4, 12)], []);
    assert [] + word == word && r[..4] == word;
    ElementMeaning(Copy(4, 12), word, r);
    assert ([Literal(word)] + [Copy(4, 12)])[1] == Copy(4, 12);
  }
}
