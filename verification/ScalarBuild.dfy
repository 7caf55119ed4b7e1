/** Inputs that the scalar build gets wrong: a stream that it does not decode to what the stream means,
    and columns of a constant that it does not bring back from its own compressor. */
module ScalarBuild {
  import opened Bytes
  import opened Decompress
  import opened Emit
  import opened Greedy
  import opened MatchCopy
  import opened MatchLength
  import opened SnappyFormat
  import opened SnappyReference
  import Compress
  import RoundTrip
  import Varint

  /** A copy from eight back, longer than that, right after a first literal: it comes out wrong when
      the byte after the literal is not the one the copy has to put there. */
  lemma StaleByte(src: seq<byte>, es: seq<Element>, states: seq<State>, total: nat)
    requires Traced(false, src, es, states, total) && states[0].op == 0 && |es| >= 2
    requires es[0].Literal? && es[1].Copy? && es[1].offset == 8 < es[1].len && |es[0].bytes| + 16 < total
    requires 8 <= |es[0].bytes| < |states[1].mem| && states[1].mem[|es[0].bytes|] != es[0].bytes[|es[0].bytes| - 8]
    ensures !Clean(false, es, states, total)
  {
    hide NextElement, Turn, Fits, Phase, Stale;
    var n, mem := |es[0].bytes|, states[1].mem;
    assert Turn(false, src, es[0], states[0], states[1], total);
    FirstLiteral(false, src, es[0], states[0], states[1], total);
    assert mem[n - 8] == mem[..n][n - 8] == es[0].bytes[n - 8];
    if FitsAt(false, es[1], states[1], total) {
      StaleCopy(mem, n, es[1].len, total);
    }
  }

  lemma FirstLiteral(vector: bool, src: seq<byte>, e: Element, a: State, b: State, total: nat)
    requires Turn(vector, src, e, a, b, total) && e.Literal? && a.op == 0
    ensures b.op == |e.bytes| <= |b.mem| && b.mem[..b.op] == e.bytes
  {
    hide NextElement, Spills;
    assert [] + e.bytes == e.bytes;
  }

  lemma StaleCopy(mem: seq<byte>, n: nat, len: nat, total: nat)
    requires 8 <= n && 8 < len && n + len <= total <= |mem| && n + 16 < total && mem[n] != mem[n - 8]
    ensures !Fits(false, Copy(8, len), mem, n, total)
  {
    PhaseTwice(8);
    assert Stale(n + 8, n - 8, n, total) && mem[n + 8 - 8] != mem[n - 8 + Phase(n + 8 - (n - 8), 8)];
  }

  // ---- a stream ----

  /** 81 bytes of 1: a literal of 17, and a copy of 64 from eight back. */
  function Example(): seq<byte>
  {
    [81, 64] + seq(17, i => 1) + [254, 8, 0]
  }

  lemma ExampleElements()
    ensures Varint.Decode(Example()) == Some(Parsed(81, 1))
    ensures Contents(Example()) == [Literal(seq(17, i => 1)), Copy(8, 64)]
  {
    var s, t := Example()[1..], Example()[19..];
    var first, second := Literal(seq(17, i => 1)), Copy(8, 64);
    assert Example()[0] == 81;
    assert s[0] == 64 && LiteralHeader(s) == Some(Parsed(17, 1)) && s[1..18] == seq(17, i => 1);
    assert t == [254, 8, 0] && t[1..3] == [8, 0] && t[3..] == [] && s[18..] == t;
    LittleEndianPair(8, 0);
    assert NextElement(s) == Some(Parsed(first, 18)) && NextElement(t) == Some(Parsed(second, 3));
    hide NextElement, LittleEndian, LiteralHeader;
    ElementsStep(t, Parsed(second, 3));
    ElementsStep(s, Parsed(first, 18));
    assert [second] + [] == [second] && [first] + [second] == [first, second];
  }

  lemma ExampleReference()
    ensures Reference(Example()).Some? && |Reference(Example()).value| == 81
  {
    hide OverlapCopy, Varint.Decode, Elements;
    ExampleElements();
    var first: seq<byte>, es := seq(17, i => 1), [Literal(seq(17, i => 1)), Copy(8, 64)];
    assert [Literal(first)] + ([Copy(8, 64)] + []) == es && [] + first == first;
    ReplayStep(Literal(first), [Copy(8, 64)] + [], []);
    ReplayStep(Copy(8, 64), [], first);
    assert Replay(es, []) == Some(OverlapCopy(first, 8, 64));
    assert Elements(Example()[1..]) == Some(es) && es[1] != Literal([]);
  }

  /** The scalar decoder accepts it and gives something else, unless the buffer it is given happened
      to hold the right byte after the literal. */
  method DecodesWrongly(dst: array<byte>) returns (status: Status, dstSize: nat)
    requires dst.Length >= 81 && dst[17] != 1
    modifies dst
    ensures status == Ok && dstSize == 81
    ensures Reference(Example()).Some? && dst[..81] != Reference(Example()).value
  {
    hide NextElement, Reference, Contents, Clean;
    ExampleElements();
    ExampleReference();
    ghost var states;
    status, dstSize, states := Decompress.Decompress(Example(), dst, false);
    assert Turn(false, Example(), Contents(Example())[0], states[0], states[1], 81);
    StaleByte(Example(), Contents(Example()), states, 81);
  }

  // ---- a constant column ----

  /** `n` times the 64-bit integer 0x0807060504030201, as PLAIN encoding lays it out. */
  function Column(n: nat): (s: seq<byte>)
    ensures |s| == 8 * n
  {
    seq(8 * n, i requires i >= 0 => 1 + i % 8)
  }

  /** The word at a position of the first value, or at the start of the second. */
  function ColumnWord(p: nat): nat
    requires p <= 8
  {
    match p
    case 1 => 84148994
    case 2 => 100992003
    case 3 => 117835012
    case 4 => 134678021
    case 5 => 17303302
    case 6 => 33622023
    case 7 => 50462984
    case _ => 67305985
  }

  lemma ColumnWords(n: nat, p: nat)
    requires n >= 4 && p <= 8
    ensures WordOf(Column(n), p) == ColumnWord(p)
  {
    hide LittleEndian;
    var s := Column(n)[p..p + 4];
    LittleEndianQuad(s);
    ColumnBytes(p);
  }

  lemma ColumnBytes(p: nat)
    requires p <= 8
    ensures 1 + p % 8 + 256 * (1 + (p + 1) % 8) + 65536 * (1 + (p + 2) % 8) + 16777216 * (1 + (p + 3) % 8) ==
            ColumnWord(p)
  {
  }

  lemma LittleEndianQuad(s: seq<byte>)
    requires |s| == 4
    ensures LittleEndian(s) == s[0] as int + 256 * s[1] as int + 65536 * s[2] as int + 16777216 * s[3] as int
  {
    assert s[1..][1..] == s[2..] == [s[2], s[3]];
    LittleEndianPair(s[2], s[3]);
  }

  /** The slots of its hashes are distinct. */
  function ColumnSlot(p: nat): (h: nat)
    requires p <= 8
    ensures h < HASH_SIZE
  {
    match p
    case 1 => 2901
    case 2 => 14716
    case 3 => 10146
    case 4 => 5577
    case 5 => 2544
    case 6 => 10396
    case 7 => 11123
    case _ => 7471
  }

  lemma HashIs(v: nat, q: nat, r: nat)
    requires v * 506832829 == POW32 * q + r && r < POW32
    ensures SnappyHash(v) == r / 0x4_0000
  {
    LowWord(v * 506832829, q, r);
  }

  lemma LowWord(x: nat, q: nat, r: nat)
    requires x == POW32 * q + r && r < POW32
    ensures x % POW32 == r
  {
  }

  lemma ColumnHashes()
    ensures SnappyHash(67305985) == 7471 && SnappyHash(84148994) == 2901 && SnappyHash(100992003) == 14716
    ensures SnappyHash(117835012) == 10146 && SnappyHash(134678021) == 5577 && SnappyHash(17303302) == 2544
    ensures SnappyHash(33622023) == 10396 && SnappyHash(50462984) == 11123
  {
    hide SnappyHash;
    HashIs(67305985, 7942524, 1958486461);
    HashIs(84148994, 9930104, 760645242);
    HashIs(100992003, 11917683, 3857771319);
    HashIs(117835012, 13905263, 2659930100);
    HashIs(134678021, 15892843, 1462088881);
    HashIs(17303302, 2041897, 666900846);
    HashIs(33622023, 3967607, 2725412395);
    HashIs(50462984, 5954945, 2916023016);
  }

  lemma ColumnSlots(p: nat)
    requires p <= 8
    ensures SnappyHash(ColumnWord(p)) == ColumnSlot(p)
    ensures 0 < p < 8 ==> ColumnWord(p) != ColumnWord(0)
    ensures forall q | 0 <= q < p && q != p - 8 :: ColumnSlot(p) != ColumnSlot(q)
  {
    hide SnappyHash;
    ColumnHashes();
  }

  /** So no position of the first value has a candidate but 0. */
  lemma {:induction false} ColumnTable(n: nat, k: nat, p: nat)
    requires n >= 4 && k < p <= 8
    ensures TableAfter(EmptyTable(), Column(n), Consecutive(), SnappyHash, k)[ColumnSlot(p)] == 0
    decreases k
  {
    hide SnappyHash, ColumnWord, ColumnSlot, WordOf, Column;
    if k > 0 {
      ColumnTable(n, k - 1, p);
      ColumnWords(n, k);
      ColumnSlots(k);
      ColumnSlots(p);
    }
  }

  lemma {:induction false} ColumnNoHit(n: nat, k: nat)
    requires n >= 4 && k <= 7
    ensures FirstHit(EmptyTable(), Column(n), Consecutive(), SnappyHash, k, 16) == Some(7)
    ensures Candidate(EmptyTable(), Column(n), Consecutive(), SnappyHash, 7) == 0
    ensures IsMatch(Column(n), 8, 0)
    decreases 7 - k
  {
    hide SnappyHash, ColumnWord, ColumnSlot, Column, TableAfter, Load32;
    ColumnTable(n, k, k + 1);
    ColumnWords(n, k + 1);
    ColumnWords(n, 0);
    ColumnSlots(k + 1);
    ColumnSlots(8);
    ColumnTable(n, 7, 8);
    ColumnWords(n, 8);
    ColumnEnds();
    if k < 7 {
      ColumnNoHit(n, k + 1);
    }
  }

  lemma ColumnEnds()
    ensures ColumnWord(8) == ColumnWord(0)
  {
  }

  /** The match that is found takes the rest of the column. */
  lemma ColumnMatch(n: nat)
    requires n >= 4
    ensures MatchLen(Column(n), 8, 0, 8 * n) == 8 * n - 8
  {
    var s := Column(n);
    assert forall i | 0 <= i < 8 * n - 8 :: s[8 + i] == s[i];
    assert s[8..8 + (8 * n - 8)] == s[0..0 + (8 * n - 8)];
    MatchLenUnique(s, 8, 0, 8 * n, 8 * n - 8);
  }

  /** The value itself, and then a copy of it. */
  lemma ColumnBlock(n: nat)
    requires n >= 4
    ensures var es := BlockElements(Column(n), SnappyHash);
            |es| >= 2 && es[0] == Literal(Column(1)) && es[1].Copy? && es[1].offset == 8 && es[1].len >= 24
  {
    hide SnappyHash, FirstHit, TableAfter, Load32, MatchLen, AfterMatch;
    var s := Column(n);
    ColumnNoHit(n, 0);
    ColumnMatch(n);
    assert s[0..8] == Column(1);
    var copies := CopyElements(8, 8 * n - 8);
    assert |copies| >= 1 && copies[0].Copy? && copies[0].offset == 8 && copies[0].len >= 24;
    var es := BlockElements(s, SnappyHash);
    assert es == FromProbes(EmptyTable(), s, 0, Consecutive(), SnappyHash, Some(7));
    assert es[1] == copies[0];
  }

  lemma ColumnElements(n: nat)
    requires n >= 4
    ensures var es := StreamElements(Column(n));
            |es| >= 2 && es[0] == Literal(Column(1)) && es[1].Copy? && es[1].offset == 8 && es[1].len >= 24
  {
    hide BlockElements;
    var m := if n > 8192 then 8192 else n;
    assert Column(n)[0..8 * m] == Column(m);
    ColumnBlock(m);
  }

  lemma CopyTag(s: seq<byte>)
    requires s != [] && NextElement(s).Some? && NextElement(s).value.value.Copy?
    requires NextElement(s).value.value.len >= 24
    ensures s[0] > 1
  {
  }

  /** The scalar build, given what its own compressor makes of a column of four or more such values,
      returns Ok and other bytes. */
  method ConstantColumn(n: nat, compressed: array<byte>, dec: array<byte>)
    returns (status: Status, compSize: nat, decSize: nat)
    requires 4 <= n && 8 * n < POW32 && compressed != dec
    requires compressed.Length >= 32 + 8 * n + 8 * n / 6 && dec.Length >= 8 * n && dec[8] != 1
    modifies compressed, dec
    ensures status == Ok && decSize == 8 * n && dec[..decSize] != Column(n)
  {
    hide StreamElements, Clean, Traced, RoundTrip.ShortPeriod, NoHazard, Column;
    var s := Column(n);
    ghost var states;
    status, compSize, decSize, states := RoundTrip.RoundTrip(s, compressed, dec, false);
    ColumnStale(n, compressed[..compSize], states);
  }

  lemma ColumnStale(n: nat, stream: seq<byte>, states: seq<State>)
    requires 4 <= n && Traced(false, stream, StreamElements(Column(n)), states, 8 * n)
    requires states[0].op == 0 && 8 < |states[0].mem| && states[0].mem[8] != 1
    ensures !Clean(false, StreamElements(Column(n)), states, 8 * n)
  {
    hide StreamElements, Clean, Turn;
    var es := StreamElements(Column(n));
    ColumnElements(n);
    assert Column(1)[0] == 1;
    assert Turn(false, stream, es[0], states[0], states[1], 8 * n);
    assert Turn(false, stream, es[1], states[1], states[2], 8 * n);
    NextByte(stream, es[0], es[1], states[0], states[1], states[2], 8 * n);
    StaleByte(stream, es, states, 8 * n);
  }

  /** After the first value stands what was there before, or the tag of the copy. */
  lemma NextByte(src: seq<byte>, e: Element, e': Element, a: State, b: State, c: State, total: nat)
    requires Turn(false, src, e, a, b, total) && Turn(false, src, e', b, c, total)
    requires e == Literal(Column(1)) && a.op == 0 && 8 < |a.mem| && a.mem[8] != 1 && e'.Copy? && e'.len >= 24
    ensures 8 < |b.mem| && b.mem[8] != 1
  {
    hide NextElement, Fits, Apply, Column;
    CopyTag(src[b.ip..]);
  }
}
