/** carquet_snappy_decompress: wide literal and match copies that spill past the output cursor, and
    its agreement with the reference decoder on every byte string. */
module Decompress {
  import opened Bytes
  import opened MatchCopy
  import opened SnappyFormat
  import opened SnappyReference
  import Varint

  const SLOP_BYTES := 64

  /** The entry of kLengthMinusOffset for a copy tag: the length, less the high offset bits
      that the tag holds. */
  function LengthMinusOffset(tag: byte): int
    requires tag % 4 == 1 || tag % 4 == 2
  {
    if tag % 4 == 1 then tag / 4 % 8 + 4 - 256 * (tag / 32) else tag / 4 + 1
  }

  /** Its low byte is the length alone. */
  lemma LowByteIsLength(tag: byte)
    requires tag % 4 == 1 || tag % 4 == 2
    ensures LengthMinusOffset(tag) % 256 == if tag % 4 == 1 then tag / 4 % 8 + 4 else tag / 4 + 1
  {
    if tag % 4 == 1 { LowByte(tag / 4 % 8 + 4, tag / 32); } else { LowByte(tag / 4 + 1, 0); }
  }

  lemma LowByte(length: nat, high: nat)
    requires length < 256
    ensures (length - 256 * high) % 256 == length
  {
  }

  /** No element is a copy that the scalar build may get wrong. */
  predicate NoHazard(vector: bool, es: seq<Element>, total: nat)
  {
    forall i | 0 <= i < |es| :: !HazardousElement(vector, es[i], Produced(es[..i]), total)
  }

  predicate HazardousElement(vector: bool, e: Element, pos: nat, total: nat)
  {
    e.Copy? && Hazard(vector, e.offset, e.len, pos, total)
  }

  /** The header of a literal. The long form loads its bytes into a zeroed 32-bit word, and adds
      one to it there. */
  method ReadLiteralHeader(src: seq<byte>, ip: nat) returns (r: Option<Parsed<nat>>)
    requires ip < |src| && src[ip] % 4 == 0
    ensures r == LiteralHeader(src[ip..])
  {
    hide LittleEndian;
    var literalLen: nat := src[ip] / 4 + 1;
    if literalLen < 61 { return Some(Parsed(literalLen, 1)); }
    var extraBytes := literalLen - 60;
    if ip + 1 + extraBytes > |src| { return None; }
    assert src[ip + 1..ip + 1 + extraBytes] == src[ip..][1..src[ip] / 4 - 58];
    return Some(Parsed((LittleEndian(src[ip + 1..ip + 1 + extraBytes]) + 1) % POW32, 1 + extraBytes));
  }

  /** Whether `len` bytes of content at src[at..] go to `op` with a 16-byte move. */
  predicate WideLiteral(src: seq<byte>, at: nat, len: nat, op: nat, opEnd: nat)
  {
    len <= 16 && at + 16 <= |src| && op + 16 <= opEnd
  }

  /** The bytes beyond the `len` of a literal: what follows its content in the stream, as far as a
      wide move takes it along, and else what was there. */
  ghost predicate Spills(src: seq<byte>, at: nat, len: nat, op: nat, opEnd: nat, was: seq<byte>, now: seq<byte>)
  {
    |was| == |now| && forall k | op + len <= k < |now| ::
      now[k] == if WideLiteral(src, at, len, op, opEnd) && k < op + 16 then src[at + (k - op)] else was[k]
  }

  /** The content of a literal, unless it is cut short or overruns the output. */
  method CopyLiteral(src: seq<byte>, ip: nat, literalLen: nat, dst: array<byte>, op: nat, opEnd: nat) returns (ok: bool)
    requires ip <= |src| && op <= opEnd <= dst.Length
    modifies dst
    ensures ok <==> ip + literalLen <= |src| && op + literalLen <= opEnd
    ensures ok ==> dst[..op + literalLen] == old(dst[..op]) + src[ip..ip + literalLen] &&
                   Spills(src, ip, literalLen, op, opEnd, old(dst[..]), dst[..])
    ensures ok ==> forall k | op + literalLen <= k < dst.Length ::
              dst[k] == if literalLen <= 16 && ip + 16 <= |src| && op + 16 <= opEnd && k < op + 16
                        then src[ip + (k - op)] else old(dst[k])
    ensures forall k | 0 <= k < dst.Length && !(op <= k < opEnd) :: dst[k] == old(dst[k])
  {
    if literalLen <= 16 && ip + 16 <= |src| && op + 16 <= opEnd {
      CopyIn(src, ip, dst, op, 16);
    } else {
      if ip + literalLen > |src| || op + literalLen > opEnd { return false; }
      CopyIn(src, ip, dst, op, literalLen);
    }
    assert dst[..op + literalLen] == old(dst[..op]) + src[ip..ip + literalLen];
    return true;
  }

  lemma LiteralAt(src: seq<byte>, ip: nat)
    requires ip < |src| && src[ip] % 4 == 0
    ensures var h := LiteralHeader(src[ip..]);
            NextElement(src[ip..]) ==
            if h.None? || ip + h.value.size + h.value.value > |src| then None
            else var at := ip + h.value.size;
                 Some(Parsed(Literal(src[at..at + h.value.value]), h.value.size + h.value.value))
  {
    hide LiteralHeader, NextElement;
    NextLiteral(src[ip..]);
    var h := LiteralHeader(src[ip..]);
    if h.Some? && ip + h.value.size + h.value.value <= |src| {
      var n, len := h.value.size, h.value.value;
      assert src[ip..][n..n + len] == src[ip + n..ip + n + len];
    }
  }

  /** A literal: 16 bytes at once when there is room on both sides, else exactly its length. */
  method ExpandLiteral(src: seq<byte>, ip0: nat, dst: array<byte>, op0: nat, opEnd: nat)
    returns (ok: bool, ip: nat, op: nat)
    requires ip0 < |src| && src[ip0] % 4 == 0 && op0 <= opEnd <= dst.Length
    modifies dst
    ensures ok <==> var e := NextElement(src[ip0..]); e.Some? && op0 + |e.value.value.bytes| <= opEnd
    ensures ok ==> var p := NextElement(src[ip0..]).value;
                   && ip == ip0 + p.size
                   && op == op0 + |p.value.bytes|
                   && dst[..op] == old(dst[..op0]) + p.value.bytes
    ensures ok ==> op - op0 <= ip && Spills(src, ip - (op - op0), op - op0, op0, opEnd, old(dst[..]), dst[..])
    ensures forall k | 0 <= k < dst.Length && !(op0 <= k < opEnd) :: dst[k] == old(dst[k])
  {
    hide LiteralHeader, NextElement, Spills;
    ip, op := ip0, op0;
    LiteralAt(src, ip0);
    var h := ReadLiteralHeader(src, ip0);
    if h.None? { return false, ip, op; }
    var literalLen := h.value.value;
    ip := ip0 + h.value.size;
    ok := CopyLiteral(src, ip, literalLen, dst, op, opEnd);
    if ok { ip, op := ip + literalLen, op + literalLen; }
  }

  /** A match of at most 64 bytes, once its offset and length are known to be legal. */
  method ExpandMatch(dst: array<byte>, op: nat, copyOffset: nat, length: nat, opEnd: nat, vector: bool)
    requires 1 <= copyOffset <= op && 1 <= length <= 64 && op + length <= opEnd <= dst.Length
    modifies dst
    ensures dst[..op + length] == OverlapCopy(old(dst[..op]), copyOffset, length) <==>
            ScratchFits(vector, old(dst[..]), op - copyOffset, op, op + length, opEnd)
    ensures forall k | 0 <= k < dst.Length && !(op <= k < opEnd) :: dst[k] == old(dst[k])
  {
    hide OverlapCopy, ScratchFits;
    ghost var mem := dst[..];
    var opLimitMinSlop := if opEnd >= SLOP_BYTES then opEnd - SLOP_BYTES + 1 else 0;
    var matchSrc := op - copyOffset;
    NoHazardFits(vector, mem, matchSrc, op, op + length, opEnd);
    if copyOffset >= 16 && op + length <= opLimitMinSlop {
      CopyBlocks(dst, matchSrc, op, op + length);
      FreshMatch(mem, dst[..], matchSrc, op, op + length);
    } else if length <= SLOP_BYTES && op + length <= opLimitMinSlop && copyOffset >= length {
      Move(dst, matchSrc, op, SLOP_BYTES);
      FreshMatch(mem, dst[..], matchSrc, op, op + length);
    } else {
      ExpandMatchSafely(dst, op, copyOffset, length, opEnd, vector);
    }
  }

  method ExpandMatchSafely(dst: array<byte>, op: nat, copyOffset: nat, length: nat, opEnd: nat, vector: bool)
    requires 1 <= copyOffset <= op && 1 <= length <= 64 && op + length <= opEnd <= dst.Length
    modifies dst
    ensures dst[..op + length] == OverlapCopy(old(dst[..op]), copyOffset, length) <==>
            ScratchFits(vector, old(dst[..]), op - copyOffset, op, op + length, opEnd)
    ensures forall k | 0 <= k < dst.Length && !(op <= k < opEnd) :: dst[k] == old(dst[k])
  {
    hide OverlapCopy;
    IncrementalCopy(dst, op - copyOffset, op, op + length, opEnd, vector);
  }

  lemma FreshMatch(mem: seq<byte>, now: seq<byte>, src: nat, op: nat, end: nat)
    requires src < op <= end <= |now| == |mem| && forall k | 0 <= k < op :: now[k] == mem[k]
    requires forall k | op <= k < end :: now[k] == now[k - (op - src)]
    ensures now[..end] == OverlapCopy(mem[..op], op - src, end - op)
  {
    hide OverlapCopy;
    assert now[..op] == mem[..op];
    TilesIsRepetition(mem, now, src, op, end);
    TilesIsOverlapCopy(mem, now, src, op, end);
  }

  /** Offset and length of a copy element, with its 1-, 2- or 4-byte trailer. */
  method ReadCopy(src: seq<byte>, ip0: nat) returns (r: Option<Parsed<Element>>)
    requires ip0 < |src| && src[ip0] % 4 != 0
    ensures r == NextElement(src[ip0..])
  {
    hide LittleEndian;
    var tag := src[ip0];
    var ip := ip0 + 1;
    ghost var s := src[ip0..];
    if tag % 4 == 3 {
      if ip + 4 > |src| { return None; }
      assert src[ip..ip + 4] == s[1..5];
      return Some(Parsed(Copy(Load32(src, ip), tag / 4 % 64 + 1), 5));
    }
    LowByteIsLength(tag);
    var length := LengthMinusOffset(tag) % 256;
    if tag % 4 == 1 {
      if ip >= |src| { return None; }
      var trailer: int := src[ip];
      trailer := tag / 32 * 256 + trailer;
      return Some(Parsed(Copy(trailer, length), 2));
    }
    if ip + 2 > |src| { return None; }
    assert src[ip..ip + 2] == s[1..3];
    return Some(Parsed(Copy(LittleEndian(src[ip..ip + 2]), length), 3));
  }

  /** The scratch bytes beyond the output are as this element needs them to be expanded rightly. */
  ghost predicate Fits(vector: bool, e: Element, mem: seq<byte>, op: nat, opEnd: nat)
    requires Legal(e, op) && op + Size(e) <= opEnd <= |mem|
  {
    e.Copy? && e.len > 0 ==> ScratchFits(vector, mem, op - e.offset, op, op + e.len, opEnd)
  }

  /** Unless it is a hazard, it does not depend on them. */
  lemma NotHazardousFits(vector: bool, e: Element, mem: seq<byte>, op: nat, opEnd: nat)
    requires Legal(e, op) && op + Size(e) <= opEnd <= |mem| && !HazardousElement(vector, e, op, opEnd)
    ensures Fits(vector, e, mem, op, opEnd)
  {
    if e.Copy? && e.len > 0 {
      NoHazardFits(vector, mem, op - e.offset, op, op + e.len, opEnd);
    }
  }

  /** The output buffer and the two cursors, between two turns of the main loop. */
  datatype State = State(mem: seq<byte>, ip: nat, op: nat)

  /** What a turn that expands `e` does: the output so far is extended rightly exactly when the
      scratch bytes fit, and nothing outside the room for output changes. */
  ghost predicate Turn(vector: bool, src: seq<byte>, e: Element, a: State, b: State, total: nat)
  {
    && a.ip < |src| && a.ip < b.ip && NextElement(src[a.ip..]) == Some(Parsed(e, b.ip - a.ip))
    && Legal(e, a.op) && b.op == a.op + Size(e) <= total <= |a.mem| == |b.mem|
    && (b.mem[..b.op] == Apply(e, a.mem[..a.op]) <==> Fits(vector, e, a.mem, a.op, total))
    && (e.Literal? ==> |e.bytes| <= b.ip && Spills(src, b.ip - |e.bytes|, |e.bytes|, a.op, total, a.mem, b.mem))
    && forall k | 0 <= k < |a.mem| && !(a.op <= k < total) :: b.mem[k] == a.mem[k]
  }

  /** One turn of the main loop: read an element and expand it, unless it is cut short, reaches
      before the start of the output or overruns its end. */
  method ExpandElement(src: seq<byte>, ip0: nat, dst: array<byte>, op0: nat, opEnd: nat, vector: bool)
    returns (ok: bool, ip: nat, op: nat)
    requires ip0 < |src| && op0 <= opEnd <= dst.Length
    modifies dst
    ensures ok <==> var e := NextElement(src[ip0..]);
                    e.Some? && Legal(e.value.value, op0) && op0 + Size(e.value.value) <= opEnd
    ensures ok ==> var p := NextElement(src[ip0..]).value;
                   && ip == ip0 + p.size <= |src|
                   && op == op0 + Size(p.value)
                   && Turn(vector, src, p.value, State(old(dst[..]), ip0, op0), State(dst[..], ip, op), opEnd)
    ensures forall k | 0 <= k < dst.Length && !(op0 <= k < opEnd) :: dst[k] == old(dst[k])
  {
    hide OverlapCopy, LiteralHeader, ScratchFits, Spills;
    ip, op := ip0, op0;
    ghost var mem := dst[..];
    assert mem[..op0] == dst[..op0];
    if src[ip0] % 4 == 0 {
      ok, ip, op := ExpandLiteral(src, ip0, dst, op0, opEnd);
      if ok { assert dst[..][..op] == dst[..op]; }
    } else {
      var r := ReadCopy(src, ip0);
      if r.None? { return false, ip, op; }
      var copyOffset, length := r.value.value.offset, r.value.value.len;
      if copyOffset == 0 || copyOffset > op0 { return false, ip, op; }
      if op0 + length > opEnd { return false, ip, op; }
      if src[ip0] % 4 != 3 {
        ExpandMatch(dst, op0, copyOffset, length, opEnd, vector);
      } else {
        ExpandMatchSafely(dst, op0, copyOffset, length, opEnd, vector);
      }
      assert dst[..][..op0 + length] == dst[..op0 + length];
      return true, ip0 + r.value.size, op0 + length;
    }
  }

  /** `states` are those of a decoder that has expanded the elements `es`, each of which it found in
      the stream at its cursor. */
  ghost predicate Traced(vector: bool, src: seq<byte>, es: seq<Element>, states: seq<State>, total: nat)
  {
    && |states| == |es| + 1
    && forall i | 0 <= i < |es| :: Turn(vector, src, es[i], states[i], states[i + 1], total)
  }

  /** Every element found the scratch bytes as it needs them. */
  ghost predicate Clean(vector: bool, es: seq<Element>, states: seq<State>, total: nat)
  {
    |states| == |es| + 1 && forall i | 0 <= i < |es| :: FitsAt(vector, es[i], states[i], total)
  }

  ghost predicate FitsAt(vector: bool, e: Element, a: State, total: nat)
  {
    Legal(e, a.op) && a.op + Size(e) <= total <= |a.mem| && Fits(vector, e, a.mem, a.op, total)
  }

  lemma ApplyKeeps(e: Element, out: seq<byte>)
    requires Legal(e, |out|)
    ensures Apply(e, out)[..|out|] == out
  {
    hide OverlapCopy;
    if e.Copy? {
      OverlapCopyRepeats(out, Apply(e, out), e.offset);
    }
  }

  /** A wrong byte stays wrong, so the output is right after a turn exactly when it was right before
      and the scratch bytes fitted. */
  lemma TurnRight(vector: bool, src: seq<byte>, e: Element, a: State, b: State, total: nat, out: seq<byte>)
    requires Turn(vector, src, e, a, b, total) && |out| == a.op
    ensures b.mem[..b.op] == Apply(e, out) <==> a.mem[..a.op] == out && FitsAt(vector, e, a, total)
  {
    hide Apply, Fits, Spills, NextElement;
    ApplyKeeps(e, out);
    assert b.mem[..b.op][..a.op] == a.mem[..a.op];
  }

  lemma TraceMore(vector: bool, src: seq<byte>, es: seq<Element>, states: seq<State>, e: Element, b: State, total: nat)
    requires Traced(vector, src, es, states, total) && Turn(vector, src, e, states[|es|], b, total)
    ensures Traced(vector, src, es + [e], states + [b], total)
    ensures Clean(vector, es + [e], states + [b], total) <==>
            Clean(vector, es, states, total) && FitsAt(vector, e, states[|es|], total)
  {
    hide Turn, FitsAt;
    var es', states' := es + [e], states + [b];
    assert es'[..|es|] == es && states'[..|states|] == states;
    if Clean(vector, es', states', total) {
      assert FitsAt(vector, es'[|es|], states'[|es|], total);
      assert forall i | 0 <= i < |es| :: FitsAt(vector, es'[i], states'[i], total);
    }
  }

  /** carquet_snappy_decompress. It succeeds on exactly the streams that the reference accepts and
      whose output fits, and never touches `dst` past the declared length. The bytes are those of the
      reference exactly when every copy found the scratch bytes as it needs them: always in the
      vector build, and in the scalar build at least when no copy is a hazard. */
  method Decompress(src: seq<byte>, dst: array<byte>, vector: bool)
    returns (status: Status, dstSize: nat, ghost states: seq<State>)
    modifies dst
    ensures status == Ok <==> Reference(src).Some? && |Reference(src).value| <= dst.Length
    ensures status == Ok ==> dstSize == |Reference(src).value|
    ensures status == Ok ==> Traced(vector, src, Contents(src), states, dstSize) &&
                             states[0].mem == old(dst[..]) && states[0].op == 0 &&
                             states[|states| - 1].mem == dst[..]
    ensures status == Ok ==>
              (dst[..dstSize] == Reference(src).value <==> Clean(vector, Contents(src), states, dstSize))
    ensures status == Ok && (vector || NoHazardIn(src)) ==> dst[..dstSize] == Reference(src).value
    ensures status != Ok ==> status == InvalidCompressedData
    ensures forall k | DeclaredLength(src) <= k < dst.Length :: dst[k] == old(dst[k])
  {
    hide NextElement, Elements, Varint.Decode, Run, Body, NoHazard, Turn, Traced, Clean, FitsAt, Apply, Legal, Size;
    states := [];
    if |src| == 0 {
      states := [State(dst[..], 0, 0)];
      NothingTraced(vector, src, states[0], 0);
      return Ok, 0, states;
    }
    var header := Varint.Read(src);
    if header.None? { return InvalidCompressedData, 0, states; }
    var uncompressedLen := header.value.value;
    var ip := header.value.size;
    ReferenceIsRun(src, ip, uncompressedLen);
    if uncompressedLen > dst.Length { return InvalidCompressedData, 0, states; }
    var op := 0;
    ghost var out: seq<byte>, es: seq<Element> := [], [];
    states := [State(dst[..], ip, op)];
    NothingTraced(vector, src, states[0], uncompressedLen);
    assert out == dst[..op];
    assert Elements(src[ip..]).Some? ==> [] + Elements(src[ip..]).value == Elements(src[ip..]).value;
    while ip < |src| && op < uncompressedLen
      invariant ip <= |src| && op == |out| <= uncompressedLen
      invariant Run(src[ip..], out, uncompressedLen) == Reference(src)
      invariant Elements(src[ip..]).Some? ==> Elements(src[header.value.size..]) == Some(es + Elements(src[ip..]).value)
      invariant |states| == |es| + 1 && Traced(vector, src, es, states, uncompressedLen)
      invariant states[|es|] == State(dst[..], ip, op)
      invariant states[0] == State(old(dst[..]), header.value.size, 0)
      invariant dst[..op] == out <==> Clean(vector, es, states, uncompressedLen)
      invariant forall k | uncompressedLen <= k < dst.Length :: dst[k] == old(dst[k])
      decreases |src| - ip
    {
      RunStep(src, ip, out, uncompressedLen);
      var ok, ip', op' := ExpandElement(src, ip, dst, op, uncompressedLen, vector);
      if !ok { return InvalidCompressedData, 0, states; }
      ghost var e, b := NextElement(src[ip..]).value, State(dst[..], ip', op');
      TurnRight(vector, src, e.value, states[|es|], b, uncompressedLen, out);
      TraceMore(vector, src, es, states, e.value, b, uncompressedLen);
      ParsedMore(src, header.value.size, ip, es, e);
      out, es, states := Apply(e.value, out), es + [e.value], states + [b];
      ip, op := ip', op';
    }
    RunStep(src, ip, out, uncompressedLen);
    if op != uncompressedLen || ip != |src| { return InvalidCompressedData, 0, states; }
    ParsedAll(src, header.value.size, es);
    if vector || NoHazardIn(src) { NoHazardClean(vector, src, es, states, uncompressedLen); }
    return Ok, uncompressedLen, states;
  }

  lemma NothingTraced(vector: bool, src: seq<byte>, a: State, total: nat)
    ensures Traced(vector, src, [], [a], total) && Clean(vector, [], [a], total)
  {
  }

  lemma ReferenceIsRun(src: seq<byte>, ip: nat, total: nat)
    requires |src| > 0 && Varint.Decode(src) == Some(Parsed(total, ip)) && ip <= |src|
    ensures Reference(src) == Run(src[ip..], [], total)
    ensures Reference(src).Some? ==> |Reference(src).value| == total
  {
    hide Elements, NextElement, Run;
    RunIsBody(src[ip..], [], total);
  }

  lemma RunStep(src: seq<byte>, ip: nat, out: seq<byte>, total: nat)
    requires ip <= |src| && |out| <= total
    ensures ip == |src| || |out| == total ==>
              Run(src[ip..], out, total) == if ip == |src| && |out| == total then Some(out) else None
    ensures ip < |src| && |out| < total ==>
              var e := NextElement(src[ip..]);
              if e.Some? && Legal(e.value.value, |out|) && |out| + Size(e.value.value) <= total then
                Run(src[ip..], out, total) == Run(src[ip + e.value.size..], Apply(e.value.value, out), total)
              else Run(src[ip..], out, total) == None
  {
    hide NextElement;
    if ip < |src| && NextElement(src[ip..]).Some? {
      var n := NextElement(src[ip..]).value.size;
      assert src[ip..][n..] == src[ip + n..];
    }
  }

  lemma ParsedMore(src: seq<byte>, start: nat, ip: nat, es: seq<Element>, p: Parsed<Element>)
    requires start <= ip < |src| && NextElement(src[ip..]) == Some(p)
    requires Elements(src[ip..]).Some? ==> Elements(src[start..]) == Some(es + Elements(src[ip..]).value)
    ensures Elements(src[ip + p.size..]).Some? ==>
              Elements(src[start..]) == Some(es + [p.value] + Elements(src[ip + p.size..]).value)
  {
    hide NextElement, Elements;
    assert src[ip..][p.size..] == src[ip + p.size..];
    if Elements(src[ip + p.size..]).Some? {
      ElementsStep(src[ip..], p);
      assert es + ([p.value] + Elements(src[ip + p.size..]).value) ==
             es + [p.value] + Elements(src[ip + p.size..]).value;
    }
  }

  lemma ParsedAll(src: seq<byte>, start: nat, es: seq<Element>)
    requires start <= |src| && Varint.Decode(src).Some? && Varint.Decode(src).value.size == start
    requires Elements(src[|src|..]).Some? ==> Elements(src[start..]) == Some(es + Elements(src[|src|..]).value)
    ensures Contents(src) == es
  {
    hide NextElement, Varint.Decode;
    assert src[|src|..] == [] && es + [] == es;
  }

  lemma {:induction false} TracedPositions(vector: bool, src: seq<byte>, es: seq<Element>, states: seq<State>,
                                           total: nat, i: nat)
    requires Traced(vector, src, es, states, total) && states[0].op == 0 && i <= |es|
    ensures states[i].op == Produced(es[..i])
    decreases i
  {
    hide NextElement, Apply, Fits, Spills;
    if i > 0 {
      TracedPositions(vector, src, es, states, total, i - 1);
      assert Turn(vector, src, es[i - 1], states[i - 1], states[i], total);
      assert es[..i] == es[..i - 1] + [es[i - 1]];
      ProducedMore(es[..i - 1], es[i - 1]);
    }
  }

  /** Without hazards every element fits, whatever the scratch bytes. */
  lemma NoHazardClean(vector: bool, src: seq<byte>, es: seq<Element>, states: seq<State>, total: nat)
    requires Traced(vector, src, es, states, total) && states[0].op == 0 && (vector || NoHazard(false, es, total))
    ensures Clean(vector, es, states, total)
  {
    hide NextElement, Apply, Fits, Spills;
    forall i | 0 <= i < |es| ensures FitsAt(vector, es[i], states[i], total) {
      assert Turn(vector, src, es[i], states[i], states[i + 1], total);
      TracedPositions(vector, src, es, states, total, i);
      NotHazardousFits(vector, es[i], states[i].mem, states[i].op, total);
    }
  }

  /** carquet_snappy_get_uncompressed_length: for any stream with bytes that decodes, the length of
      what it decodes to. */
  method GetUncompressedLength(src: seq<byte>) returns (status: Status, length: nat)
    ensures status == (if Varint.Decode(src).Some? then Ok else InvalidCompressedData)
    ensures status == Ok ==> length == DeclaredLength(src)
    ensures src != [] && Reference(src).Some? ==> status == Ok && length == |Reference(src).value|
  {
    hide Varint.Decode, Elements;
    var header := Varint.Read(src);
    if header.None? { return InvalidCompressedData, 0; }
    return Ok, header.value.value;
  }

  function DeclaredLength(s: seq<byte>): nat
  {
    var header := Varint.Decode(s);
    if header.None? then 0 else header.value.value
  }

  predicate NoHazardIn(s: seq<byte>)
  {
    NoHazard(false, Contents(s), DeclaredLength(s))
  }

}
