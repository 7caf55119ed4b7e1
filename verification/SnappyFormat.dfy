/** The reference semantics of the Snappy format: a stream is a varint length and a sequence of
    elements, and an element appends bytes to the output. Sections 1, 2.1 and 2.2 of
    format_description.txt, which src/compression/snappy.c names as its reference. */
module SnappyFormat {
  import opened Bytes

  datatype Element = Literal(bytes: seq<byte>) | Copy(offset: nat, len: nat)

  // ---- copying within the output ----

  /** One byte at a time, so that a copy may read bytes it has itself produced. */
  function OverlapCopy(out: seq<byte>, offset: nat, len: nat): (r: seq<byte>)
    requires 1 <= offset <= |out|
    ensures |r| == |out| + len
    decreases len
  {
    if len == 0 then out else OverlapCopy(out + [out[|out| - offset]], offset, len - 1)
  }

  /** `r` extends `out`, and from there on repeats itself at distance `offset`. */
  ghost predicate Repeats(out: seq<byte>, r: seq<byte>, offset: nat)
    requires offset >= 1
  {
    && |out| >= offset
    && |r| >= |out|
    && r[..|out|] == out
    && forall k | |out| <= k < |r| :: r[k] == r[k - offset]
  }

  /** The byte-by-byte copy is the only extension that repeats at its offset. */
  lemma {:induction false} OverlapCopyRepeats(out: seq<byte>, r: seq<byte>, offset: nat)
    requires 1 <= offset <= |out| <= |r|
    ensures r == OverlapCopy(out, offset, |r| - |out|) <==> Repeats(out, r, offset)
    decreases |r| - |out|
  {
    if |r| > |out| {
      var out' := out + [out[|out| - offset]];
      OverlapCopyRepeats(out', r, offset);
      if Repeats(out, r, offset) {
        assert r[|out|] == r[|out| - offset] == r[..|out|][|out| - offset];
        assert r[..|out'|] == out';
      }
      if Repeats(out', r, offset) {
        assert r[..|out|] == r[..|out'|][..|out|] == out;
        assert r[|out|] == out'[|out|];
      }
    }
  }

  /** Copying m and then n bytes is copying m + n bytes. */
  lemma {:induction false} OverlapCopySplits(out: seq<byte>, offset: nat, m: nat, n: nat)
    requires 1 <= offset <= |out|
    ensures OverlapCopy(OverlapCopy(out, offset, m), offset, n) == OverlapCopy(out, offset, m + n)
    decreases m
  {
    if m > 0 {
      OverlapCopySplits(out + [out[|out| - offset]], offset, m - 1, n);
    }
  }

  // ---- elements and their bytes ----

  /** The length field of a literal and the size of its header. A long length is computed in
      32 bits by the decoder, so the stored value FF FF FF FF means an empty literal. */
  function LiteralHeader(s: seq<byte>): (r: Option<Parsed<nat>>)
    requires |s| > 0 && s[0] % 4 == 0
    ensures r.Some? ==> 1 <= r.value.size <= |s|
  {
    var n := s[0] / 4;
    if n < 60 then Some(Parsed(n + 1, 1))
    else if |s| < n - 58 then None
    else Some(Parsed((LittleEndian(s[1..n - 58]) + 1) % POW32, n - 58))
  }

  /** The first element of `s` and its size in bytes, or None when `s` is cut short. */
  function NextElement(s: seq<byte>): (r: Option<Parsed<Element>>)
    requires |s| > 0
    ensures r.Some? ==> 1 <= r.value.size <= |s|
    ensures r.Some? && r.value.value.Copy? ==> 1 <= r.value.value.len <= 64
  {
    var tag := s[0];
    match tag % 4
    case 0 =>
      var h := LiteralHeader(s);
      if h.None? || h.value.size + h.value.value > |s| then None
      else Some(Parsed(Literal(s[h.value.size..h.value.size + h.value.value]), h.value.size + h.value.value))
    case 1 =>
      if |s| < 2 then None else Some(Parsed(Copy(tag / 32 * 256 + s[1], tag / 4 % 8 + 4), 2))
    case 2 =>
      if |s| < 3 then None else Some(Parsed(Copy(LittleEndian(s[1..3]), tag / 4 + 1), 3))
    case _ =>
      if |s| < 5 then None else Some(Parsed(Copy(Load32(s, 1), tag / 4 + 1), 5))
  }

  lemma NextLiteral(s: seq<byte>)
    requires |s| > 0 && s[0] % 4 == 0
    ensures var h := LiteralHeader(s);
            NextElement(s) ==
            if h.None? || h.value.size + h.value.value > |s| then None
            else Some(Parsed(Literal(s[h.value.size..h.value.size + h.value.value]), h.value.size + h.value.value))
  {
    hide LiteralHeader;
  }

  /** All the elements of `s`, or None when `s` is not a sequence of whole elements. */
  function Elements(s: seq<byte>): (r: Option<seq<Element>>)
    ensures r.Some? ==> forall e | e in r.value :: e.Copy? ==> 1 <= e.len <= 64
    decreases |s|
  {
    if s == [] then Some([]) else
    match NextElement(s)
    case None => None
    case Some(p) =>
      match Elements(s[p.size..])
      case None => None
      case Some(es) => Some([p.value] + es)
  }

  /** Reading an element does not look past its end. */
  lemma NextElementPrefix(s: seq<byte>, t: seq<byte>)
    requires |s| > 0 && NextElement(s).Some?
    ensures NextElement(s + t) == NextElement(s)
  {
    hide LittleEndian, LiteralHeader;
    var u := s + t;
    assert u[0] == s[0];
    match s[0] % 4
    case 0 =>
      LiteralHeaderPrefix(s, t);
      var h := LiteralHeader(s).value;
      assert u[h.size..h.size + h.value] == s[h.size..h.size + h.value];
    case 1 =>
    case 2 =>
      assert u[1..3] == s[1..3];
    case _ =>
      assert u[1..5] == s[1..5];
  }

  lemma LiteralHeaderPrefix(s: seq<byte>, t: seq<byte>)
    requires |s| > 0 && s[0] % 4 == 0 && LiteralHeader(s).Some?
    ensures LiteralHeader(s + t) == LiteralHeader(s)
  {
    hide LittleEndian;
    if s[0] / 4 >= 60 {
      assert (s + t)[1..s[0] / 4 - 58] == s[1..s[0] / 4 - 58];
    }
  }

  /** Parsing is a homomorphism: whole elements can be appended. */
  lemma {:induction false} ElementsAppend(s: seq<byte>, t: seq<byte>)
    requires Elements(s).Some? && Elements(t).Some?
    ensures Elements(s + t) == Some(Elements(s).value + Elements(t).value)
    decreases |s|
  {
    if s == [] {
      assert s + t == t && Elements(s).value + Elements(t).value == Elements(t).value;
    } else {
      var p := NextElement(s).value;
      ElementsAppend(s[p.size..], t);
      ElementsPrepend(s, p, t);
    }
  }

  lemma ElementsStep(s: seq<byte>, p: Parsed<Element>)
    requires |s| > 0 && NextElement(s) == Some(p) && Elements(s[p.size..]).Some?
    ensures Elements(s) == Some([p.value] + Elements(s[p.size..]).value)
  {
    hide NextElement;
  }

  lemma ElementsPrepend(s: seq<byte>, p: Parsed<Element>, t: seq<byte>)
    requires |s| > 0 && NextElement(s) == Some(p)
    requires Elements(s[p.size..]).Some? && Elements(t).Some?
    requires Elements(s[p.size..] + t) == Some(Elements(s[p.size..]).value + Elements(t).value)
    ensures Elements(s).Some? && Elements(s + t) == Some(Elements(s).value + Elements(t).value)
  {
    hide NextElement, Elements;
    NextElementPrefix(s, t);
    assert (s + t)[p.size..] == s[p.size..] + t;
    ElementsStep(s, p);
    ElementsStep(s + t, p);
    var fs, ft := Elements(s[p.size..]).value, Elements(t).value;
    assert [p.value] + (fs + ft) == [p.value] + fs + ft;
  }

  // ---- what elements mean ----

  predicate Legal(e: Element, produced: nat)
  {
    e.Copy? ==> 1 <= e.offset <= produced
  }

  /** How many bytes an element adds to the output. */
  function Size(e: Element): nat
  {
    if e.Literal? then |e.bytes| else e.len
  }

  function Apply(e: Element, out: seq<byte>): (r: seq<byte>)
    requires Legal(e, |out|)
    ensures |r| == |out| + Size(e)
  {
    match e
    case Literal(bytes) => out + bytes
    case Copy(offset, len) => OverlapCopy(out, offset, len)
  }

  /** How many bytes the elements add. */
  function Produced(es: seq<Element>): nat
  {
    if es == [] then 0 else Size(es[0]) + Produced(es[1..])
  }

  lemma {:induction false} ProducedAppend(es: seq<Element>, fs: seq<Element>)
    ensures Produced(es + fs) == Produced(es) + Produced(fs)
    decreases |es|
  {
    if es == [] {
      assert es + fs == fs;
    } else {
      assert (es + fs)[1..] == es[1..] + fs;
      ProducedAppend(es[1..], fs);
    }
  }

  lemma ProducedMore(es: seq<Element>, e: Element)
    ensures Produced(es + [e]) == Produced(es) + Size(e)
  {
    ProducedAppend(es, [e]);
    assert [e][1..] == [] && Produced([]) == 0;
  }

  /** The output of the elements `es` after `out`, or None when a copy reaches before the start. */
  function Replay(es: seq<Element>, out: seq<byte>): (r: Option<seq<byte>>)
    decreases |es|
  {
    if es == [] then Some(out)
    else if !Legal(es[0], |out|) then None
    else Replay(es[1..], Apply(es[0], out))
  }

  lemma ReplayStep(e: Element, es: seq<Element>, out: seq<byte>)
    ensures Replay([e] + es, out) == if Legal(e, |out|) then Replay(es, Apply(e, out)) else None
  {
    assert ([e] + es)[1..] == es;
  }

  lemma {:induction false} ReplayAppend(es: seq<Element>, fs: seq<Element>, out: seq<byte>)
    ensures Replay(es + fs, out) ==
            if Replay(es, out).Some? then Replay(fs, Replay(es, out).value) else None
    decreases |es|
  {
    if es == [] {
      assert es + fs == fs;
    } else if Legal(es[0], |out|) {
      assert (es + fs)[1..] == es[1..] + fs;
      ReplayAppend(es[1..], fs, Apply(es[0], out));
    }
  }

  lemma {:induction false} ReplayGrows(es: seq<Element>, out: seq<byte>)
    requires Replay(es, out).Some?
    ensures |Replay(es, out).value| >= |out|
    decreases |es|
  {
    if es != [] {
      ReplayGrows(es[1..], Apply(es[0], out));
    }
  }

  /** Elements that decode to `data` on their own decode to it after any earlier output. */
  lemma {:induction false} ReplayAfter(es: seq<Element>, ctx: seq<byte>, out: seq<byte>)
    requires Replay(es, out).Some?
    ensures Replay(es, ctx + out) == Some(ctx + Replay(es, out).value)
    decreases |es|
  {
    if es != [] {
      match es[0] {
        case Literal(bytes) =>
          assert ctx + out + bytes == ctx + (out + bytes);
        case Copy(offset, len) =>
          OverlapCopyAfter(ctx, out, offset, len);
      }
      ReplayAfter(es[1..], ctx, Apply(es[0], out));
    }
  }

  lemma {:induction false} OverlapCopyAfter(ctx: seq<byte>, out: seq<byte>, offset: nat, len: nat)
    requires 1 <= offset <= |out|
    ensures OverlapCopy(ctx + out, offset, len) == ctx + OverlapCopy(out, offset, len)
    decreases len
  {
    if len > 0 {
      var out' := out + [out[|out| - offset]];
      assert ctx + out + [(ctx + out)[|ctx + out| - offset]] == ctx + out';
      OverlapCopyAfter(ctx, out', offset, len - 1);
    }
  }
}
