/** The format as format_description.txt has it, sections 1, 2.1 and 2.2: no arithmetic wraps, nothing
    may follow the output, and there is no stream without a preamble. The streams on which the
    decoder departs from it are exactly those with a literal whose length wraps, and the empty one. */
module SnappyStandard {
  import opened Bytes
  import opened SnappyFormat
  import opened SnappyReference
  import Varint

  /** The length of a literal: one more than what the tag, or the bytes after it, hold. */
  function LiteralLength(s: seq<byte>): (r: Option<Parsed<nat>>)
    requires |s| > 0 && s[0] % 4 == 0
    ensures r.Some? ==> 1 <= r.value.size <= |s|
  {
    var n := s[0] / 4;
    if n < 60 then Some(Parsed(n + 1, 1))
    else if |s| < n - 58 then None
    else Some(Parsed(LittleEndian(s[1..n - 58]) + 1, n - 58))
  }

  function FirstElement(s: seq<byte>): (r: Option<Parsed<Element>>)
    requires |s| > 0
    ensures r.Some? ==> 1 <= r.value.size <= |s|
  {
    if s[0] % 4 != 0 then NextElement(s) else
    match LiteralLength(s)
    case None => None
    case Some(h) =>
      if h.size + h.value > |s| then None
      else Some(Parsed(Literal(s[h.size..h.size + h.value]), h.size + h.value))
  }

  function AllElements(s: seq<byte>): (r: Option<seq<Element>>)
    decreases |s|
  {
    if s == [] then Some([]) else
    match FirstElement(s)
    case None => None
    case Some(p) =>
      match AllElements(s[p.size..])
      case None => None
      case Some(es) => Some([p.value] + es)
  }

  /** A stream is a length and elements that are legal and produce just as many bytes. */
  function Standard(s: seq<byte>): (r: Option<seq<byte>>)
  {
    match Varint.Decode(s)
    case None => None
    case Some(p) => StandardBody(s[p.size..], [], p.value)
  }

  function StandardBody(s: seq<byte>, out: seq<byte>, total: nat): (r: Option<seq<byte>>)
  {
    match AllElements(s)
    case None => None
    case Some(es) =>
      var r := Replay(es, out);
      if r.Some? && |r.value| == total then r else None
  }

  /** A literal has a length that wraps to none. */
  predicate Wraps(es: seq<Element>)
  {
    Literal([]) in es
  }

  lemma {:induction false} LittleEndianBound(s: seq<byte>)
    ensures LittleEndian(s) < Pow256(|s|)
  {
    if s != [] {
      LittleEndianBound(s[1..]);
    }
  }

  /** The decoder and the standard read an element alike, but for a length of 2^32. */
  lemma ElementsDiffer(s: seq<byte>)
    requires |s| > 0
    ensures NextElement(s).Some? && NextElement(s).value.value == Literal([]) ==>
              FirstElement(s).None? ||
              (FirstElement(s).value.value.Literal? && |FirstElement(s).value.value.bytes| == POW32)
    ensures NextElement(s).None? || NextElement(s).value.value != Literal([]) ==> FirstElement(s) == NextElement(s)
  {
    if s[0] % 4 == 0 {
      LengthsDiffer(s);
      hide LiteralHeader, LiteralLength, LittleEndian;
    }
  }

  lemma LengthsDiffer(s: seq<byte>)
    requires |s| > 0 && s[0] % 4 == 0
    ensures LiteralHeader(s).Some? <==> LiteralLength(s).Some?
    ensures LiteralHeader(s).Some? ==>
              var h, l := LiteralHeader(s).value, LiteralLength(s).value;
              h.size == l.size && 1 <= l.value <= POW32 && h.value == if l.value == POW32 then 0 else l.value
  {
    hide LittleEndian, Pow256;
    var n := s[0] / 4;
    if n >= 60 && |s| >= n - 58 {
      var stored := s[1..n - 58];
      LittleEndianBound(stored);
      Pow256Values();
      assert LittleEndian(stored) < POW32;
      WrapsAtMost(LittleEndian(stored));
    }
  }

  lemma WrapsAtMost(v: nat)
    requires v < POW32
    ensures (v + 1) % POW32 == if v + 1 == POW32 then 0 else v + 1
  {
  }

  lemma AllElementsStep(s: seq<byte>, p: Parsed<Element>)
    requires |s| > 0 && FirstElement(s) == Some(p) && AllElements(s[p.size..]).Some?
    ensures AllElements(s) == Some([p.value] + AllElements(s[p.size..]).value)
  {
    hide FirstElement;
  }

  /** A literal of 2^32 bytes is more than any declared length. */
  lemma TooLong(s: seq<byte>, out: seq<byte>, total: nat)
    requires |s| > 0 && total < POW32
    requires FirstElement(s).None? ||
             (FirstElement(s).value.value.Literal? && |FirstElement(s).value.value.bytes| == POW32)
    ensures StandardBody(s, out, total) == None
  {
    hide FirstElement;
    if AllElements(s).Some? {
      var p := FirstElement(s).value;
      var fs := AllElements(s[p.size..]).value;
      assert AllElements(s).value[1..] == fs;
      if Replay(fs, Apply(p.value, out)).Some? {
        ReplayGrows(fs, Apply(p.value, out));
      }
    }
  }

  /** After an element that both read, the rest decides. */
  lemma StandardBodyStep(s: seq<byte>, p: Parsed<Element>, out: seq<byte>, total: nat)
    requires |s| > 0 && FirstElement(s) == Some(p)
    ensures StandardBody(s, out, total) ==
            if Legal(p.value, |out|) then StandardBody(s[p.size..], Apply(p.value, out), total) else None
  {
    hide FirstElement, Replay, Apply;
    if AllElements(s[p.size..]).Some? {
      AllElementsStep(s, p);
      hide AllElements;
      ReplayStep(p.value, AllElements(s[p.size..]).value, out);
    }
  }

  lemma FirstDoesNotWrap(e: Element, es: seq<Element>)
    requires e != Literal([])
    ensures EndsInOutput([e] + es) <==> EndsInOutput(es)
    ensures Wraps([e] + es) <==> Wraps(es)
  {
    assert es != [] ==> ([e] + es)[|es|] == es[|es| - 1];
  }

  lemma ElementsMore(s: seq<byte>, p: Parsed<Element>)
    requires |s| > 0 && NextElement(s) == Some(p)
    ensures Elements(s).Some? <==> Elements(s[p.size..]).Some?
  {
    hide NextElement;
  }

  lemma BodyStepUnwrapped(s: seq<byte>, p: Parsed<Element>, out: seq<byte>, total: nat)
    requires |s| > 0 && NextElement(s) == Some(p) && p.value != Literal([])
    ensures Body(s, out, total) ==
            if Legal(p.value, |out|) then Body(s[p.size..], Apply(p.value, out), total) else None
    ensures Elements(s).Some? <==> Elements(s[p.size..]).Some?
    ensures Elements(s).Some? ==> (Wraps(Elements(s).value) <==> Wraps(Elements(s[p.size..]).value))
  {
    hide NextElement, Elements, Replay, Apply, Wraps, EndsInOutput;
    ElementsMore(s, p);
    if Elements(s[p.size..]).Some? {
      var fs := Elements(s[p.size..]).value;
      ElementsStep(s, p);
      ReplayStep(p.value, fs, out);
      FirstDoesNotWrap(p.value, fs);
    }
  }

  /** The elements of a stream mean what the standard says unless one of them wraps; then the
      standard refuses them. */
  lemma {:induction false} BodiesAgree(s: seq<byte>, out: seq<byte>, total: nat)
    requires total < POW32
    ensures StandardBody(s, out, total) ==
            if Elements(s).Some? && Wraps(Elements(s).value) then None else Body(s, out, total)
    decreases |s|
  {
    hide NextElement, FirstElement, Body, StandardBody;
    if s == [] {
      BodiesEnd(out, total);
      return;
    }
    ElementsDiffer(s);
    if NextElement(s).None? {
      BodiesCut(s, out, total);
    } else if NextElement(s).value.value == Literal([]) {
      TooLong(s, out, total);
      if Elements(s).Some? { assert Elements(s).value[0] == Literal([]); } else { BodyCut(s, out, total); }
    } else {
      var p := NextElement(s).value;
      BodyStepUnwrapped(s, p, out, total);
      StandardBodyStep(s, p, out, total);
      if Legal(p.value, |out|) {
        BodiesAgree(s[p.size..], Apply(p.value, out), total);
      }
    }
  }

  lemma BodiesEnd(out: seq<byte>, total: nat)
    ensures StandardBody([], out, total) == Body([], out, total)
  {
  }

  lemma BodiesCut(s: seq<byte>, out: seq<byte>, total: nat)
    requires |s| > 0 && NextElement(s) == FirstElement(s) == None
    ensures StandardBody(s, out, total) == Body(s, out, total) == None && Elements(s) == None
  {
  }

  lemma BodyCut(s: seq<byte>, out: seq<byte>, total: nat)
    requires Elements(s).None?
    ensures Body(s, out, total) == None
  {
  }

  /** The decoder's reference and the standard agree on every stream without a wrapped length; the
      standard has none of the others, and no empty stream. */
  lemma StandardAgrees(s: seq<byte>)
    ensures Standard(s) == if s == [] || Wraps(Contents(s)) then None else Reference(s)
  {
    hide Body, StandardBody, Elements, Varint.Decode;
    if s == [] {
      EmptyHasNoPreamble();
    } else if Varint.Decode(s).Some? {
      var p := Varint.Decode(s).value;
      BodiesAgree(s[p.size..], [], p.value);
    }
  }

  lemma EmptyHasNoPreamble()
    ensures Varint.Decode([]).None?
  {
  }

  /** A stream of one byte: a literal of 2^32 bytes, and then the literal that is there. */
  function Malformed(): seq<byte>
  {
    [1, 252, 255, 255, 255, 255, 0, 65]
  }

  lemma WrappingLiteral(t: seq<byte>)
    requires |t| >= 5 && t[0] == 252 && t[1..5] == [255, 255, 255, 255]
    ensures NextElement(t) == Some(Parsed(Literal([]), 5))
  {
    AllOnes();
    hide LittleEndian;
    assert LiteralHeader(t) == Some(Parsed(0, 5)) && t[5..5] == [];
  }

  /** While output is still to come, a literal that wraps is passed over. */
  lemma WrappedIsSkipped(s: seq<byte>, out: seq<byte>, total: nat)
    requires |out| < total
    ensures Run([252, 255, 255, 255, 255] + s, out, total) == Run(s, out, total)
  {
    hide NextElement;
    var t := [252, 255, 255, 255, 255] + s;
    assert t[1..5] == [255, 255, 255, 255] && t[5..] == s && out + [] == out;
    WrappingLiteral(t);
  }

  lemma ShortestLiteral(u: seq<byte>, b: byte)
    requires u == [0, b]
    ensures NextElement(u) == Some(Parsed(Literal([b]), 2))
  {
    hide LittleEndian;
    assert u[1..2] == [b];
  }

  lemma MalformedElements()
    ensures Varint.Decode(Malformed()) == Some(Parsed(1, 1))
    ensures Elements(Malformed()[1..]) == Some([Literal([])] + [Literal([65])])
  {
    var t, u := Malformed()[1..], [0, 65];
    var first, second := Literal([]), Literal([65]);
    assert Malformed()[0] == 1;
    hide NextElement;
    WrappingLiteral(t);
    ShortestLiteral(u, 65);
    assert t[5..] == u && u[2..] == [];
    ElementsStep(u, Parsed(second, 2));
    ElementsStep(t, Parsed(first, 5));
    assert [second] + [] == [second];
  }

  /** It is not in the format, and the decoder accepts it. */
  lemma MalformedAccepted()
    ensures Standard(Malformed()) == None && Reference(Malformed()) == Some([65])
  {
    hide Elements, Varint.Decode, Standard;
    var a: seq<byte>, first, second := [65], Literal([]), Literal([65]);
    MalformedElements();
    ReplayStep(first, [second], []);
    ReplayStep(second, [], []);
    assert [second] + [] == [second] && [] + a == a;
    assert ([first] + [second])[0] == first && ([first] + [second])[1] == second;
    StandardAgrees(Malformed());
  }

  lemma AllOnes()
    ensures LittleEndian([255, 255, 255, 255]) == POW32 - 1
  {
    LittleEndianPair(255, 255);
    assert [255, 255, 255, 255][1..] == [255, 255, 255] && [255, 255, 255][1..] == [255, 255];
  }
}
