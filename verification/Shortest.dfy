/** The shortest way to write a list of elements. There is only one, which is the one the encoder's
    forms make. */
module Shortest {
  import opened Bytes
  import opened SnappyForms
  import opened SnappyFormat
  import Varint

  /** The bytes of an element in its shortest form. */
  function ShortestSize(e: Element): nat
  {
    match e
    case Literal(b) =>
      if |b| == 0 then 5
      else |b| + (if |b| <= 60 then 1 else if |b| <= 256 then 2 else if |b| <= 65536 then 3
                  else if |b| <= 16777216 then 4 else 5)
    case Copy(offset, len) =>
      if 4 <= len < 12 && offset < 2048 then 2 else if offset < 65536 then 3 else 5
  }

  function ShortestTotal(es: seq<Element>): nat
  {
    if es == [] then 0 else ShortestSize(es[0]) + ShortestTotal(es[1..])
  }

  lemma {:induction false} ShortestAppend(es: seq<Element>, fs: seq<Element>)
    ensures ShortestTotal(es + fs) == ShortestTotal(es) + ShortestTotal(fs)
    decreases |es|
  {
    hide ShortestSize;
    if es == [] {
      assert es + fs == fs;
    } else {
      assert (es + fs)[1..] == es[1..] + fs;
      ShortestAppend(es[1..], fs);
    }
  }

  lemma ShortestOne(e: Element)
    ensures ShortestTotal([e]) == ShortestSize(e)
  {
    assert [e][1..] == [];
  }

  lemma ShortestMore(es: seq<Element>, e: Element)
    ensures ShortestTotal(es + [e]) == ShortestTotal(es) + ShortestSize(e)
  {
    hide ShortestTotal, ShortestSize;
    ShortestAppend(es, [e]);
    ShortestOne(e);
  }

  lemma ShortestNone(es: seq<Element>)
    requires es == []
    ensures ShortestTotal(es) == 0
  {
  }

  /** How many length bytes a literal of this size needs, and what it takes with more. */
  lemma LengthBytes(count: nat, stored: nat)
    requires 1 <= count <= 4 && stored < Pow256(count)
    ensures stored >= 256 ==> count >= 2
    ensures stored >= 65536 ==> count >= 3
    ensures stored >= 16777216 ==> count >= 4
  {
    Pow256Values();
  }

  /** Two ways to write a literal are the same when neither is longer than the shortest. */
  lemma LiteralShortest(s: seq<byte>, t: seq<byte>, b: seq<byte>, n: nat, m: nat)
    requires s != [] && NextElement(s) == Some(Parsed(Literal(b), n))
    requires t != [] && NextElement(t) == Some(Parsed(Literal(b), m))
    ensures n >= ShortestSize(Literal(b))
    ensures n == m == ShortestSize(Literal(b)) ==> s[..n] == t[..n]
  {
    LiteralLength(s, b, n);
    LiteralLength(t, b, m);
    if n == m == ShortestSize(Literal(b)) {
      LiteralForms(s, b, n);
      LiteralForms(t, b, n);
    }
  }

  lemma LiteralCount(s: seq<byte>, b: seq<byte>, n: nat) returns (count: nat, stored: nat)
    requires s != [] && NextElement(s) == Some(Parsed(Literal(b), n)) && s[0] / 4 >= 60
    ensures 1 <= count <= 4 && stored < Pow256(count) && n == 1 + count + |b|
    ensures |b| == if stored == 0xFFFF_FFFF then 0 else stored + 1
  {
    LiteralForms(s, b, n);
    hide NextElement, LowBytes, Pow256;
    count, stored :| 1 <= count <= 4 && stored < Pow256(count) &&
      s[..n] == [(59 + count) * 4] + LowBytes(stored, count) + b &&
      |b| == if stored == 0xFFFF_FFFF then 0 else stored + 1;
    assert |s[..n]| == n && |LowBytes(stored, count)| == count;
  }

  /** The tag says how long the header is, and that says which literals it can stand for. */
  lemma LiteralLength(s: seq<byte>, b: seq<byte>, n: nat)
    requires s != [] && NextElement(s) == Some(Parsed(Literal(b), n))
    ensures n >= ShortestSize(Literal(b))
    ensures s[0] / 4 < 60 ==> n == 1 + |b|
    ensures s[0] / 4 >= 60 ==> n > 1 + |b|
  {
    hide NextElement, LowBytes, Pow256;
    if s[0] / 4 >= 60 {
      var count, stored := LiteralCount(s, b, n);
      LengthBytes(count, stored);
    } else {
      LiteralForms(s, b, n);
      assert |s[..n]| == n;
    }
  }

  lemma CopyShortest(s: seq<byte>, t: seq<byte>, offset: nat, len: nat, n: nat, m: nat)
    requires s != [] && NextElement(s) == Some(Parsed(Copy(offset, len), n))
    requires t != [] && NextElement(t) == Some(Parsed(Copy(offset, len), m))
    ensures n >= ShortestSize(Copy(offset, len))
    ensures n == m == ShortestSize(Copy(offset, len)) ==> s[..n] == t[..n]
  {
    CopyForms(s, offset, len, n);
    CopyForms(t, offset, len, m);
    hide NextElement, LowBytes;
    assert |LowBytes(offset, 4)| == 4;
  }

  lemma ElementShortest(s: seq<byte>, t: seq<byte>, e: Element, n: nat, m: nat)
    requires s != [] && NextElement(s) == Some(Parsed(e, n))
    requires t != [] && NextElement(t) == Some(Parsed(e, m))
    ensures n >= ShortestSize(e)
    ensures n == m == ShortestSize(e) ==> s[..n] == t[..n]
  {
    hide NextElement, ShortestSize;
    match e
    case Literal(b) => LiteralShortest(s, t, b, n, m);
    case Copy(offset, len) => CopyShortest(s, t, offset, len, n, m);
  }

  lemma ElementsFirst(s: seq<byte>, es: seq<Element>)
    requires es != [] && Elements(s) == Some(es)
    ensures s != [] && NextElement(s).Some?
    ensures var p := NextElement(s).value; p.value == es[0] && Elements(s[p.size..]) == Some(es[1..])
  {
    hide NextElement;
  }

  lemma ElementsNone(s: seq<byte>)
    ensures Elements(s) == Some([]) ==> s == []
  {
    hide NextElement;
  }

  /** Whatever else stands for the elements is longer. */
  lemma {:induction false} ElementsShortest(s: seq<byte>, t: seq<byte>, es: seq<Element>)
    requires Elements(s) == Elements(t) == Some(es)
    ensures |s| >= ShortestTotal(es)
    ensures |s| == |t| == ShortestTotal(es) ==> s == t
    decreases |es|
  {
    hide NextElement, Elements, ShortestSize;
    if es == [] {
      ElementsNone(s);
      ElementsNone(t);
    } else {
      ElementsFirst(s, es);
      ElementsFirst(t, es);
      var n, m := NextElement(s).value.size, NextElement(t).value.size;
      ElementShortest(s, t, es[0], n, m);
      ElementShortest(t, s, es[0], m, n);
      ElementsShortest(s[n..], t[m..], es[1..]);
      ElementsShortest(t[m..], s[n..], es[1..]);
      assert s == s[..n] + s[n..] && t == t[..m] + t[m..];
    }
  }

  /** A stream of the elements `es` that declares the length `n`. */
  predicate IsStream(t: seq<byte>, n: nat, es: seq<Element>)
  {
    var header := Varint.Decode(t);
    header.Some? && header.value.value == n && Elements(t[header.value.size..]) == Some(es)
  }

  /** The shortest number before the shortest elements make the shortest stream. */
  lemma StreamShortest(n: nat, enc: seq<byte>, es: seq<Element>, t: seq<byte>)
    requires n < POW32 && Elements(enc) == Some(es) && |enc| == ShortestTotal(es) && IsStream(t, n, es)
    ensures |Varint.Encode(n) + enc| <= |t|
    ensures |Varint.Encode(n) + enc| == |t| ==> Varint.Encode(n) + enc == t
  {
    hide Elements, Varint.Decode, Varint.Encode, ShortestTotal;
    var size := Varint.Decode(t).value.size;
    Varint.DecodeShortest(t);
    ElementsShortest(t[size..], enc, es);
    ElementsShortest(enc, t[size..], es);
    assert t == t[..size] + t[size..];
  }
}
