/** What a Snappy stream decodes to, said twice: declaratively, over the list of its elements, and
    as one left-to-right pass that stops where the decoder stops. */
module SnappyReference {
  import opened Bytes
  import opened SnappyFormat
  import Varint

  /** A stream is its declared length and then its elements. It is accepted when the elements are
      whole and legal and produce exactly the declared length. The decoder stops as soon as the
      output is complete, so an empty literal (which the 32-bit length wrap makes possible) may
      stand anywhere but at the very end. No bytes at all are accepted as the empty output. */
  function Reference(s: seq<byte>): (r: Option<seq<byte>>)
  {
    if s == [] then Some([]) else
    match Varint.Decode(s)
    case None => None
    case Some(p) => Body(s[p.size..], [], p.value)
  }

  /** The output after `out` of the elements in `s`, if it is exactly `total` bytes long. */
  function Body(s: seq<byte>, out: seq<byte>, total: nat): (r: Option<seq<byte>>)
  {
    match Elements(s)
    case None => None
    case Some(es) =>
      var r := Replay(es, out);
      if EndsInOutput(es) && r.Some? && |r.value| == total then r else None
  }

  /** The elements of a stream, if it has a preamble and whole elements after it. */
  function Contents(s: seq<byte>): seq<Element>
  {
    var header := Varint.Decode(s);
    if header.None? || Elements(s[header.value.size..]).None? then [] else Elements(s[header.value.size..]).value
  }

  predicate EndsInOutput(es: seq<Element>)
  {
    es != [] ==> es[|es| - 1] != Literal([])
  }

  /** One pass over `s`, ending when the input or the room for output is used up. */
  function Run(s: seq<byte>, out: seq<byte>, total: nat): (r: Option<seq<byte>>)
    requires |out| <= total
    decreases |s|
  {
    if s == [] || |out| == total then
      if s == [] && |out| == total then Some(out) else None
    else
      match NextElement(s)
      case None => None
      case Some(p) =>
        if !Legal(p.value, |out|) || |Apply(p.value, out)| > total then None
        else Run(s[p.size..], Apply(p.value, out), total)
  }

  /** The one-pass decoder accepts the same strings, with the same output. */
  lemma {:induction false} RunIsBody(s: seq<byte>, out: seq<byte>, total: nat)
    requires |out| <= total
    ensures Run(s, out, total) == Body(s, out, total)
    decreases |s|
  {
    hide NextElement;
    if s == [] {
    } else if |out| == total {
      if Elements(s).Some? && Replay(Elements(s).value, out).Some? {
        OutputGrows(Elements(s).value, out);
      }
    } else if NextElement(s).Some? {
      var p := NextElement(s).value;
      if Legal(p.value, |out|) {
        BodyStep(s, p, out, total);
        if |Apply(p.value, out)| <= total {
          RunIsBody(s[p.size..], Apply(p.value, out), total);
        }
      }
    }
  }

  lemma BodyStep(s: seq<byte>, p: Parsed<Element>, out: seq<byte>, total: nat)
    requires s != [] && NextElement(s) == Some(p) && Legal(p.value, |out|) && |out| < total
    ensures Body(s, out, total) ==
            if |Apply(p.value, out)| <= total then Body(s[p.size..], Apply(p.value, out), total) else None
  {
    hide NextElement;
    var out' := Apply(p.value, out);
    if Elements(s).Some? {
      var es, fs := Elements(s).value, Elements(s[p.size..]).value;
      assert es == [p.value] + fs && es[1..] == fs;
      assert Replay(es, out) == Replay(fs, out');
      if Replay(fs, out').Some? {
        ReplayGrows(fs, out');
      }
      if fs == [] {
        assert es == [p.value];
      } else {
        assert es[|es| - 1] == fs[|fs| - 1];
      }
    }
  }

  /** Elements that do not end in an empty literal add to the output. */
  lemma OutputGrows(es: seq<Element>, out: seq<byte>)
    requires es != [] && Replay(es, out).Some?
    requires forall e | e in es :: e.Copy? ==> e.len > 0
    ensures EndsInOutput(es) ==> |Replay(es, out).value| > |out|
  {
    var n := |es| - 1;
    assert es == es[..n] + [es[n]];
    ReplayAppend(es[..n], [es[n]], out);
    ReplayGrows(es[..n], out);
    var mid := Replay(es[..n], out).value;
    assert Replay([es[n]], mid) == Some(Apply(es[n], mid)) by {
      assert [es[n]][1..] == [];
    }
  }

  /** A decoder that has come to the end refuses any byte more. */
  lemma {:induction false} RunFollowed(s: seq<byte>, t: seq<byte>, out: seq<byte>, total: nat)
    requires |out| <= total && Run(s, out, total).Some? && t != []
    ensures Run(s + t, out, total) == None
    decreases |s|
  {
    hide NextElement;
    if s == [] {
      assert s + t == t;
    } else {
      var p := NextElement(s).value;
      NextElementPrefix(s, t);
      assert (s + t)[p.size..] == s[p.size..] + t;
      RunFollowed(s[p.size..], t, Apply(p.value, out), total);
    }
  }

  /** Nothing may follow a stream that is accepted. */
  lemma NothingFollows(s: seq<byte>, t: seq<byte>)
    requires s != [] && Reference(s).Some? && t != []
    ensures Reference(s + t) == None
  {
    hide Run, Body, Varint.Decode;
    var p := Varint.Decode(s).value;
    Varint.DecodePrefix(s, t);
    RunIsBody(s[p.size..], [], p.value);
    RunFollowed(s[p.size..], t, [], p.value);
    assert (s + t)[p.size..] == s[p.size..] + t;
    RunIsBody((s + t)[p.size..], [], p.value);
  }
}
