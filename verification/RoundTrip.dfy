/** The law the codec is for, and how far the scalar build keeps it. */
module RoundTrip {
  import opened Bytes
  import opened Decompress
  import opened Greedy
  import opened MatchCopy
  import opened SnappyFormat
  import opened SnappyReference
  import Compress

  // ---- inputs that the scalar build is sure to bring back ----

  /** At `p` the data repeats what stands `d` before it, for more than `d` bytes. */
  predicate RepeatsAt(data: seq<byte>, p: nat, d: nat)
  {
    d <= p && p + d < |data| && data[p..p + d + 1] == data[p - d..p + 1]
  }

  /** Somewhere a pattern of 8 to 15 bytes is repeated, more than 16 bytes before the end. */
  predicate ShortPeriod(data: seq<byte>)
  {
    exists p, d | 0 <= p < |data| && 8 <= d < 16 :: p + 16 < |data| && RepeatsAt(data, p, d)
  }

  lemma RepeatsAtMeans(data: seq<byte>, p: nat, d: nat)
    ensures RepeatsAt(data, p, d) <==>
            d <= p && p + d < |data| && forall k | p <= k <= p + d :: data[k] == data[k - d]
  {
    if d <= p && p + d < |data| {
      var s, t := data[p..p + d + 1], data[p - d..p + 1];
      if s == t {
        forall k | p <= k <= p + d ensures data[k] == data[k - d] {
          assert s[k - p] == t[k - p];
        }
      }
    }
  }

  lemma ShortPeriodMeans(data: seq<byte>)
    ensures ShortPeriod(data) <==> exists p, d | 0 <= p < |data| - 16 && 8 <= d <= 15 :: RepeatsAt(data, p, d)
  {
    hide RepeatsAt;
  }

  lemma {:induction false} ReplayPrefix(es: seq<Element>, out: seq<byte>)
    requires Replay(es, out).Some?
    ensures |Replay(es, out).value| == |out| + Produced(es) && Replay(es, out).value[..|out|] == out
    decreases |es|
  {
    if es != [] {
      ReplayPrefix(es[1..], Apply(es[0], out));
      ApplyKeeps(es[0], out);
      assert Replay(es, out).value[..|Apply(es[0], out)|][..|out|] == Replay(es, out).value[..|out|];
    }
  }

  /** An element in the middle: what is before it is the output so far, to which it is applied. */
  lemma ReplayAt(es: seq<Element>, i: nat, data: seq<byte>)
    requires Replay(es, []) == Some(data) && i < |es|
    ensures var pos := Produced(es[..i]);
            && pos + Size(es[i]) <= |data| && Legal(es[i], pos)
            && data[..pos + Size(es[i])] == Apply(es[i], data[..pos])
  {
    hide Apply, Replay, Produced, Legal;
    var before, e, after := es[..i], es[i], es[i + 1..];
    SplitAt(es, i);
    ReplayAppend(before, [e] + after, []);
    var out := Replay(before, []).value;
    ReplayPrefix(before, []);
    ReplayFirst(e, after, out, data);
  }

  lemma SplitAt<T>(es: seq<T>, i: nat)
    requires i < |es|
    ensures es == es[..i] + ([es[i]] + es[i + 1..])
  {
  }

  lemma ReplayFirst(e: Element, es: seq<Element>, out: seq<byte>, data: seq<byte>)
    requires Replay([e] + es, out) == Some(data)
    ensures |out| + Size(e) <= |data| && data[..|out|] == out
    ensures Legal(e, |out|) && data[..|out| + Size(e)] == Apply(e, out)
  {
    ReplayStep(e, es, out);
    hide Apply, Replay, Produced, Legal;
    ReplayPrefix(es, Apply(e, out));
    ApplyKeeps(e, out);
    assert data[..|out|] == data[..|Apply(e, out)|][..|out|];
  }

  /** A copy that is a hazard repeats a short pattern. */
  lemma HazardRepeats(e: Element, data: seq<byte>, pos: nat)
    requires Legal(e, pos) && pos + Size(e) <= |data| && data[..pos + Size(e)] == Apply(e, data[..pos])
    requires HazardousElement(false, e, pos, |data|)
    ensures ShortPeriod(data)
  {
    hide OverlapCopy;
    var out, r, d := data[..pos], data[..pos + Size(e)], e.offset;
    OverlapCopyRepeats(out, r, d);
    forall k | pos <= k < pos + d + 1 ensures data[k] == data[k - d] {
      assert r[k] == r[k - d];
    }
    assert data[pos..pos + d + 1] == data[pos - d..pos + 1];
    assert RepeatsAt(data, pos, d);
  }

  lemma NoShortPeriodNoHazard(es: seq<Element>, data: seq<byte>)
    requires Replay(es, []) == Some(data) && !ShortPeriod(data)
    ensures NoHazard(false, es, |data|)
  {
    hide ShortPeriod, HazardousElement, Apply;
    forall i | 0 <= i < |es| ensures !HazardousElement(false, es[i], Produced(es[..i]), |data|) {
      ReplayAt(es, i, data);
      if HazardousElement(false, es[i], Produced(es[..i]), |data|) {
        HazardRepeats(es[i], data, Produced(es[..i]));
      }
    }
  }

  /** What a stream's elements replay to is its reference output. */
  lemma ReferenceReplays(s: seq<byte>)
    requires s != [] && Reference(s).Some?
    ensures Replay(Contents(s), []) == Reference(s) && DeclaredLength(s) == |Reference(s).value|
  {
    hide Elements;
  }

  /** Compressing into a buffer with the bound and decompressing into one with room for the input
      succeeds, with the length of the input, for every input whose length fits 32 bits; a longer one
      is refused on the way back. The vector build always brings the bytes back. The scalar build
      does so exactly when every copy of the greedy parse found the scratch bytes as it needs them:
      at least when none of them is a hazard, and so for every input without a short period. */
  method RoundTrip(src: seq<byte>, compressed: array<byte>, dec: array<byte>, vector: bool)
    returns (status: Status, compSize: nat, decSize: nat, ghost states: seq<State>)
    requires compressed != dec && dec.Length >= |src|
    requires compressed.Length >= 32 + |src| + |src| / 6
    modifies compressed, dec
    ensures status == Ok <==> |src| < 0x1_0000_0000
    ensures compSize <= |src| + |src| / 60 + (|src| + 65535) / 65536 + 5 && compSize <= compressed.Length
    ensures status == Ok ==> decSize == |src|
    ensures status == Ok && vector ==> dec[..decSize] == src
    ensures status == Ok && NoHazard(false, StreamElements(src), |src|) ==> dec[..decSize] == src
    ensures status == Ok && (forall p, d | 0 <= p < |src| - 16 && 8 <= d <= 15 :: !RepeatsAt(src, p, d)) ==>
              dec[..decSize] == src
    ensures status == Ok ==> Traced(vector, compressed[..compSize], StreamElements(src), states, |src|) &&
                             states[0].mem == old(dec[..]) && states[0].op == 0
    ensures status == Ok ==> (dec[..decSize] == src <==> Clean(vector, StreamElements(src), states, |src|))
  {
    hide Reference, StreamElements, Contents, DeclaredLength, NoHazard, ShortPeriod, Traced, Clean;
    status, compSize := Compress.Compress(src, compressed);
    ghost var stream := compressed[..compSize];
    status, decSize, states := Decompress.Decompress(compressed[..compSize], dec, vector);
    assert compressed[..compSize] == stream;
    if status == Ok {
      if stream == [] { EmptyReplays(); } else { ReferenceReplays(stream); }
      ShortPeriodMeans(src);
      if !ShortPeriod(src) { NoShortPeriodNoHazard(StreamElements(src), src); }
    }
  }

  lemma EmptyReplays()
    ensures Replay(Contents([]), []) == Reference([]) && DeclaredLength([]) == |Reference([]).value|
  {
  }
}
