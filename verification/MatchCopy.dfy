/** Expanding a match inside the output buffer with 8-, 16- and 64-byte moves, which may write past
    the end of the match, and when that gives the bytes the one-byte-at-a-time copy would give. */
module MatchCopy {
  import opened Bytes
  import opened Modulo
  import opened SnappyFormat

  // ---- arithmetic of periods ----

  /** Where index `x` falls in a pattern of `p` bytes. */
  function Phase(x: nat, p: nat): (r: nat)
    requires p > 0
    ensures r < p
  {
    Remainder(x, p)
  }

  lemma PhaseUnique(x: nat, p: nat, q: nat, r: nat)
    requires r < p && x == Times(p, q) + r
    ensures Phase(x, p) == r
  {
    DividedOnce(x, p, q, r);
  }

  lemma PhaseAdd(x: nat, y: nat, p: nat)
    requires p > 0
    ensures Phase(x + Phase(y, p), p) == Phase(x + y, p)
  {
    hide Remainder, Quotient, Times;
    var z := x + Phase(y, p);
    Divided(y, p);
    Divided(z, p);
    TimesAdd(p, Quotient(z, p), Quotient(y, p));
    PhaseUnique(x + y, p, Quotient(z, p) + Quotient(y, p), Remainder(z, p));
  }

  lemma PhaseSmall(x: nat, p: nat)
    requires x < p
    ensures Phase(x, p) == x
  {
    RemainderSmall(x, p);
  }

  /** `d` is a whole number of periods. */
  predicate Period(d: nat, p: nat)
    requires p > 0
  {
    d > 0 && Phase(d, p) == 0
  }

  lemma OnePeriod(p: nat)
    requires p > 0
    ensures Period(p, p)
  {
    hide Times, Remainder;
    TimesSmall(p);
    PhaseUnique(p, p, 1, 0);
  }

  lemma PeriodLater(x: nat, d: nat, p: nat)
    requires p > 0 && Period(d, p)
    ensures d > 0 && Phase(x + d, p) == Phase(x, p) && Period(d + d, p)
  {
    hide Remainder;
    PhaseAdd(x, d, p);
    PhaseAdd(d, d, p);
  }

  // ---- the copies ----

  /** incremental_copy_slow: the byte at a time that the format asks for. */
  method CopySlow(dst: array<byte>, src0: nat, op0: nat, opLimit: nat)
    requires src0 < op0 && opLimit <= dst.Length
    modifies dst
    ensures forall k | op0 <= k < opLimit :: dst[k] == dst[k - (op0 - src0)]
    ensures forall k | 0 <= k < dst.Length && !(op0 <= k < opLimit) :: dst[k] == old(dst[k])
  {
    var src, op := src0, op0;
    while op < opLimit
      invariant op - src == op0 - src0 && op0 <= op && (op <= opLimit || op == op0)
      invariant forall k | op0 <= k < op :: dst[k] == dst[k - (op0 - src0)]
      invariant forall k | 0 <= k < dst.Length && !(op0 <= k < op) :: dst[k] == old(dst[k])
    {
      dst[op] := dst[src];
      op, src := op + 1, src + 1;
    }
  }

  /** Up to four 16-byte moves, each made when the match reaches its block. A byte whose source
      lies in its own block gets what that source held before the move. */
  method CopyBlocks(dst: array<byte>, src: nat, op: nat, opLimit: nat)
    requires src + 8 <= op < opLimit <= op + 64 && opLimit + 15 <= dst.Length
    modifies dst
    ensures forall k | op <= k < opLimit ::
              dst[k] == if (k - op) % 16 < op - src then dst[k - (op - src)] else old(dst[k - (op - src)])
    ensures forall k | 0 <= k < dst.Length && !(op <= k < opLimit + 15) :: dst[k] == old(dst[k])
  {
    CopyTwoBlocks(dst, src, op, opLimit);
    if op + 32 < opLimit { CopyTwoBlocks(dst, src + 32, op + 32, opLimit); }
  }

  method CopyTwoBlocks(dst: array<byte>, src: nat, op: nat, opLimit: nat)
    requires src + 8 <= op < opLimit && opLimit + 15 <= dst.Length
    modifies dst
    ensures forall k | op <= k < opLimit && k < op + 32 ::
              dst[k] == if (k - op) % 16 < op - src then dst[k - (op - src)] else old(dst[k - (op - src)])
    ensures forall k | 0 <= k < dst.Length && !(op <= k < opLimit + 15 && k < op + 32) :: dst[k] == old(dst[k])
  {
    Move(dst, src, op, 16);
    if op + 16 < opLimit { Move(dst, src + 16, op + 16, 16); }
  }

  /** A vector shuffle: byte `i` of the result is the byte of `v` that the mask names. */
  function Shuffle(v: seq<byte>, mask: seq<nat>): (r: seq<byte>)
    requires |v| == |mask| == 16 && forall i | 0 <= i < 16 :: mask[i] < 16
    ensures |r| == 16
  {
    seq(16, i requires 0 <= i < 16 => v[mask[i]])
  }

  /** snappy_masks_offset0[ps] and snappy_masks_offset16[ps], as their comments define them. */
  function Mask(ps: nat, start: nat): (mask: seq<nat>)
    requires 1 <= ps < 16
    ensures |mask| == 16 && forall i | 0 <= i < 16 :: mask[i] == Phase(start + i, ps)
  {
    seq(16, i requires 0 <= i < 16 => (start + i) % ps)
  }

  /** Bytes 16 * j to 16 * j + 15 of the endless repetition of mem[src..src + ps]. */
  ghost function Chunk(mem: seq<byte>, src: nat, ps: nat, j: nat): (r: seq<byte>)
    requires 1 <= ps && src + ps <= |mem|
    ensures |r| == 16
  {
    seq(16, i requires 0 <= i < 16 => mem[src + Phase(16 * j + i, ps)])
  }

  /** Reshuffling one chunk of the repetition gives the next one. */
  lemma ReshuffleAdvances(mem: seq<byte>, src: nat, ps: nat, j: nat)
    requires 1 <= ps < 16 && src + ps <= |mem|
    ensures Shuffle(Chunk(mem, src, ps, j), Mask(ps, 16)) == Chunk(mem, src, ps, j + 1)
  {
    hide Phase;
    var mask, next := Mask(ps, 16), Chunk(mem, src, ps, j + 1);
    forall i | 0 <= i < 16
      ensures Chunk(mem, src, ps, j)[mask[i]] == next[i]
    {
      PhaseAdd(16 * j, 16 + i, ps);
    }
  }

  lemma FirstChunk(mem: seq<byte>, src: nat, ps: nat)
    requires 1 <= ps < 16 && src + 16 <= |mem|
    ensures Shuffle(mem[src..src + 16], Mask(ps, 0)) == Chunk(mem, src, ps, 0)
  {
    hide Phase;
  }

  /** One 16-byte store of the repetition. */
  method StoreChunk(dst: array<byte>, op: nat, j: nat, pattern: seq<byte>, ghost mem: seq<byte>, ghost src: nat,
                    ghost ps: nat)
    requires 1 <= ps && src + ps <= |mem| && op + 16 * j + 16 <= dst.Length
    requires pattern == Chunk(mem, src, ps, j)
    modifies dst
    ensures forall k | op + 16 * j <= k < op + 16 * j + 16 :: dst[k] == mem[src + Phase(k - op, ps)]
    ensures forall k | 0 <= k < dst.Length && !(op + 16 * j <= k < op + 16 * j + 16) :: dst[k] == old(dst[k])
  {
    hide Phase;
    CopyIn(pattern, 0, dst, op + 16 * j, 16);
  }

  /** The vector branch: the pattern is tiled over a register once and then only rotated. */
  method CopyPattern(dst: array<byte>, src: nat, op: nat, opLimit: nat)
    requires src < op < src + 16 && op < opLimit <= op + 64 && opLimit + 15 <= dst.Length
    modifies dst
    ensures forall k | op <= k < opLimit :: dst[k] == old(dst[src + Phase(k - op, op - src)])
    ensures forall k | 0 <= k < dst.Length && !(op <= k < opLimit + 15) :: dst[k] == old(dst[k])
  {
    var ps := op - src;
    ghost var mem := dst[..];
    var raw := dst[src..src + 16];
    assert raw == mem[src..src + 16];
    FirstChunk(mem, src, ps);
    var pattern := Shuffle(raw, Mask(ps, 0));
    var reshuffle := Mask(ps, 16);
    hide Phase, Shuffle, Mask, Chunk;
    StoreChunk(dst, op, 0, pattern, mem, src, ps);
    if op + 16 < opLimit {
      pattern := Shuffle(pattern, reshuffle);
      ReshuffleAdvances(mem, src, ps, 0);
      StoreChunk(dst, op, 1, pattern, mem, src, ps);
    }
    if op + 32 < opLimit {
      pattern := Shuffle(pattern, reshuffle);
      ReshuffleAdvances(mem, src, ps, 1);
      StoreChunk(dst, op, 2, pattern, mem, src, ps);
    }
    if op + 48 < opLimit {
      pattern := Shuffle(pattern, reshuffle);
      ReshuffleAdvances(mem, src, ps, 2);
      StoreChunk(dst, op, 3, pattern, mem, src, ps);
    }
  }

  // ---- repetition of a pattern ----

  /** From `src` up to `end`, `now` repeats the `p` bytes that `mem` holds at `src`. */
  ghost predicate Tiles(mem: seq<byte>, now: seq<byte>, src: nat, p: nat, end: nat)
    requires 1 <= p && src + p <= |mem| && end <= |now|
  {
    forall k | src <= k < end :: now[k] == mem[src + Phase(k - src, p)]
  }

  /** A tiling goes on over bytes that equal those a whole number of periods before them. */
  lemma {:induction false} TilesExtend(mem: seq<byte>, now: seq<byte>, src: nat, p: nat, d: nat, op: nat, end: nat)
    requires 1 <= p && Period(d, p) && src + p <= |mem| && src + d <= op <= end <= |now|
    requires Tiles(mem, now, src, p, op)
    requires forall k | op <= k < end :: now[k] == now[k - d] || now[k] == mem[src + Phase(k - src, p)]
    ensures Tiles(mem, now, src, p, end)
    decreases end - op
  {
    hide Phase, Period;
    if op < end {
      PeriodLater(op - d - src, d, p);
      assert op - d - src + d == op - src;
      assert now[op - d] == mem[src + Phase(op - d - src, p)];
      assert now[op] == mem[src + Phase(op - src, p)];
      TilesExtend(mem, now, src, p, d, op + 1, end);
    }
  }

  /** The pattern itself is the first tile. */
  lemma FirstTile(mem: seq<byte>, now: seq<byte>, src: nat, op: nat)
    requires src < op <= |now| == |mem| && now[..op] == mem[..op]
    ensures Tiles(mem, now, src, op - src, op)
  {
    hide Phase;
    forall k | src <= k < op ensures now[k] == mem[src + Phase(k - src, op - src)] {
      PhaseSmall(k - src, op - src);
      assert now[k] == now[..op][k] == mem[..op][k];
    }
  }

  /** Tiling with the bytes just before the output is repeating at that distance. */
  lemma TilesIsRepetition(mem: seq<byte>, now: seq<byte>, src: nat, op: nat, end: nat)
    requires src < op <= end <= |now| == |mem| && now[..op] == mem[..op]
    ensures Tiles(mem, now, src, op - src, end) <==> forall k | op <= k < end :: now[k] == now[k - (op - src)]
  {
    hide Phase, Period;
    var p := op - src;
    OnePeriod(p);
    if Tiles(mem, now, src, p, end) {
      forall k | op <= k < end ensures now[k] == now[k - p] {
        PeriodLater(k - p - src, p, p);
        assert k - p - src + p == k - src;
      }
    }
    if forall k | op <= k < end :: now[k] == now[k - p] {
      FirstTile(mem, now, src, op);
      TilesExtend(mem, now, src, p, p, op, end);
    }
  }

  /** So it is what the byte-by-byte copy does. */
  lemma TilesIsOverlapCopy(mem: seq<byte>, now: seq<byte>, src: nat, op: nat, end: nat)
    requires src < op <= end <= |now| == |mem| && now[..op] == mem[..op]
    ensures Tiles(mem, now, src, op - src, end) <==> now[..end] == OverlapCopy(mem[..op], op - src, end - op)
  {
    hide Phase, Tiles, OverlapCopy;
    var p, out, r := op - src, mem[..op], now[..end];
    TilesIsRepetition(mem, now, src, op, end);
    OverlapCopyRepeats(out, r, p);
    assert r[..op] == out;
    if Repeats(out, r, p) {
      forall k | op <= k < end ensures now[k] == now[k - p] {
        assert now[k] == r[k] && now[k - p] == r[k - p];
      }
    }
  }

  /** The scalar branch for patterns under eight bytes: the copied part is doubled until the
      distance back is a whole number of periods and at least eight. */
  method CopyDoubling(dst: array<byte>, src0: nat, op0: nat, opLimit: nat, bufLimit: nat)
    requires src0 < op0 < src0 + 8 && op0 < opLimit <= bufLimit <= dst.Length && op0 + 11 <= bufLimit
    modifies dst
    ensures Tiles(old(dst[..]), dst[..], src0, op0 - src0, opLimit)
    ensures forall k | 0 <= k < dst.Length && !(op0 <= k < bufLimit) :: dst[k] == old(dst[k])
  {
    hide Phase, Period, Tiles;
    ghost var mem, p := dst[..], op0 - src0;
    var src, op, patternSize := src0, op0, op0 - src0;
    FirstTile(mem, dst[..], src, op);
    OnePeriod(p);
    while patternSize < 8
      invariant patternSize in {p, 2 * p, 4 * p, 8 * p} && patternSize == op - src < 16 && src == src0
      invariant Period(patternSize, p) && Tiles(mem, dst[..], src0, p, op)
      invariant forall k | 0 <= k < dst.Length && !(op0 <= k < op0 + 11) :: dst[k] == old(dst[k])
      decreases 8 - patternSize
    {
      DoublingStep(dst, src, op, patternSize, mem, src0, p);
      PeriodLater(0, patternSize, p);
      op, patternSize := op + patternSize, patternSize * 2;
    }
    if op >= opLimit {
      TilesShorten(mem, dst[..], src0, p, opLimit, op);
      return;
    }
    src := op - patternSize;
    while op + 8 <= opLimit && op + 8 <= bufLimit
      invariant patternSize == op - src && op0 <= op <= opLimit && src0 <= src
      invariant Tiles(mem, dst[..], src0, p, op)
      invariant forall k | 0 <= k < dst.Length && !(op0 <= k < bufLimit) :: dst[k] == old(dst[k])
    {
      DoublingStep(dst, src, op, 8, mem, src0, p);
      src, op := src + 8, op + 8;
    }
    if op >= opLimit { return; }
    SlowStep(dst, src, op, opLimit, mem, src0, p);
  }

  lemma TilesShorten(mem: seq<byte>, now: seq<byte>, src: nat, p: nat, end: nat, end': nat)
    requires 1 <= p && src + p <= |mem| && end <= end' <= |now| && Tiles(mem, now, src, p, end')
    ensures Tiles(mem, now, src, p, end)
  {
    hide Phase;
  }

  method SlowStep(dst: array<byte>, src: nat, op: nat, opLimit: nat, ghost mem: seq<byte>, ghost src0: nat,
                  ghost p: nat)
    requires src0 <= src < op <= opLimit <= dst.Length
    requires 1 <= p && src0 + p <= |mem| && Period(op - src, p) && Tiles(mem, dst[..], src0, p, op)
    modifies dst
    ensures Tiles(mem, dst[..], src0, p, opLimit)
    ensures forall k | 0 <= k < dst.Length && !(op <= k < opLimit) :: dst[k] == old(dst[k])
  {
    hide Phase, Period;
    ghost var before := dst[..];
    CopySlow(dst, src, op, opLimit);
    assert Tiles(mem, dst[..], src0, p, op) by {
      assert forall k | src0 <= k < op :: dst[..][k] == before[k];
    }
    TilesExtend(mem, dst[..], src0, p, op - src, op, opLimit);
  }

  /** copy64 from a whole number of periods back lengthens a tiling by up to that distance. */
  method DoublingStep(dst: array<byte>, src: nat, op: nat, n: nat, ghost mem: seq<byte>, ghost src0: nat, ghost p: nat)
    requires src0 <= src < op && n <= 8 && n <= op - src && op + 8 <= dst.Length
    requires 1 <= p && src0 + p <= |mem| && Period(op - src, p) && Tiles(mem, dst[..], src0, p, op)
    modifies dst
    ensures Tiles(mem, dst[..], src0, p, op + n)
    ensures forall k | 0 <= k < dst.Length && !(op <= k < op + 8) :: dst[k] == old(dst[k])
  {
    hide Phase, Period;
    ghost var before := dst[..];
    Move(dst, src, op, 8);
    assert Tiles(mem, dst[..], src0, p, op) by {
      assert forall k | src0 <= k < op :: dst[..][k] == before[k];
    }
    TilesExtend(mem, dst[..], src0, p, op - src, op, op + n);
  }

  // ---- incremental_copy ----

  /** In a 16-byte block whose end stays clear of the buffer end, byte `k` is one whose source lies
      in the same block: it is taken from before the block was written. */
  ghost predicate Stale(k: nat, src: nat, op: nat, bufLimit: nat)
    requires src < op <= k
  {
    (k - op) % 16 >= op - src && k - (k - op) % 16 + 16 < bufLimit
  }

  /** What the bytes beyond the output must already hold for a copy to come out right: nothing,
      except in the scalar build when its 16-byte moves are used for patterns of 8 to 15 bytes. */
  ghost predicate ScratchFits(vector: bool, mem: seq<byte>, src: nat, op: nat, opLimit: nat, bufLimit: nat)
    requires src < op < opLimit <= bufLimit <= |mem|
  {
    !vector && op - src >= 8 ==>
      forall k | op <= k < opLimit && Stale(k, src, op, bufLimit) ::
        mem[k - (op - src)] == mem[src + Phase(k - src, op - src)]
  }

  /** The guard of the branch that goes wrong. */
  predicate Hazard(vector: bool, offset: nat, len: nat, op: nat, bufLimit: nat)
  {
    !vector && 8 <= offset < 16 && offset < len && op + 16 < bufLimit
  }

  /** Sixteen bytes from eight back: the second eight are loaded before the first are stored. */
  lemma HazardExample()
    ensures Hazard(false, 8, 16, 8, 40)
    ensures !ScratchFits(false, [1, 2, 3, 4, 5, 6, 7, 8] + seq(32, i => 0), 0, 8, 24, 40)
  {
    var mem: seq<byte> := [1, 2, 3, 4, 5, 6, 7, 8] + seq(32, i => 0);
    assert Stale(16, 0, 8, 40) && Phase(16, 8) == 0 && mem[8] == 0 && mem[0] == 1;
    assert mem[16 - 8] != mem[0 + Phase(16, 8)];
  }

  /** Without the hazard no byte is stale in a 16-byte move of the scalar build. */
  lemma NotStale(src: nat, op: nat, opLimit: nat, bufLimit: nat, k: nat)
    requires src + 8 <= op <= k < opLimit <= bufLimit && !Hazard(false, op - src, opLimit - op, op, bufLimit)
    ensures !Stale(k, src, op, bufLimit)
  {
    var r := (k - op) % 16;
    assert r < 16 && r <= k - op;
  }

  /** With it, a buffer that is zero but for the first byte of the pattern comes out wrong. */
  lemma HazardBuffer(src: nat, op: nat, opLimit: nat, bufLimit: nat)
    requires src < op < opLimit <= bufLimit && Hazard(false, op - src, opLimit - op, op, bufLimit)
    ensures exists mem: seq<byte> | |mem| == bufLimit :: !ScratchFits(false, mem, src, op, opLimit, bufLimit)
  {
    hide Phase;
    var ps, k := op - src, op + (op - src);
    PhaseTwice(ps);
    assert Stale(k, src, op, bufLimit);
    var mem: seq<byte> := seq(bufLimit, i => if i == src then 1 else 0);
    assert mem[k - ps] != mem[src + Phase(k - src, ps)];
    assert !ScratchFits(false, mem, src, op, opLimit, bufLimit);
  }

  lemma PhaseTwice(p: nat)
    requires p > 0
    ensures Phase(2 * p, p) == 0
  {
    hide Phase;
    OnePeriodPhase(p);
    PhaseAdd(p, p, p);
  }

  lemma OnePeriodPhase(p: nat)
    requires p > 0
    ensures Phase(p, p) == 0
  {
    hide Phase;
    OnePeriod(p);
  }

  /** A copy comes out right whatever the buffer held beyond the output, exactly when the guard of
      that branch is false. */
  lemma HazardExact(vector: bool, src: nat, op: nat, opLimit: nat, bufLimit: nat)
    requires src < op < opLimit <= bufLimit
    ensures (forall mem: seq<byte> | bufLimit <= |mem| :: ScratchFits(vector, mem, src, op, opLimit, bufLimit))
            <==> vector || op - src < 8 || op - src >= 16 || op - src >= opLimit - op || op + 16 >= bufLimit
  {
    hide Stale, Phase;
    if Hazard(vector, op - src, opLimit - op, op, bufLimit) {
      HazardBuffer(src, op, opLimit, bufLimit);
    } else if !vector && op - src >= 8 {
      forall k | op <= k < opLimit ensures !Stale(k, src, op, bufLimit) {
        NotStale(src, op, opLimit, bufLimit, k);
      }
    }
  }

  lemma NoHazardFits(vector: bool, mem: seq<byte>, src: nat, op: nat, opLimit: nat, bufLimit: nat)
    requires src < op < opLimit <= bufLimit <= |mem|
    ensures !Hazard(vector, op - src, opLimit - op, op, bufLimit) ==>
              ScratchFits(vector, mem, src, op, opLimit, bufLimit)
  {
    HazardExact(vector, src, op, opLimit, bufLimit);
  }

  /** Near the end of the buffer: 16-byte moves while they stay clear of it, one of 8, then bytes. */
  method CopyNearEnd(dst: array<byte>, src0: nat, op0: nat, opLimit: nat, bufLimit: nat)
    requires src0 + 8 <= op0 < opLimit <= bufLimit <= dst.Length
    modifies dst
    ensures forall k | op0 <= k < opLimit ::
              dst[k] == if Stale(k, src0, op0, bufLimit) then old(dst[k - (op0 - src0)]) else dst[k - (op0 - src0)]
    ensures forall k | 0 <= k < dst.Length && !(op0 <= k < bufLimit) :: dst[k] == old(dst[k])
  {
    hide Stale;
    var src, op := src0, op0;
    while op < bufLimit - 16
      invariant op - src == op0 - src0 && op0 <= op && (op - op0) % 16 == 0 && (op == op0 || op < bufLimit)
      invariant forall k | op0 <= k < op ::
                  dst[k] == if Stale(k, src0, op0, bufLimit) then old(dst[k - (op0 - src0)]) else dst[k - (op0 - src0)]
      invariant forall k | 0 <= k < dst.Length && !(op0 <= k < op) :: dst[k] == old(dst[k])
    {
      Move(dst, src, op, 16);
      forall k | op <= k < op + 16 ensures Stale(k, src0, op0, bufLimit) <==> k - op >= op0 - src0 {
        StaleInBlock(src0, op0, bufLimit, op, k);
      }
      op, src := op + 16, src + 16;
    }
    if op >= opLimit { return; }
    forall k | op <= k < opLimit ensures !Stale(k, src0, op0, bufLimit) {
      NotStaleLater(src0, op0, bufLimit, op, k);
    }
    CopyLast(dst, src, op, opLimit, bufLimit);
  }

  lemma InBlock(op0: nat, op: nat, k: nat)
    requires op0 <= op <= k < op + 16 && (op - op0) % 16 == 0
    ensures (k - op0) % 16 == k - op
  {
  }

  lemma StaleInBlock(src: nat, op0: nat, bufLimit: nat, op: nat, k: nat)
    requires src < op0 <= op <= k < op + 16 < bufLimit && (op - op0) % 16 == 0
    ensures Stale(k, src, op0, bufLimit) <==> k - op >= op0 - src
  {
    InBlock(op0, op, k);
  }

  lemma NotStaleLater(src: nat, op0: nat, bufLimit: nat, op: nat, k: nat)
    requires src < op0 <= op <= k && (op - op0) % 16 == 0 && op + 16 >= bufLimit
    ensures !Stale(k, src, op0, bufLimit)
  {
    BlockStart(op0, op, k);
  }

  lemma BlockStart(op0: nat, op: nat, k: nat)
    requires op0 <= op <= k && (op - op0) % 16 == 0
    ensures k - (k - op0) % 16 >= op
  {
    var q, m := (op - op0) / 16, (k - op0) / 16;
    assert op - op0 == 16 * q && k - op0 == 16 * m + (k - op0) % 16 && q <= m;
  }

  method CopyLast(dst: array<byte>, src0: nat, op0: nat, opLimit: nat, bufLimit: nat)
    requires src0 + 8 <= op0 < opLimit <= bufLimit <= dst.Length
    modifies dst
    ensures forall k | op0 <= k < opLimit :: dst[k] == dst[k - (op0 - src0)]
    ensures forall k | 0 <= k < dst.Length && !(op0 <= k < bufLimit) :: dst[k] == old(dst[k])
  {
    var src, op := src0, op0;
    if op <= bufLimit - 8 {
      Move(dst, src, op, 8);
      src, op := src + 8, op + 8;
    }
    CopySlow(dst, src, op, opLimit);
  }

  /** incremental_copy. It gives the bytes of the byte-by-byte copy if and only if the scratch bytes
      fit, leaves the output so far alone and writes nothing at or past `bufLimit`. */
  method IncrementalCopy(dst: array<byte>, src: nat, op: nat, opLimit: nat, bufLimit: nat, vector: bool)
    requires src < op < opLimit <= op + 64 && opLimit <= bufLimit <= dst.Length
    modifies dst
    ensures dst[..opLimit] == OverlapCopy(old(dst[..op]), op - src, opLimit - op) <==>
            ScratchFits(vector, old(dst[..]), src, op, opLimit, bufLimit)
    ensures forall k | 0 <= k < dst.Length && !(op <= k < bufLimit) :: dst[k] == old(dst[k])
  {
    hide Phase, Period, OverlapCopy;
    ghost var mem := dst[..];
    var bigPattern := if vector then 16 else 8;
    if op - src < bigPattern {
      if vector && opLimit + 15 <= bufLimit {
        CopyPattern(dst, src, op, opLimit);
        PatternTiles(mem, dst[..], src, op, opLimit);
      } else if !vector && op + 11 <= bufLimit {
        CopyDoubling(dst, src, op, opLimit, bufLimit);
      } else {
        CopySlow(dst, src, op, opLimit);
        TilesIsRepetition(mem, dst[..], src, op, opLimit);
      }
      assert Tiles(mem, dst[..], src, op - src, opLimit);
    } else {
      if opLimit + 15 <= bufLimit {
        CopyBlocks(dst, src, op, opLimit);
      } else {
        CopyNearEnd(dst, src, op, opLimit, bufLimit);
      }
      StaleTiles(vector, mem, dst[..], src, op, opLimit, bufLimit);
    }
    assert mem[..op] == old(dst[..op]) && dst[..][..op] == mem[..op] && dst[..][..opLimit] == dst[..opLimit];
    TilesIsOverlapCopy(mem, dst[..], src, op, opLimit);
  }

  lemma PatternTiles(mem: seq<byte>, now: seq<byte>, src: nat, op: nat, end: nat)
    requires src < op <= end <= |now| == |mem| && now[..op] == mem[..op]
    requires forall k | op <= k < end :: now[k] == mem[src + Phase(k - op, op - src)]
    ensures Tiles(mem, now, src, op - src, end)
  {
    hide Phase, Period;
    FirstTile(mem, now, src, op);
    OnePeriod(op - src);
    forall k | op <= k < end ensures now[k] == mem[src + Phase(k - src, op - src)] {
      PeriodLater(k - op, op - src, op - src);
      assert k - op + (op - src) == k - src;
    }
  }

  lemma StaleTiles(vector: bool, mem: seq<byte>, now: seq<byte>, src: nat, op: nat, end: nat, bufLimit: nat)
    requires src < op < end <= bufLimit <= |now| == |mem| && now[..op] == mem[..op]
    requires if vector then src + 16 <= op else src + 8 <= op
    requires forall k | op <= k < end ::
               now[k] == if Stale(k, src, op, bufLimit) then mem[k - (op - src)] else now[k - (op - src)]
    ensures Tiles(mem, now, src, op - src, end) <==> ScratchFits(vector, mem, src, op, end, bufLimit)
  {
    hide Phase, Period;
    FirstTile(mem, now, src, op);
    OnePeriod(op - src);
    if ScratchFits(vector, mem, src, op, end, bufLimit) {
      TilesExtend(mem, now, src, op - src, op - src, op, end);
    }
  }
}
