/** Which elements the compressor chooses, as a function of its input: the greedy search through the
    hash table, from one match to the next, for any hash function. */
module Greedy {
  import opened Bytes
  import opened Emit
  import opened MatchLength
  import opened SnappyFormat

  const HASH_SIZE := 16384
  const MAX_OFFSET := 65535
  const BLOCK_SIZE := 65536

  ghost predicate IsHash(hash: nat -> nat)
  {
    forall v :: hash(v) < HASH_SIZE
  }

  /** `candidate` is an earlier position that agrees with `ip` on four bytes. */
  predicate IsMatch(src: seq<byte>, ip: nat, candidate: nat)
  {
    candidate < ip && ip + 4 <= |src| && Load32(src, ip) == Load32(src, candidate)
  }

  lemma MatchHasFour(src: seq<byte>, ip: nat, candidate: nat)
    requires IsMatch(src, ip, candidate)
    ensures MatchLen(src, ip, candidate, |src|) >= 4 && ip + MatchLen(src, ip, candidate, |src|) <= |src|
  {
    hide LittleEndian;
    var s, t, len := src[ip..ip + 4], src[candidate..candidate + 4], MatchLen(src, ip, candidate, |src|);
    LittleEndianInjective(s, t);
    MatchLenUnique(src, ip, candidate, |src|, len);
    assert forall j | 0 <= j < 4 :: s[j] == src[ip + j] && t[j] == src[candidate + j];
  }

  // ---- probing the table ----

  /** The k-th position that a search from `ip0` looks at: the step grows by one for every 32 bytes
      passed. */
  function ProbeAt(ip0: nat, k: nat): (p: nat)
    ensures p >= ip0 + k
  {
    if k == 0 then ip0 else ProbeAt(ip0, k - 1) + (32 + ProbeAt(ip0, k - 1) - ip0) / 32
  }

  lemma ProbeSteps(ip0: nat, k: nat)
    ensures ProbeAt(ip0, 0) == ip0
    ensures ProbeAt(ip0, k + 1) == ProbeAt(ip0, k) + (32 + ProbeAt(ip0, k) - ip0) / 32 > ProbeAt(ip0, k)
  {
  }

  /** The first 32 probes of a search are at consecutive positions. */
  lemma {:induction false} ProbesConsecutive(ip0: nat, k: nat)
    requires k <= 32
    ensures ProbeAt(ip0, k) == ip0 + k
    decreases k
  {
    if k > 0 {
      ProbesConsecutive(ip0, k - 1);
    }
  }

  function Skipping(ip0: nat): nat -> nat
  {
    k => ProbeAt(ip0, k)
  }

  function Consecutive(): nat -> nat
  {
    k => 1 + k
  }

  function WordOf(src: seq<byte>, p: nat): nat
  {
    if p + 4 <= |src| then Load32(src, p) else 0
  }

  /** The table once the first `k` of the positions `probe(0)`, `probe(1)`, … have been recorded. */
  function TableAfter(table: seq<nat>, src: seq<byte>, probe: nat -> nat, hash: nat -> nat, k: nat): (t: seq<nat>)
    requires |table| == HASH_SIZE && IsHash(hash)
    ensures |t| == HASH_SIZE
  {
    if k == 0 then table
    else TableAfter(table, src, probe, hash, k - 1)[hash(WordOf(src, probe(k - 1))) := probe(k - 1)]
  }

  /** What the k-th probe finds in its slot. */
  function Candidate(table: seq<nat>, src: seq<byte>, probe: nat -> nat, hash: nat -> nat, k: nat): (c: nat)
    requires |table| == HASH_SIZE && IsHash(hash)
  {
    TableAfter(table, src, probe, hash, k)[hash(WordOf(src, probe(k)))]
  }

  /** It is an earlier position with the same word. */
  predicate Hit(table: seq<nat>, src: seq<byte>, probe: nat -> nat, hash: nat -> nat, k: nat)
    requires |table| == HASH_SIZE && IsHash(hash)
  {
    IsMatch(src, probe(k), Candidate(table, src, probe, hash, k))
  }

  /** The first hit from the k-th of the first `n` probes on. */
  function FirstHit(table: seq<nat>, src: seq<byte>, probe: nat -> nat, hash: nat -> nat, k: nat, n: nat):
    (r: Option<nat>)
    requires |table| == HASH_SIZE && IsHash(hash) && k <= n
    ensures r.Some? ==> k <= r.value < n && Hit(table, src, probe, hash, r.value)
    decreases n - k
  {
    if k == n then None
    else if Hit(table, src, probe, hash, k) then Some(k)
    else FirstHit(table, src, probe, hash, k + 1, n)
  }

  /** It is the one hit before which there is none. */
  lemma {:induction false} FirstHitIsFirst(table: seq<nat>, src: seq<byte>, probe: nat -> nat, hash: nat -> nat, k: nat,
                                           n: nat, i: nat)
    requires |table| == HASH_SIZE && IsHash(hash) && k <= n
    ensures FirstHit(table, src, probe, hash, k, n) == Some(i) <==>
            k <= i < n && Hit(table, src, probe, hash, i) && forall j | k <= j < i :: !Hit(table, src, probe, hash, j)
    ensures FirstHit(table, src, probe, hash, k, n) == None <==>
            forall j | k <= j < n :: !Hit(table, src, probe, hash, j)
    decreases n - k
  {
    hide Hit;
    if k < n && !Hit(table, src, probe, hash, k) {
      FirstHitIsFirst(table, src, probe, hash, k + 1, n, i);
    }
  }

  /** How many probes a search from `ip0` makes, if none hits: the one after the last would come too
      near the end of the block. */
  function Probes(src: seq<byte>, ip0: nat, k: nat := 0): (n: nat)
    ensures k <= n && ProbeAt(ip0, n + 1) > |src| - 15
    ensures forall j | k < j <= n :: ProbeAt(ip0, j) <= |src| - 15
    decreases |src| - ProbeAt(ip0, k)
  {
    ProbeSteps(ip0, k);
    if ProbeAt(ip0, k + 1) > |src| - 15 then k else Probes(src, ip0, k + 1)
  }

  // ---- the elements ----

  /** The literal at the end of a block. */
  function Remainder(src: seq<byte>, anchor: nat): seq<Element>
  {
    if anchor < |src| then [Literal(src[anchor..])] else []
  }

  /** From a match at `ip`: its copy, and what comes after it. */
  function FromMatch(table: seq<nat>, src: seq<byte>, ip: nat, candidate: nat, hash: nat -> nat): seq<Element>
    requires |table| == HASH_SIZE && IsHash(hash) && IsMatch(src, ip, candidate)
    decreases |src| - ip, 0
  {
    MatchHasFour(src, ip, candidate);
    var len := MatchLen(src, ip, candidate, |src|);
    CopyElements(ip - candidate, len) + AfterMatch(table, src, ip + len, hash)
  }

  /** After a match the positions before and at its end are recorded, and the candidate for the
      latter is tried at once. */
  function AfterMatch(table: seq<nat>, src: seq<byte>, ip: nat, hash: nat -> nat): seq<Element>
    requires |table| == HASH_SIZE && IsHash(hash) && ip > 0
    decreases |src| - ip, 2
  {
    if ip >= |src| - 15 then Remainder(src, ip)
    else
      var t := table[hash(WordOf(src, ip - 1)) := ip - 1];
      var h := hash(WordOf(src, ip));
      if IsMatch(src, ip, t[h]) && ip - t[h] <= MAX_OFFSET then FromMatch(t[h := ip], src, ip, t[h], hash)
      else FromSearch(t[h := ip], src, ip, ip + 1, hash)
  }

  /** From a search that starts at `ip0`, with the input from `anchor` on not yet emitted. */
  function FromSearch(table: seq<nat>, src: seq<byte>, anchor: nat, ip0: nat, hash: nat -> nat): seq<Element>
    requires |table| == HASH_SIZE && IsHash(hash) && anchor < ip0
    decreases |src| - anchor, 1
  {
    FromProbes(table, src, anchor, Skipping(ip0), hash, FirstHit(table, src, Skipping(ip0), hash, 0, Probes(src, ip0)))
  }

  /** What follows from the first hit of a series of probes. */
  function FromProbes(table: seq<nat>, src: seq<byte>, anchor: nat, probe: nat -> nat, hash: nat -> nat,
                      hit: Option<nat>): seq<Element>
    requires |table| == HASH_SIZE && IsHash(hash)
    requires hit.Some? ==> anchor < probe(hit.value) && Hit(table, src, probe, hash, hit.value)
    decreases |src| - anchor, 0
  {
    match hit
    case None => Remainder(src, anchor)
    case Some(k) =>
      [Literal(src[anchor..probe(k)])] +
      FromMatch(TableAfter(table, src, probe, hash, k + 1), src, probe(k), Candidate(table, src, probe, hash, k), hash)
  }

  function EmptyTable(): (table: seq<nat>)
    ensures |table| == HASH_SIZE
  {
    seq(HASH_SIZE, _ => 0)
  }

  /** The elements of a block. Positions 1 to 16 are probed one by one if there is room. */
  function BlockElements(src: seq<byte>, hash: nat -> nat): seq<Element>
    requires IsHash(hash)
  {
    if |src| < 15 then Remainder(src, 0)
    else if |src| < 32 then FromSearch(EmptyTable(), src, 0, 1, hash)
    else
      var hit := FirstHit(EmptyTable(), src, Consecutive(), hash, 0, 16);
      if hit.Some? then FromProbes(EmptyTable(), src, 0, Consecutive(), hash, hit)
      else FromSearch(TableAfter(EmptyTable(), src, Consecutive(), hash, 16), src, 0, 17, hash)
  }

  /** A block that is too short to search is one literal. */
  lemma ShortBlocks(src: seq<byte>, hash: nat -> nat)
    requires IsHash(hash)
    ensures |src| == 0 ==> BlockElements(src, hash) == []
    ensures 0 < |src| < 15 ==> BlockElements(src, hash) == [Literal(src)]
    ensures 15 <= |src| < 32 ==> BlockElements(src, hash) == FromSearch(EmptyTable(), src, 0, 1, hash)
  {
    hide FromSearch;
    assert src[0..] == src;
  }

  /** In a longer one, each of the positions 1 to 16 is tried, and the literal ends at the first that
      hits; the search goes on from 17 if none does. */
  lemma LongBlocks(src: seq<byte>, hash: nat -> nat, k: nat)
    requires IsHash(hash) && |src| >= 32 && k <= 16
    requires forall j | 0 <= j < k :: !Hit(EmptyTable(), src, Consecutive(), hash, j)
    ensures k < 16 && Hit(EmptyTable(), src, Consecutive(), hash, k) ==>
              BlockElements(src, hash) != [] && BlockElements(src, hash)[0] == Literal(src[..1 + k])
    ensures k == 16 ==>
              BlockElements(src, hash) ==
              FromSearch(TableAfter(EmptyTable(), src, Consecutive(), hash, 16), src, 0, 17, hash)
  {
    hide Hit, FromMatch, FromSearch, EmptyTable, FirstHit;
    FirstHitIsFirst(EmptyTable(), src, Consecutive(), hash, 0, 16, k);
    assert src[0..1 + k] == src[..1 + k];
  }

  /** The input is cut into blocks of 65536 bytes. */
  lemma StreamBlocks(src: seq<byte>)
    ensures |src| == 0 ==> StreamElements(src) == []
    ensures 0 < |src| <= 65536 ==> StreamElements(src) == BlockElements(src, SnappyHash)
    ensures |src| > 65536 ==>
              StreamElements(src) == BlockElements(src[..65536], SnappyHash) + StreamElements(src, 65536)
  {
    hide BlockElements, SnappyHash;
    assert src[0..|src|] == src;
    assert StreamElements(src, |src|) == [];
    if 0 < |src| <= 65536 {
      assert BlockElements(src, SnappyHash) + [] == BlockElements(src, SnappyHash);
    }
  }

  /** snappy_hash. */
  function SnappyHash(v: nat): (h: nat)
    ensures h < HASH_SIZE
  {
    v * 0x1e35a7bd % POW32 / 0x4_0000
  }

  /** The elements of the blocks from `pos` on. */
  function StreamElements(src: seq<byte>, pos: nat := 0): seq<Element>
    decreases |src| - pos
  {
    if pos >= |src| then []
    else
      var end := if |src| - pos > BLOCK_SIZE then pos + BLOCK_SIZE else |src|;
      BlockElements(src[pos..end], SnappyHash) + StreamElements(src, end)
  }
}
