/** carquet_snappy_compress: the greedy block compressor, for any hash function. */
module Compress {
  import opened Bits
  import opened Bytes
  import opened Emit
  import opened Greedy
  import opened MatchLength
  import opened Shortest
  import opened SnappyFormat
  import opened SnappyReference
  import opened SnappyStandard
  import Varint

  // ---- what has been emitted ----

  predicate Emittable(e: Element)
  {
    match e
    case Literal(bytes) => 1 <= |bytes| <= BLOCK_SIZE
    case Copy(offset, len) => 1 <= offset <= MAX_OFFSET && 4 <= len <= 64
  }

  /** The bytes `enc` are the elements `es`, all of the kinds the compressor emits and written as short
      as can be, and they decode to exactly `data`. */
  predicate Encodes(enc: seq<byte>, es: seq<Element>, data: seq<byte>)
  {
    && Elements(enc) == Some(es) && |enc| == ShortestTotal(es)
    && Replay(es, []) == Some(data)
    && forall e | e in es :: Emittable(e)
  }

  lemma EncodesLiteral(enc: seq<byte>, es: seq<Element>, data: seq<byte>, t: seq<byte>, literal: seq<byte>)
    requires Encodes(enc, es, data) && Elements(t) == Some([Literal(literal)]) && 1 <= |literal| <= BLOCK_SIZE
    requires |t| == ShortestSize(Literal(literal))
    ensures Encodes(enc + t, es + [Literal(literal)], data + literal)
  {
    hide Elements, ShortestTotal, ShortestSize;
    ElementsAppend(enc, t);
    ShortestMore(es, Literal(literal));
    ReplayAppend(es, [Literal(literal)], []);
    assert [Literal(literal)][1..] == [];
  }

  lemma EncodesCopy(enc: seq<byte>, es: seq<Element>, data: seq<byte>, t: seq<byte>, offset: nat, len: nat)
    requires Encodes(enc, es, data) && len >= 4 && Elements(t) == Some(CopyElements(offset, len))
    requires |t| == ShortestTotal(CopyElements(offset, len))
    requires 1 <= offset <= MAX_OFFSET && offset <= |data|
    ensures Encodes(enc + t, es + CopyElements(offset, len), OverlapCopy(data, offset, len))
  {
    hide Elements, OverlapCopy, CopyElements, ShortestTotal;
    var fs := CopyElements(offset, len);
    ShortestAppend(es, fs);
    CopyElementsSplit(offset, len);
    ElementsAppend(enc, t);
    ReplayAppend(es, fs, []);
    SplitCopyIsCopy(fs, offset, len, data);
    SplitsCopyEmittable(fs, offset, len);
  }

  lemma {:induction false} SplitsCopyEmittable(es: seq<Element>, offset: nat, len: nat)
    requires SplitsCopy(es, offset, len) && 1 <= offset <= MAX_OFFSET
    ensures forall e | e in es :: Emittable(e)
    decreases |es|
  {
    if es != [] {
      SplitsCopyEmittable(es[1..], offset, len - es[0].len);
      assert es == [es[0]] + es[1..];
    }
  }

  /** Blocks compressed one after the other decode to the concatenation. */
  lemma EncodesConcat(enc: seq<byte>, es: seq<Element>, data: seq<byte>, enc': seq<byte>, es': seq<Element>,
                      data': seq<byte>)
    requires Encodes(enc, es, data) && Encodes(enc', es', data')
    ensures Encodes(enc + enc', es + es', data + data')
  {
    hide Elements, ShortestTotal;
    ShortestAppend(es, es');
    ElementsAppend(enc, enc');
    ReplayAppend(es, es', []);
    ReplayAfter(es', data, []);
    assert data + [] == data;
  }

  // ---- searching ----

  /** Hash-table entries are positions before `ip`, each in the slot of its own hash, or 0. */
  ghost predicate Indexes(table: array<nat>, src: seq<byte>, ip: nat, hash: nat -> nat)
    reads table
  {
    && table.Length == HASH_SIZE && ip <= |src|
    && forall h | 0 <= h < HASH_SIZE :: table[h] < ip && (table[h] == 0 || HashesTo(src, table[h], hash, h))
  }

  ghost predicate HashesTo(src: seq<byte>, p: nat, hash: nat -> nat, h: nat)
  {
    p + 4 <= |src| && hash(Load32(src, p)) == h
  }

  lemma ProbeStep(table: seq<nat>, src: seq<byte>, probe: nat -> nat, hash: nat -> nat, k: nat, ip: nat, candidate: nat)
    requires |table| == HASH_SIZE && IsHash(hash) && ip == probe(k) && candidate < ip && ip + 4 <= |src|
    requires candidate == TableAfter(table, src, probe, hash, k)[hash(Load32(src, ip))]
    ensures TableAfter(table, src, probe, hash, k + 1) ==
            TableAfter(table, src, probe, hash, k)[hash(Load32(src, ip)) := ip]
    ensures candidate == Candidate(table, src, probe, hash, k)
    ensures Hit(table, src, probe, hash, k) <==> Load32(src, ip) == Load32(src, candidate)
  {
    hide Load32;
  }

  /** Look up the earlier position for the word at `ip`, and record `ip` in its place. */
  method Exchange(table: array<nat>, h: nat, ip: nat, ghost src: seq<byte>, ghost hash: nat -> nat)
    returns (candidate: nat)
    requires Indexes(table, src, ip, hash) && h < HASH_SIZE && ip < BLOCK_SIZE && HashesTo(src, ip, hash, h)
    modifies table
    ensures candidate == old(table[h]) < ip && Indexes(table, src, ip + 1, hash)
    ensures table[..] == old(table[..])[h := ip]
  {
    hide HashesTo;
    candidate := table[h];
    table[h] := ip % 0x1_0000;
    assert ip + 4 <= |src| by { HashedInside(src, ip, hash, h); }
  }

  lemma Hashed(src: seq<byte>, p: nat, hash: nat -> nat)
    requires p + 4 <= |src|
    ensures HashesTo(src, p, hash, hash(Load32(src, p)))
  {
  }

  lemma HashedInside(src: seq<byte>, p: nat, hash: nat -> nat, h: nat)
    requires HashesTo(src, p, hash, h)
    ensures p + 4 <= |src|
  {
  }

  /** After `k` probes the table is as they left it, and the next one is at `ip`. */
  ghost predicate Probing(table: array<nat>, table0: seq<nat>, src: seq<byte>, probe: nat -> nat, hash: nat -> nat,
                          k: nat, ip: nat)
    reads table
  {
    && |table0| == HASH_SIZE && IsHash(hash) && probe(k) == ip
    && Indexes(table, src, ip, hash) && table[..] == TableAfter(table0, src, probe, hash, k)
  }

  /** One probe, given the word at `ip`. */
  method Probe(src: seq<byte>, table: array<nat>, ip: nat, dword: nat, hash: nat -> nat,
               ghost table0: seq<nat>, ghost probe: nat -> nat, ghost k: nat)
    returns (hit: bool, candidate: nat)
    requires Probing(table, table0, src, probe, hash, k, ip)
    requires ip + 4 <= |src| <= BLOCK_SIZE && dword == Load32(src, ip)
    modifies table
    ensures Indexes(table, src, ip + 1, hash) && table[..] == TableAfter(table0, src, probe, hash, k + 1)
    ensures candidate == Candidate(table0, src, probe, hash, k) && (hit <==> Hit(table0, src, probe, hash, k))
    ensures hit ==> IsMatch(src, ip, candidate)
  {
    hide Load32, TableAfter, Candidate, Hit, HashesTo;
    var h := hash(dword);
    assert HashesTo(src, ip, hash, h) by { Hashed(src, ip, hash); }
    candidate := Exchange(table, h, ip, src, hash);
    ProbeStep(table0, src, probe, hash, k, ip, candidate);
    hit := Load32(src, candidate) == dword;
  }

  lemma ProbingStart(table: array<nat>, src: seq<byte>, probe: nat -> nat, hash: nat -> nat, ip: nat)
    requires table.Length == HASH_SIZE && IsHash(hash) && Indexes(table, src, ip, hash) && probe(0) == ip
    ensures Probing(table, table[..], src, probe, hash, 0, ip)
  {
    hide Indexes;
  }

  lemma ProbingEnds(table: array<nat>, table0: seq<nat>, src: seq<byte>, probe: nat -> nat, hash: nat -> nat, k: nat,
                    ip: nat)
    requires Probing(table, table0, src, probe, hash, k, ip)
    ensures |table0| == HASH_SIZE && IsHash(hash) && probe(k) == ip
    ensures Indexes(table, src, ip, hash) && table[..] == TableAfter(table0, src, probe, hash, k)
  {
  }

  lemma ProbingNext(table: array<nat>, table0: seq<nat>, src: seq<byte>, probe: nat -> nat, hash: nat -> nat, k: nat,
                    ip: nat, nextIp: nat)
    requires |table0| == HASH_SIZE && IsHash(hash) && Indexes(table, src, ip + 1, hash)
    requires table[..] == TableAfter(table0, src, probe, hash, k + 1)
    requires ip < nextIp == probe(k + 1) && nextIp <= |src|
    ensures Probing(table, table0, src, probe, hash, k + 1, nextIp)
  {
    hide Indexes, TableAfter;
    IndexesLater(table, src, ip + 1, nextIp, hash);
  }

  /** Both skip-accelerated search loops: they stop at the first probe that hits, or before the next
      probe would come too near the end of the block. */
  method Search(src: seq<byte>, table: array<nat>, ip0: nat, hash: nat -> nat)
    returns (found: bool, ip: nat, candidate: nat, ghost k: nat)
    requires 15 <= |src| <= BLOCK_SIZE && 1 <= ip0 <= |src| - 14 && table.Length == HASH_SIZE
    requires IsHash(hash) && Indexes(table, src, ip0, hash)
    modifies table
    ensures FirstHit(old(table[..]), src, Skipping(ip0), hash, 0, Probes(src, ip0)) == if found then Some(k) else None
    ensures found ==> ip == ProbeAt(ip0, k) < |src| - 15 && IsMatch(src, ip, candidate) &&
                      candidate == Candidate(old(table[..]), src, Skipping(ip0), hash, k) &&
                      table[..] == TableAfter(old(table[..]), src, Skipping(ip0), hash, k + 1) &&
                      Indexes(table, src, ip + 1, hash)
  {
    hide Load32, TableAfter, Candidate, Hit, Indexes, IsMatch, FirstHit, Probes, Probing, ProbeAt;
    ip, candidate, k := ip0, 0, 0;
    ProbeSteps(ip0, 0);
    var skip := 32;
    ghost var probe, table0, n := Skipping(ip0), table[..], Probes(src, ip0);
    ProbingStart(table, src, probe, hash, ip);
    while true
      invariant ip0 <= ip == ProbeAt(ip0, k) <= |src| - 14 && skip == 32 + (ip - ip0) < POW32
      invariant Probing(table, table0, src, probe, hash, k, ip)
      invariant k <= n && FirstHit(table0, src, probe, hash, k, n) == FirstHit(table0, src, probe, hash, 0, n)
      decreases |src| - ip
    {
      var bytesBetween := skip / 32;
      skip := skip + bytesBetween;
      var nextIp := ip + bytesBetween;
      ProbeSteps(ip0, k);
      if k < n { FirstHitStep(table0, src, probe, hash, k, n); } else { NoHitLeft(table0, src, probe, hash, n); }
      if nextIp > |src| - 15 { return false, ip, candidate, k; }
      found, candidate := Probe(src, table, ip, Load32(src, ip), hash, table0, probe, k);
      if found { return; }
      ProbingNext(table, table0, src, probe, hash, k, ip, nextIp);
      ip, k := nextIp, k + 1;
    }
  }

  lemma FirstHitStep(table: seq<nat>, src: seq<byte>, probe: nat -> nat, hash: nat -> nat, k: nat, n: nat)
    requires |table| == HASH_SIZE && IsHash(hash) && k < n
    ensures FirstHit(table, src, probe, hash, k, n) ==
            if Hit(table, src, probe, hash, k) then Some(k) else FirstHit(table, src, probe, hash, k + 1, n)
  {
    hide Hit;
  }

  lemma NoHitLeft(table: seq<nat>, src: seq<byte>, probe: nat -> nat, hash: nat -> nat, n: nat)
    requires |table| == HASH_SIZE && IsHash(hash)
    ensures FirstHit(table, src, probe, hash, n, n) == None
  {
  }

  lemma IndexesLater(table: array<nat>, src: seq<byte>, ip: nat, ip': nat, hash: nat -> nat)
    requires Indexes(table, src, ip, hash) && ip <= ip' <= |src|
    ensures Indexes(table, src, ip', hash)
  {
    hide HashesTo;
  }

  // ---- emitting ----

  /** What is in dst[op0..op] are the elements `es`, which encode src[..n], within the size allowed. */
  ghost predicate Emitted(dst: seq<byte>, op0: nat, op: nat, src: seq<byte>, n: nat, extra: nat, es: seq<Element>)
  {
    && op0 <= op <= |dst| && n <= |src|
    && op <= op0 + n + n / 60 + extra
    && Encodes(dst[op0..op], es, src[..n])
  }

  /** Copying what is already there is what the match means. */
  lemma MatchIsCopy(src: seq<byte>, ip: nat, candidate: nat, len: nat)
    requires candidate < ip && ip + len <= |src| && src[ip..ip + len] == src[candidate..candidate + len]
    ensures OverlapCopy(src[..ip], ip - candidate, len) == src[..ip + len]
  {
    hide OverlapCopy;
    var out, r := src[..ip], src[..ip + len];
    forall k | ip <= k < ip + len ensures r[k] == r[k - (ip - candidate)] {
      assert src[k] == src[ip..ip + len][k - ip] == src[candidate..candidate + len][k - ip];
    }
    assert r[..ip] == out;
    OverlapCopyRepeats(out, r, ip - candidate);
  }

  /** One match: its length is found, and the copy elements for it are written. */
  method EmitMatch(src: seq<byte>, dst: array<byte>, op0: nat, op1: nat, ip: nat, candidate: nat,
                   ghost es: seq<Element>)
    returns (op: nat, matchLen: nat)
    requires |src| <= BLOCK_SIZE && op0 + |src| + |src| / 60 + 2 <= dst.Length
    requires IsMatch(src, ip, candidate) && Emitted(dst[..], op0, op1, src, ip, 1, es)
    modifies dst
    ensures 4 <= matchLen == MatchLen(src, ip, candidate, |src|) && ip + matchLen <= |src|
    ensures Emitted(dst[..], op0, op, src, ip + matchLen, 0, es + CopyElements(ip - candidate, matchLen))
    ensures forall k | 0 <= k < dst.Length && !(op0 <= k < op0 + |src| + |src| / 60 + 2) :: dst[k] == old(dst[k])
  {
    hide Load32, LittleEndian, Encodes, CopyElements, OverlapCopy, MatchLen, IsMatch, IsMatchLength, Elements;
    hide ShortestTotal;
    MatchHasFour(src, ip, candidate);
    MatchAhead(src, ip, candidate);
    var n := FastMatchLength(src, ip + 4, candidate + 4, |src|);
    matchLen := 4 + n;
    MatchLengthFrom4(src, ip, candidate, n);
    MatchLenUnique(src, ip, candidate, |src|, matchLen);
    ghost var enc := dst[op0..op1];
    op := EmitCopy(dst, op1, ip - candidate, matchLen);
    CopyEncodesMatch(src, ip, candidate, matchLen, enc, dst[op1..op], es);
    assert dst[..][op0..op] == enc + dst[op1..op];
  }

  lemma MatchAhead(src: seq<byte>, ip: nat, candidate: nat)
    requires IsMatch(src, ip, candidate)
    ensures candidate < ip && ip + 4 <= |src|
  {
  }

  lemma CopyEncodesMatch(src: seq<byte>, ip: nat, candidate: nat, len: nat, enc: seq<byte>, t: seq<byte>,
                         es: seq<Element>)
    requires |src| <= BLOCK_SIZE && candidate < ip && 4 <= len && ip + len <= |src|
    requires IsMatchLength(src, ip, candidate, |src|, len) && Encodes(enc, es, src[..ip])
    requires Elements(t) == Some(CopyElements(ip - candidate, len))
    requires |t| == ShortestTotal(CopyElements(ip - candidate, len))
    ensures Encodes(enc + t, es + CopyElements(ip - candidate, len), src[..ip + len])
  {
    hide Encodes, CopyElements, OverlapCopy, Elements, ShortestTotal;
    MatchIsCopy(src, ip, candidate, len);
    EncodesCopy(enc, es, src[..ip], t, ip - candidate, len);
  }

  lemma MatchLengthFrom4(src: seq<byte>, ip: nat, candidate: nat, n: nat)
    requires IsMatch(src, ip, candidate) && IsMatchLength(src, ip + 4, candidate + 4, |src|, n)
    ensures IsMatchLength(src, ip, candidate, |src|, 4 + n)
  {
    LittleEndianInjective(src[ip..ip + 4], src[candidate..candidate + 4]);
    assert src[ip..ip + 4 + n] == src[ip..ip + 4] + src[ip + 4..ip + 4 + n];
    assert src[candidate..candidate + 4 + n] == src[candidate..candidate + 4] + src[candidate + 4..candidate + 4 + n];
  }

  method EmitPending(src: seq<byte>, dst: array<byte>, op0: nat, op1: nat, anchor: nat, end: nat,
                     ghost es: seq<Element>)
    returns (op: nat)
    requires |src| <= BLOCK_SIZE && op0 + |src| + |src| / 60 + 2 <= dst.Length
    requires anchor < end <= |src| && Emitted(dst[..], op0, op1, src, anchor, 0, es)
    modifies dst
    ensures Emitted(dst[..], op0, op, src, end, 1, es + [Literal(src[anchor..end])])
    ensures forall k | 0 <= k < dst.Length && !(op0 <= k < op0 + |src| + |src| / 60 + 2) :: dst[k] == old(dst[k])
  {
    hide Encodes, Elements, ShortestSize;
    ghost var enc := dst[op0..op1];
    op := EmitLiteral(dst, op1, src, anchor, end - anchor);
    EncodesLiteral(enc, es, src[..anchor], dst[op1..op], src[anchor..end]);
    assert dst[..][op0..op] == enc + dst[op1..op];
    assert src[..end] == src[..anchor] + src[anchor..end];
  }

  /** A search, and the literal before the match it finds. */
  method SearchAndEmit(src: seq<byte>, dst: array<byte>, table: array<nat>, op0: nat, op1: nat, anchor: nat, ip0: nat,
                       hash: nat -> nat, ghost es0: seq<Element>)
    returns (found: bool, ip: nat, candidate: nat, op: nat, ghost es: seq<Element>)
    requires 15 <= |src| <= BLOCK_SIZE && anchor < ip0 <= |src| - 14 && op0 + |src| + |src| / 60 + 2 <= dst.Length
    requires table.Length == HASH_SIZE && IsHash(hash) && Indexes(table, src, ip0, hash)
    requires Emitted(dst[..], op0, op1, src, anchor, 0, es0)
    modifies dst, table
    ensures found ==> anchor < ip < |src| - 15 && IsMatch(src, ip, candidate) && Indexes(table, src, ip + 1, hash) &&
                      Emitted(dst[..], op0, op, src, ip, 1, es) &&
                      es + FromMatch(table[..], src, ip, candidate, hash) ==
                      es0 + FromSearch(old(table[..]), src, anchor, ip0, hash)
    ensures !found ==> Emitted(dst[..], op0, op, src, anchor, 0, es) &&
                       es + Remainder(src, anchor) == es0 + FromSearch(old(table[..]), src, anchor, ip0, hash)
    ensures forall k | 0 <= k < dst.Length && !(op0 <= k < op0 + |src| + |src| / 60 + 2) :: dst[k] == old(dst[k])
  {
    hide Load32, TableAfter, Candidate, Hit, Indexes, IsMatch, FirstHit, Probes, FromMatch, Encodes;
    ghost var k;
    op, es := op1, es0;
    found, ip, candidate, k := Search(src, table, ip0, hash);
    if found {
      op := EmitPending(src, dst, op0, op, anchor, ip, es0);
      ghost var literal, rest := [Literal(src[anchor..ip])], FromMatch(table[..], src, ip, candidate, hash);
      assert es0 + (literal + rest) == es0 + literal + rest;
      es := es0 + literal;
    }
  }

  /** The entries near the end of a match. */
  method Reindex(src: seq<byte>, table: array<nat>, ip: nat, hash: nat -> nat) returns (candidate: nat)
    requires 1 <= ip && ip + 4 <= |src| <= BLOCK_SIZE && IsHash(hash) && Indexes(table, src, ip, hash)
    modifies table
    ensures candidate < ip && Indexes(table, src, ip + 1, hash)
    ensures var h', h := hash(Load32(src, ip - 1)), hash(Load32(src, ip));
            && table[..] == old(table[..])[h' := ip - 1][h := ip]
            && candidate == old(table[..])[h' := ip - 1][h]
  {
    hide Load32;
    table[hash(Load32(src, ip - 1))] := (ip - 1) % 0x1_0000;
    candidate := Exchange(table, hash(Load32(src, ip)), ip, src, hash);
  }

  /** The emit_match loop: one match after another as long as the next position has one at once. It
      ends near the end of the block, or where the search has to be taken up again. */
  method EmitMatches(src: seq<byte>, dst: array<byte>, table: array<nat>, op0: nat, op1: nat, ip0: nat, candidate0: nat,
                     hash: nat -> nat, ghost es0: seq<Element>)
    returns (ip: nat, op: nat, ghost es: seq<Element>)
    requires 15 <= |src| <= BLOCK_SIZE && op0 + |src| + |src| / 60 + 2 <= dst.Length && table.Length == HASH_SIZE
    requires ip0 < |src| - 15 && IsMatch(src, ip0, candidate0) && Emitted(dst[..], op0, op1, src, ip0, 1, es0)
    requires IsHash(hash) && Indexes(table, src, ip0 + 1, hash)
    modifies dst, table
    ensures ip0 + 4 <= ip <= |src| && Emitted(dst[..], op0, op, src, ip, 0, es)
    ensures ip < |src| - 15 ==> Indexes(table, src, ip + 1, hash)
    ensures es + (if ip >= |src| - 15 then Remainder(src, ip) else FromSearch(table[..], src, ip, ip + 1, hash)) ==
            es0 + FromMatch(old(table[..]), src, ip0, candidate0, hash)
    ensures forall k | 0 <= k < dst.Length && !(op0 <= k < op0 + |src| + |src| / 60 + 2) :: dst[k] == old(dst[k])
  {
    hide Load32, Emitted, MatchLen, IsMatch, Indexes, CopyElements, FromMatch, AfterMatch, FromSearch;
    ip, op, es := ip0, op1, es0;
    var candidate := candidate0;
    while true
      invariant ip0 <= ip < |src| - 15 && IsMatch(src, ip, candidate) && Emitted(dst[..], op0, op, src, ip, 1, es)
      invariant Indexes(table, src, ip + 1, hash)
      invariant es + FromMatch(table[..], src, ip, candidate, hash) ==
                es0 + FromMatch(old(table[..]), src, ip0, candidate0, hash)
      invariant forall k | 0 <= k < dst.Length && !(op0 <= k < op0 + |src| + |src| / 60 + 2) :: dst[k] == old(dst[k])
      decreases |src| - ip
    {
      var matchLen;
      FromMatchStep(table[..], src, ip, candidate, hash, es);
      ghost var copies := CopyElements(ip - candidate, MatchLen(src, ip, candidate, |src|));
      op, matchLen := EmitMatch(src, dst, op0, op, ip, candidate, es);
      ip, es := ip + matchLen, es + copies;
      if ip >= |src| - 15 {
        NoMatchLater(table[..], src, ip, hash);
        return;
      }
      IndexesLater(table, src, ip - matchLen + 1, ip, hash);
      ghost var before := table[..];
      candidate := Reindex(src, table, ip, hash);
      AfterReindex(before, table[..], src, ip, candidate, hash);
      if !(Load32(src, ip) == Load32(src, candidate) && ip - candidate <= MAX_OFFSET) { return; }
      EmittedLoosely(dst[..], op0, op, src, ip, es);
    }
  }

  lemma EmittedLoosely(dst: seq<byte>, op0: nat, op: nat, src: seq<byte>, n: nat, es: seq<Element>)
    requires Emitted(dst, op0, op, src, n, 0, es)
    ensures Emitted(dst, op0, op, src, n, 1, es)
  {
    hide Encodes;
  }

  lemma FromMatchStep(table: seq<nat>, src: seq<byte>, ip: nat, candidate: nat, hash: nat -> nat, es: seq<Element>)
    requires |table| == HASH_SIZE && IsHash(hash) && IsMatch(src, ip, candidate)
    ensures var len := MatchLen(src, ip, candidate, |src|);
            && candidate < ip && len >= 4 && ip + len <= |src|
            && es + FromMatch(table, src, ip, candidate, hash) ==
               es + CopyElements(ip - candidate, len) + AfterMatch(table, src, ip + len, hash)
  {
    hide CopyElements, AfterMatch, MatchLen, Load32;
    MatchHasFour(src, ip, candidate);
  }

  lemma NoMatchLater(table: seq<nat>, src: seq<byte>, ip: nat, hash: nat -> nat)
    requires |table| == HASH_SIZE && IsHash(hash) && 0 < ip && ip >= |src| - 15
    ensures AfterMatch(table, src, ip, hash) == Remainder(src, ip)
  {
  }

  /** What the two updates of the table and the candidate decide. */
  lemma AfterReindex(table: seq<nat>, table': seq<nat>, src: seq<byte>, ip: nat, candidate: nat, hash: nat -> nat)
    requires |table| == HASH_SIZE && IsHash(hash) && 0 < ip < |src| - 15 && candidate < ip
    requires var h', h := hash(Load32(src, ip - 1)), hash(Load32(src, ip));
             table' == table[h' := ip - 1][h := ip] && candidate == table[h' := ip - 1][h]
    ensures if Load32(src, ip) == Load32(src, candidate) && ip - candidate <= MAX_OFFSET
            then IsMatch(src, ip, candidate) &&
                 AfterMatch(table, src, ip, hash) == FromMatch(table', src, ip, candidate, hash)
            else AfterMatch(table, src, ip, hash) == FromSearch(table', src, ip, ip + 1, hash)
  {
    hide FromMatch, FromSearch, Load32;
  }

  /** The unrolled probe of positions 1 to 16. Eight bytes are held in a word that is shifted by one
      byte from each position to the next; a match is preceded by a literal copied 16 bytes wide. */
  method StartupProbe(src: seq<byte>, dst: array<byte>, table: array<nat>, op0: nat, hash: nat -> nat)
    returns (found: bool, ip: nat, candidate: nat, op: nat)
    requires 32 <= |src| <= BLOCK_SIZE && op0 + |src| <= dst.Length && table.Length == HASH_SIZE
    requires IsHash(hash) && Indexes(table, src, 1, hash)
    modifies dst, table
    ensures 1 <= ip <= 17
    ensures FirstHit(old(table[..]), src, Consecutive(), hash, 0, 16) == if found then Some(ip - 1) else None
    ensures found ==> ip < 17 && IsMatch(src, ip, candidate) && Indexes(table, src, ip + 1, hash) &&
                      candidate == Candidate(old(table[..]), src, Consecutive(), hash, ip - 1) &&
                      Emitted(dst[..], op0, op, src, ip, 1, [Literal(src[0..ip])])
    ensures !found ==> ip == 17 && op == op0 && Indexes(table, src, 17, hash) && dst[..] == old(dst[..])
    ensures table[..] == TableAfter(old(table[..]), src, Consecutive(), hash, if found then ip else 16)
    ensures forall k | 0 <= k < dst.Length && !(op0 <= k < op0 + |src|) :: dst[k] == old(dst[k])
  {
    hide Emitted, LittleEndian, Load32, Load64, TableAfter, Hit, Candidate, FirstHit, Indexes, IsMatch, Probing;
    ip, op, candidate := 1, op0, 0;
    ghost var probe, table0 := Consecutive(), table[..];
    ProbingStart(table, src, probe, hash, ip);
    var data := Load64(src, ip);
    LoadedWord(src, ip);
    for j := 0 to 4
      invariant data == LittleEndian(src[1 + 4 * j..9 + 4 * j])
      invariant Probing(table, table0, src, probe, hash, 4 * j, 1 + 4 * j)
      invariant FirstHit(table0, src, probe, hash, 4 * j, 16) == FirstHit(table0, src, probe, hash, 0, 16)
      invariant dst[..] == old(dst[..])
    {
      for k := 0 to 4
        invariant data == LittleEndian(src[1 + 4 * j + k..9 + 4 * j])
        invariant Probing(table, table0, src, probe, hash, 4 * j + k, 1 + 4 * j + k)
        invariant FirstHit(table0, src, probe, hash, 4 * j + k, 16) == FirstHit(table0, src, probe, hash, 0, 16)
        invariant dst[..] == old(dst[..])
      {
        var i := 4 * j + k;
        WordAt(src, 1 + i, 9 + 4 * j);
        FirstHitStep(table0, src, probe, hash, i, 16);
        var dword := if i == 0 then Load32(src, ip) else data % POW32;
        found, candidate := Probe(src, table, 1 + i, dword, hash, table0, probe, i);
        if found {
          op := EmitShortLiteral(src, dst, op0, i);
          return true, ip + i, candidate, op;
        }
        ProbingNext(table, table0, src, probe, hash, i, 1 + i, 2 + i);
        data := data / 256;
      }
      data := Load64(src, ip + 4 * j + 4);
      LoadedWord(src, ip + 4 * j + 4);
    }
    NoHitLeft(table0, src, probe, hash, 16);
    ProbingEnds(table, table0, src, probe, hash, 16, 17);
    return false, ip + 16, candidate, op;
  }

  lemma LoadedWord(src: seq<byte>, i: nat)
    requires i + 8 <= |src|
    ensures Load64(src, i) == LittleEndian(src[i..i + 8])
  {
  }

  lemma WordAt(src: seq<byte>, i: nat, end: nat)
    requires i + 4 <= end <= |src|
    ensures LittleEndian(src[i..end]) % POW32 == Load32(src, i)
    ensures LittleEndian(src[i..end]) / 256 == LittleEndian(src[i + 1..end])
  {
    Truncate32(src[i..end]);
    assert src[i..end][..4] == src[i..i + 4] && src[i..end][1..] == src[i + 1..end];
  }

  method EmitShortLiteral(src: seq<byte>, dst: array<byte>, op0: nat, i: nat) returns (op: nat)
    requires i < 16 && 32 <= |src| && op0 + |src| <= dst.Length
    modifies dst
    ensures Emitted(dst[..], op0, op, src, 1 + i, 1, [Literal(src[0..1 + i])])
    ensures forall k | 0 <= k < dst.Length && !(op0 <= k < op0 + 17) :: dst[k] == old(dst[k])
  {
    dst[op0] := i * 4;
    CopyIn(src, 0, dst, op0 + 1, 16);
    op := op0 + i + 2;
    ghost var enc := dst[..][op0..op];
    assert enc[1..] == src[0..1 + i] == src[..1 + i];
    ShortLiteral(enc, src[0..1 + i]);
  }

  lemma ShortLiteral(enc: seq<byte>, literal: seq<byte>)
    requires 1 <= |literal| <= 16 && |enc| == 1 + |literal| && enc[0] == (|literal| - 1) * 4 && enc[1..] == literal
    ensures Encodes(enc, [Literal(literal)], literal)
  {
    hide Elements, HeaderBytes, Encodes;
    HeaderForms(|literal|);
    assert enc == [enc[0]] + enc[1..];
    LiteralRoundTrip(literal);
    HeaderShortest(literal);
    NothingEncoded();
    EncodesLiteral([], [], [], enc, literal);
    assert [] + enc == enc && [] + literal == literal && [] + [Literal(literal)] == [Literal(literal)];
  }

  lemma NothingEncoded()
    ensures Encodes([], [], [])
  {
  }

  /** The table with position 0 in it, which is also what its empty slots hold. */
  method SeededTable(src: seq<byte>, hash: nat -> nat) returns (table: array<nat>)
    requires |src| >= 4 && IsHash(hash)
    ensures fresh(table) && table.Length == HASH_SIZE && table[..] == EmptyTable() && Indexes(table, src, 1, hash)
  {
    hide Load32, HashesTo;
    table := new nat[HASH_SIZE](_ => 0);
    table[hash(Load32(src, 0))] := 0;
  }

  /** The start of a block: the table with position 0 in it, the probe, and the first search. A match
      comes with the literal before it already written. */
  method FirstMatch(src: seq<byte>, dst: array<byte>, op0: nat, hash: nat -> nat)
    returns (table: array<nat>, found: bool, ip: nat, candidate: nat, op: nat, ghost es: seq<Element>)
    requires 15 <= |src| <= BLOCK_SIZE && IsHash(hash) && op0 + |src| + |src| / 60 + 2 <= dst.Length
    modifies dst
    ensures fresh(table) && table.Length == HASH_SIZE
    ensures found ==> 1 <= ip < |src| - 15 && IsMatch(src, ip, candidate) && Indexes(table, src, ip + 1, hash) &&
                      Emitted(dst[..], op0, op, src, ip, 1, es) &&
                      es + FromMatch(table[..], src, ip, candidate, hash) == BlockElements(src, hash)
    ensures !found ==> Emitted(dst[..], op0, op, src, 0, 0, es) && es + Remainder(src, 0) == BlockElements(src, hash)
    ensures forall k | 0 <= k < dst.Length && !(op0 <= k < op0 + |src| + |src| / 60 + 2) :: dst[k] == old(dst[k])
  {
    hide Load32, Encodes, FromMatch, FromSearch, TableAfter, FirstHit, Hit, Candidate, Indexes, IsMatch, EmptyTable;
    table := SeededTable(src, hash);
    ip, candidate, op, found, es := 1, 0, op0, false, [];
    NothingEmitted(dst[..], op0, src);
    if |src| - 15 - ip >= 16 {
      found, ip, candidate, op := StartupProbe(src, dst, table, op0, hash);
      if found { es := [Literal(src[0..ip])]; }
    }
    if !found {
      assert [] + FromSearch(table[..], src, 0, ip, hash) == BlockElements(src, hash);
      found, ip, candidate, op, es := SearchAndEmit(src, dst, table, op0, op, 0, ip, hash, es);
    }
  }

  lemma NothingEmitted(dst: seq<byte>, op0: nat, src: seq<byte>)
    requires op0 <= |dst|
    ensures Emitted(dst, op0, op0, src, 0, 0, [])
  {
    NothingEncoded();
    assert dst[op0..op0] == [] && src[..0] == [];
  }

  /** snappy_compress_block. Whatever the hash function, what it appends are the elements of the
      greedy parse, and they decode to the block; it stays within the block's length, a sixtieth of
      it and one byte, and no store goes further than one byte beyond that. */
  method CompressBlock(src: seq<byte>, dst: array<byte>, op0: nat, hash: nat -> nat) returns (op: nat)
    requires |src| <= BLOCK_SIZE && IsHash(hash) && op0 + |src| + |src| / 60 + 2 <= dst.Length
    modifies dst
    ensures op0 <= op <= op0 + |src| + |src| / 60 + 1
    ensures Encodes(dst[op0..op], BlockElements(src, hash), src)
    ensures forall e | e in BlockElements(src, hash) ::
              if e.Literal? then 1 <= |e.bytes| <= 65536 else 1 <= e.offset <= 65535 && 4 <= e.len <= 64
    ensures forall k | 0 <= k < dst.Length && !(op0 <= k < op0 + |src| + |src| / 60 + 2) :: dst[k] == old(dst[k])
  {
    hide Load32, Encodes, Indexes, HashesTo, IsMatch, FromMatch, FromSearch, BlockElements;
    NothingEmitted(dst[..], op0, src);
    assert src[..|src|] == src;
    op := op0;
    ghost var es: seq<Element> := [];
    var anchor: nat := 0;
    if |src| < 15 {
      ShortBlock(src, hash);
      if |src| > 0 { op := EmitPending(src, dst, op0, op0, 0, |src|, es); }
      EncodedKinds(dst[op0..op], BlockElements(src, hash), src);
      return;
    }
    var table, found, ip, candidate;
    table, found, ip, candidate, op, es := FirstMatch(src, dst, op0, hash);
    while found
      invariant found ==> anchor < ip < |src| - 15 && IsMatch(src, ip, candidate) && Indexes(table, src, ip + 1, hash)
      invariant Emitted(dst[..], op0, op, src, if found then ip else anchor, if found then 1 else 0, es)
      invariant es + (if found then FromMatch(table[..], src, ip, candidate, hash) else Remainder(src, anchor)) ==
                BlockElements(src, hash)
      invariant forall k | 0 <= k < dst.Length && !(op0 <= k < op0 + |src| + |src| / 60 + 2) :: dst[k] == old(dst[k])
      decreases if found then |src| - ip + 1 else 0
    {
      anchor, op, es := EmitMatches(src, dst, table, op0, op, ip, candidate, hash, es);
      if anchor >= |src| - 15 { break; }
      found, ip, candidate, op, es := SearchAndEmit(src, dst, table, op0, op, anchor, anchor + 1, hash, es);
    }
    if anchor < |src| {
      op := EmitPending(src, dst, op0, op, anchor, |src|, es);
      assert src[anchor..] == src[anchor..|src|];
    } else {
      assert es + [] == es;
    }
    EncodedKinds(dst[op0..op], BlockElements(src, hash), src);
  }

  lemma EncodedKinds(enc: seq<byte>, es: seq<Element>, data: seq<byte>)
    requires Encodes(enc, es, data)
    ensures forall e | e in es ::
              if e.Literal? then 1 <= |e.bytes| <= 65536 else 1 <= e.offset <= 65535 && 4 <= e.len <= 64
  {
    hide Elements, Replay, ShortestTotal;
  }

  lemma ShortBlock(src: seq<byte>, hash: nat -> nat)
    requires |src| < 15 && IsHash(hash)
    ensures BlockElements(src, hash) == if |src| == 0 then [] else [] + [Literal(src[0..|src|])]
  {
    assert src[0..] == src[0..|src|];
  }

  // ---- the whole input ----

  /** carquet_snappy_compress_bound. */
  function CompressBound(n: nat): (b: nat)
    ensures b >= 32 + n && 6 * (b - 32 - n) <= n < 6 * (b - 31 - n)
  {
    32 + n + n / 6
  }

  function Sixtieth(n: nat): nat
  {
    n / 60
  }

  function Blocks(n: nat): nat
  {
    (n + 65535) / 65536
  }

  /** What the finished output stays within. */
  function TightBound(n: nat): nat
  {
    n + Sixtieth(n) + Blocks(n) + 5
  }

  /** The output for `pos` bytes, a number of whole blocks or all of the n, ends at `op` at most. */
  predicate Within(op: nat, pos: nat, n: nat)
  {
    (pos % BLOCK_SIZE == 0 || pos == n) && op <= TightBound(pos)
  }

  /** After the preamble, dst[start..op] are the elements `es`, which encode src[..pos]; those of the
      other blocks are still to come. */
  ghost predicate Progress(dst: seq<byte>, start: nat, op: nat, src: seq<byte>, pos: nat, es: seq<Element>)
  {
    && start <= op <= |dst| && pos <= |src|
    && Within(op, pos, |src|)
    && Encodes(dst[start..op], es, src[..pos])
    && es + StreamElements(src, pos) == StreamElements(src)
  }

  lemma SixtiethsAdd(pos: nat, b: nat)
    ensures Sixtieth(pos) + Sixtieth(b) <= Sixtieth(pos + b)
  {
  }

  lemma BlocksWhole(q: nat, b: nat)
    requires b <= BLOCK_SIZE
    ensures Blocks(65536 * q) == q && (b > 0 ==> Blocks(65536 * q + b) == q + 1)
  {
    var r := if b > 0 then b - 1 else 0;
    assert 65536 * q + b + 65535 == 65536 * (q + 1) + r || b == 0;
  }

  /** There is room for the next block, stores past its end included. */
  lemma BlockFits(op: nat, pos: nat, b: nat, n: nat)
    requires pos < n && Within(op, pos, n) && b <= n - pos
    ensures op + b + b / 60 + 2 <= CompressBound(n)
  {
    hide Sixtieth, Blocks;
    SixtiethsAdd(pos, b);
    SixtiethOf(b);
    BlocksWhole(pos / 65536, 0);
    BoundLeaves(pos + b, n);
  }

  lemma BoundLeaves(m: nat, n: nat)
    requires m <= n
    ensures m + Sixtieth(m) + m / 65536 + 7 <= CompressBound(n)
  {
  }

  /** It leaves the output within its bound. */
  lemma BlockWithin(op: nat, op': nat, pos: nat, b: nat, n: nat)
    requires pos < n && Within(op, pos, n) && b == (if n - pos > BLOCK_SIZE then BLOCK_SIZE else n - pos)
    requires op' <= op + b + b / 60 + 1
    ensures Within(op', pos + b, n)
  {
    hide Sixtieth, Blocks;
    SixtiethsAdd(pos, b);
    BlocksWhole(pos / 65536, b);
    SixtiethOf(b);
  }

  lemma SixtiethOf(b: nat)
    ensures Sixtieth(b) == b / 60
  {
  }

  method AppendBlock(src: seq<byte>, dst: array<byte>, start: nat, op0: nat, pos: nat, blockSize: nat,
                     ghost es0: seq<Element>)
    returns (op: nat, ghost es: seq<Element>)
    requires pos < |src| && blockSize == (if |src| - pos > BLOCK_SIZE then BLOCK_SIZE else |src| - pos)
    requires CompressBound(|src|) <= dst.Length && Progress(dst[..], start, op0, src, pos, es0)
    modifies dst
    ensures Progress(dst[..], start, op, src, pos + blockSize, es)
    ensures forall k | 0 <= k < dst.Length && !(op0 <= k < CompressBound(|src|)) :: dst[k] == old(dst[k])
  {
    hide Encodes, Within, BlockElements;
    var block := src[pos..pos + blockSize];
    ghost var enc := dst[start..op0];
    BlockFits(op0, pos, blockSize, |src|);
    hide CompressBound;
    op := CompressBlock(block, dst, op0, SnappyHash);
    BlockWithin(op0, op, pos, blockSize, |src|);
    ghost var more, rest := BlockElements(block, SnappyHash), StreamElements(src, pos + blockSize);
    EncodesConcat(enc, es0, src[..pos], dst[op0..op], more, block);
    es := es0 + more;
    assert dst[..][start..op] == enc + dst[op0..op];
    assert src[..pos + blockSize] == src[..pos] + block;
    assert es0 + (more + rest) == es + rest;
  }

  /** carquet_snappy_compress. It succeeds exactly when the buffer has the bound, never touches it
      past the bound, and its output is a stream of the elements of the greedy parse, in the format
      and decoding to `src`, unless the input is too long for its length to fit the 32 bits it is
      cast to: then nothing accepts it. */
  method Compress(src: seq<byte>, dst: array<byte>) returns (status: Status, dstSize: nat)
    modifies dst
    ensures status == Ok <==> |src| <= 6 * (dst.Length - 32 - |src|) + 5
    ensures status != Ok ==> status == CompressionError
    ensures status == Ok ==> dstSize <= |src| + |src| / 60 + (|src| + 65535) / 65536 + 5 && dstSize <= dst.Length
    ensures status == Ok ==> Contents(dst[..dstSize]) == StreamElements(src)
    ensures status == Ok ==> Reference(dst[..dstSize]) == if |src| < POW32 then Some(src) else None
    ensures status == Ok ==> Standard(dst[..dstSize]) == Reference(dst[..dstSize])
    ensures status == Ok ==>
              forall t | IsStream(t, |src| % 0x1_0000_0000, StreamElements(src)) ::
                dstSize < |t| || dst[..dstSize] == t
    ensures forall k | 32 + |src| + |src| / 6 <= k < dst.Length :: dst[k] == old(dst[k])
  {
    hide Encodes, Varint.Decode, Varint.Encode, Elements, StreamElements, Standard, Reference, Contents, IsStream;
    if dst.Length < CompressBound(|src|) { return CompressionError, 0; }
    var start := Varint.Write(dst, 0, |src| % POW32);
    var op: nat, pos: nat := start, 0;
    ghost var es: seq<Element> := [];
    ProgressStart(dst[..], start, src);
    while pos < |src|
      invariant Progress(dst[..], start, op, src, pos, es)
      invariant forall k | CompressBound(|src|) <= k < dst.Length :: dst[k] == old(dst[k])
      invariant dst[0..start] == Varint.Encode(|src| % POW32)
      decreases |src| - pos
    {
      var blockSize := |src| - pos;
      if blockSize > BLOCK_SIZE { blockSize := BLOCK_SIZE; }
      op, es := AppendBlock(src, dst, start, op, pos, blockSize, es);
      pos := pos + blockSize;
    }
    assert src[..pos] == src && dst[..op] == dst[0..start] + dst[..][start..op];
    assert es + [] == es && StreamElements(src, |src|) == [] by { NoMoreBlocks(src); }
    StreamDecodes(src, dst[..][start..op], es);
    forall t | IsStream(t, |src| % POW32, es) ensures op < |t| || dst[..op] == t {
      EncodedShortest(src, dst[..][start..op], es, t);
    }
    return Ok, op;
  }

  lemma ProgressStart(dst: seq<byte>, start: nat, src: seq<byte>)
    requires start <= 5 && start <= |dst|
    ensures Progress(dst, start, start, src, 0, [])
  {
    hide Encodes, StreamElements;
    NothingEncoded();
    assert dst[start..start] == [] && src[..0] == [];
    assert [] + StreamElements(src) == StreamElements(src);
  }

  lemma NoMoreBlocks(src: seq<byte>)
    ensures StreamElements(src, |src|) == []
  {
  }

  lemma EncodedBody(enc: seq<byte>, es: seq<Element>, data: seq<byte>, total: nat)
    requires Encodes(enc, es, data)
    ensures Body(enc, [], total) == (if |data| == total then Some(data) else None) && !Wraps(es)
  {
    hide Elements, Replay;
    assert es != [] ==> Emittable(es[|es| - 1]);
  }

  lemma ReferenceIsBody(header: seq<byte>, enc: seq<byte>, n: nat)
    requires header != [] && Varint.Decode(header + enc) == Some(Parsed(n, |header|)) && Elements(enc).Some?
    ensures Reference(header + enc) == Body(enc, [], n) && Contents(header + enc) == Elements(enc).value
  {
    hide Body, Elements, Varint.Decode;
    assert (header + enc)[|header|..] == enc;
  }

  /** Every other stream of the same length and elements is longer. */
  lemma EncodedShortest(src: seq<byte>, enc: seq<byte>, es: seq<Element>, t: seq<byte>)
    requires Encodes(enc, es, src) && IsStream(t, |src| % POW32, es)
    ensures var stream := Varint.Encode(|src| % POW32) + enc; |stream| < |t| || stream == t
  {
    hide Elements, Replay, ShortestTotal, IsStream, Varint.Encode;
    StreamShortest(|src| % POW32, enc, es, t);
  }

  /** The stream decodes if and only if the length was not truncated, for the decoder and in the
      format alike. */
  lemma StreamDecodes(src: seq<byte>, enc: seq<byte>, es: seq<Element>)
    requires Encodes(enc, es, src)
    ensures var stream := Varint.Encode(|src| % POW32) + enc;
            && Contents(stream) == es
            && Standard(stream) == Reference(stream) == if |src| < POW32 then Some(src) else None
  {
    hide Reference, Standard, Contents, Body, Replay, Varint.Decode, Varint.Encode;
    var n := |src| % POW32;
    Varint.DecodeEncode(n, enc);
    ReferenceIsBody(Varint.Encode(n), enc, n);
    EncodedBody(enc, es, src, n);
    StandardAgrees(Varint.Encode(n) + enc);
  }
}
