/** Content-defined chunking with two thresholds and two divisors. */
module Chunking {

  type Octet = n: nat | n < 0x100

  /** Any hash of the bytes since the last reset. */
  type Hash = seq<Octet> -> nat

  datatype Params = Params(min: nat, max: nat, mainDivisor: nat, backupDivisor: nat) {
    /** The length at which cutting may start, and the length at which it must stop. */
    function Low(): (l: nat)
      ensures 1 <= l
    {
      if min == 0 then 1 else min
    }

    function High(): (h: nat)
      ensures Low() <= h
    {
      if max < Low() then Low() else max
    }

    predicate Usable() {
      0 < mainDivisor && 0 < backupDivisor
    }
  }

  // ----- what a cut is

  predicate MainHit(p: Params, f: Hash, data: seq<Octet>, c: nat)
    requires p.Usable()
  {
    p.Low() <= c <= p.High() && c <= |data| && f(data[..c]) % p.mainDivisor == 0
  }

  predicate BackupHit(p: Params, f: Hash, data: seq<Octet>, c: nat)
    requires p.Usable()
  {
    p.Low() <= c <= p.High() && c <= |data| && f(data[..c]) % p.backupDivisor == 0
  }

  /**
    The first main hit; without one, the end of short data; without that, the last backup hit; without any, the
    longest chunk.
   */
  ghost predicate IsCut(p: Params, f: Hash, data: seq<Octet>, c: nat, ready: bool)
    requires p.Usable()
  {
    if exists d: nat :: MainHit(p, f, data, d) then
      ready && MainHit(p, f, data, c) && forall d: nat :: MainHit(p, f, data, d) ==> c <= d
    else if |data| < p.High() then !ready && c == |data|
    else if exists d: nat :: BackupHit(p, f, data, d) then
      ready && BackupHit(p, f, data, c) && forall d: nat :: BackupHit(p, f, data, d) ==> d <= c
    else !ready && c == p.High()
  }

  lemma CutIsUnique(p: Params, f: Hash, data: seq<Octet>, c: nat, ready: bool, c': nat, ready': bool)
    requires p.Usable() && IsCut(p, f, data, c, ready) && IsCut(p, f, data, c', ready')
    ensures c == c' && ready == ready'
  {
  }

  /** A chunk is never empty; only the end of the data can make it short; it is never too long. */
  lemma CutSize(p: Params, f: Hash, data: seq<Octet>, c: nat, ready: bool)
    requires p.Usable() && IsCut(p, f, data, c, ready) && data != []
    ensures 1 <= c <= |data| && c <= p.High() && (c < p.Low() ==> c == |data|)
  {
  }

  // ----- what is known after some bytes

  ghost predicate NoMainUpTo(p: Params, f: Hash, data: seq<Octet>, c: nat)
    requires p.Usable()
  {
    forall d: nat :: MainHit(p, f, data, d) ==> c < d
  }

  /** The last backup hit so far; zero when there is none. */
  ghost predicate LastBackup(p: Params, f: Hash, data: seq<Octet>, c: nat, b: nat)
    requires p.Usable()
  {
    && b <= c && (b != 0 ==> BackupHit(p, f, data, b))
    && forall d: nat :: BackupHit(p, f, data, d) ==> d <= b || c < d
  }

  lemma Start(p: Params, f: Hash, data: seq<Octet>)
    requires p.Usable()
    ensures NoMainUpTo(p, f, data, 0) && LastBackup(p, f, data, 0, 0)
  {
  }

  /** Too few bytes yet to cut. */
  lemma TooShort(p: Params, f: Hash, data: seq<Octet>, c: nat, b: nat)
    requires p.Usable() && NoMainUpTo(p, f, data, c) && LastBackup(p, f, data, c, b) && c + 1 < p.Low()
    ensures NoMainUpTo(p, f, data, c + 1) && LastBackup(p, f, data, c + 1, b)
  {
  }

  lemma BackupStep(p: Params, f: Hash, data: seq<Octet>, c: nat, b: nat)
    requires p.Usable() && LastBackup(p, f, data, c, b) && p.Low() <= c + 1 <= p.High() && c < |data|
    ensures LastBackup(p, f, data, c + 1, if f(data[..c + 1]) % p.backupDivisor == 0 then c + 1 else b)
  {
    assert BackupHit(p, f, data, c + 1) <==> f(data[..c + 1]) % p.backupDivisor == 0;
  }

  /** One byte more: a main hit is the cut, or there is none yet. */
  lemma MainStep(p: Params, f: Hash, data: seq<Octet>, c: nat)
    requires p.Usable() && NoMainUpTo(p, f, data, c) && p.Low() <= c + 1 <= p.High() && c < |data|
    ensures if f(data[..c + 1]) % p.mainDivisor == 0 then IsCut(p, f, data, c + 1, true)
            else NoMainUpTo(p, f, data, c + 1)
  {
    assert MainHit(p, f, data, c + 1) <==> f(data[..c + 1]) % p.mainDivisor == 0;
  }

  lemma EndOfData(p: Params, f: Hash, data: seq<Octet>)
    requires p.Usable() && NoMainUpTo(p, f, data, |data|) && |data| < p.High()
    ensures IsCut(p, f, data, |data|, false)
  {
  }

  lemma Longest(p: Params, f: Hash, data: seq<Octet>, b: nat)
    requires p.Usable() && p.High() <= |data|
    requires NoMainUpTo(p, f, data, p.High()) && LastBackup(p, f, data, p.High(), b)
    ensures if b != 0 then IsCut(p, f, data, b, true) else IsCut(p, f, data, p.High(), false)
  {
  }

  // ----- the hasher and the chunker

  class Hasher {
    const f: Hash
    var seen: seq<Octet>

    constructor (f: Hash)
      ensures this.f == f && seen == []
    {
      this.f, seen := f, [];
    }

    method Reset()
      modifies this
      ensures seen == []
    {
      seen := [];
    }

    method Update(c: Octet) returns (hash: nat)
      modifies this
      ensures seen == old(seen) + [c] && hash == f(seen)
    {
      seen := seen + [c];
      hash := f(seen);
    }
  }

  class TTTD {
    const hasher: Hasher
    var chunkSize: Params

    constructor (hasher: Hasher)
      ensures this.hasher == hasher && chunkSize.Usable()
      ensures chunkSize.min == 8 * 1024 && chunkSize.max == 32 * 1024
    {
      this.hasher := hasher;
      chunkSize := Params(8 * 1024, 32 * 1024, 0, 0);
      new;
      SetRecommendedChunkSize(16 * 1024);
    }

    method SetMinChunkSize(size: nat)
      modifies this
      ensures chunkSize == old(chunkSize).(min := size)
    {
      chunkSize := chunkSize.(min := size);
    }

    method SetMaxChunkSize(size: nat)
      modifies this
      ensures chunkSize == old(chunkSize).(max := size)
    {
      chunkSize := chunkSize.(max := size);
    }

    /** Below 1015 the divisors become zero, and the next chunk divides by them. */
    method SetRecommendedChunkSize(size: nat)
      modifies this
      ensures chunkSize.min == old(chunkSize).min && chunkSize.max == old(chunkSize).max
      ensures chunkSize.mainDivisor == 2 * chunkSize.backupDivisor == 540 * (size / 1015)
      ensures chunkSize.Usable() <==> 1015 <= size
    {
      var m := size / 1015;
      chunkSize := chunkSize.(mainDivisor := 540 * m, backupDivisor := 270 * m);
    }

    /** Where the next chunk of `data[begin..]` ends, and whether the content decided it. */
    method Chunkify(data: seq<Octet>, begin: nat) returns (stopped: nat, ready: bool)
      requires begin <= |data| && chunkSize.Usable()
      modifies hasher
      ensures begin <= stopped <= |data| && IsCut(chunkSize, hasher.f, data[begin..], stopped - begin, ready)
    {
      hide MainHit, BackupHit, IsCut, NoMainUpTo, LastBackup;
      ghost var rest, p, f := data[begin..], chunkSize, hasher.f;
      hasher.Reset();
      var end := |data|;
      var backupIt := end;
      var consumed: nat := 0;
      var it := begin;
      Start(p, f, rest);
      while it != end
        invariant begin <= it <= end && consumed == it - begin < p.High() && hasher.seen == rest[..consumed]
        invariant backupIt == end || begin <= backupIt < it
        invariant NoMainUpTo(p, f, rest, consumed)
        invariant LastBackup(p, f, rest, consumed, if backupIt == end then 0 else backupIt + 1 - begin)
        decreases end - it
      {
        ghost var b := if backupIt == end then 0 else backupIt + 1 - begin;
        var hash := hasher.Update(data[it]);
        assert rest[..consumed + 1] == rest[..consumed] + [data[it]];
        consumed := consumed + 1;
        if consumed < chunkSize.min {
          TooShort(p, f, rest, consumed - 1, b);
          it := it + 1;
          continue;
        }
        BackupStep(p, f, rest, consumed - 1, b);
        MainStep(p, f, rest, consumed - 1);
        if hash % chunkSize.backupDivisor == 0 {
          backupIt := it;
        }
        if hash % chunkSize.mainDivisor == 0 {
          return it + 1, true;
        }
        if consumed < chunkSize.max {
          it := it + 1;
          continue;
        }
        Longest(p, f, rest, if backupIt == end then 0 else backupIt + 1 - begin);
        if backupIt != end {
          return backupIt + 1, true;
        }
        return it + 1, false;
      }
      EndOfData(p, f, rest);
      return end, false;
    }
  }

  // ----- cutting a whole buffer

  function Sum(lengths: seq<nat>): nat {
    if lengths == [] then 0 else lengths[0] + Sum(lengths[1..])
  }

  /** Each chunk is the cut of what is left. */
  ghost predicate IsChunking(p: Params, f: Hash, data: seq<Octet>, lengths: seq<nat>)
    requires p.Usable()
    decreases |data|
  {
    if data == [] then lengths == []
    else
      && lengths != [] && 1 <= lengths[0] <= |data|
      && (IsCut(p, f, data, lengths[0], true) || IsCut(p, f, data, lengths[0], false))
      && IsChunking(p, f, data[lengths[0]..], lengths[1..])
  }

  /** The chunks themselves. */
  function Pieces(data: seq<Octet>, lengths: seq<nat>): seq<seq<Octet>>
    decreases lengths
  {
    if lengths == [] || |data| < lengths[0] then []
    else [data[..lengths[0]]] + Pieces(data[lengths[0]..], lengths[1..])
  }

  function Concat(pieces: seq<seq<Octet>>): seq<Octet> {
    if pieces == [] then [] else pieces[0] + Concat(pieces[1..])
  }

  /** The chunks are the buffer: nothing is lost, repeated or reordered. */
  lemma {:induction false} PiecesAreTheData(p: Params, f: Hash, data: seq<Octet>, lengths: seq<nat>)
    requires p.Usable() && IsChunking(p, f, data, lengths)
    ensures Concat(Pieces(data, lengths)) == data && Sum(lengths) == |data|
    decreases |data|
  {
    hide IsCut;
    if data != [] {
      var rest := data[lengths[0]..];
      PiecesAreTheData(p, f, rest, lengths[1..]);
      assert Pieces(data, lengths)[1..] == Pieces(rest, lengths[1..]);
      assert data == data[..lengths[0]] + rest;
    }
  }

  lemma {:induction false} ChunkingIsUnique(p: Params, f: Hash, data: seq<Octet>, ks: seq<nat>, ls: seq<nat>)
    requires p.Usable() && IsChunking(p, f, data, ks) && IsChunking(p, f, data, ls)
    ensures ks == ls
    decreases |data|
  {
    hide IsCut;
    if data != [] {
      OneCut(p, f, data, ks[0], ls[0]);
      ChunkingIsUnique(p, f, data[ks[0]..], ks[1..], ls[1..]);
      assert ks == [ks[0]] + ks[1..] && ls == [ls[0]] + ls[1..];
    }
  }

  lemma OneCut(p: Params, f: Hash, data: seq<Octet>, c: nat, d: nat)
    requires p.Usable()
    requires IsCut(p, f, data, c, true) || IsCut(p, f, data, c, false)
    requires IsCut(p, f, data, d, true) || IsCut(p, f, data, d, false)
    ensures c == d
  {
  }

  /** After a boundary, the chunks are those of the remaining bytes alone. */
  lemma {:induction false} ChunksAfterBoundary(p: Params, f: Hash, data: seq<Octet>, ks: seq<nat>, ls: seq<nat>)
    requires p.Usable() && IsChunking(p, f, data, ks + ls)
    ensures Sum(ks) <= |data| && IsChunking(p, f, data[Sum(ks)..], ls)
    decreases |ks|
  {
    hide IsCut;
    if ks == [] {
      assert ks + ls == ls && data[0..] == data;
    } else {
      assert (ks + ls)[0] == ks[0] && (ks + ls)[1..] == ks[1..] + ls;
      ChunksAfterBoundary(p, f, data[ks[0]..], ks[1..], ls);
      assert data[ks[0]..][Sum(ks[1..])..] == data[Sum(ks)..];
    }
  }

  /** Two buffers that end alike, with a boundary where the common end begins, have the same chunks from there on. */
  lemma CommonEndSameChunks(p: Params, f: Hash, a: seq<Octet>, b: seq<Octet>, end: seq<Octet>,
                            aBefore: seq<nat>, aAfter: seq<nat>, bBefore: seq<nat>, bAfter: seq<nat>)
    requires p.Usable()
    requires IsChunking(p, f, a + end, aBefore + aAfter) && Sum(aBefore) == |a|
    requires IsChunking(p, f, b + end, bBefore + bAfter) && Sum(bBefore) == |b|
    ensures aAfter == bAfter
  {
    hide IsChunking;
    ChunksAfterBoundary(p, f, a + end, aBefore, aAfter);
    ChunksAfterBoundary(p, f, b + end, bBefore, bAfter);
    assert (a + end)[|a|..] == end && (b + end)[|b|..] == end;
    ChunkingIsUnique(p, f, end, aAfter, bAfter);
  }

  lemma OneMore(p: Params, f: Hash, data: seq<Octet>, c: nat, ready: bool, ls: seq<nat>)
    requires p.Usable() && data != [] && 1 <= c <= |data| && IsCut(p, f, data, c, ready)
    requires IsChunking(p, f, data[c..], ls)
    ensures IsChunking(p, f, data, [c] + ls)
  {
    hide IsCut;
    assert ([c] + ls)[1..] == ls;
  }

  /** The loop over a buffer: it ends, and the lengths cut the buffer up. */
  method ChunkBuffer(chunker: TTTD, data: seq<Octet>) returns (lengths: seq<nat>)
    requires chunker.chunkSize.Usable()
    modifies chunker.hasher
    ensures IsChunking(chunker.chunkSize, chunker.hasher.f, data, lengths)
  {
    hide IsCut, IsChunking;
    ghost var p, f := chunker.chunkSize, chunker.hasher.f;
    lengths := [];
    var it: nat := 0;
    assert data[0..] == data;
    forall ls: seq<nat> ensures lengths + ls == ls {
    }
    while it != |data|
      invariant it <= |data| && chunker.chunkSize == p
      invariant forall ls: seq<nat> :: IsChunking(p, f, data[it..], ls) ==> IsChunking(p, f, data, lengths + ls)
      decreases |data| - it
    {
      var stopped, ready := chunker.Chunkify(data, it);
      var c := stopped - it;
      CutSize(p, f, data[it..], c, ready);
      ghost var before, rest := lengths, data[it..];
      lengths := lengths + [c];
      assert rest[c..] == data[stopped..];
      forall ls: seq<nat> | IsChunking(p, f, data[stopped..], ls) ensures IsChunking(p, f, data, lengths + ls) {
        OneMore(p, f, rest, c, ready, ls);
        assert before + ([c] + ls) == lengths + ls;
      }
      it := stopped;
    }
    NothingLeft(p, f);
    assert data[it..] == [] && lengths + [] == lengths;
  }

  lemma NothingLeft(p: Params, f: Hash)
    requires p.Usable()
    ensures IsChunking(p, f, [], [])
  {
  }
}
