/** Runs of writes: any writes of any files, and what a read returns after them. */
module BlockRuns {
  import Bits
  import opened BlockIO

  /** One call that writes whole blocks of a file. */
  datatype Put = Put(key: string, offset: nat, buf: seq<Octet>)

  /** Every file has a block size. */
  type Sizes = string -> nat

  ghost predicate GoodSizes(sizes: Sizes) {
    forall k: string {:trigger sizes(k)} :: GoodSize(sizes(k))
  }

  /** Writes that do not stop the program. */
  ghost predicate GoodPut(sizes: Sizes, p: Put) {
    WholeBlocks(sizes(p.key), p.offset, |p.buf|) && !EndsLast(sizes(p.key), p.offset, |p.buf|)
  }

  predicate Covers(p: Put, key: string, position: nat) {
    p.key == key && p.offset <= position < p.offset + |p.buf|
  }

  /** The byte that the last write covering a position put there. */
  function Latest(puts: seq<Put>, key: string, position: nat): Option<Octet> {
    if puts == [] then None
    else
      var last := puts[|puts| - 1];
      if Covers(last, key, position) then Some(last.buf[position - last.offset])
      else Latest(puts[..|puts| - 1], key, position)
  }

  /** The byte of a write that covers the position while no later one does; none when no write covers it. */
  lemma {:induction false} LatestIs(puts: seq<Put>, key: string, position: nat)
    ensures Latest(puts, key, position) == None <==>
      forall i :: 0 <= i < |puts| ==> !Covers(puts[i], key, position)
    ensures forall i :: 0 <= i < |puts| && Covers(puts[i], key, position)
                        && (forall j :: i < j < |puts| ==> !Covers(puts[j], key, position)) ==>
      Latest(puts, key, position) == Some(puts[i].buf[position - puts[i].offset])
  {
    if puts != [] {
      var front := puts[..|puts| - 1];
      LatestIs(front, key, position);
      assert forall i :: 0 <= i < |front| ==> puts[i] == front[i];
    }
  }

  /** The store holds exactly what was written last, in records that can be read. */
  ghost predicate Contains(db: Store, sizes: Sizes, puts: seq<Put>)
    requires GoodSizes(sizes)
  {
    && (forall k: string, position: nat {:trigger Byte(db, k, sizes(k), position)} ::
          Byte(db, k, sizes(k), position) == Latest(puts, k, position))
    && (forall k: string {:trigger GoodFile(db, k, sizes(k))} :: GoodFile(db, k, sizes(k)))
  }

  lemma NothingContained(sizes: Sizes)
    requires GoodSizes(sizes)
    ensures Contains(map[], sizes, [])
  {
  }

  lemma LatestAfter(puts: seq<Put>, p: Put, key: string, position: nat)
    ensures Latest(puts + [p], key, position)
         == if Covers(p, key, position) then Some(p.buf[position - p.offset]) else Latest(puts, key, position)
  {
    assert (puts + [p])[..|puts|] == puts;
  }

  /** One write more. */
  lemma WriteContained(before: Store, after: Store, sizes: Sizes, puts: seq<Put>, p: Put)
    requires GoodSizes(sizes) && GoodPut(sizes, p) && Contains(before, sizes, puts)
    requires var bs := sizes(p.key);
      Written(before, after, p.key, bs, p.offset / bs, |p.buf| / bs, p.buf) && FilesStayGood(before, after, p.key, bs)
    ensures Contains(after, sizes, puts + [p])
  {
    hide Byte, GoodFile, Written, Latest, Span;
    var bs := sizes(p.key);
    WholeRange(bs, p.offset, |p.buf|);
    forall k: string, position: nat
      ensures Byte(after, k, sizes(k), position) == Latest(puts + [p], k, position)
    {
      LatestAfter(puts, p, k, position);
      if k == p.key {
        WriteSetsBytes(before, after, p.key, bs, p.offset / bs, |p.buf| / bs, p.buf, k, position);
      } else {
        OtherFileKept(before, after, p.key, bs, p.offset / bs, |p.buf| / bs, p.buf, k, sizes(k), position);
      }
    }
    forall k: string ensures GoodFile(after, k, sizes(k)) {
      assert GoodFile(before, k, sizes(k));
    }
  }

  lemma OtherFileKept(before: Store, after: Store, key: string, bs: nat, start: nat, n: nat, buf: seq<Octet>,
                      k: string, size: nat, position: nat)
    requires 0 < size && k != key && Written(before, after, key, bs, start, n, buf)
    ensures Byte(after, k, size, position) == Byte(before, k, size, position)
  {
    hide Block;
    assert Block(after, k, position / size) == Block(before, k, position / size);
  }

  /** Any writes, one after the other, from the empty store. */
  method WriteAll(puts: seq<Put>, sizes: Sizes) returns (db: Store)
    requires GoodSizes(sizes) && forall i :: 0 <= i < |puts| ==> GoodPut(sizes, puts[i])
    ensures Contains(db, sizes, puts)
  {
    hide Contains, Written, FilesStayGood, WholeBlocks, EndsLast;
    db := map[];
    NothingContained(sizes);
    for n := 0 to |puts|
      invariant Contains(db, sizes, puts[..n])
    {
      var p := puts[n];
      assert GoodSize(sizes(p.key)) && GoodPut(sizes, p);
      var file := new BlockFile(p.key, sizes(p.key));
      var after, copied, aborted := file.Write(db, p.buf, p.offset);
      WriteContained(db, after, sizes, puts[..n], p);
      assert puts[..n + 1] == puts[..n] + [p];
      db := after;
    }
    assert puts[..|puts|] == puts;
  }

  /** The bytes written last, from an offset up to the first byte that was never written. */
  ghost predicate IsLatest(puts: seq<Put>, key: string, offset: nat, size: nat, buf: seq<Octet>) {
    && |buf| <= size
    && (forall position: nat {:trigger Latest(puts, key, position)} ::
          offset <= position < offset + |buf| ==> Latest(puts, key, position) == Some(buf[position - offset]))
    && (|buf| < size ==> Latest(puts, key, offset + |buf|) == None)
  }

  /** Every position of the range was written. */
  ghost predicate AllWritten(puts: seq<Put>, key: string, offset: nat, size: nat) {
    forall position: nat {:trigger Latest(puts, key, position)} ::
      offset <= position < offset + size ==> Latest(puts, key, position).Some?
  }

  lemma ReadIsLatest(db: Store, sizes: Sizes, puts: seq<Put>, key: string, offset: nat, size: nat)
    requires GoodSizes(sizes) && Contains(db, sizes, puts) && WholeBlocks(sizes(key), offset, size)
    ensures var buf := ReadBlocks(db, key, offset / sizes(key), size / sizes(key));
      IsLatest(puts, key, offset, size, buf) && (|buf| == size <==> AllWritten(puts, key, offset, size))
  {
    hide Byte, GoodFile, Latest, Span, ReadBlocks;
    var bs := sizes(key);
    assert GoodSize(bs) && GoodFile(db, key, bs);
    WholeRange(bs, offset, size);
    var buf := ReadBlocks(db, key, offset / bs, size / bs);
    ReadGivesBytes(db, key, bs, offset / bs, size / bs, 0);
    forall position: nat | offset <= position < offset + |buf|
      ensures Latest(puts, key, position) == Some(buf[position - offset])
    {
      ReadGivesBytes(db, key, bs, offset / bs, size / bs, position - offset);
      assert Byte(db, key, sizes(key), position) == Latest(puts, key, position);
    }
    assert Byte(db, key, sizes(key), offset + |buf|) == Latest(puts, key, offset + |buf|);
    LatestFills(puts, key, offset, size, buf);
  }

  /**
    Any writes of any files, and then a read: it returns the bytes that were written last, up to the first that never
    was.  It stops the program only when its range ends with block 2^32 - 1, all of it was written, and so was byte 0.
   */
  method WriteAllAndRead(puts: seq<Put>, sizes: Sizes, key: string, offset: nat, size: nat)
      returns (buf: seq<Octet>, copied: nat, aborted: bool)
    requires GoodSizes(sizes) && forall i :: 0 <= i < |puts| ==> GoodPut(sizes, puts[i])
    requires WholeBlocks(sizes(key), offset, size)
    ensures !aborted ==> copied == |buf| && IsLatest(puts, key, offset, size, buf)
    ensures aborted <==>
      EndsLast(sizes(key), offset, size) && AllWritten(puts, key, offset, size) && Latest(puts, key, 0).Some?
  {
    hide WholeBlocks, EndsLast, IsLatest, AllWritten, Contains, Latest, ReadBlocks, Block, GoodFile, Bits.Pow, Bits.And;
    var db := WriteAll(puts, sizes);
    FileIsGood(db, sizes, puts, key);
    var file := new BlockFile(key, sizes(key));
    buf, copied, aborted := file.Read(db, size, offset);
    ReadIsLatest(db, sizes, puts, key, offset, size);
  }

  lemma LatestFills(puts: seq<Put>, key: string, offset: nat, size: nat, buf: seq<Octet>)
    requires IsLatest(puts, key, offset, size, buf)
    ensures |buf| == size <==> AllWritten(puts, key, offset, size)
  {
    hide Latest;
    var next := Latest(puts, key, offset + |buf|);
    assert next.Some? || next.None?;
  }

  lemma FileIsGood(db: Store, sizes: Sizes, puts: seq<Put>, key: string)
    requires GoodSizes(sizes) && Contains(db, sizes, puts)
    ensures GoodSize(sizes(key)) && GoodFile(db, key, sizes(key))
    ensures Block(db, key, 0).Some? <==> Latest(puts, key, 0).Some?
  {
    hide Block, Latest;
    var bs := sizes(key);
    assert GoodSize(bs) && GoodFile(db, key, bs);
    SpanOfNone(bs);
    ByteInBlock(db, key, bs, 0, 0);
    assert Byte(db, key, sizes(key), 0) == Latest(puts, key, 0);
  }
}
