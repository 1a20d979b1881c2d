/** Files as blocks in a key-value store: whole aligned blocks are written and read. */
module BlockIO {
  import Base64
  import Bits
  import opened Decimals

  type Octet = Base64.Octet

  /** A block as it is stored; the JSON text is left out. */
  datatype BlockRecord = BlockRecord(block: nat, data: string, size: nat, offset: nat)

  type Store = map<string, BlockRecord>

  const TWO_32: nat := 0x1_0000_0000

  // ----- names of blocks

  function BlockKey(key: string, block: nat): string {
    key + (":" + Decimal(block))
  }

  /** The colon of a name is its last one. */
  lemma LastColon(key: string, block: nat, i: nat)
    ensures BlockKey(key, block)[|key|] == ':'
    ensures |key| < i < |BlockKey(key, block)| ==> BlockKey(key, block)[i] != ':'
  {
    assert |key| < i < |BlockKey(key, block)| ==> BlockKey(key, block)[i] == Decimal(block)[i - |key| - 1];
  }

  /** No two blocks of no two files have the same name: the digits after the last colon give the block. */
  lemma BlockKeysDiffer(key: string, block: nat, key': string, block': nat)
    requires BlockKey(key, block) == BlockKey(key', block')
    ensures key == key' && block == block'
  {
    var s, d, d' := BlockKey(key, block), Decimal(block), Decimal(block');
    LastColon(key, block, |key'|);
    LastColon(key', block', |key|);
    assert |key| == |key'|;
    assert key == s[..|key|] && d == s[|key| + 1..];
    assert key' == s[..|key'|] && d' == s[|key'| + 1..];
    DecimalValue(block);
    DecimalValue(block');
  }

  // ----- the blocks of a file

  datatype Option<T> = None | Some(value: T)

  /** The bytes of a block, if it was written. */
  function Block(db: Store, key: string, block: nat): Option<seq<Octet>> {
    if BlockKey(key, block) in db then Some(Base64.Decoding(db[BlockKey(key, block)].data)) else None
  }

  /** The length of so many blocks, and the offset of the block after them. */
  function Span(n: nat, bs: nat): nat {
    n * bs
  }

  /** The record of a block says which block it is and holds one block of bytes. */
  ghost predicate GoodRecord(r: BlockRecord, block: nat, bs: nat) {
    && r.block == block && r.size == bs && r.offset == Span(block, bs)
    && exists bytes: seq<Octet> :: |bytes| == bs && r.data == Base64.Encoding(bytes)
  }

  /** Every block of the file was stored by a write with this block size. */
  ghost predicate GoodFile(db: Store, key: string, bs: nat) {
    forall b: nat {:trigger BlockKey(key, b)} :: BlockKey(key, b) in db ==> GoodRecord(db[BlockKey(key, b)], b, bs)
  }

  // ----- what a write does

  /** Chunk `i` of the buffer. */
  function Chunk(buf: seq<Octet>, bs: nat, i: nat): seq<Octet> {
    if Span(i, bs) + bs <= |buf| then buf[Span(i, bs)..Span(i, bs) + bs] else []
  }

  /** The first `n` chunks are in the file's blocks from `start`; no other block of any file is touched. */
  ghost predicate Written(before: Store, after: Store, key: string, bs: nat, start: nat, n: nat, buf: seq<Octet>) {
    forall k: string, b: nat {:trigger Block(after, k, b)} ::
      Block(after, k, b) == if k == key && start <= b < start + n then Some(Chunk(buf, bs, b - start)) else Block(before, k, b)
  }

  /** A file other than the written one keeps its records; the written one has good records. */
  ghost predicate FilesStayGood(before: Store, after: Store, key: string, bs: nat) {
    forall k: string, size: nat {:trigger GoodFile(after, k, size)} ::
      GoodFile(before, k, size) && (k == key ==> size == bs) ==> GoodFile(after, k, size)
  }

  lemma NothingWritten(db: Store, key: string, bs: nat, start: nat, buf: seq<Octet>)
    ensures Written(db, db, key, bs, start, 0, buf) && FilesStayGood(db, db, key, bs)
  {
  }

  /** Storing one record changes one block of one file. */
  lemma PutBlock(db: Store, key: string, block: nat, r: BlockRecord, k: string, b: nat)
    ensures Block(db[BlockKey(key, block) := r], k, b)
         == if k == key && b == block then Some(Base64.Decoding(r.data)) else Block(db, k, b)
  {
    if BlockKey(k, b) == BlockKey(key, block) {
      BlockKeysDiffer(k, b, key, block);
    }
  }

  lemma PutChunk(before: Store, after: Store, key: string, bs: nat, start: nat, n: nat, buf: seq<Octet>, r: BlockRecord)
    requires Written(before, after, key, bs, start, n, buf)
    requires r.data == Base64.Encoding(Chunk(buf, bs, n))
    ensures Written(before, after[BlockKey(key, start + n) := r], key, bs, start, n + 1, buf)
  {
    hide Block, BlockKey, Chunk;
    var next := after[BlockKey(key, start + n) := r];
    Base64.RoundTrip(Chunk(buf, bs, n));
    forall k: string, b: nat
      ensures Block(next, k, b)
           == if k == key && start <= b < start + (n + 1) then Some(Chunk(buf, bs, b - start)) else Block(before, k, b)
    {
      PutBlock(after, key, start + n, r, k, b);
    }
  }

  lemma PutGood(before: Store, after: Store, key: string, bs: nat, block: nat, r: BlockRecord)
    requires FilesStayGood(before, after, key, bs) && GoodRecord(r, block, bs)
    ensures FilesStayGood(before, after[BlockKey(key, block) := r], key, bs)
  {
    hide GoodRecord, BlockKey;
    var next := after[BlockKey(key, block) := r];
    forall k: string, size: nat | GoodFile(before, k, size) && (k == key ==> size == bs)
      ensures GoodFile(next, k, size)
    {
      assert GoodFile(after, k, size);
      forall b: nat | BlockKey(k, b) in next ensures GoodRecord(next[BlockKey(k, b)], b, size) {
        if BlockKey(k, b) == BlockKey(key, block) {
          BlockKeysDiffer(k, b, key, block);
        }
      }
    }
  }

  lemma PutNext(db: Store, batch: Store, key: string, bs: nat, start: nat, n: nat, buf: seq<Octet>, r: BlockRecord)
    requires Written(db, db + batch, key, bs, start, n, buf) && FilesStayGood(db, db + batch, key, bs)
    requires GoodRecord(r, start + n, bs) && r.data == Base64.Encoding(Chunk(buf, bs, n))
    ensures var next := db + batch[BlockKey(key, start + n) := r];
            Written(db, next, key, bs, start, n + 1, buf) && FilesStayGood(db, next, key, bs)
  {
    hide Written, FilesStayGood, GoodRecord, BlockKey, Chunk;
    PutChunk(db, db + batch, key, bs, start, n, buf, r);
    PutGood(db, db + batch, key, bs, start + n, r);
    assert db + batch[BlockKey(key, start + n) := r] == (db + batch)[BlockKey(key, start + n) := r];
  }

  // ----- what a read finds

  /** The longest run of written blocks, at most `n`, one after the other. */
  function ReadBlocks(db: Store, key: string, block: nat, n: nat): seq<Octet>
    decreases n
  {
    if n == 0 || Block(db, key, block).None? then []
    else Block(db, key, block).value + ReadBlocks(db, key, block + 1, n - 1)
  }

  // ----- the file

  /** A number cut to a 32-bit word. */
  function Truncated(n: nat): (r: nat)
    ensures n < TWO_32 ==> r == n
  {
    n % TWO_32
  }

  const TWO_64: nat := 0x1_0000_0000_0000_0000

  /** The number of the block at a position of 64 bits, cut to 32 bits. */
  function BlockOf(position: int, bs: nat): nat
    requires 0 < bs
  {
    Truncated(position % TWO_64 / bs)
  }

  /** Whole blocks from a block boundary, with block numbers of 32 bits. */
  ghost predicate WholeBlocks(bs: nat, offset: nat, count: nat) {
    0 < bs && offset % bs == 0 && 0 < count && count % bs == 0 && (offset + count) / bs <= TWO_32
  }

  /** The range ends with block 2^32 - 1, after which the block counter of the source is zero again. */
  ghost predicate EndsLast(bs: nat, offset: nat, count: nat) {
    0 < bs && (offset + count) / bs == TWO_32
  }

  /** The same in positions: the range ends where block 2^32 would begin. */
  lemma LimitsInBytes(bs: nat, offset: nat, count: nat)
    requires 0 < bs && offset % bs == 0 && 0 < count && count % bs == 0
    ensures WholeBlocks(bs, offset, count) <==> offset + count <= 0x1_0000_0000 * bs
    ensures EndsLast(bs, offset, count) <==> offset + count == 0x1_0000_0000 * bs
  {
    var n := offset / bs + count / bs;
    Bits.Distribute(bs, offset / bs, count / bs);
    Bits.QuotientIs(offset + count, bs, n, 0);
    Bits.Distribute(bs, 0x1_0000_0000, n - 0x1_0000_0000);
    Bits.MultipleIsLarge(bs, n - 0x1_0000_0000);
  }

  /** A block size that the constructor accepts: it shares no bit with the number before it. */
  predicate GoodSize(bs: nat) {
    0 < bs < TWO_32 && Bits.And(bs, bs - 1) == 0
  }

  /** The part of an open file that moves blocks. */
  class BlockFile {
    const key: string
    const bs: nat
    const bsMask: nat
    const bsShift: nat

    ghost predicate Valid() {
      0 < bs < TWO_32 && bs == Bits.Pow(2, bsShift) && bsMask == bs - 1
    }

    constructor (key: string, blockSize: nat)
      requires GoodSize(blockSize)
      ensures Valid() && this.key == key && bs == blockSize
    {
      this.key, bs, bsMask := key, blockSize, blockSize - 1;
      ghost var k := Bits.PowerOfTwo(blockSize);
      var shift: nat := 0;
      Bits.BitOfMask(k, 0);
      while Bits.And(blockSize - 1, Bits.Pow(2, shift)) != 0
        invariant shift <= k
        decreases k - shift
      {
        Bits.BitOfMask(k, shift);
        shift := shift + 1;
      }
      Bits.BitOfMask(k, shift);
      bsShift := shift;
    }

    predicate IsBlockAligned(offset: nat) {
      Bits.And(offset, bsMask) == 0
    }

    lemma AlignedIs(offset: nat)
      requires Valid()
      ensures IsBlockAligned(offset) <==> offset % bs == 0
    {
      Bits.MaskKeepsLowBits(offset, bsShift);
    }

    /** The first and the last block of any range, cut to 32 bits. */
    method IoBlocks(offset: nat, count: nat) returns (start: nat, end: nat)
      requires Valid()
      ensures start == BlockOf(offset, bs) && end == BlockOf(offset + count - 1, bs)
    {
      hide Bits.Pow;
      start := BlockOf(offset, Bits.Pow(2, bsShift));
      end := BlockOf(offset + count - 1, Bits.Pow(2, bsShift));
    }

    /** The record of one block; the source asserts that it is whole. */
    method Encode(block: nat, bytes: seq<Octet>, size: nat, offset: nat) returns (r: BlockRecord)
      requires size == bs == |bytes| && offset == Span(block, bs)
      ensures GoodRecord(r, block, bs) && r.data == Base64.Encoding(bytes)
    {
      var data := Base64.Encode(bytes);
      r := BlockRecord(block, data, size, offset);
    }

    /** The bytes of one block; the source asserts that the record is for this block and not too large. */
    method Decode(r: BlockRecord, block: nat, size: nat, offset: nat) returns (bytes: seq<Octet>)
      requires size == bs && offset == Span(block, bs) && GoodRecord(r, block, bs)
      ensures bytes == Base64.Decoding(r.data) && |bytes| == bs
    {
      assert offset == r.offset && block == r.block && size == r.size;
      bytes := Base64.Decode(r.data);
      var written: seq<Octet> :| |written| == bs && r.data == Base64.Encoding(written);
      Base64.RoundTrip(written);
      assert |bytes| <= size;
    }

    /**
      Writes whole blocks; the batch is applied at once.  After block 2^32 - 1 the counter is zero, and the assert on an
      empty block stops the program before anything is written.
     */
    method Write(db: Store, buf: seq<Octet>, offset: nat) returns (after: Store, copied: nat, aborted: bool)
      requires Valid() && WholeBlocks(bs, offset, |buf|)
      ensures aborted <==> EndsLast(bs, offset, |buf|)
      ensures aborted ==> after == db
      ensures !aborted ==> copied == |buf| && Written(db, after, key, bs, offset / bs, |buf| / bs, buf)
      ensures !aborted ==> FilesStayGood(db, after, key, bs)
    {
      hide Written, FilesStayGood, GoodRecord, BlockKey, Span, WholeBlocks, EndsLast, Truncated, BlockOf, Chunk;
      var sb, eb := IoBlocks(offset, |buf|);
      WholeRange(bs, offset, |buf|);
      ghost var start, n: nat, total := sb, 0, |buf| / bs;
      NextCounter(start);
      var position, count := offset, |buf|;
      var batch: Store := map[];
      copied := 0;
      SpanOfNone(bs);
      assert db + batch == db;
      NothingWritten(db, key, bs, start, buf);
      while sb <= eb
        invariant n <= total && sb == Truncated(start + n)
        invariant copied == Span(n, bs) && position == Span(start + n, bs) && count == Span(total - n, bs)
        invariant copied + count == |buf|
        invariant Written(db, db + batch, key, bs, start, n, buf) && FilesStayGood(db, db + batch, key, bs)
        decreases total - n
      {
        NextCounter(start + n);
        if n < total {
          OneChunk(position, start + n, total - n, copied, n, |buf|);
          ChunkIs(buf, bs, n);
        }
        var bc := if bs > count then count else bs;
        if !IsBlockAligned(position) || bc != bs {
          return db, copied, true;
        }
        var r := Encode(sb, buf[copied..copied + bc], bc, position);
        PutNext(db, batch, key, bs, start, n, buf, r);
        batch := batch[BlockKey(key, sb) := r];
        copied, position, count := copied + bc, position + bc, count - bc;
        sb := Truncated(sb + 1);
        n := n + 1;
      }
      NextCounter(start + n);
      after, aborted := db + batch, false;
    }

    /** The offset stays on a boundary, and at least one block is left. */
    lemma OneChunk(position: nat, block: nat, left: nat, copied: nat, n: nat, length: nat)
      requires Valid() && position == Span(block, bs) && 0 < left
      requires copied == Span(n, bs) && copied + Span(left, bs) == length
      ensures IsBlockAligned(position) && bs <= Span(left, bs) && copied + bs == Span(n + 1, bs) <= length
      ensures position + bs == Span(block + 1, bs) && Span(left, bs) - bs == Span(left - 1, bs)
    {
      AlignedIs(position);
      Bits.ModIs(position, bs, block, 0);
      Bits.MultipleIsLarge(bs, left);
      Bits.Distribute(bs, block, 1);
      Bits.Distribute(bs, n, 1);
      Bits.Distribute(bs, left, -1);
    }

    /**
      Reads whole blocks up to the first that was never written.  Only after block 2^32 - 1 the loop goes on, with block
      0, and then the assert on an empty block fails if that was written.
     */
    method Read(db: Store, size: nat, offset: nat) returns (buf: seq<Octet>, copied: nat, aborted: bool)
      requires Valid() && WholeBlocks(bs, offset, size) && GoodFile(db, key, bs)
      ensures aborted <==>
        EndsLast(bs, offset, size) && |ReadBlocks(db, key, offset / bs, size / bs)| == size && Block(db, key, 0).Some?
      ensures !aborted ==> buf == ReadBlocks(db, key, offset / bs, size / bs) && copied == |buf|
    {
      hide ReadBlocks, BlockKey, GoodRecord, Span, WholeBlocks, EndsLast, Truncated, BlockOf;
      var sb, eb := IoBlocks(offset, size);
      WholeRange(bs, offset, size);
      ghost var start, n: nat, total := sb, 0, size / bs;
      NextCounter(start);
      var position, count := offset, size;
      buf, copied := [], 0;
      SpanOfNone(bs);
      while sb <= eb
        invariant n <= total && sb == Truncated(start + n)
        invariant copied == |buf| == Span(n, bs) && position == Span(start + n, bs) && count == Span(total - n, bs)
        invariant copied + count == size
        invariant buf + ReadBlocks(db, key, start + n, total - n) == ReadBlocks(db, key, start, total)
        decreases total - n
      {
        ReadStep(db, key, start + n, total - n);
        NextCounter(start + n);
        var k := BlockKey(key, sb);
        if k !in db {
          if n < total {
            MoreIsLonger(bs, total - n);
          }
          return buf, copied, false;
        }
        if n < total {
          OneChunk(position, start + n, total - n, copied, n, size);
        }
        var bc := if bs > count then count else bs;
        if !IsBlockAligned(position) || bc != bs {
          return buf, copied, true;
        }
        var bytes := Decode(db[k], sb, bc, position);
        Assoc(buf, bytes, ReadBlocks(db, key, start + n + 1, total - n - 1));
        buf := buf + bytes;
        copied, position, count := copied + bc, position + bc, count - bc;
        sb := Truncated(sb + 1);
        n := n + 1;
      }
      NextCounter(start + n);
      ReadStep(db, key, start + n, total - n);
      aborted := false;
    }
  }

  lemma ChunkIs(buf: seq<Octet>, bs: nat, n: nat)
    requires Span(n, bs) + bs <= |buf|
    ensures Chunk(buf, bs, n) == buf[Span(n, bs)..Span(n, bs) + bs]
  {
  }

  lemma MoreIsLonger(bs: nat, n: nat)
    requires 0 < bs && 0 < n
    ensures bs <= Span(n, bs)
  {
    Bits.MultipleIsLarge(bs, n);
  }

  /** The 32-bit counter of blocks. */
  lemma NextCounter(b: nat)
    requires b <= TWO_32
    ensures Truncated(b) == if b < TWO_32 then b else 0
    ensures b < TWO_32 ==> Truncated(Truncated(b) + 1) == Truncated(b + 1)
  {
  }

  /** Where a range of whole blocks begins and ends, with its block numbers cut to 32 bits. */
  lemma WholeRange(bs: nat, offset: nat, count: nat)
    requires WholeBlocks(bs, offset, count) && bs < TWO_32
    ensures var start, end, total := BlockOf(offset, bs), BlockOf(offset + count - 1, bs), count / bs;
      && start == offset / bs && 0 < total && start + total == end + 1 <= TWO_32
      && offset == Span(start, bs) && count == Span(total, bs)
      && (EndsLast(bs, offset, count) <==> end + 1 == TWO_32)
  {
    BlockRange(offset, count, bs);
    RangeBelow(offset + count, bs);
    InRange(offset, count);
  }

  lemma InRange(offset: nat, count: nat)
    requires 0 < count && (offset + count - 1) % TWO_64 == offset + count - 1
    ensures offset % TWO_64 == offset
  {
  }

  lemma RangeBelow(length: nat, bs: nat)
    requires 0 < bs < TWO_32 && length % bs == 0 && length / bs <= TWO_32 && 0 < length
    ensures (length - 1) % TWO_64 == length - 1
  {
    assert length == bs * (length / bs);
    assert bs * (length / bs) <= bs * TWO_32;
  }

  lemma SpanOfNone(bs: nat)
    ensures Span(0, bs) == 0
  {
  }

  lemma Assoc<T>(a: seq<T>, b: seq<T>, c: seq<T>)
    ensures (a + b) + c == a + (b + c)
  {
  }

  lemma ReadStep(db: Store, key: string, block: nat, n: nat)
    ensures n == 0 || BlockKey(key, block) !in db ==> ReadBlocks(db, key, block, n) == []
    ensures n != 0 && BlockKey(key, block) in db ==>
      ReadBlocks(db, key, block, n)
      == Base64.Decoding(db[BlockKey(key, block)].data) + ReadBlocks(db, key, block + 1, n - 1)
  {
  }

  /** Where whole blocks begin and end. */
  lemma BlockRange(offset: nat, count: nat, bs: nat)
    requires 0 < bs && offset % bs == 0 && 0 < count && count % bs == 0
    ensures var start, end := offset / bs, (offset + count - 1) / bs;
            && start <= end && end + 1 == (offset + count) / bs && end + 1 - start == count / bs
            && offset == Span(start, bs) && count == Span(end + 1 - start, bs)
  {
    var s, n := offset / bs, count / bs;
    assert offset == bs * s && count == bs * n;
    Bits.Distribute(bs, s, n);
    Bits.ModIs(offset + count, bs, s + n, 0);
    Bits.Distribute(bs, s + n, -1);
    Bits.ModIs(offset + count - 1, bs, s + n - 1, bs - 1);
    Bits.QuotientIs(offset + count, bs, s + n, 0);
    Bits.QuotientIs(offset + count - 1, bs, s + n - 1, bs - 1);
  }

  // ----- the file as a map of bytes

  /** The byte at a position of a file, if its block was written. */
  function Byte(db: Store, key: string, bs: nat, position: nat): Option<Octet>
    requires 0 < bs
  {
    match Block(db, key, position / bs)
    case None => None
    case Some(bytes) => if position % bs < |bytes| then Some(bytes[position % bs]) else None
  }

  lemma PositionInChunk(bs: nat, start: nat, n: nat, position: nat)
    requires 0 < bs
    ensures start <= position / bs < start + n <==> Span(start, bs) <= position < Span(start, bs) + Span(n, bs)
    ensures var b := position / bs; start <= b ==> Span(b - start, bs) == Span(b, bs) - Span(start, bs)
    ensures position == Span(position / bs, bs) + position % bs
    ensures var b := position / bs; start <= b < start + n ==> Span(b - start, bs) + bs <= Span(n, bs)
  {
    var b := position / bs;
    assert position == bs * b + position % bs;
    Bits.Distribute(bs, start, n);
    Bits.Distribute(bs, start, b - start);
    Bits.MultipleIsLarge(bs, b - start);
    Bits.MultipleIsLarge(bs, start + n - b);
    Bits.Distribute(bs, b, start + n - b);
  }

  /** A write changes exactly the bytes it covers, of this file only. */
  lemma WriteSetsBytes(before: Store, after: Store, key: string, bs: nat, start: nat, n: nat, buf: seq<Octet>,
                       k: string, position: nat)
    requires 0 < bs && |buf| == Span(n, bs) && Written(before, after, key, bs, start, n, buf)
    ensures Byte(after, k, bs, position)
         == if k == key && Span(start, bs) <= position < Span(start, bs) + |buf|
            then Some(buf[position - Span(start, bs)]) else Byte(before, k, bs, position)
  {
    hide Span, Block;
    PositionInChunk(bs, start, n, position);
    var b := position / bs;
    assert Block(after, k, b)
        == if k == key && start <= b < start + n then Some(Chunk(buf, bs, b - start)) else Block(before, k, b);
  }

  /** A read gives the bytes from its offset on; if it is short, the next byte was never written. */
  lemma {:induction false} ReadGivesBytes(db: Store, key: string, bs: nat, block: nat, n: nat, i: nat)
    requires 0 < bs && GoodFile(db, key, bs)
    ensures var buf := ReadBlocks(db, key, block, n);
            && |buf| <= Span(n, bs)
            && (i < |buf| ==> Byte(db, key, bs, Span(block, bs) + i) == Some(buf[i]))
            && (|buf| < Span(n, bs) ==> Byte(db, key, bs, Span(block, bs) + |buf|) == None)
    decreases n
  {
    hide Byte, Block, BlockKey, GoodFile, Span, ReadBlocks;
    SpanOfNone(bs);
    ReadParts(db, key, block, n);
    if n != 0 {
      ByteInBlock(db, key, bs, block, if i < bs then i else 0);
      ByteInBlock(db, key, bs, block, 0);
      if Block(db, key, block).Some? {
        SpanNext(block, bs);
        SpanNext(n - 1, bs);
        ReadGivesBytes(db, key, bs, block + 1, n - 1, if bs <= i then i - bs else 0);
      }
    }
  }

  lemma SpanNext(n: nat, bs: nat)
    ensures Span(n + 1, bs) == Span(n, bs) + bs
  {
    Bits.Distribute(bs, n, 1);
  }

  lemma ReadParts(db: Store, key: string, block: nat, n: nat)
    ensures n == 0 || Block(db, key, block).None? ==> ReadBlocks(db, key, block, n) == []
    ensures n != 0 && Block(db, key, block).Some? ==>
      ReadBlocks(db, key, block, n) == Block(db, key, block).value + ReadBlocks(db, key, block + 1, n - 1)
  {
  }

  lemma ByteInBlock(db: Store, key: string, bs: nat, block: nat, j: nat)
    requires j < bs && GoodFile(db, key, bs)
    ensures match Block(db, key, block)
            case None => Byte(db, key, bs, Span(block, bs) + j) == None
            case Some(bytes) => |bytes| == bs && Byte(db, key, bs, Span(block, bs) + j) == Some(bytes[j])
  {
    hide Block;
    Bits.ModIs(Span(block, bs) + j, bs, block, j);
    Bits.QuotientIs(Span(block, bs) + j, bs, block, j);
    if Block(db, key, block).Some? {
      GoodBlock(db, key, bs, block);
    }
  }

  lemma GoodBlock(db: Store, key: string, bs: nat, block: nat)
    requires GoodFile(db, key, bs) && Block(db, key, block).Some?
    ensures |Block(db, key, block).value| == bs
  {
    assert GoodRecord(db[BlockKey(key, block)], block, bs);
    var bytes: seq<Octet> :| |bytes| == bs && db[BlockKey(key, block)].data == Base64.Encoding(bytes);
    Base64.RoundTrip(bytes);
  }

  /** What was just written is read back. */
  lemma ReadBack(before: Store, after: Store, key: string, bs: nat, start: nat, n: nat, buf: seq<Octet>)
    requires |buf| == Span(n, bs) && Written(before, after, key, bs, start, n, buf)
    ensures ReadBlocks(after, key, start, n) == buf
  {
    SpanOfNone(bs);
    ReadBackFrom(before, after, key, bs, start, n, buf, 0);
    assert buf[0..] == buf;
  }

  lemma {:induction false} ReadBackFrom(before: Store, after: Store, key: string, bs: nat, start: nat, n: nat,
                                        buf: seq<Octet>, i: nat)
    requires i <= n && |buf| == Span(n, bs) && Written(before, after, key, bs, start, n, buf)
    ensures Span(i, bs) <= |buf| && ReadBlocks(after, key, start + i, n - i) == buf[Span(i, bs)..]
    decreases n - i
  {
    hide Span, Block, ReadBlocks;
    ReadParts(after, key, start + i, n - i);
    if i < n {
      ReadBackFrom(before, after, key, bs, start, n, buf, i + 1);
      SpanNext(i, bs);
      assert Block(after, key, start + i) == Some(Chunk(buf, bs, i));
    }
  }
}
