/**
  Streaming SHA-1.  The specification follows sections 3, 4, 5 and 6.1 of RFC 3174 on a whole message; the context
  absorbs the message in pieces.
 */
module Sha1 {

  type Octet = n: nat | n < 0x100
  type Word = bv32

  // ----- the definition

  datatype State = State(a: Word, b: Word, c: Word, d: Word, e: Word)

  const INITIAL := State(0x67452301, 0xEFCDAB89, 0x98BADCFE, 0x10325476, 0xC3D2E1F0)

  function CircularShift1(w: Word): Word { (w << 1) | (w >> 31) }
  function CircularShift5(w: Word): Word { (w << 5) | (w >> 27) }
  function CircularShift30(w: Word): Word { (w << 30) | (w >> 2) }

  /** The shifts of the source lose no bit: they rotate the word. */
  lemma CircularShiftRotates(w: Word)
    ensures CircularShift1(w) == w.RotateLeft(1)
    ensures CircularShift5(w) == w.RotateLeft(5)
    ensures CircularShift30(w) == w.RotateLeft(30)
  {
  }

  /** Addition of words, modulo 2^32. */
  function Add(x: Word, y: Word): Word { x + y }

  function Mix(a: Word, b: Word, c: Word, d: Word): Word { a ^ b ^ c ^ d }

  function Choose(b: Word, c: Word, d: Word): Word { (b & c) | (!b & d) }
  function Parity(b: Word, c: Word, d: Word): Word { b ^ c ^ d }
  function Majority(b: Word, c: Word, d: Word): Word { (b & c) | (b & d) | (c & d) }

  function F(t: nat, b: Word, c: Word, d: Word): Word {
    if t < 20 then Choose(b, c, d)
    else if t < 40 then Parity(b, c, d)
    else if t < 60 then Majority(b, c, d)
    else Parity(b, c, d)
  }

  function K(t: nat): Word {
    if t < 20 then 0x5A827999
    else if t < 40 then 0x6ED9EBA1
    else if t < 60 then 0x8F1BBCDC
    else 0xCA62C1D6
  }

  /** Four octets as a word, the first octet the most significant. */
  function Join(a: Octet, b: Octet, c: Octet, d: Octet): Word {
    (a as Word << 24) | (b as Word << 16) | (c as Word << 8) | d as Word
  }

  /** The sequence of 80 words that a block of 16 words is expanded to. */
  function W(block: seq<Octet>, t: nat): Word
    requires |block| == 64
  {
    if t < 16 then Join(block[4 * t], block[4 * t + 1], block[4 * t + 2], block[4 * t + 3])
    else CircularShift1(Mix(W(block, t - 3), W(block, t - 8), W(block, t - 14), W(block, t - 16)))
  }

  function Round(s: State, t: nat, w: Word): State {
    State(Add(Add(Add(Add(CircularShift5(s.a), F(t, s.b, s.c, s.d)), s.e), w), K(t)), s.a, CircularShift30(s.b), s.c, s.d)
  }

  /** The state after rounds 0 to t - 1. */
  function Rounds(s: State, block: seq<Octet>, t: nat): State
    requires |block| == 64
  {
    if t == 0 then s else Round(Rounds(s, block, t - 1), t - 1, W(block, t - 1))
  }

  function Plus(s: State, r: State): State {
    State(Add(s.a, r.a), Add(s.b, r.b), Add(s.c, r.c), Add(s.d, r.d), Add(s.e, r.e))
  }

  function Compress(s: State, block: seq<Octet>): State
    requires |block| == 64
  {
    Plus(s, Rounds(s, block, 80))
  }

  /** The blocks of a message one after the other. */
  function Absorb(m: seq<Octet>): State
    requires |m| % 64 == 0
  {
    if m == [] then INITIAL else Compress(Absorb(m[..|m| - 64]), m[|m| - 64..])
  }

  function Zeros(n: nat): (z: seq<Octet>)
    ensures |z| == n
  {
    seq(n, _ => 0)
  }

  /** A number as so many octets, the first the most significant. */
  function BigEndian(n: nat, octets: nat): (s: seq<Octet>)
    ensures |s| == octets
  {
    if octets == 0 then [] else BigEndian(n / 0x100, octets - 1) + [n % 0x100]
  }

  /** The fewest zeros that leave room for exactly the length in the last block. */
  function ZerosNeeded(length: nat): (k: nat)
    ensures k < 64 && (length + 1 + k) % 64 == 56 && (length + (1 + k + 8)) % 64 == 0
  {
    (119 - length % 64) % 64
  }

  function Pad(m: seq<Octet>): (p: seq<Octet>)
    ensures |p| % 64 == 0
  {
    var padding := [0x80] + Zeros(ZerosNeeded(|m|)) + BigEndian(8 * |m|, 8);
    assert |padding| == 1 + ZerosNeeded(|m|) + 8;
    m + padding
  }

  /** The digest as five words. */
  function Digest(m: seq<Octet>): State {
    Absorb(Pad(m))
  }

  // ----- padding, block by block

  /** A message ends inside a block: the part before that block, and the part in it. */
  function Whole(m: seq<Octet>): (w: seq<Octet>)
    ensures |w| % 64 == 0
  {
    m[..|m| - |m| % 64]
  }

  function Rest(m: seq<Octet>): (r: seq<Octet>)
    ensures |r| == |m| % 64
  {
    m[|m| - |m| % 64..]
  }

  lemma AbsorbOne(m: seq<Octet>, block: seq<Octet>)
    requires |m| % 64 == 0 && |block| == 64
    ensures Absorb(m + block) == Compress(Absorb(m), block)
  {
    assert (m + block)[..|m|] == m && (m + block)[|m|..] == block;
  }

  function LastBlock(m: seq<Octet>): (b: seq<Octet>)
    requires |m| % 64 <= 55
    ensures |b| == 64
  {
    Rest(m) + ([0x80] + Zeros(55 - |m| % 64) + BigEndian(8 * |m|, 8))
  }

  /** At most 55 octets in the last block: the padding fits. */
  lemma PadInPlace(m: seq<Octet>)
    requires |m| % 64 <= 55
    ensures Digest(m) == Compress(Absorb(Whole(m)), LastBlock(m))
  {
    assert ZerosNeeded(|m|) == 55 - |m| % 64;
    assert Pad(m) == Whole(m) + LastBlock(m);
    AbsorbOne(Whole(m), LastBlock(m));
  }

  function LastButOne(m: seq<Octet>): (b: seq<Octet>)
    requires 55 < |m| % 64
    ensures |b| == 64
  {
    Rest(m) + ([0x80] + Zeros(63 - |m| % 64))
  }

  function OnlyLength(m: seq<Octet>): (b: seq<Octet>)
    ensures |b| == 64
  {
    Zeros(56) + BigEndian(8 * |m|, 8)
  }

  lemma Regroup<T>(a: seq<T>, b: seq<T>, c: seq<T>, d: seq<T>)
    ensures ((a + b) + c) + d == a + (b + c + d)
  {
  }

  lemma RegroupTwo<T>(a: seq<T>, b: seq<T>, c: seq<T>, d: seq<T>, e: seq<T>, f: seq<T>)
    ensures (a + b) + (c + (d + e) + f) == (a + (b + (c + d))) + (e + f)
  {
  }

  lemma PadTwoBlocks(m: seq<Octet>)
    requires 55 < |m| % 64
    ensures Pad(m) == (Whole(m) + LastButOne(m)) + OnlyLength(m)
  {
    assert ZerosNeeded(|m|) == 119 - |m| % 64;
    assert Zeros(119 - |m| % 64) == Zeros(63 - |m| % 64) + Zeros(56);
    RegroupTwo(Whole(m), Rest(m), [0x80], Zeros(63 - |m| % 64), Zeros(56), BigEndian(8 * |m|, 8));
    assert m == Whole(m) + Rest(m);
  }

  /** More: the length goes to a block of its own. */
  lemma PadInNewBlock(m: seq<Octet>)
    requires 55 < |m| % 64
    ensures Digest(m) == Compress(Compress(Absorb(Whole(m)), LastButOne(m)), OnlyLength(m))
  {
    PadTwoBlocks(m);
    AbsorbOne(Whole(m) + LastButOne(m), OnlyLength(m));
    AbsorbOne(Whole(m), LastButOne(m));
  }

  const TWO_32: nat := 0x1_0000_0000
  const TWO_64: nat := TWO_32 * TWO_32

  function Power256(k: nat): nat {
    if k == 0 then 1 else 0x100 * Power256(k - 1)
  }

  lemma {:induction false} BigEndianSplits(high: nat, low: nat, j: nat, k: nat)
    requires low < Power256(k)
    ensures BigEndian(high * Power256(k) + low, j + k) == BigEndian(high, j) + BigEndian(low, k)
  {
    if k != 0 {
      var n, p := high * Power256(k) + low, Power256(k - 1);
      assert high * Power256(k) == 0x100 * (high * p);
      assert n / 0x100 == high * p + low / 0x100 && n % 0x100 == low % 0x100;
      BigEndianSplits(high, low / 0x100, j, k - 1);
    }
  }

  /** The two length words give the length octets. */
  lemma LengthWords(high: nat, low: nat)
    requires high < TWO_32 && low < TWO_32
    ensures BigEndian(high * TWO_32 + low, 8) == BigEndian(high, 4) + BigEndian(low, 4)
  {
    assert Power256(1) == 0x100 && Power256(2) == 0x1_0000 && Power256(3) == 0x100_0000 && Power256(4) == TWO_32;
    BigEndianSplits(high, low, 4, 4);
  }

  lemma WordOctets(w: nat)
    ensures BigEndian(w, 4) == [w / 0x100_0000 % 0x100, w / 0x1_0000 % 0x100, w / 0x100 % 0x100, w % 0x100]
  {
    assert BigEndian(w, 4) == BigEndian(w / 0x100, 3) + [w % 0x100];
    assert BigEndian(w / 0x100, 3) == BigEndian(w / 0x1_0000, 2) + [w / 0x100 % 0x100];
    assert BigEndian(w / 0x1_0000, 2) == [w / 0x100_0000 % 0x100, w / 0x1_0000 % 0x100];
  }

  // ----- one octet more

  /** The last block is not full yet. */
  lemma OctetFits(m: seq<Octet>, x: Octet)
    requires |m| % 64 < 63
    ensures |m + [x]| % 64 == |m| % 64 + 1
    ensures Whole(m + [x]) == Whole(m) && Rest(m + [x]) == Rest(m) + [x]
  {
  }

  /** The octet completes a block. */
  lemma OctetCompletes(m: seq<Octet>, x: Octet)
    requires |m| % 64 == 63
    ensures |m + [x]| % 64 == 0
    ensures Absorb(Whole(m + [x])) == Compress(Absorb(Whole(m)), Rest(m) + [x]) && Rest(m + [x]) == []
  {
    hide Compress, Absorb;
    assert Whole(m + [x]) == Whole(m) + (Rest(m) + [x]);
    AbsorbOne(Whole(m), Rest(m) + [x]);
  }

  // ----- the digest as octets

  /** Octet `k` of a word, the first the most significant. */
  function WordOctet(w: Word, k: nat): Octet {
    if k == 0 then ((w >> 24) & 0xFF) as nat
    else if k == 1 then ((w >> 16) & 0xFF) as nat
    else if k == 2 then ((w >> 8) & 0xFF) as nat
    else (w & 0xFF) as nat
  }

  lemma BytesOfWord(w: Word)
    ensures (((w >> 24) & 0xFF) << 24) | (((w >> 16) & 0xFF) << 16) | (((w >> 8) & 0xFF) << 8) | (w & 0xFF) == w
  {
  }

  lemma BackToWord(x: Word)
    ensures x as nat as Word == x
  {
  }

  /** The four octets lose nothing of the word. */
  lemma OctetsGiveWord(w: Word)
    ensures Join(WordOctet(w, 0), WordOctet(w, 1), WordOctet(w, 2), WordOctet(w, 3)) == w
  {
    BytesOfWord(w);
    BackToWord((w >> 24) & 0xFF);
    BackToWord((w >> 16) & 0xFF);
    BackToWord((w >> 8) & 0xFF);
    BackToWord(w & 0xFF);
  }

  function StateOctets(s: State): (o: seq<Octet>)
    ensures |o| == 20
  {
    seq(20, i requires 0 <= i < 20 => WordOctet(StateWord(s, i / 4), i % 4))
  }

  function StateWord(s: State, i: nat): Word {
    if i == 0 then s.a else if i == 1 then s.b else if i == 2 then s.c else if i == 3 then s.d else s.e
  }

  /** Different states give different octets. */
  lemma OctetsGiveState(s: State, o: seq<Octet>)
    requires o == StateOctets(s)
    ensures s == State(Join(o[0], o[1], o[2], o[3]), Join(o[4], o[5], o[6], o[7]), Join(o[8], o[9], o[10], o[11]),
                       Join(o[12], o[13], o[14], o[15]), Join(o[16], o[17], o[18], o[19]))
  {
    hide Join, WordOctet;
    OctetsGiveWord(s.a);
    OctetsGiveWord(s.b);
    OctetsGiveWord(s.c);
    OctetsGiveWord(s.d);
    OctetsGiveWord(s.e);
  }

  // ----- the context

  const SHA_SUCCESS := 0
  const SHA_STATE_ERROR := 3
  /** The value that the source stores when the message reaches 2^64 bits. */
  const TOO_LONG := 1

  class Context {
    const intermediateHash: array<Word>
    var lengthLow: nat
    var lengthHigh: nat
    var messageBlockIndex: nat
    const messageBlock: array<Octet>
    var computed: bool
    var corrupted: nat
    ghost var message: seq<Octet>

    ghost predicate Shape()
      reads this`messageBlockIndex, this`lengthLow, this`lengthHigh
    {
      && intermediateHash.Length == 5 && messageBlock.Length == 64
      && messageBlockIndex < 64 && lengthLow < TWO_32 && lengthHigh < TWO_32
    }

    /** The hash words. */
    function Hash(): State
      requires intermediateHash.Length == 5
      reads intermediateHash
    {
      State(intermediateHash[0], intermediateHash[1], intermediateHash[2], intermediateHash[3], intermediateHash[4])
    }

    /** The message so far is absorbed up to the octets in the block, and its bits are counted. */
    ghost predicate Absorbing()
      requires Shape()
      reads this, intermediateHash, messageBlock
    {
      && lengthHigh * TWO_32 + lengthLow == 8 * |message|
      && messageBlockIndex == |message| % 64
      && messageBlock[..messageBlockIndex] == Rest(message)
      && Hash() == Absorb(Whole(message))
    }

    /** Unless it is corrupted, the context absorbs a message or holds its digest. */
    ghost predicate Valid()
      reads this, intermediateHash, messageBlock
    {
      && Shape()
      && (corrupted == SHA_SUCCESS ==> if computed then Hash() == Digest(message) else Absorbing())
    }

    constructor ()
      ensures intermediateHash.Length == 5 && messageBlock.Length == 64
      ensures fresh(intermediateHash) && fresh(messageBlock)
    {
      intermediateHash := new Word[5];
      messageBlock := new Octet[64];
    }

    method Reset() returns (code: nat)
      requires intermediateHash.Length == 5 && messageBlock.Length == 64
      modifies this, intermediateHash
      ensures Valid() && corrupted == SHA_SUCCESS && !computed && message == [] && code == SHA_SUCCESS
    {
      hide Compress, Digest;
      lengthLow := 0;
      lengthHigh := 0;
      messageBlockIndex := 0;
      intermediateHash[0] := 0x67452301;
      intermediateHash[1] := 0xEFCDAB89;
      intermediateHash[2] := 0x98BADCFE;
      intermediateHash[3] := 0x10325476;
      intermediateHash[4] := 0xC3D2E1F0;
      computed := false;
      corrupted := SHA_SUCCESS;
      message := [];
      return SHA_SUCCESS;
    }

    /** The first 16 words: the octets of the block, four at a time. */
    method BlockWords(w: array<Word>)
      requires messageBlock.Length == 64 && w.Length == 80
      modifies w
      ensures forall t: nat :: t < 16 ==> w[t] == W(messageBlock[..], t)
    {
      hide Join;
      for t := 0 to 16
        invariant forall u: nat :: u < t ==> w[u] == W(messageBlock[..], u)
      {
        w[t] := Join(messageBlock[t * 4], messageBlock[t * 4 + 1], messageBlock[t * 4 + 2], messageBlock[t * 4 + 3]);
      }
    }

    /** Expands the block to 80 words. */
    method MessageSchedule() returns (w: array<Word>)
      requires messageBlock.Length == 64
      ensures fresh(w) && w.Length == 80 && forall t: nat :: t < 80 ==> w[t] == W(messageBlock[..], t)
    {
      hide Join, Mix, CircularShift1;
      w := new Word[80];
      BlockWords(w);
      for t := 16 to 80
        invariant forall u: nat :: u < t ==> w[u] == W(messageBlock[..], u)
      {
        w[t] := CircularShift1(Mix(w[t - 3], w[t - 8], w[t - 14], w[t - 16]));
      }
    }

    /** The 80 rounds; the word buffers are the state. */
    method EightyRounds(w: array<Word>) returns (s: State)
      requires intermediateHash.Length == 5 && messageBlock.Length == 64
      requires w.Length == 80 && forall t: nat :: t < 80 ==> w[t] == W(messageBlock[..], t)
      ensures s == Rounds(Hash(), messageBlock[..], 80)
    {
      hide W, Add, Choose, Parity, Majority, CircularShift5, CircularShift30;
      ghost var block, h := messageBlock[..], Hash();
      var a, b, c, d, e :=
        intermediateHash[0], intermediateHash[1], intermediateHash[2], intermediateHash[3], intermediateHash[4];
      for t := 0 to 20
        invariant State(a, b, c, d, e) == Rounds(h, block, t)
      {
        var temp := Add(Add(Add(Add(CircularShift5(a), Choose(b, c, d)), e), w[t]), 0x5A827999);
        e := d;
        d := c;
        c := CircularShift30(b);
        b := a;
        a := temp;
      }
      for t := 20 to 40
        invariant State(a, b, c, d, e) == Rounds(h, block, t)
      {
        var temp := Add(Add(Add(Add(CircularShift5(a), Parity(b, c, d)), e), w[t]), 0x6ED9EBA1);
        e := d;
        d := c;
        c := CircularShift30(b);
        b := a;
        a := temp;
      }
      for t := 40 to 60
        invariant State(a, b, c, d, e) == Rounds(h, block, t)
      {
        var temp := Add(Add(Add(Add(CircularShift5(a), Majority(b, c, d)), e), w[t]), 0x8F1BBCDC);
        e := d;
        d := c;
        c := CircularShift30(b);
        b := a;
        a := temp;
      }
      for t := 60 to 80
        invariant State(a, b, c, d, e) == Rounds(h, block, t)
      {
        var temp := Add(Add(Add(Add(CircularShift5(a), Parity(b, c, d)), e), w[t]), 0xCA62C1D6);
        e := d;
        d := c;
        c := CircularShift30(b);
        b := a;
        a := temp;
      }
      s := State(a, b, c, d, e);
    }

    method ProcessMessageBlock()
      requires intermediateHash.Length == 5 && messageBlock.Length == 64
      modifies intermediateHash, this`messageBlockIndex
      ensures Hash() == Compress(old(Hash()), messageBlock[..])
      ensures messageBlockIndex == 0
    {
      hide Add, Rounds;
      var w := MessageSchedule();
      var s := EightyRounds(w);
      intermediateHash[0] := Add(intermediateHash[0], s.a);
      intermediateHash[1] := Add(intermediateHash[1], s.b);
      intermediateHash[2] := Add(intermediateHash[2], s.c);
      intermediateHash[3] := Add(intermediateHash[3], s.d);
      intermediateHash[4] := Add(intermediateHash[4], s.e);
      messageBlockIndex := 0;
    }

    /** Takes in one octet.  At 2^64 bits the context is corrupted. */
    method InputOctet(octet: Octet)
      requires Valid() && !computed && corrupted == SHA_SUCCESS
      modifies this, intermediateHash, messageBlock
      ensures Valid() && !computed && message == old(message) + [octet]
      ensures corrupted == if 8 * |message| < TWO_64 then SHA_SUCCESS else TOO_LONG
    {
      hide Absorb, Compress, Digest;
      messageBlock[messageBlockIndex] := octet;
      messageBlockIndex := messageBlockIndex + 1;
      CountOctet();
      assert messageBlock[..messageBlockIndex] == Rest(message) + [octet];
      if messageBlockIndex == 64 {
        OctetCompletes(message, octet);
        assert messageBlock[..] == messageBlock[..64];
        ProcessMessageBlock();
      } else {
        OctetFits(message, octet);
      }
      message := message + [octet];
    }

    /** Eight bits more in the two words. */
    method CountOctet()
      requires lengthLow < TWO_32 && lengthHigh < TWO_32 && lengthLow % 8 == 0
      modifies this`lengthLow, this`lengthHigh, this`corrupted
      ensures lengthLow < TWO_32 && lengthHigh < TWO_32
      ensures var bits := old(lengthHigh * TWO_32 + lengthLow) + 8;
              if bits < TWO_64 then lengthHigh * TWO_32 + lengthLow == bits && corrupted == old(corrupted)
              else corrupted == TOO_LONG
    {
      lengthLow := (lengthLow + 8) % TWO_32;
      if lengthLow == 0 {
        lengthHigh := (lengthHigh + 1) % TWO_32;
        if lengthHigh == 0 {
          corrupted := TOO_LONG;
        }
      }
    }

    /** The next portion of the message.  The loop stops at 2^64 bits, and yet the call reports success. */
    method Input(messageArray: seq<Octet>) returns (code: nat)
      requires Valid()
      modifies this, intermediateHash, messageBlock
      ensures Valid() && computed == old(computed)
      ensures messageArray == [] ==> code == SHA_SUCCESS && message == old(message) && corrupted == old(corrupted)
      ensures messageArray != [] && old(computed) ==> code == corrupted == SHA_STATE_ERROR
      ensures messageArray != [] && !old(computed) && old(corrupted) != SHA_SUCCESS ==> code == corrupted == old(corrupted)
      ensures messageArray != [] && !old(computed) && old(corrupted) == SHA_SUCCESS ==>
        code == SHA_SUCCESS
        && if 8 * |old(message) + messageArray| < TWO_64
           then corrupted == SHA_SUCCESS && message == old(message) + messageArray
           else corrupted == TOO_LONG
    {
      if messageArray == [] {
        return SHA_SUCCESS;
      }
      if computed {
        corrupted := SHA_STATE_ERROR;
        return SHA_STATE_ERROR;
      }
      if corrupted != SHA_SUCCESS {
        return corrupted;
      }
      InputOctets(messageArray);
      return SHA_SUCCESS;
    }

    method InputOctets(messageArray: seq<Octet>)
      requires Valid() && !computed && corrupted == SHA_SUCCESS
      modifies this, intermediateHash, messageBlock
      ensures Valid() && !computed
      ensures if 8 * |old(message) + messageArray| < TWO_64
              then corrupted == SHA_SUCCESS && message == old(message) + messageArray
              else corrupted == TOO_LONG
    {
      var i := 0;
      while i < |messageArray| && corrupted == SHA_SUCCESS
        invariant Valid() && !computed && i <= |messageArray|
        invariant corrupted == SHA_SUCCESS || corrupted == TOO_LONG
        invariant message == old(message) + messageArray[..i]
        invariant corrupted == SHA_SUCCESS <==> 8 * |message| < TWO_64
        decreases |messageArray| - i
      {
        InputOctet(messageArray[i]);
        assert messageArray[..i + 1] == messageArray[..i] + [messageArray[i]];
        i := i + 1;
      }
      assert corrupted == SHA_SUCCESS ==> messageArray[..i] == messageArray;
    }

    method FillZeros(limit: nat)
      requires messageBlock.Length == 64 && messageBlockIndex <= limit <= 64
      modifies messageBlock, this`messageBlockIndex
      ensures messageBlockIndex == limit
      ensures messageBlock[..limit] == old(messageBlock[..messageBlockIndex]) + Zeros(limit - old(messageBlockIndex))
    {
      while messageBlockIndex < limit
        invariant old(messageBlockIndex) <= messageBlockIndex <= limit
        invariant messageBlock[..messageBlockIndex]
               == old(messageBlock[..messageBlockIndex]) + Zeros(messageBlockIndex - old(messageBlockIndex))
      {
        messageBlock[messageBlockIndex] := 0;
        messageBlockIndex := messageBlockIndex + 1;
      }
    }

    /** The length goes to the last 8 octets of the block. */
    method StoreLength(ghost bits: nat)
      requires messageBlock.Length == 64 && lengthLow < TWO_32 && lengthHigh < TWO_32
      requires lengthHigh * TWO_32 + lengthLow == bits
      modifies messageBlock
      ensures messageBlock[..] == old(messageBlock[..56]) + BigEndian(bits, 8)
    {
      hide BigEndian;
      LengthWords(lengthHigh, lengthLow);
      WordOctets(lengthHigh);
      WordOctets(lengthLow);
      messageBlock[56] := lengthHigh / 0x100_0000 % 0x100;
      messageBlock[57] := lengthHigh / 0x1_0000 % 0x100;
      messageBlock[58] := lengthHigh / 0x100 % 0x100;
      messageBlock[59] := lengthHigh % 0x100;
      messageBlock[60] := lengthLow / 0x100_0000 % 0x100;
      messageBlock[61] := lengthLow / 0x1_0000 % 0x100;
      messageBlock[62] := lengthLow / 0x100 % 0x100;
      messageBlock[63] := lengthLow % 0x100;
    }

    method PadMessage()
      requires Valid() && !computed && corrupted == SHA_SUCCESS
      modifies intermediateHash, messageBlock, this`messageBlockIndex
      ensures Hash() == Digest(message) && messageBlockIndex == 0
    {
      hide Absorb, Compress, Digest, BigEndian;
      ghost var length := BigEndian(8 * |message|, 8);
      if messageBlockIndex > 55 {
        PadInNewBlock(message);
        AppendBit();
        FillZeros(64);
        assert messageBlock[..] == messageBlock[..64] == LastButOne(message);
        ProcessMessageBlock();
        FillZeros(56);
        assert messageBlock[..56] + length == OnlyLength(message);
      } else {
        PadInPlace(message);
        AppendBit();
        FillZeros(56);
        Regroup(Rest(message), [0x80], Zeros(55 - |message| % 64), length);
        assert messageBlock[..56] + length == LastBlock(message);
      }
      StoreLength(8 * |message|);
      ProcessMessageBlock();
    }

    method AppendBit()
      requires messageBlock.Length == 64 && messageBlockIndex < 64
      modifies messageBlock, this`messageBlockIndex
      ensures messageBlockIndex == old(messageBlockIndex) + 1
      ensures messageBlock[..messageBlockIndex] == old(messageBlock[..messageBlockIndex]) + [0x80]
    {
      messageBlock[messageBlockIndex] := 0x80;
      messageBlockIndex := messageBlockIndex + 1;
    }

    /** The digest of the whole message; asking again gives it again. */
    method Result(messageDigest: array<Octet>) returns (code: nat)
      requires Valid() && messageDigest.Length == 20 && messageDigest != messageBlock
      modifies this`computed, this`lengthLow, this`lengthHigh, this`messageBlockIndex
      modifies intermediateHash, messageBlock, messageDigest
      ensures Valid() && code == corrupted && message == old(message)
      ensures code == SHA_SUCCESS ==> computed && messageDigest[..] == StateOctets(Digest(message))
      ensures code != SHA_SUCCESS ==> computed == old(computed) && messageDigest[..] == old(messageDigest[..])
    {
      hide Absorb, Compress, Digest, WordOctet;
      if corrupted != SHA_SUCCESS {
        return corrupted;
      }
      if !computed {
        PadMessage();
        ClearBlock();
        lengthLow, lengthHigh := 0, 0;
        computed := true;
      }
      CopyHash(messageDigest);
      return SHA_SUCCESS;
    }

    method ClearBlock()
      requires messageBlock.Length == 64
      modifies messageBlock
      ensures messageBlock[..] == Zeros(64)
    {
      for i := 0 to 64
        invariant messageBlock[..i] == Zeros(i)
      {
        messageBlock[i] := 0;
      }
    }

    method CopyHash(messageDigest: array<Octet>)
      requires intermediateHash.Length == 5 && messageDigest.Length == 20
      modifies messageDigest
      ensures messageDigest[..] == StateOctets(Hash())
    {
      hide WordOctet;
      ghost var s := Hash();
      for i := 0 to 20
        invariant forall j :: 0 <= j < i ==> messageDigest[j] == WordOctet(StateWord(s, j / 4), j % 4)
      {
        assert intermediateHash[i / 4] == StateWord(s, i / 4);
        messageDigest[i] := WordOctet(intermediateHash[i / 4], i % 4);
      }
    }
  }

  // ----- any way of cutting the message

  function Concat(pieces: seq<seq<Octet>>): seq<Octet> {
    if pieces == [] then [] else Concat(pieces[..|pieces| - 1]) + pieces[|pieces| - 1]
  }

  /** However a message below 2^64 bits is cut into pieces, the digest is that of the whole. */
  method HashInPieces(pieces: seq<seq<Octet>>) returns (code: nat, digest: seq<Octet>)
    ensures 8 * |Concat(pieces)| < 0x1_0000_0000_0000_0000 ==>
      code == SHA_SUCCESS && digest == StateOctets(Digest(Concat(pieces)))
    ensures 8 * |Concat(pieces)| >= 0x1_0000_0000_0000_0000 ==> code == TOO_LONG
  {
    var context := new Context();
    code := context.Reset();
    for i := 0 to |pieces|
      invariant context.Valid() && !context.computed
      invariant if 8 * |Concat(pieces[..i])| < TWO_64
                then context.corrupted == SHA_SUCCESS && context.message == Concat(pieces[..i])
                else context.corrupted == TOO_LONG
    {
      assert pieces[..i + 1][..i] == pieces[..i];
      code := context.Input(pieces[i]);
    }
    assert pieces[..|pieces|] == pieces;
    var messageDigest := new Octet[20];
    code := context.Result(messageDigest);
    digest := messageDigest[..];
  }
}
