/**
  The definition of Sha1 spelled out bit by bit and word by word, as sections 4 to 6.1 of RFC 3174 and section 4.1.1 of
  FIPS 180 have it, without the helper functions that the loops share with it.
 */
module Sha1Rfc {
  import opened Sha1

  // ----- the round functions and constants

  /** In rounds 0 to 19 each bit of b chooses between the bits of c and d. */
  lemma BitsAreChosen(t: nat, b: Word, c: Word, d: Word)
    requires t < 20
    ensures b & F(t, b, c, d) == b & c
    ensures !b & F(t, b, c, d) == !b & d
  {
  }

  /** In rounds 20 to 39 and 60 to 79 each bit is the sum modulo 2: d where b and c agree, else the opposite of d. */
  lemma BitsAreAdded(t: nat, b: Word, c: Word, d: Word)
    requires 20 <= t < 40 || 60 <= t < 80
    ensures !(b ^ c) & F(t, b, c, d) == !(b ^ c) & d
    ensures (b ^ c) & F(t, b, c, d) == (b ^ c) & !d
  {
    ParityBits(F(t, b, c, d), b, c, d);
    hide F, Parity;
  }

  lemma ParityBits(f: Word, b: Word, c: Word, d: Word)
    requires f == Parity(b, c, d)
    ensures !(b ^ c) & f == !(b ^ c) & d
    ensures (b ^ c) & f == (b ^ c) & !d
  {
  }

  /** In rounds 40 to 59 a bit in which two words agree is theirs. */
  lemma BitsAreVoted(t: nat, b: Word, c: Word, d: Word)
    requires 40 <= t < 60
    ensures !(b ^ c) & F(t, b, c, d) == !(b ^ c) & b
    ensures !(b ^ d) & F(t, b, c, d) == !(b ^ d) & b
    ensures !(c ^ d) & F(t, b, c, d) == !(c ^ d) & c
  {
    MajorityBits(F(t, b, c, d), b, c, d);
    hide F, Majority;
  }

  lemma MajorityBits(f: Word, b: Word, c: Word, d: Word)
    requires f == Majority(b, c, d)
    ensures !(b ^ c) & f == !(b ^ c) & b
    ensures !(b ^ d) & f == !(b ^ d) & b
    ensures !(c ^ d) & f == !(c ^ d) & c
  {
  }

  /** The constants are the square roots of 2, 3, 5 and 10, times 2^30 and rounded down. */
  lemma ConstantsAreRoots(t: nat)
    requires t < 80
    ensures var k := K(t) as int;
      var n := if t < 20 then 2 else if t < 40 then 3 else if t < 60 then 5 else 10;
      k * k <= n * 0x1000_0000_0000_0000 < (k + 1) * (k + 1)
  {
    assert 0x5A827999 as Word as int == 0x5A827999;
    assert 0x6ED9EBA1 as Word as int == 0x6ED9EBA1;
    assert 0x8F1BBCDC as Word as int == 0x8F1BBCDC;
    assert 0xCA62C1D6 as Word as int == 0xCA62C1D6;
  }

  // ----- the words and the rounds

  /** Word t of the schedule, from the words 3, 8, 14 and 16 places before it. */
  lemma ScheduleInWords(block: seq<Octet>, t: nat)
    requires |block| == 64 && 16 <= t
    ensures W(block, t) == (W(block, t - 3) ^ W(block, t - 8) ^ W(block, t - 14) ^ W(block, t - 16)).RotateLeft(1)
  {
    CircularShiftRotates(Mix(W(block, t - 3), W(block, t - 8), W(block, t - 14), W(block, t - 16)));
  }

  /** Word t of a block is its octets 4t to 4t + 3, the first the most significant. */
  lemma BlockInWords(block: seq<Octet>, t: nat)
    requires |block| == 64 && t < 16
    ensures W(block, t) >> 24 == block[4 * t] as Word
    ensures (W(block, t) >> 16) & 0xFF == block[4 * t + 1] as Word
    ensures (W(block, t) >> 8) & 0xFF == block[4 * t + 2] as Word
    ensures W(block, t) & 0xFF == block[4 * t + 3] as Word
  {
    var a, b, c, d :=
      block[4 * t] as Word, block[4 * t + 1] as Word, block[4 * t + 2] as Word, block[4 * t + 3] as Word;
    OctetIsSmall(block[4 * t]);
    OctetIsSmall(block[4 * t + 1]);
    OctetIsSmall(block[4 * t + 2]);
    OctetIsSmall(block[4 * t + 3]);
    JoinedOctets(a, b, c, d);
  }

  lemma OctetIsSmall(x: Octet)
    ensures x as Word <= 0xFF
  {
  }

  lemma JoinedOctets(a: Word, b: Word, c: Word, d: Word)
    requires a <= 0xFF && b <= 0xFF && c <= 0xFF && d <= 0xFF
    ensures var w := (a << 24) | (b << 16) | (c << 8) | d;
      w >> 24 == a && (w >> 16) & 0xFF == b && (w >> 8) & 0xFF == c && w & 0xFF == d
  {
  }

  /** Words are added modulo 2^32, without a carry out. */
  lemma WordsAreAdded(x: Word, y: Word)
    ensures Add(x, y) == x + y
  {
  }

  /** One round: all words move up, the second rotated by 30, and the sum of five words comes first. */
  lemma RoundInWords(s: State, t: nat, w: Word)
    ensures Round(s, t, w) == State(
      Add(Add(Add(Add(s.a.RotateLeft(5), F(t, s.b, s.c, s.d)), s.e), w), K(t)), s.a, s.b.RotateLeft(30), s.c, s.d)
  {
    CircularShiftRotates(s.a);
    CircularShiftRotates(s.b);
    hide F, K, Add, CircularShift5, CircularShift30;
  }

  /** The rounds of a block take its words in order. */
  lemma RoundsInOrder(s: State, block: seq<Octet>, t: nat)
    requires |block| == 64
    ensures Rounds(s, block, 0) == s
    ensures Rounds(s, block, t + 1) == Round(Rounds(s, block, t), t, W(block, t))
  {
    hide Round, W;
  }

  /** A block adds, word by word, what 80 rounds make of the state, which starts as in section 6.1. */
  lemma BlocksInWords(m: seq<Octet>, block: seq<Octet>)
    requires |m| % 64 == 0 && |block| == 64
    ensures Absorb([]) == State(0x67452301, 0xEFCDAB89, 0x98BADCFE, 0x10325476, 0xC3D2E1F0)
    ensures var s := Absorb(m);
      var r := Rounds(s, block, 80);
      Absorb(m + block) == State(Add(s.a, r.a), Add(s.b, r.b), Add(s.c, r.c), Add(s.d, r.d), Add(s.e, r.e))
  {
    AbsorbOne(m, block);
    hide Rounds, Add;
  }

  // ----- the padding and the octets of the digest

  /** The message, a bit 1, zeros, and the length as two words, up to the end of the next block with room for them. */
  lemma PaddingInOctets(m: seq<Octet>)
    requires 8 * |m| < 0x1_0000_0000_0000_0000
    ensures var p, high, low := Pad(m), 8 * |m| / 0x1_0000_0000, 8 * |m| % 0x1_0000_0000;
      && |p| % 64 == 0 && |m| + 9 <= |p| < |m| + 73
      && p[..|m|] == m && p[|m|] == 0x80
      && (forall i :: |m| < i < |p| - 8 ==> p[i] == 0)
      && p[|p| - 8..] == [
           high / 0x100_0000 % 0x100, high / 0x1_0000 % 0x100, high / 0x100 % 0x100, high % 0x100,
           low / 0x100_0000 % 0x100, low / 0x1_0000 % 0x100, low / 0x100 % 0x100, low % 0x100]
  {
    hide BigEndian;
    var high, low := 8 * |m| / 0x1_0000_0000, 8 * |m| % 0x1_0000_0000;
    LengthWords(high, low);
    WordOctets(high);
    WordOctets(low);
  }
}
