/** The example of section 7.3 of RFC 3174: the digest of the message "abc", worked out from the definition of Sha1. */
module Sha1Abc {
  import opened Sha1
  import opened Sha1Rfc

  /** Sixteen consecutive words of the schedule of a block: all that the later ones depend on. */
  datatype Window = Window(
    w0: Word, w1: Word, w2: Word, w3: Word, w4: Word, w5: Word, w6: Word, w7: Word,
    w8: Word, w9: Word, w10: Word, w11: Word, w12: Word, w13: Word, w14: Word, w15: Word)
  {
    function Next(): Window {
      Window(w1, w2, w3, w4, w5, w6, w7, w8, w9, w10, w11, w12, w13, w14, w15, CircularShift1(Mix(w13, w8, w2, w0)))
    }
  }

  function WindowAt(block: seq<Octet>, t: nat): Window
    requires |block| == 64
  {
    Window(
      W(block, t), W(block, t + 1), W(block, t + 2), W(block, t + 3),
      W(block, t + 4), W(block, t + 5), W(block, t + 6), W(block, t + 7),
      W(block, t + 8), W(block, t + 9), W(block, t + 10), W(block, t + 11),
      W(block, t + 12), W(block, t + 13), W(block, t + 14), W(block, t + 15))
  }

  datatype Machine = Machine(s: State, w: Window)

  /** Rounds t to n - 1 with the sixteen words in a window: no word is worked out twice. */
  function Run(m: Machine, t: nat, n: nat): Machine
    decreases n - t
  {
    if t >= n then m else Run(Machine(Round(m.s, t, m.w.w0), m.w.Next()), t + 1, n)
  }

  lemma NextWindow(block: seq<Octet>, t: nat)
    requires |block| == 64
    ensures WindowAt(block, t).w0 == W(block, t)
    ensures WindowAt(block, t).Next() == WindowAt(block, t + 1)
  {
    hide CircularShift1, Mix;
    assert W(block, t + 16) == CircularShift1(Mix(W(block, t + 13), W(block, t + 8), W(block, t + 2), W(block, t)));
    hide W;
  }

  /** The window computes the rounds of the definition, from anywhere to anywhere. */
  lemma {:induction false} RunIsRounds(s: State, block: seq<Octet>, t: nat, n: nat)
    requires |block| == 64 && t <= n
    ensures Run(Machine(Rounds(s, block, t), WindowAt(block, t)), t, n)
      == Machine(Rounds(s, block, n), WindowAt(block, n))
    decreases n - t
  {
    hide Round, WindowAt, W;
    if t < n {
      NextWindow(block, t);
      RunIsRounds(s, block, t + 1, n);
    }
  }

  // ----- the states every ten rounds

  const AT_0 :=
    Machine(
      State(0x67452301, 0xEFCDAB89, 0x98BADCFE, 0x10325476, 0xC3D2E1F0),
      Window(
        0x61626380, 0x00000000, 0x00000000, 0x00000000, 0x00000000, 0x00000000, 0x00000000, 0x00000000,
        0x00000000, 0x00000000, 0x00000000, 0x00000000, 0x00000000, 0x00000000, 0x00000000, 0x00000018))

  const AT_10 :=
    Machine(
      State(0x8351F929, 0x4B6AE328, 0x27A301F5, 0x664F8C30, 0x0FF1F290),
      Window(
        0x00000000, 0x00000000, 0x00000000, 0x00000000, 0x00000000, 0x00000018, 0xC2C4C700, 0x00000000,
        0x00000030, 0x85898E01, 0x00000000, 0x00000060, 0x0B131C03, 0x00000030, 0x85898EC1, 0x16263806))

  const AT_20 :=
    Machine(
      State(0xFD9E1D7D, 0xDC64901D, 0x20AA99CA, 0xD3A49608, 0xC82F758B),
      Window(
        0x00000000, 0x00000060, 0x0B131C03, 0x00000030, 0x85898EC1, 0x16263806, 0x00000000, 0x00000180,
        0x2C4C700C, 0x000000F0, 0x93AFB507, 0x5898E048, 0x8E9A9202, 0x00000600, 0xB131C0F0, 0x16263BC6))

  const AT_30 :=
    Machine(
      State(0xC5FBAF5D, 0x8370B52E, 0xD2AA1365, 0x6F8D7EF5, 0x12104EE9),
      Window(
        0x93AFB507, 0x5898E048, 0x8E9A9202, 0x00000600, 0xB131C0F0, 0x16263BC6, 0x4EBED41E, 0x626380A1,
        0x16263806, 0x000018C0, 0xD2E138C4, 0x00000F00, 0x3AFB5079, 0x898E04E5, 0xE2BA3C2B, 0x000060C0))

  const AT_40 :=
    Machine(
      State(0x32DE1CBA, 0x4C986405, 0xF718E5CF, 0x03D447F6, 0xF72EEC32),
      Window(
        0xD2E138C4, 0x00000F00, 0x3AFB5079, 0x898E04E5, 0xE2BA3C2B, 0x000060C0, 0x053A37CD, 0x74458547,
        0xDA9415ED, 0x26380A16, 0x626383A1, 0x4EBF54DE, 0x3835B44B, 0x0000F600, 0x1E84C7A3, 0x98E04D98))

  const AT_50 :=
    Machine(
      State(0x120731C5, 0xBAF39337, 0xAFAB40B2, 0x2806E11B, 0x8714787C),
      Window(
        0x626383A1, 0x4EBF54DE, 0x3835B44B, 0x0000F600, 0x1E84C7A3, 0x98E04D98, 0x651D16A0, 0x62658CA1,
        0x458544D6, 0x44584CB7, 0x7BA06619, 0x6380AEA2, 0x0AE55269, 0x627B49A1, 0x7CD45C9D, 0x000F0000))

  const AT_60 :=
    Machine(
      State(0x3F52DE5A, 0x09D785FD, 0x3498BFD4, 0xF211824F, 0xD79915AB),
      Window(
        0x7BA06619, 0x6380AEA2, 0x0AE55269, 0x627B49A1, 0x7CD45C9D, 0x000F0000, 0xFB50753A, 0xEC6765E8,
        0xBA3C2BE2, 0x0060C000, 0x3A37CD05, 0x458546F4, 0xB8599DD6, 0x380A1A26, 0x01E02203, 0xE7CC3456))

  const AT_70 :=
    Machine(
      State(0x3F2588C2, 0x497093C0, 0xDE37534A, 0x030F7CAD, 0x4405957E),
      Window(
        0x3A37CD05, 0x458546F4, 0xB8599DD6, 0x380A1A26, 0x01E02203, 0xE7CC3456, 0xE6E60B69, 0x00F60A00,
        0x5795EF4F, 0x822E0879, 0x7E577CE2, 0x07EF2103, 0x8544E945, 0xEB39DAB8, 0xC205991A, 0x80AECB63))

  const AT_80 :=
    Machine(
      State(0x42541B35, 0x5738D5E1, 0x21834873, 0x681E6DF6, 0xD8FDF6AD),
      Window(
        0x7E577CE2, 0x07EF2103, 0x8544E945, 0xEB39DAB8, 0xC205991A, 0x80AECB63, 0x7D84CA48, 0x7B499B62,
        0x8E8010A8, 0x4B5B8A77, 0x3216B69A, 0x0507E88D, 0x705BEE96, 0x60C0FF00, 0xA28362D0, 0x1DA6B91D))

  lemma Rounds0To9()
    ensures Run(AT_0, 0, 10) == AT_10
  {
  }

  lemma Rounds10To19()
    ensures Run(AT_10, 10, 20) == AT_20
  {
  }

  lemma Rounds20To29()
    ensures Run(AT_20, 20, 30) == AT_30
  {
  }

  lemma Rounds30To39()
    ensures Run(AT_30, 30, 40) == AT_40
  {
  }

  lemma Rounds40To49()
    ensures Run(AT_40, 40, 50) == AT_50
  {
  }

  lemma Rounds50To59()
    ensures Run(AT_50, 50, 60) == AT_60
  {
  }

  lemma Rounds60To69()
    ensures Run(AT_60, 60, 70) == AT_70
  {
  }

  lemma Rounds70To79()
    ensures Run(AT_70, 70, 80) == AT_80
  {
  }

  // ----- the message

  const ABC: seq<Octet> := [0x61, 0x62, 0x63]

  /** The padded message is one block. */
  lemma OneBlock()
    ensures var p := Pad(ABC);
      && |p| == 64 && p[0] == 0x61 && p[1] == 0x62 && p[2] == 0x63 && p[3] == 0x80 && p[63] == 24
      && forall i :: 4 <= i < 63 ==> p[i] == 0
  {
    PaddingInOctets(ABC);
    var p := Pad(ABC);
    assert p[0] == p[..3][0] && p[1] == p[..3][1] && p[2] == p[..3][2];
    assert forall i :: 56 <= i < 64 ==> p[i] == p[56..][i - 56];
  }

  /** Its sixteen words. */
  lemma FirstWords()
    ensures var p := Pad(ABC);
      |p| == 64 && W(p, 0) == 0x61626380 && W(p, 15) == 24 && forall t: nat :: 1 <= t < 15 ==> W(p, t) == 0
  {
    OneBlock();
    JoinedAbc();
    hide Pad, Join;
    var p := Pad(ABC);
    forall t: nat | 1 <= t < 15 ensures W(p, t) == 0 {
      assert W(p, t) == Join(p[4 * t], p[4 * t + 1], p[4 * t + 2], p[4 * t + 3]);
    }
  }

  lemma FirstWindow()
    ensures |Pad(ABC)| == 64 && WindowAt(Pad(ABC), 0) == AT_0.w
  {
    FirstWords();
    hide Pad, W;
  }

  lemma JoinedAbc()
    ensures Join(0x61, 0x62, 0x63, 0x80) == 0x61626380 && Join(0, 0, 0, 0) == 0 && Join(0, 0, 0, 24) == 24
  {
  }

  lemma EightyRoundsOfAbc()
    ensures |Pad(ABC)| == 64 && Rounds(INITIAL, Pad(ABC), 80) == AT_80.s
  {
    hide Pad, Run, WindowAt;
    FirstWindow();
    Rounds0To9();
    Rounds10To19();
    Rounds20To29();
    Rounds30To39();
    Rounds40To49();
    Rounds50To59();
    Rounds60To69();
    Rounds70To79();
    var s, p := INITIAL, Pad(ABC);
    assert Machine(Rounds(s, p, 0), WindowAt(p, 0)) == AT_0;
    hide Rounds;
    RunIsRounds(s, p, 0, 10);
    RunIsRounds(s, p, 10, 20);
    RunIsRounds(s, p, 20, 30);
    RunIsRounds(s, p, 30, 40);
    RunIsRounds(s, p, 40, 50);
    RunIsRounds(s, p, 50, 60);
    RunIsRounds(s, p, 60, 70);
    RunIsRounds(s, p, 70, 80);
  }

  /** The digest of "abc". */
  lemma DigestOfAbc()
    ensures Digest(ABC) == State(0xA9993E36, 0x4706816A, 0xBA3E2571, 0x7850C26C, 0x9CD0D89D)
  {
    EightyRoundsOfAbc();
    var p := Pad(ABC);
    BlocksInWords([], p);
    assert [] + p == p;
    hide Rounds, Absorb, Pad;
  }
}
