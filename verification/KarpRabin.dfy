/** The rolling hash, and the string matcher that uses it. */
module KarpRabin {
  import opened Bits

  // ----- words

  const TWO_32: nat := 0x1_0000_0000

  type Octet = n: nat | n < 0x100

  function ComputeMask(bits: nat): nat
    requires 1 <= bits <= 32
  {
    var x := Pow(2, bits - 1);
    PowPositive(2, bits - 1);
    Xor(x, x - 1)
  }

  /** A sum of 32-bit words is reduced twice, by the word and by the mask; once is the same. */
  lemma ModTwice(x: int, bits: nat)
    requires bits <= 32
    ensures 0 < Pow(2, bits) && (x % TWO_32) % Pow(2, bits) == x % Pow(2, bits)
  {
    PowPositive(2, bits);
    PowPositive(2, 32 - bits);
    PowSplits(2, bits, 32 - bits);
    PowThirtyTwo();
    ModOfMultiple(x, TWO_32, Pow(2, bits), Pow(2, 32 - bits));
  }

  lemma PowThirtyTwo()
    ensures Pow(2, 32) == TWO_32
  {
    assert Pow(2, 8) == 0x100;
    PowSplits(2, 8, 8);
    PowSplits(2, 16, 16);
  }

  // ----- the hash of a window

  const B: nat := 37

  type Table = Octet -> nat

  /** The polynomial in 37 that the characters are the coefficients of, without any wrap-around. */
  function Poly(table: Table, w: seq<Octet>): nat {
    if w == [] then 0 else B * Poly(table, w[..|w| - 1]) + table(w[|w| - 1])
  }

  function WindowHash(table: Table, w: seq<Octet>, bits: nat): nat {
    PowPositive(2, bits);
    Poly(table, w) % Pow(2, bits)
  }

  lemma PolyMore(table: Table, w: seq<Octet>, c: Octet)
    ensures Poly(table, w + [c]) == B * Poly(table, w) + table(c)
  {
    assert (w + [c])[..|w|] == w;
  }

  lemma {:induction false} PolyFirst(table: Table, c: Octet, w: seq<Octet>)
    ensures Poly(table, [c] + w) == table(c) * Pow(37, |w|) + Poly(table, w)
    decreases |w|
  {
    if w == [] {
      assert [c] + w == [c];
      assert [c][..0] == [];
    } else {
      var w', d := w[..|w| - 1], w[|w| - 1];
      assert [c] + w == ([c] + w') + [d];
      PolyMore(table, [c] + w', d);
      PolyFirst(table, c, w');
      assert B * (table(c) * Pow(B, |w'|)) == table(c) * (B * Pow(B, |w'|));
    }
  }

  /** The window moves by one character: the first character of `w + [c]` leaves it. */
  lemma PolySlides(table: Table, w: seq<Octet>, c: Octet)
    ensures Poly(table, (w + [c])[1..]) == 37 * Poly(table, w) + table(c) - Pow(37, |w|) * table((w + [c])[0])
  {
    hide Poly, Pow;
    var all := w + [c];
    assert all == [all[0]] + all[1..];
    PolyFirst(table, all[0], all[1..]);
    PolyMore(table, w, c);
  }

  /** Reducing the parts first changes nothing. */
  lemma ReducedParts(x: int, y: int, a: int, b: int, t: int, m: int)
    requires 0 < m
    ensures (a * (x % m) + t - (y % m) * b) % m == (a * x + t - y * b) % m
  {
    var p, q := x / m, y / m;
    Spread(a, x % m, m, p);
    Spread(b, y % m, m, q);
    Distribute(m, a * p, -(b * q));
    assert m * -(b * q) == -(m * (b * q));
    var r := a * (x % m) + t - (y % m) * b;
    assert x == m * p + x % m && y == m * q + y % m;
    assert a * x + t - y * b == r + m * (a * p - b * q);
    ModPlus(r, m, a * p - b * q);
  }

  lemma Spread(a: int, r: int, m: int, p: int)
    ensures a * (m * p + r) == a * r + m * (a * p)
  {
  }

  lemma MaskIsAllOnes(bits: nat)
    requires 1 <= bits <= 32
    ensures ComputeMask(bits) == Pow(2, bits) - 1
  {
    hide Xor, Pow;
    XorBelow(bits - 1);
  }

  /** A 32-bit word reduced by the mask. */
  function Masked(x: int, mask: nat): nat {
    And(x % TWO_32, mask)
  }

  lemma MaskedIs(x: int, bits: nat)
    requires 1 <= bits <= 32
    ensures 0 < Pow(2, bits) && Masked(x, ComputeMask(bits)) == x % Pow(2, bits)
  {
    MaskIsAllOnes(bits);
    MaskKeepsLowBits(x % TWO_32, bits);
    ModTwice(x, bits);
  }

  class KarpRabinHash {
    const seqLen: nat
    const wordSize: nat
    const hashMask: nat
    const table: Table
    var bToN: nat
    var hashValue: nat

    ghost predicate Valid()
      reads this`bToN
    {
      && 1 <= wordSize <= 32 && hashMask == ComputeMask(wordSize) && 0 < Pow(2, wordSize)
      && bToN == Pow(B, seqLen) % Pow(2, wordSize)
    }

    /** The hash is that of the characters. */
    ghost predicate Holds(w: seq<Octet>)
      reads this`hashValue
    {
      hashValue == WindowHash(table, w, wordSize)
    }

    constructor (table: Table, seqLen: nat, wordSize: nat)
      requires 1 <= wordSize <= 32
      ensures Valid() && Holds([])
      ensures this.table == table && this.seqLen == seqLen && this.wordSize == wordSize
    {
      this.table, this.seqLen, this.wordSize := table, seqLen, wordSize;
      hide Masked, Pow, ComputeMask;
      hashMask := ComputeMask(wordSize);
      bToN, hashValue := 1, 0;
      new;
      ghost var m := Pow(2, wordSize);
      OneIsReduced(wordSize);
      EmptyHash(table, wordSize);
      for i := 0 to seqLen
        invariant bToN == Pow(B, i) % m
        modifies this`bToN
      {
        MaskedIs(bToN * B, wordSize);
        NextPower(i, m);
        bToN := Masked(bToN * B, hashMask);
      }
    }

    method Reset()
      modifies this`hashValue
      ensures Holds([])
    {
      PowPositive(2, wordSize);
      hashValue := 0;
    }

    method Eat(c: Octet, ghost w: seq<Octet>)
      requires Valid() && Holds(w)
      modifies this`hashValue
      ensures Holds(w + [c])
    {
      MaskedIs(B * hashValue + table(c), wordSize);
      ReducedParts(Poly(table, w), 0, B, 0, table(c), Pow(2, wordSize));
      PolyMore(table, w, c);
      hashValue := Masked(B * hashValue + table(c), hashMask);
    }

    /** Takes in one character and drops the first of the window that results. */
    method Update(out: Octet, in_: Octet, ghost w: seq<Octet>) returns (h: nat)
      requires Valid() && Holds(w) && |w| == seqLen && out == (w + [in_])[0]
      modifies this`hashValue
      ensures Holds((w + [in_])[1..]) && h == hashValue
    {
      MaskedIs(B * hashValue + table(in_) - bToN * table(out), wordSize);
      ReducedParts(Poly(table, w), Pow(B, seqLen), B, table(out), table(in_), Pow(2, wordSize));
      PolySlides(table, w, in_);
      hashValue := Masked(B * hashValue + table(in_) - bToN * table(out), hashMask);
      h := hashValue;
    }

    function GetHashValue(): nat
      reads this`hashValue
    {
      hashValue
    }
  }

  lemma EmptyHash(table: Table, bits: nat)
    ensures WindowHash(table, [], bits) == 0 && Pow(B, 0) == 1
  {
    PowPositive(2, bits);
  }

  lemma NextPower(i: nat, m: nat)
    requires 0 < m
    ensures (Pow(B, i) % m * B) % m == Pow(B, i + 1) % m
  {
    ReducedParts(Pow(B, i), 0, B, 0, 0, m);
  }

  lemma OneIsReduced(bits: nat)
    requires 1 <= bits
    ensures 1 < Pow(2, bits) && 1 % Pow(2, bits) == 1
  {
    PowPositive(2, bits - 1);
    ModIs(1, Pow(2, bits), 0, 1);
  }

  // ----- the matcher

  /** The characters of a string, with the zero that ends it. */
  function At(text: seq<Octet>, i: nat): Octet
    requires i <= |text|
  {
    if i < |text| then text[i] else 0
  }

  predicate OccursAt(text: seq<Octet>, match_: seq<Octet>, i: nat) {
    i + |match_| <= |text| && text[i..i + |match_|] == match_
  }

  method GetStringHash(table: Table, str: seq<Octet>, wordSize: nat) returns (h: nat)
    requires 1 <= wordSize <= 32
    ensures h == WindowHash(table, str, wordSize)
  {
    var hasher: KarpRabinHash := new KarpRabinHash(table, |str|, wordSize);
    for i := 0 to |str|
      invariant hasher.Valid() && hasher.Holds(str[..i])
      modifies hasher`hashValue
    {
      hasher.Eat(str[i], str[..i]);
      assert str[..i + 1] == str[..i] + [str[i]];
    }
    assert str[..|str|] == str;
    h := hasher.GetHashValue();
  }

  /** Compares the window with the pattern, character by character. */
  method Same(text: seq<Octet>, match_: seq<Octet>, outIndex: nat) returns (found: bool)
    requires outIndex + |match_| <= |text|
    ensures found <==> OccursAt(text, match_, outIndex)
  {
    var i, j := outIndex, 0;
    while i < outIndex + |match_|
      invariant i == outIndex + j && j <= |match_|
      invariant forall k :: 0 <= k < j ==> text[outIndex + k] == match_[k]
    {
      if text[i] != match_[j] {
        assert text[outIndex..outIndex + |match_|][j] != match_[j];
        return false;
      }
      i, j := i + 1, j + 1;
    }
    return true;
  }

  /** The occurrences before position `n`, in order. */
  ghost predicate Reported(text: seq<Octet>, match_: seq<Octet>, found: seq<nat>, n: nat) {
    && (forall i: nat :: i in found <==> i < n && OccursAt(text, match_, i))
    && (forall i, j :: 0 <= i < j < |found| ==> found[i] < found[j])
  }

  lemma NoneReported(text: seq<Octet>, match_: seq<Octet>)
    ensures Reported(text, match_, [], 0)
  {
  }

  lemma ReportNext(text: seq<Octet>, match_: seq<Octet>, found: seq<nat>, n: nat)
    requires Reported(text, match_, found, n)
    ensures Reported(text, match_, if OccursAt(text, match_, n) then found + [n] else found, n + 1)
  {
    hide OccursAt;
    forall i | 0 <= i < |found| ensures found[i] < n {
      assert found[i] in found;
    }
  }

  /** Equal hashes are checked, and an occurrence has the hash of the pattern. */
  method Matches(text: seq<Octet>, match_: seq<Octet>, outIndex: nat, hasher: KarpRabinHash, matchHash: nat)
      returns (found: bool)
    requires outIndex + |match_| <= |text| && hasher.Holds(text[outIndex..outIndex + |match_|])
    requires matchHash == WindowHash(hasher.table, match_, hasher.wordSize)
    ensures found <==> OccursAt(text, match_, outIndex)
  {
    found := false;
    if hasher.GetHashValue() == matchHash {
      found := Same(text, match_, outIndex);
    }
  }

  /** Takes in the first characters of the text. */
  method EatFirst(text: seq<Octet>, n: nat, hasher: KarpRabinHash)
    requires n <= |text| + 1 && hasher.Valid() && hasher.Holds([])
    modifies hasher`hashValue
    ensures hasher.Valid() && (n <= |text| ==> hasher.Holds(text[0..n]))
  {
    ghost var padded := text + [0];
    var inIndex: nat := 0;
    while inIndex < n
      invariant inIndex <= n && hasher.Valid() && hasher.Holds(padded[..inIndex])
    {
      hasher.Eat(At(text, inIndex), padded[..inIndex]);
      assert padded[..inIndex + 1] == padded[..inIndex] + [At(text, inIndex)];
      inIndex := inIndex + 1;
    }
    assert n <= |text| ==> padded[..n] == text[0..n];
  }

  /**
    The positions at which the program reports a match, for any table of characters: exactly the occurrences, in
    order.  A pattern longer than the text and its final zero is read past the end.
   */
  method FindMatches(text: seq<Octet>, match_: seq<Octet>, table: Table, wordSize: nat) returns (found: seq<nat>)
    requires 1 <= wordSize <= 32 && |match_| <= |text| + 1
    ensures forall i: nat :: i in found <==> i + |match_| <= |text| && text[i..i + |match_|] == match_
    ensures forall i, j :: 0 <= i < j < |found| ==> found[i] < found[j]
  {
    found := Scan(text, match_, table, wordSize);
  }

  method Scan(text: seq<Octet>, match_: seq<Octet>, table: Table, wordSize: nat) returns (found: seq<nat>)
    requires 1 <= wordSize <= 32 && |match_| <= |text| + 1
    ensures Reported(text, match_, found, if |match_| <= |text| then |text| + 1 - |match_| else 0)
  {
    hide OccursAt, WindowHash, Reported;
    var matchHash := GetStringHash(table, match_, wordSize);
    var hasher: KarpRabinHash := new KarpRabinHash(table, |match_|, wordSize);
    EatFirst(text, |match_|, hasher);
    var inIndex, outIndex: nat := |match_|, 0;
    found := [];
    NoneReported(text, match_);
    while inIndex <= |text|
      invariant inIndex == outIndex + |match_| <= |text| + 1 && hasher.Valid()
      invariant inIndex <= |text| ==> hasher.Holds(text[outIndex..inIndex])
      invariant Reported(text, match_, found, outIndex)
      decreases |text| - inIndex
      modifies hasher`hashValue
    {
      ReportNext(text, match_, found, outIndex);
      var same := Matches(text, match_, outIndex, hasher, matchHash);
      if same {
        found := found + [outIndex];
      }
      if inIndex < |text| {
        ghost var w := text[outIndex..inIndex];
        assert (w + [text[inIndex]])[1..] == text[outIndex + 1..inIndex + 1];
        assert w + [text[inIndex]] == text[outIndex..inIndex + 1];
        var _ := hasher.Update(text[outIndex], text[inIndex], w);
      }
      inIndex, outIndex := inIndex + 1, outIndex + 1;
    }
  }
}
