/** Base64 as in section 4 of RFC 4648, and the loops that encode and decode it. */
module Base64 {

  type Octet = n: nat | n < 0x100
  type Sextet = n: nat | n < 64

  // ----- the alphabet

  /** Digit `d` of the alphabet: upper case, lower case, decimal digits, plus and slash. */
  function Digit(d: Sextet): char {
    if d < 26 then (d + 65) as char
    else if d < 52 then (d + 71) as char
    else if d < 62 then (d - 4) as char
    else if d == 62 then '+' else '/'
  }

  predicate IsAlnum(c: char) {
    'A' <= c <= 'Z' || 'a' <= c <= 'z' || '0' <= c <= '9'
  }

  predicate IsBase64(c: char) {
    IsAlnum(c) || c == '+' || c == '/'
  }

  /** The place of a character in the alphabet.  The source cuts the result of a failed search to an octet. */
  const NOT_FOUND: Octet := 0xFF

  function Find(c: char): Octet {
    if 'A' <= c <= 'Z' then c as int - 65
    else if 'a' <= c <= 'z' then c as int - 71
    else if '0' <= c <= '9' then c as int + 4
    else if c == '+' then 62
    else if c == '/' then 63
    else NOT_FOUND
  }

  lemma FindDigit(d: Sextet)
    ensures Find(Digit(d)) == d && IsBase64(Digit(d)) && Digit(d) != '='
  {
  }

  /** The alphabet of table 1 of RFC 4648, in order. */
  lemma AlphabetInOrder(d: Sextet)
    ensures d < 26 ==> Digit(d) == "ABCDEFGHIJKLMNOPQRSTUVWXYZ"[d]
    ensures 26 <= d < 52 ==> Digit(d) == "abcdefghijklmnopqrstuvwxyz"[d - 26]
    ensures 52 <= d ==> Digit(d) == "0123456789+/"[d - 52]
  {
  }

  lemma FindIsSextet(c: char)
    ensures Find(c) < 64 <==> IsBase64(c)
    ensures IsBase64(c) ==> Digit(Find(c)) == c
  {
  }

  // ----- the definition: groups of 24 bits

  type Bits24 = n: nat | n < 0x100_0000

  function JoinOctets(a: Octet, b: Octet, c: Octet): Bits24 {
    a * 0x1_0000 + b * 0x100 + c
  }

  function JoinSextets(a: Sextet, b: Sextet, c: Sextet, d: Sextet): Bits24 {
    a * 0x4_0000 + b * 0x1000 + c * 64 + d
  }

  function Sextets(n: Bits24): (s: seq<Sextet>)
    ensures |s| == 4
  {
    [n / 0x4_0000, n / 0x1000 % 64, n / 64 % 64, n % 64]
  }

  function Octets(n: Bits24): (o: seq<Octet>)
    ensures |o| == 3
  {
    [n / 0x1_0000, n / 0x100 % 0x100, n % 0x100]
  }

  lemma OctetsOfJoin(a: Octet, b: Octet, c: Octet)
    ensures Octets(JoinOctets(a, b, c)) == [a, b, c]
  {
    OctetsOf(a, b, c, JoinOctets(a, b, c));
  }

  lemma OctetsOf(a: Octet, b: Octet, c: Octet, n: nat)
    requires n == a * 0x1_0000 + b * 0x100 + c
    ensures n / 0x1_0000 == a && n / 0x100 % 0x100 == b && n % 0x100 == c
  {
    var m := a * 0x100 + b;
    assert n == m * 0x100 + c;
    assert n / 0x100 == m && n % 0x100 == c;
    assert m / 0x100 == a && m % 0x100 == b;
    assert n / 0x1_0000 == n / 0x100 / 0x100;
  }

  lemma JoinOfSextets(n: Bits24)
    ensures var s := Sextets(n); JoinSextets(s[0], s[1], s[2], s[3]) == n
  {
    assert n == n / 64 * 64 + n % 64;
    assert n / 64 / 64 == n / 0x1000 && n / 0x1000 / 64 == n / 0x4_0000;
    assert n / 64 == n / 0x1000 * 64 + n / 64 % 64;
    assert n / 0x1000 == n / 0x4_0000 * 64 + n / 0x1000 % 64;
  }

  function Digits(s: seq<Sextet>): (r: string)
    ensures |r| == |s|
  {
    seq(|s|, i requires 0 <= i < |s| => Digit(s[i]))
  }

  /** Zero bits fill up the last group, and `=` stands for the digits that hold no bit of the input. */
  function Encoding(x: seq<Octet>): string {
    if |x| == 0 then ""
    else if |x| == 1 then Digits(Sextets(JoinOctets(x[0], 0, 0))[..2]) + "=="
    else if |x| == 2 then Digits(Sextets(JoinOctets(x[0], x[1], 0))[..3]) + "="
    else Digits(Sextets(JoinOctets(x[0], x[1], x[2]))) + Encoding(x[3..])
  }

  lemma {:induction false} EncodingLength(x: seq<Octet>)
    ensures |Encoding(x)| == 4 * ((|x| + 2) / 3)
  {
    hide Sextets, JoinOctets, Digits;
    if 3 <= |x| {
      EncodingLength(x[3..]);
    }
  }

  // ----- the definition of decoding, for every string

  /** The characters before the first that is not in the alphabet. */
  function Clean(s: string): (c: string)
    ensures c <= s
  {
    if s == "" || !IsBase64(s[0]) then "" else
      assert [s[0]] + Clean(s[1..]) <= [s[0]] + s[1..];
      [s[0]] + Clean(s[1..])
  }

  predicate AllBase64(s: string) {
    forall i :: 0 <= i < |s| ==> IsBase64(s[i])
  }

  function FindAll(s: string): (d: seq<Sextet>)
    requires AllBase64(s)
    ensures |d| == |s|
  {
    seq(|s|, i requires 0 <= i < |s| => Find(s[i]))
  }

  /** A last group of fewer digits gives one octet fewer than digits. */
  function DecodingOf(d: seq<Sextet>): seq<Octet> {
    if |d| <= 1 then []
    else if |d| == 2 then Octets(JoinSextets(d[0], d[1], 0, 0))[..1]
    else if |d| == 3 then Octets(JoinSextets(d[0], d[1], d[2], 0))[..2]
    else Octets(JoinSextets(d[0], d[1], d[2], d[3])) + DecodingOf(d[4..])
  }

  lemma CleanIsBase64(s: string)
    ensures AllBase64(Clean(s))
  {
  }

  function Decoding(s: string): seq<Octet> {
    CleanIsBase64(s);
    DecodingOf(FindAll(Clean(s)))
  }

  /** The masks and shifts of the source. */
  lemma ShiftedOctets(a: Octet, b: Octet, c: Octet)
    ensures Sextets(JoinOctets(a, b, c)) == [a / 4, a % 4 * 16 + b / 16, b % 16 * 4 + c / 64, c % 64]
  {
    var n, l, m := JoinOctets(a, b, c), a * 0x400 + b * 4 + c / 64, a * 16 + b / 16;
    CutSextet(n, l, c % 64);
    CutSextet(l, m, b % 16 * 4 + c / 64);
    CutSextet(m, a / 4, a % 4 * 16 + b / 16);
    assert n / 0x1000 == l / 64 && n / 0x4_0000 == m / 64;
  }

  lemma CutSextet(n: nat, q: nat, r: nat)
    requires n == q * 64 + r && r < 64
    ensures n / 64 == q && n % 64 == r
  {
  }

  // ----- the round trip

  lemma CleanStops(rest: string)
    requires rest == "" || rest[0] == '='
    ensures Clean(rest) == ""
  {
  }

  lemma CleanStep(s: string)
    requires s != "" && IsBase64(s[0])
    ensures Clean(s) == [s[0]] + Clean(s[1..])
  {
  }

  lemma CleanDigits(d: seq<Sextet>, rest: string)
    requires rest == "" || rest[0] == '='
    ensures Clean(Digits(d) + rest) == Digits(d)
  {
    hide Digit, IsBase64, Clean;
    var s := Digits(d) + rest;
    if d == [] {
      assert s == rest;
      CleanStops(rest);
    } else {
      FindDigit(d[0]);
      CleanDigits(d[1..], rest);
      assert s[1..] == Digits(d[1..]) + rest;
      CleanStep(s);
      assert Digits(d) == [s[0]] + Digits(d[1..]);
    }
  }

  lemma FindAllDigits(d: seq<Sextet>)
    ensures AllBase64(Digits(d)) && FindAll(Digits(d)) == d
  {
    forall i | 0 <= i < |d| ensures IsBase64(Digit(d[i])) && Find(Digit(d[i])) == d[i] {
      FindDigit(d[i]);
    }
  }

  /** The digits of an encoding, and the padding after them. */
  function DigitsOf(x: seq<Octet>): seq<Sextet> {
    if |x| == 0 then []
    else if |x| == 1 then Sextets(JoinOctets(x[0], 0, 0))[..2]
    else if |x| == 2 then Sextets(JoinOctets(x[0], x[1], 0))[..3]
    else Sextets(JoinOctets(x[0], x[1], x[2])) + DigitsOf(x[3..])
  }

  function PaddingOf(x: seq<Octet>): (p: string)
    ensures p == "" || p[0] == '='
  {
    if |x| % 3 == 1 then "==" else if |x| % 3 == 2 then "=" else ""
  }

  lemma DigitsConcat(d: seq<Sextet>, e: seq<Sextet>)
    ensures Digits(d + e) == Digits(d) + Digits(e)
  {
  }

  lemma {:induction false} EncodingIsDigits(x: seq<Octet>)
    ensures Encoding(x) == Digits(DigitsOf(x)) + PaddingOf(x)
  {
    hide Sextets, Digits, JoinOctets;
    if |x| == 0 {
      assert Digits([]) == "";
    } else if 3 <= |x| {
      EncodingIsDigits(x[3..]);
      DigitsConcat(Sextets(JoinOctets(x[0], x[1], x[2])), DigitsOf(x[3..]));
    }
  }

  lemma PartialOne(a: Octet)
    ensures var s := Sextets(JoinOctets(a, 0, 0)); Octets(JoinSextets(s[0], s[1], 0, 0))[..1] == [a]
  {
    hide Octets, Sextets, JoinOctets, JoinSextets;
    ShiftedOctets(a, 0, 0);
    JoinOfSextets(JoinOctets(a, 0, 0));
    OctetsOfJoin(a, 0, 0);
  }

  lemma PartialTwo(a: Octet, b: Octet)
    ensures var s := Sextets(JoinOctets(a, b, 0)); Octets(JoinSextets(s[0], s[1], s[2], 0))[..2] == [a, b]
  {
    hide Octets, Sextets, JoinOctets, JoinSextets;
    ShiftedOctets(a, b, 0);
    JoinOfSextets(JoinOctets(a, b, 0));
    OctetsOfJoin(a, b, 0);
  }

  lemma {:induction false} DecodingOfDigits(x: seq<Octet>)
    ensures DecodingOf(DigitsOf(x)) == x
  {
    hide Sextets, JoinOctets, JoinSextets, Octets;
    if |x| == 1 {
      PartialOne(x[0]);
    } else if |x| == 2 {
      PartialTwo(x[0], x[1]);
    } else if 3 <= |x| {
      var n := JoinOctets(x[0], x[1], x[2]);
      JoinOfSextets(n);
      OctetsOfJoin(x[0], x[1], x[2]);
      DecodingOfDigits(x[3..]);
      assert (Sextets(n) + DigitsOf(x[3..]))[4..] == DigitsOf(x[3..]);
      assert [x[0], x[1], x[2]] + x[3..] == x;
    }
  }

  /** Decoding undoes encoding. */
  lemma RoundTrip(x: seq<Octet>)
    ensures Decoding(Encoding(x)) == x
  {
    EncodingIsDigits(x);
    CleanDigits(DigitsOf(x), PaddingOf(x));
    FindAllDigits(DigitsOf(x));
    DecodingOfDigits(x);
  }

  /** Only what comes before the first character outside of the alphabet is decoded. */
  lemma DecodingStops(s: string, c: char, rest: string)
    requires !IsBase64(c)
    ensures Decoding(s + ([c] + rest)) == Decoding(s)
  {
    CleanStopsAt(s, c, rest);
  }

  lemma {:induction false} CleanStopsAt(s: string, c: char, rest: string)
    requires !IsBase64(c)
    ensures Clean(s + ([c] + rest)) == Clean(s)
  {
    hide IsBase64;
    var t := s + ([c] + rest);
    if s == "" {
      assert t[0] == c;
    } else {
      assert t[1..] == s[1..] + ([c] + rest);
      CleanStopsAt(s[1..], c, rest);
    }
  }

  /** Every four characters of the alphabet give three octets; of two or three more come one or two. */
  lemma DecodingLength(s: string)
    requires AllBase64(s)
    ensures |Decoding(s)| == 3 * |s| / 4
  {
    hide IsBase64, DecodingOf;
    CleanIs(s, |s|);
    assert s[..|s|] == s;
    DecodingOfLength(FindAll(s));
  }

  lemma {:induction false} DecodingOfLength(d: seq<Sextet>)
    ensures |DecodingOf(d)| == 3 * |d| / 4
  {
    hide Octets, JoinSextets;
    if 4 <= |d| {
      DecodingOfLength(d[4..]);
    }
  }

  // ----- the encoding loop

  /** The four digits of three octets. */
  method EncodeThree(charArray3: array<Octet>, charArray4: array<Sextet>)
    requires charArray3.Length == 3 && charArray4.Length == 4
    modifies charArray4
    ensures charArray4[..] == Sextets(JoinOctets(charArray3[0], charArray3[1], charArray3[2]))
  {
    ShiftedOctets(charArray3[0], charArray3[1], charArray3[2]);
    charArray4[0] := charArray3[0] / 4;
    charArray4[1] := charArray3[0] % 4 * 16 + charArray3[1] / 16;
    charArray4[2] := charArray3[1] % 16 * 4 + charArray3[2] / 64;
    charArray4[3] := charArray3[2] % 64;
  }

  lemma Assoc<T>(a: seq<T>, b: seq<T>, c: seq<T>)
    ensures (a + b) + c == a + (b + c)
  {
  }

  function EncodedGroup(x: seq<Octet>): string
    requires 3 <= |x|
  {
    Digits(Sextets(JoinOctets(x[0], x[1], x[2])))
  }

  lemma FirstGroup(x: seq<Octet>)
    requires 3 <= |x|
    ensures Encoding(x) == EncodedGroup(x) + Encoding(x[3..])
  {
  }

  lemma {:induction false} EncodingConcat(x: seq<Octet>, y: seq<Octet>)
    requires |x| % 3 == 0
    ensures Encoding(x + y) == Encoding(x) + Encoding(y)
  {
    hide Encoding, EncodedGroup;
    if x == [] {
      assert x + y == y;
      EncodingOfNone();
    } else {
      EncodingConcat(x[3..], y);
      assert (x + y)[3..] == x[3..] + y;
      FirstGroup(x + y);
      FirstGroup(x);
      SameGroup(x, y);
      Assoc(EncodedGroup(x), Encoding(x[3..]), Encoding(y));
    }
  }

  lemma SameGroup(x: seq<Octet>, y: seq<Octet>)
    requires 3 <= |x|
    ensures EncodedGroup(x + y) == EncodedGroup(x)
  {
    hide Digits, Sextets, JoinOctets;
  }

  method Append(ret: string, charArray4: array<Sextet>, n: nat) returns (r: string)
    requires n <= charArray4.Length
    ensures r == ret + Digits(charArray4[..n])
  {
    r := ret;
    for i := 0 to n
      invariant r == ret + Digits(charArray4[..i])
    {
      assert Digits(charArray4[..i + 1]) == Digits(charArray4[..i]) + [Digit(charArray4[i])];
      r := r + [Digit(charArray4[i])];
    }
  }

  /** The last group, when it is not whole. */
  method EncodeRest(ghost buf: seq<Octet>, ret: string, charArray3: array<Octet>, charArray4: array<Sextet>, n: nat)
      returns (r: string)
    requires charArray3.Length == 3 && charArray4.Length == 4
    requires n < 3 && n <= |buf| && (|buf| - n) % 3 == 0
    requires forall j :: 0 <= j < n ==> charArray3[j] == buf[|buf| - n + j]
    requires ret == Encoding(buf[..|buf| - n])
    modifies charArray3, charArray4
    ensures r == Encoding(buf)
  {
    hide Encoding, Digits, Sextets, JoinOctets;
    r := ret;
    RestEncoding(buf, n);
    var i := n;
    if i != 0 {
      for j := i to 3
        invariant forall k :: 0 <= k < n ==> charArray3[k] == buf[|buf| - n + k]
        invariant forall k :: n <= k < j ==> charArray3[k] == 0
      {
        charArray3[j] := 0;
      }
      EncodeThree(charArray3, charArray4);
      r := Append(r, charArray4, i + 1);
      while i < 3
        invariant i <= 3
        invariant r == ret + Digits(charArray4[..n + 1]) + Equals(i - n)
      {
        r := r + "=";
        i := i + 1;
      }
    }
  }

  function Equals(n: nat): string {
    seq(n, _ => '=')
  }

  lemma RestEncoding(buf: seq<Octet>, n: nat)
    requires n < 3 && n <= |buf| && (|buf| - n) % 3 == 0
    ensures var whole, k := Encoding(buf[..|buf| - n]), |buf| - n;
            var last := if n == 0 then "" else
              Digits(Sextets(JoinOctets(buf[k], if n == 1 then 0 else buf[k + 1], 0))[..n + 1]) + Equals(3 - n);
            Encoding(buf) == whole + last
  {
    hide Digits, Sextets, JoinOctets, Encoding;
    var k := |buf| - n;
    assert buf == buf[..k] + buf[k..];
    EncodingConcat(buf[..k], buf[k..]);
    ShortEncoding(buf[k..]);
  }

  lemma ShortEncoding(x: seq<Octet>)
    requires |x| < 3
    ensures Encoding(x) == if x == [] then "" else
      Digits(Sextets(JoinOctets(x[0], if |x| == 1 then 0 else x[1], 0))[..|x| + 1]) + Equals(3 - |x|)
  {
    hide Digits, Sextets, JoinOctets;
    assert Equals(2) == "==" && Equals(1) == "=";
  }

  method Encode(buf: seq<Octet>) returns (ret: string)
    ensures ret == Encoding(buf)
  {
    hide Encoding, Digits, Digit, Sextets, JoinOctets;
    ret := "";
    var i, k: nat := 0, 0;
    ghost var base: nat := 0;
    var charArray3 := new Octet[3];
    var charArray4 := new Sextet[4];
    EncodingOfNone();
    while k < |buf|
      invariant base + i == k <= |buf| && i < 3 && base % 3 == 0
      invariant forall j :: 0 <= j < i ==> charArray3[j] == buf[base + j]
      invariant ret == Encoding(buf[..base])
    {
      charArray3[i] := buf[k];
      i, k := i + 1, k + 1;
      if i == 3 {
        EncodeThree(charArray3, charArray4);
        assert charArray4[..4] == charArray4[..];
        GroupDone(buf, k, charArray3[0], charArray3[1], charArray3[2]);
        ret := Append(ret, charArray4, 4);
        i, base := 0, k;
      }
    }
    ret := EncodeRest(buf, ret, charArray3, charArray4, i);
  }

  lemma EncodingOfNone()
    ensures Encoding([]) == ""
  {
  }

  lemma GroupDone(buf: seq<Octet>, k: nat, a: Octet, b: Octet, c: Octet)
    requires 3 <= k <= |buf| && k % 3 == 0 && [a, b, c] == buf[k - 3..k]
    ensures Encoding(buf[..k]) == Encoding(buf[..k - 3]) + Digits(Sextets(JoinOctets(a, b, c)))
  {
    hide Digits, Sextets, JoinOctets;
    assert buf[..k] == buf[..k - 3] + [a, b, c];
    EncodingConcat(buf[..k - 3], [a, b, c]);
    assert Encoding([a, b, c][3..]) == "";
  }

  // ----- examples: section 10 of RFC 4648

  lemma Foo()
    ensures Encoding([0x66, 0x6F, 0x6F]) == "Zm9v"
  {
    ShiftedOctets(0x66, 0x6F, 0x6F);
    hide Sextets, JoinOctets;
  }

  lemma B()
    ensures Encoding([0x62]) == "Yg=="
  {
    ShiftedOctets(0x62, 0, 0);
    hide Sextets, JoinOctets;
  }

  lemma Ba()
    ensures Encoding([0x62, 0x61]) == "YmE="
  {
    ShiftedOctets(0x62, 0x61, 0);
    hide Sextets, JoinOctets;
  }

  lemma Bar()
    ensures Encoding([0x62, 0x61, 0x72]) == "YmFy"
  {
    ShiftedOctets(0x62, 0x61, 0x72);
    hide Sextets, JoinOctets;
  }

  /** The encodings of "foo", "foob", "fooba" and "foobar". */
  lemma Examples()
    ensures var foo: seq<Octet> := [0x66, 0x6F, 0x6F];
      && Encoding(foo) == "Zm9v"
      && Encoding(foo + [0x62]) == "Zm9vYg=="
      && Encoding(foo + [0x62, 0x61]) == "Zm9vYmE="
      && Encoding(foo + [0x62, 0x61, 0x72]) == "Zm9vYmFy"
  {
    hide Encoding;
    var foo: seq<Octet> := [0x66, 0x6F, 0x6F];
    Foo();
    B();
    Ba();
    Bar();
    EncodingConcat(foo, [0x62]);
    EncodingConcat(foo, [0x62, 0x61]);
    EncodingConcat(foo, [0x62, 0x61, 0x72]);
  }

  // ----- the decoding loop

  lemma ShiftedSextets(a: Sextet, b: Sextet, c: Sextet, d: Sextet)
    ensures Octets(JoinSextets(a, b, c, d)) == [a * 4 + b / 16, b % 16 * 16 + c / 4, c % 4 * 64 + d]
  {
    var n := JoinSextets(a, b, c, d);
    var x, y, z := a * 4 + b / 16, b % 16 * 16 + c / 4, c % 4 * 64 + d;
    assert n == (x * 0x100 + y) * 0x100 + z;
    CutOctet(n, x * 0x100 + y, z);
    CutOctet(x * 0x100 + y, x, y);
    assert n / 0x1_0000 == n / 0x100 / 0x100;
  }

  lemma CutOctet(n: nat, q: nat, r: nat)
    requires n == q * 0x100 + r && r < 0x100
    ensures n / 0x100 == q && n % 0x100 == r
  {
  }

  /** Three octets of four digits.  A digit that was not found is 0xFF, and then what it touches is garbage. */
  method DecodeFour(charArray4: array<Octet>, charArray3: array<Octet>)
    requires charArray4.Length == 4 && charArray3.Length == 3
    modifies charArray3
    ensures var a, b, c, d := charArray4[0], charArray4[1], charArray4[2], charArray4[3];
      && (a < 64 && b < 64 ==> charArray3[0] == Octets(JoinSextets(a, b, 0, 0))[0])
      && (a < 64 && b < 64 && c < 64 ==> charArray3[..2] == Octets(JoinSextets(a, b, c, 0))[..2])
      && (a < 64 && b < 64 && c < 64 && d < 64 ==> charArray3[..] == Octets(JoinSextets(a, b, c, d)))
  {
    hide Octets, JoinSextets;
    var a: nat, b: nat, c: nat, d: nat := charArray4[0], charArray4[1], charArray4[2], charArray4[3];
    charArray3[0] := (a * 4 + b / 16 % 4) % 0x100;
    charArray3[1] := (b % 16 * 16 + c / 4 % 16) % 0x100;
    charArray3[2] := (c % 4 * 64 + d) % 0x100;
    DecodedFour(a, b, c, d, charArray3[..]);
  }

  /** Digits overflow no octet. */
  lemma FirstOctet(a: nat, b: nat)
    requires a < 64 && b < 64
    ensures (a * 4 + b / 16 % 4) % 0x100 == a * 4 + b / 16
  {
  }

  lemma SecondOctet(b: nat, c: nat)
    requires c < 64
    ensures (b % 16 * 16 + c / 4 % 16) % 0x100 == b % 16 * 16 + c / 4
  {
  }

  lemma ThirdOctet(c: nat, d: nat)
    requires d < 64
    ensures (c % 4 * 64 + d) % 0x100 == c % 4 * 64 + d
  {
  }

  lemma DecodedFour(a: Octet, b: Octet, c: Octet, d: Octet, o: seq<Octet>)
    requires |o| == 3 && o[0] == (a as nat * 4 + b / 16 % 4) % 0x100
    requires o[1] == (b as nat % 16 * 16 + c / 4 % 16) % 0x100 && o[2] == (c as nat % 4 * 64 + d) % 0x100
    ensures a < 64 && b < 64 ==> o[0] == Octets(JoinSextets(a, b, 0, 0))[0]
    ensures a < 64 && b < 64 && c < 64 ==> o[..2] == Octets(JoinSextets(a, b, c, 0))[..2]
    ensures a < 64 && b < 64 && c < 64 && d < 64 ==> o == Octets(JoinSextets(a, b, c, d))
  {
    hide Octets, JoinSextets;
    if a < 64 && b < 64 {
      FirstOctet(a, b);
      ShiftedSextets(a, b, 0, 0);
      if c < 64 {
        SecondOctet(b, c);
        ShiftedSextets(a, b, c, 0);
        if d < 64 {
          ThirdOctet(c, d);
          ShiftedSextets(a, b, c, d);
        }
      }
    }
  }

  /** Every character is replaced by its place in the alphabet. */
  method FindEach(charArray4: array<Octet>)
    requires charArray4.Length == 4
    modifies charArray4
    ensures forall j :: 0 <= j < 4 ==> charArray4[j] == Find(old(charArray4[j]) as char)
  {
    hide Find;
    for i := 0 to 4
      invariant forall j :: 0 <= j < 4 ==>
        charArray4[j] == if j < i then Find(old(charArray4[j]) as char) else old(charArray4[j])
    {
      charArray4[i] := Find(charArray4[i] as char);
    }
  }

  lemma FirstFour(d: seq<Sextet>)
    requires 4 <= |d|
    ensures DecodingOf(d) == Octets(JoinSextets(d[0], d[1], d[2], d[3])) + DecodingOf(d[4..])
  {
  }

  lemma {:induction false} DecodingConcat(d: seq<Sextet>, e: seq<Sextet>)
    requires |d| % 4 == 0
    ensures DecodingOf(d + e) == DecodingOf(d) + DecodingOf(e)
  {
    hide DecodingOf, Octets, JoinSextets;
    if d == [] {
      assert d + e == e;
      DecodingOfNone();
    } else {
      DecodingConcat(d[4..], e);
      assert (d + e)[4..] == d[4..] + e;
      FirstFour(d + e);
      FirstFour(d);
      Assoc(Octets(JoinSextets(d[0], d[1], d[2], d[3])), DecodingOf(d[4..]), DecodingOf(e));
    }
  }

  lemma DecodingOfNone()
    ensures DecodingOf([]) == []
  {
  }

  /** Four characters more are decoded. */
  lemma FourDone(s: string, k: nat)
    requires 4 <= k <= |s| && k % 4 == 0 && AllBase64(s[..k])
    ensures AllBase64(s[..k - 4]) && forall j :: k - 4 <= j < k ==> Find(s[j]) < 64
    ensures DecodingOf(FindAll(s[..k]))
         == DecodingOf(FindAll(s[..k - 4]))
            + Octets(JoinSextets(Find(s[k - 4]), Find(s[k - 3]), Find(s[k - 2]), Find(s[k - 1])))
  {
    hide Find, DecodingOf, Octets, JoinSextets, IsBase64;
    forall j | 0 <= j < k ensures IsBase64(s[j]) && Find(s[j]) < 64 {
      assert IsBase64(s[..k][j]);
      FindIsSextet(s[j]);
    }
    var d, e := FindAll(s[..k - 4]), [Find(s[k - 4]), Find(s[k - 3]), Find(s[k - 2]), Find(s[k - 1])];
    assert FindAll(s[..k]) == d + e;
    DecodingConcat(d, e);
    FirstFour(e);
    DecodingOfNone();
    assert e[4..] == [];
  }

  /** The characters read so far are kept, and the next one is not. */
  lemma CleanIs(s: string, k: nat)
    requires k <= |s| && AllBase64(s[..k]) && (k == |s| || !IsBase64(s[k]))
    ensures Clean(s) == s[..k]
    decreases k
  {
    hide IsBase64;
    if k != 0 {
      assert IsBase64(s[..k][0]);
      var t := s[1..][..k - 1];
      forall j | 0 <= j < |t| ensures IsBase64(t[j]) {
        assert IsBase64(s[..k][j + 1]);
      }
      CleanIs(s[1..], k - 1);
      assert t == s[1..k];
    }
  }

  /** What the last group of fewer than four characters gives. */
  lemma RestDecoding(s: string, k: nat, n: nat)
    requires n < 4 && n <= k <= |s| && (k - n) % 4 == 0 && AllBase64(s[..k])
    ensures AllBase64(s[..k - n]) && forall j :: k - n <= j < k ==> Find(s[j]) < 64
    ensures var whole := DecodingOf(FindAll(s[..k - n]));
            DecodingOf(FindAll(s[..k]))
            == whole + if n <= 1 then [] else
                 var c: Sextet := if n == 3 then Find(s[k - 1]) else 0;
                 Octets(JoinSextets(Find(s[k - n]), Find(s[k - n + 1]), c, 0))[..n - 1]
  {
    hide Find, DecodingOf, Octets, JoinSextets, IsBase64;
    forall j | 0 <= j < k ensures IsBase64(s[j]) && Find(s[j]) < 64 {
      assert IsBase64(s[..k][j]);
      FindIsSextet(s[j]);
    }
    var d := FindAll(s[..k - n]);
    var e: seq<Sextet> := seq(n, i requires 0 <= i < n => Find(s[k - n + i]));
    assert FindAll(s[..k]) == d + e;
    DecodingConcat(d, e);
    ShortDecoding(e);
  }

  lemma ShortDecoding(e: seq<Sextet>)
    requires |e| < 4
    ensures DecodingOf(e) == if |e| <= 1 then [] else
              Octets(JoinSextets(e[0], e[1], if |e| == 3 then e[2] else 0, 0))[..|e| - 1]
  {
  }

  method DecodeRest(ghost s: string, ghost k: nat, ret: seq<Octet>, charArray4: array<Octet>, charArray3: array<Octet>,
                    n: nat) returns (r: seq<Octet>)
    requires charArray4.Length == 4 && charArray3.Length == 3 && charArray3 != charArray4
    requires n < 4 && n <= k <= |s| && (k - n) % 4 == 0 && AllBase64(s[..k])
    requires forall j :: 0 <= j < n ==> charArray4[j] as char == s[k - n + j]
    requires AllBase64(s[..k - n]) && ret == DecodingOf(FindAll(s[..k - n]))
    modifies charArray4, charArray3
    ensures r == DecodingOf(FindAll(s[..k]))
  {
    hide Find, DecodingOf, Octets, JoinSextets, IsBase64, FindAll;
    RestDecoding(s, k, n);
    r := ret;
    if n != 0 {
      for j := n to 4
        invariant forall j :: 0 <= j < n ==> charArray4[j] as char == s[k - n + j]
      {
        charArray4[j] := 0;
      }
      FindEach(charArray4);
      DecodeFour(charArray4, charArray3);
      ghost var last := charArray3[..n - 1];
      for j := 0 to n - 1
        invariant r == ret + last[..j]
        modifies {}
      {
        r := r + [charArray3[j]];
      }
    }
  }

  method Decode(encodedString: string) returns (ret: seq<Octet>)
    ensures ret == Decoding(encodedString)
  {
    hide Find, DecodingOf, Octets, JoinSextets, IsBase64, Clean, FindAll;
    var s := encodedString;
    var i, k: nat := 0, 0;
    var charArray4 := new Octet[4];
    var charArray3 := new Octet[3];
    ret := [];
    DecodingOfNone();
    EmptyFindAll();
    while k < |s| && s[k] != '=' && IsBase64(s[k])
      invariant i <= k <= |s| && i < 4 && (k - i) % 4 == 0 && AllBase64(s[..k])
      invariant forall j :: 0 <= j < i ==> charArray4[j] as char == s[k - i + j]
      invariant AllBase64(s[..k - i]) && ret == DecodingOf(FindAll(s[..k - i]))
    {
      IsOctet(s[k]);
      charArray4[i] := s[k] as Octet;
      i, k := i + 1, k + 1;
      assert AllBase64(s[..k]);
      if i == 4 {
        FindEach(charArray4);
        DecodeFour(charArray4, charArray3);
        FourDone(s, k);
        ret := ret + charArray3[..];
        i := 0;
      }
    }
    EqualsIsNoDigit();
    CleanIs(s, k);
    ret := DecodeRest(s, k, ret, charArray4, charArray3, i);
  }

  lemma EmptyFindAll()
    ensures FindAll("") == []
  {
  }

  lemma IsOctet(c: char)
    requires IsBase64(c)
    ensures c as int < 0x100
  {
  }

  lemma EqualsIsNoDigit()
    ensures !IsBase64('=')
  {
  }
}
