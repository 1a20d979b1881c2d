/**
  Queries: formulas of comparisons joined by && and ||, their token strings, and the proof that
  shunting-yard followed by a stack machine computes what the formula means.
 */
module CityQuery {
  import opened Tokens
  import Decimals
  import Words

  datatype City = City(name: string, lowTemp: int, highTemp: int, lowHum: int, highHum: int)

  /** The stored cities by primary key. */
  type Rows = map<int, City>

  const TEMPERATURE := "T"
  const HUMIDITY := "H"
  const CITY_KEYWORDS := [TEMPERATURE, HUMIDITY]

  const INT64_MAX: int := 0x7FFF_FFFF_FFFF_FFFF
  const INT64_MIN: int := -0x8000_0000_0000_0000

  // ----- numbers

  predicate IsDigit(c: char) {
    '0' <= c <= '9'
  }

  /** The value of the leading digits of s; what follows them is ignored. */
  function Digits(s: string, value: int): int
    decreases |s|
  {
    if s == "" || !IsDigit(s[0]) then value
    else Digits(s[1..], 10 * value + (s[0] as int - '0' as int))
  }

  /** What queryOperator asserts about the text of a value. */
  predicate HasNumber(s: string) {
    s != "" && if s[0] in "+-" then |s| > 1 && IsDigit(s[1]) else IsDigit(s[0])
  }

  function NumberOf(s: string): int
    requires HasNumber(s)
  {
    if s[0] == '-' then -Digits(s[1..], 0)
    else if s[0] == '+' then Digits(s[1..], 0)
    else Digits(s, 0)
  }

  /** One digit more: ten times the number, and the digit. */
  lemma {:induction false} DigitsAppend(s: string, c: char, value: int)
    requires IsDigit(c) && forall i :: 0 <= i < |s| ==> IsDigit(s[i])
    ensures Digits(s + [c], value) == 10 * Digits(s, value) + (c as int - '0' as int)
  {
    if s == "" {
      assert (s + [c])[1..] == "";
    } else {
      assert (s + [c])[1..] == s[1..] + [c];
      DigitsAppend(s[1..], c, 10 * value + (s[0] as int - '0' as int));
    }
  }

  /** Reading stops at the first character that is no digit. */
  lemma {:induction false} DigitsStop(s: string, t: string, value: int)
    requires forall i :: 0 <= i < |s| ==> IsDigit(s[i])
    requires t == "" || !IsDigit(t[0])
    ensures Digits(s + t, value) == Digits(s, value)
  {
    if s == "" {
      assert s + t == t;
    } else {
      assert (s + t)[1..] == s[1..] + t;
      DigitsStop(s[1..], t, 10 * value + (s[0] as int - '0' as int));
    }
  }

  lemma {:induction false} DigitsOfDecimal(n: nat)
    ensures Digits(Decimals.Decimal(n), 0) == n
  {
    var s := Decimals.Decimal(n);
    if n < 10 {
      Decimals.DigitIs(n);
      assert s == "" + s && s[1..] == "";
      assert "0123456789"[n] as int == '0' as int + n;
    } else {
      DigitsOfDecimal(n / 10);
      Decimals.DecimalAppends(n / 10, n % 10);
      assert "0123456789"[n % 10] as int == '0' as int + n % 10;
      DigitsAppend(Decimals.Decimal(n / 10), "0123456789"[n % 10], 0);
    }
  }

  /** A decimal number, with or without a sign and with anything after it, is read as that number. */
  lemma NumberOfDecimal(n: nat, t: string)
    requires t == "" || !IsDigit(t[0])
    ensures var s := Decimals.Decimal(n) + t;
      && HasNumber(s) && NumberOf(s) == n
      && HasNumber("+" + s) && NumberOf("+" + s) == n
      && HasNumber("-" + s) && NumberOf("-" + s) == 0 - n
  {
    var s := Decimals.Decimal(n) + t;
    DigitsOfDecimal(n);
    DigitsStop(Decimals.Decimal(n), t, 0);
    assert IsDigit(s[0]);
    assert ("+" + s)[1..] == s && ("-" + s)[1..] == s;
  }

  // ----- the meaning of a comparison

  predicate InRange(city: City, keyword: string, x: int) {
    if keyword == TEMPERATURE then city.lowTemp <= x < city.highTemp else city.lowHum <= x < city.highHum
  }

  predicate IsComparison(op: TokenType) {
    op in {EQ, LT, LE, GT, GE}
  }

  /** The comparison that the window of an operator makes: the source opens the windows of > and >= at v and v + 1. */
  predicate Compares(op: TokenType, x: int, v: int) {
    match op
    case EQ => x == v
    case LT => x < v
    case LE => x <= v
    case GT => x >= v
    case GE => x > v
    case _ => false
  }

  /** The comparison that the operator's name promises. */
  predicate Promises(op: TokenType, x: int, v: int) {
    match op
    case GT => x > v
    case GE => x >= v
    case _ => Compares(op, x, v)
  }

  /** A city satisfies a comparison when some point of its right-open range does. */
  ghost predicate Satisfies(city: City, keyword: string, op: TokenType, v: int) {
    exists x :: InRange(city, keyword, x) && Compares(op, x, v)
  }

  ghost predicate SatisfiesPromise(city: City, keyword: string, op: TokenType, v: int) {
    exists x :: InRange(city, keyword, x) && Promises(op, x, v)
  }

  function Low(city: City, keyword: string): int {
    if keyword == TEMPERATURE then city.lowTemp else city.lowHum
  }

  function High(city: City, keyword: string): int {
    if keyword == TEMPERATURE then city.highTemp else city.highHum
  }

  /** Both meanings, in terms of where the range begins and ends. */
  lemma SatisfiesWhen(city: City, keyword: string, op: TokenType, v: int)
    requires IsComparison(op)
    ensures var l, h := Low(city, keyword), High(city, keyword);
      && (Satisfies(city, keyword, op, v) <==> l < h && Meets(l, h, op, v))
      && (SatisfiesPromise(city, keyword, op, v)
          <==> l < h && Meets(l, h, if op == GT then GE else if op == GE then GT else op, v))
  {
    var l, h := Low(city, keyword), High(city, keyword);
    if l < h {
      assert InRange(city, keyword, l) && InRange(city, keyword, h - 1);
      assert l <= v < h ==> InRange(city, keyword, v);
      assert Compares(op, l, v) || Compares(op, h - 1, v) || Compares(op, v, v) || !Meets(l, h, op, v);
      var named := if op == GT then GE else if op == GE then GT else op;
      assert Promises(op, l, v) || Promises(op, h - 1, v) || Promises(op, v, v) || !Meets(l, h, named, v);
    }
  }

  /** Whether the window that the source opens for an operator meets a range that is not empty. */
  predicate Meets(low: int, high: int, op: TokenType, v: int) {
    match op
    case EQ => low <= v < high
    case LT => low < v
    case LE => low <= v
    case GT => v < high
    case GE => v + 1 < high
    case _ => false
  }

  // ----- formulas

  datatype Atom = Atom(keyword: string, op: TokenType, value: string, valueFirst: bool)

  /** Groups of atoms joined by &&, the groups joined by ||; && binds tighter. */
  type Formula = seq<seq<Atom>>

  /** Values stay below the largest int64, because the window of == ends at v + 1. */
  predicate WellFormedAtom(a: Atom) {
    && a.keyword in CITY_KEYWORDS
    && IsComparison(a.op)
    && HasNumber(a.value) && INT64_MIN <= NumberOf(a.value) < INT64_MAX
  }

  predicate WellFormedGroup(g: seq<Atom>) {
    forall i :: 0 <= i < |g| ==> WellFormedAtom(g[i])
  }

  predicate WellFormedGroups(q: Formula) {
    forall i :: 0 <= i < |q| ==> q[i] != [] && WellFormedGroup(q[i])
  }

  predicate WellFormed(q: Formula) {
    q != [] && WellFormedGroups(q)
  }

  ghost predicate HoldsAtom(city: City, a: Atom)
    requires WellFormedAtom(a)
  {
    Satisfies(city, a.keyword, a.op, NumberOf(a.value))
  }

  // ----- the meaning that the text promises

  /** The operator with its sides exchanged. */
  function Mirrored(op: TokenType): TokenType {
    match op
    case LT => GT
    case LE => GE
    case GT => LT
    case GE => LE
    case _ => op
  }

  /** In `5 < T` it is the keyword that is to be larger. */
  ghost predicate AtomAsWritten(city: City, a: Atom)
    requires WellFormedAtom(a)
  {
    SatisfiesPromise(city, a.keyword, if a.valueFirst then Mirrored(a.op) else a.op, NumberOf(a.value))
  }

  /**
    Where the answer is the promised one.  With the keyword first, > and >= are wrong just where the range ends above
    the value.  With the value first, the source forgets to exchange the sides, so the range must reach far enough both
    ways.
   */
  predicate Agree(low: int, high: int, op: TokenType, valueFirst: bool, v: int) {
    if high <= low || op == EQ then true
    else if !valueFirst then !((op == GT || op == GE) && high == v + 1)
    else
      match op
      case LT => (low < v && v + 1 < high) || (low == v && high == v + 1)
      case LE => low <= v < high
      case GT => low < v < high
      case _ => low <= v && v + 1 < high
  }

  predicate AgreeFor(city: City, a: Atom)
    requires WellFormedAtom(a)
  {
    Agree(Low(city, a.keyword), High(city, a.keyword), a.op, a.valueFirst, NumberOf(a.value))
  }

  /** For every city and atom: the answer is the one that the text promises exactly there. */
  lemma PromiseKeptExactly(city: City, a: Atom)
    requires WellFormedAtom(a)
    ensures (HoldsAtom(city, a) <==> AtomAsWritten(city, a)) <==> AgreeFor(city, a)
  {
    hide Satisfies, SatisfiesPromise, Low, High, NumberOf, HasNumber;
    SatisfiesWhen(city, a.keyword, a.op, NumberOf(a.value));
    SatisfiesWhen(city, a.keyword, Mirrored(a.op), NumberOf(a.value));
  }

  /** What the code answers for an atom, from the four numbers of the city and the number in the text. */
  lemma AtomInNumbers(city: City, a: Atom)
    requires WellFormedAtom(a)
    ensures a.keyword == "T" || a.keyword == "H"
    ensures var v := NumberOf(a.value);
      var low, high := if a.keyword == "T" then city.lowTemp else city.lowHum,
                       if a.keyword == "T" then city.highTemp else city.highHum;
      HoldsAtom(city, a) <==> low < high && match a.op
        case LT => low < v
        case LE => low <= v
        case GT => v < high
        case GE => v + 1 < high
        case _ => low <= v < high
  {
    hide NumberOf, HasNumber, Satisfies, SatisfiesPromise;
    SatisfiesWhen(city, a.keyword, a.op, NumberOf(a.value));
  }

  /** What the text of an atom promises: that the least or the largest value, low or high - 1, stands so to v. */
  lemma PromiseInNumbers(city: City, a: Atom)
    requires WellFormedAtom(a)
    ensures var v := NumberOf(a.value);
      var low, high := if a.keyword == "T" then city.lowTemp else city.lowHum,
                       if a.keyword == "T" then city.highTemp else city.highHum;
      AtomAsWritten(city, a) <==> low < high && match a.op
        case LT => if a.valueFirst then v < high - 1 else low < v
        case LE => if a.valueFirst then v <= high - 1 else low <= v
        case GT => if a.valueFirst then v > low else high - 1 > v
        case GE => if a.valueFirst then v >= low else high - 1 >= v
        case _ => low <= v <= high - 1
  {
    hide NumberOf, HasNumber, Satisfies, SatisfiesPromise;
    SatisfiesWhen(city, a.keyword, a.op, NumberOf(a.value));
    SatisfiesWhen(city, a.keyword, Mirrored(a.op), NumberOf(a.value));
  }

  /** Which atoms have a text that the code reads: the decimal numbers below the largest int64, and every operator. */
  lemma DecimalAtom(keyword: string, op: TokenType, n: nat, valueFirst: bool)
    ensures WellFormedAtom(Atom(keyword, op, Decimals.Decimal(n), valueFirst))
      <==> (keyword == "T" || keyword == "H") && op in {EQ, LT, LE, GT, GE} && n < 0x7FFF_FFFF_FFFF_FFFF
    ensures WellFormedAtom(Atom(keyword, op, "-" + Decimals.Decimal(n), valueFirst))
      <==> (keyword == "T" || keyword == "H") && op in {EQ, LT, LE, GT, GE} && n <= 0x8000_0000_0000_0000
  {
    NumberOfDecimal(n, "");
    assert Decimals.Decimal(n) + "" == Decimals.Decimal(n);
    hide NumberOf, HasNumber;
  }

  lemma FiveIsFive()
    ensures forall op, valueFirst ::
      IsComparison(op) ==> WellFormedAtom(Atom(TEMPERATURE, op, "5", valueFirst))
    ensures HasNumber("5") && NumberOf("5") == 5
  {
    assert "5"[1..] == "";
    assert Digits("5", 0) == Digits("", 5) == 5;
    assert TEMPERATURE in CITY_KEYWORDS;
  }

  /** Temperatures from 3 up to but not including 6: said to be above 5, and not to be at least 5. */
  lemma OperatorsAreSwapped()
    ensures var city, above, atLeast :=
        City("A", 3, 6, 0, 1), Atom(TEMPERATURE, GT, "5", false), Atom(TEMPERATURE, GE, "5", false);
      && WellFormedAtom(above) && HoldsAtom(city, above) && !AtomAsWritten(city, above)
      && WellFormedAtom(atLeast) && !HoldsAtom(city, atLeast) && AtomAsWritten(city, atLeast)
  {
    hide NumberOf, HasNumber, Satisfies, SatisfiesPromise;
    FiveIsFive();
    SatisfiesWhen(City("A", 3, 6, 0, 1), TEMPERATURE, GT, 5);
    SatisfiesWhen(City("A", 3, 6, 0, 1), TEMPERATURE, GE, 5);
  }

  /** Temperatures from 0 up to but not including 4: said to satisfy `5 < T`. */
  lemma ValueFirstIsNotMirrored()
    ensures var city, a := City("A", 0, 4, 0, 1), Atom(TEMPERATURE, LT, "5", true);
      WellFormedAtom(a) && HoldsAtom(city, a) && !AtomAsWritten(city, a)
  {
    hide NumberOf, HasNumber, Satisfies, SatisfiesPromise;
    FiveIsFive();
    SatisfiesWhen(City("A", 0, 4, 0, 1), TEMPERATURE, LT, 5);
    SatisfiesWhen(City("A", 0, 4, 0, 1), TEMPERATURE, GT, 5);
  }

  // ----- the meaning of formulas

  ghost predicate HoldsGroup(city: City, g: seq<Atom>)
    requires WellFormedGroup(g)
  {
    forall i :: 0 <= i < |g| ==> HoldsAtom(city, g[i])
  }

  /** The meaning of a formula: all atoms of some group hold. */
  ghost predicate Holds(city: City, q: Formula)
    requires WellFormedGroups(q)
  {
    exists i :: 0 <= i < |q| && HoldsGroup(city, q[i])
  }

  /** The meaning that the text of the formula promises. */
  ghost predicate FormulaAsWritten(city: City, q: Formula)
    requires WellFormedGroups(q)
  {
    exists i :: 0 <= i < |q| && GroupAsWritten(city, q[i])
  }

  ghost predicate GroupAsWritten(city: City, g: seq<Atom>)
    requires WellFormedGroup(g)
  {
    forall i :: 0 <= i < |g| ==> AtomAsWritten(city, g[i])
  }

  /** The answer to a formula, down to its atoms. */
  lemma FormulaInAtoms(city: City, q: Formula)
    requires WellFormedGroups(q)
    ensures Holds(city, q) <==> exists g :: g in q && forall a :: a in g ==> HoldsAtom(city, a)
  {
    hide HoldsAtom, WellFormedAtom;
    forall g | g in q ensures HoldsGroup(city, g) <==> forall a :: a in g ==> HoldsAtom(city, a) {
      assert forall i :: 0 <= i < |g| ==> g[i] in g;
    }
    assert forall i :: 0 <= i < |q| ==> q[i] in q;
  }

  /** What the text of a formula promises, down to its atoms. */
  lemma PromiseInAtoms(city: City, q: Formula)
    requires WellFormedGroups(q)
    ensures FormulaAsWritten(city, q) <==> exists g :: g in q && forall a :: a in g ==> AtomAsWritten(city, a)
  {
    hide AtomAsWritten, WellFormedAtom;
    forall g | g in q ensures GroupAsWritten(city, g) <==> forall a :: a in g ==> AtomAsWritten(city, a) {
      assert forall i :: 0 <= i < |g| ==> g[i] in g;
    }
    assert forall i :: 0 <= i < |q| ==> q[i] in q;
  }

  ghost predicate Uses(q: Formula, atoms: set<Atom>) {
    forall i, j :: 0 <= i < |q| && 0 <= j < |q[i]| ==> q[i][j] in atoms
  }

  ghost predicate AllAgree(city: City, atoms: set<Atom>) {
    forall a :: a in atoms ==> WellFormedAtom(a) && AgreeFor(city, a)
  }

  lemma FormulaAgrees(city: City, q: Formula, atoms: set<Atom>)
    requires WellFormedGroups(q) && Uses(q, atoms) && AllAgree(city, atoms)
    ensures Holds(city, q) <==> FormulaAsWritten(city, q)
  {
    hide HoldsAtom, AtomAsWritten, AgreeFor, WellFormedAtom;
    forall i, j | 0 <= i < |q| && 0 <= j < |q[i]| ensures HoldsAtom(city, q[i][j]) <==> AtomAsWritten(city, q[i][j]) {
      PromiseKeptExactly(city, q[i][j]);
    }
    forall i | 0 <= i < |q| ensures HoldsGroup(city, q[i]) <==> GroupAsWritten(city, q[i]) {
    }
  }

  /** For a city and some atoms: all formulas of these atoms are answered as written exactly when all the atoms are. */
  lemma FormulasAgreeExactly(city: City, atoms: set<Atom>)
    requires forall a :: a in atoms ==> WellFormedAtom(a)
    ensures (forall q: Formula :: WellFormed(q) && Uses(q, atoms) ==> (Holds(city, q) <==> FormulaAsWritten(city, q)))
      <==> AllAgree(city, atoms)
  {
    if AllAgree(city, atoms) {
      forall q: Formula | WellFormed(q) && Uses(q, atoms) ensures Holds(city, q) <==> FormulaAsWritten(city, q) {
        FormulaAgrees(city, q, atoms);
      }
    }
    if forall q: Formula :: WellFormed(q) && Uses(q, atoms) ==> (Holds(city, q) <==> FormulaAsWritten(city, q)) {
      forall a | a in atoms ensures AgreeFor(city, a) {
        SingleAtom(city, a);
        PromiseKeptExactly(city, a);
      }
    }
  }

  /** Every stored city agrees with every atom of the formula. */
  ghost predicate AgreeOn(rows: Rows, q: Formula)
    requires WellFormedGroups(q)
  {
    forall k, i, j :: k in rows && 0 <= i < |q| && 0 <= j < |q[i]| ==> AgreeFor(rows[k], q[i][j])
  }

  lemma AnswersAsWritten(rows: Rows, q: Formula)
    requires WellFormedGroups(q)
    ensures AgreeOn(rows, q) ==> forall k :: k in rows ==> (Holds(rows[k], q) <==> FormulaAsWritten(rows[k], q))
  {
    hide Holds, FormulaAsWritten, AgreeFor, WellFormedAtom;
    if AgreeOn(rows, q) {
      forall k | k in rows ensures Holds(rows[k], q) <==> FormulaAsWritten(rows[k], q) {
        var atoms := set i, j | 0 <= i < |q| && 0 <= j < |q[i]| :: q[i][j];
        FormulaAgrees(rows[k], q, atoms);
      }
    }
  }

  lemma SingleAtom(city: City, a: Atom)
    requires WellFormedAtom(a)
    ensures WellFormed([[a]]) && (Holds(city, [[a]]) <==> HoldsAtom(city, a))
    ensures FormulaAsWritten(city, [[a]]) <==> AtomAsWritten(city, a)
  {
    var g, q := [a], [[a]];
    assert g[0] == a && q[0] == g;
  }

  // ----- the text of a formula, already split at blanks

  function OpString(op: TokenType): string {
    match op
    case LT => "<"
    case LE => "<="
    case GT => ">"
    case GE => ">="
    case _ => "=="
  }

  function AtomStrings(a: Atom): seq<string> {
    if a.valueFirst then [a.value, OpString(a.op), a.keyword] else [a.keyword, OpString(a.op), a.value]
  }

  function AndStrings(g: seq<Atom>): seq<string> {
    if g == [] then [] else ["&&"] + (AtomStrings(g[0]) + AndStrings(g[1..]))
  }

  function GroupStrings(g: seq<Atom>): seq<string> {
    if g == [] then [] else AtomStrings(g[0]) + AndStrings(g[1..])
  }

  function OrStrings(q: Formula): seq<string> {
    if q == [] then [] else ["||"] + (GroupStrings(q[0]) + OrStrings(q[1..]))
  }

  function FormulaStrings(q: Formula): seq<string> {
    if q == [] then [] else GroupStrings(q[0]) + OrStrings(q[1..])
  }

  /** The three strings of an atom. */
  lemma AtomTexts(keyword: string, value: string)
    ensures AtomStrings(Atom(keyword, LT, value, false)) == [keyword, "<", value]
    ensures AtomStrings(Atom(keyword, LE, value, false)) == [keyword, "<=", value]
    ensures AtomStrings(Atom(keyword, GT, value, false)) == [keyword, ">", value]
    ensures AtomStrings(Atom(keyword, GE, value, false)) == [keyword, ">=", value]
    ensures AtomStrings(Atom(keyword, EQ, value, false)) == [keyword, "==", value]
    ensures AtomStrings(Atom(keyword, LT, value, true)) == [value, "<", keyword]
    ensures AtomStrings(Atom(keyword, LE, value, true)) == [value, "<=", keyword]
    ensures AtomStrings(Atom(keyword, GT, value, true)) == [value, ">", keyword]
    ensures AtomStrings(Atom(keyword, GE, value, true)) == [value, ">=", keyword]
    ensures AtomStrings(Atom(keyword, EQ, value, true)) == [value, "==", keyword]
  {
  }

  lemma {:induction false} AndStringsAppend(g: seq<Atom>, a: Atom)
    ensures AndStrings(g + [a]) == AndStrings(g) + (["&&"] + AtomStrings(a))
  {
    if g == [] {
      assert [a][1..] == [];
    } else {
      assert (g + [a])[1..] == g[1..] + [a];
      AndStringsAppend(g[1..], a);
    }
  }

  lemma {:induction false} OrStringsAppend(q: Formula, g: seq<Atom>)
    ensures OrStrings(q + [g]) == OrStrings(q) + (["||"] + GroupStrings(g))
  {
    if q == [] {
      assert [g][1..] == [];
    } else {
      assert (q + [g])[1..] == q[1..] + [g];
      OrStringsAppend(q[1..], g);
    }
  }

  /** A further atom comes after &&. */
  lemma AtomComesLast(g: seq<Atom>, a: Atom)
    requires g != []
    ensures FormulaStrings([[a]]) == AtomStrings(a)
    ensures FormulaStrings([g + [a]]) == FormulaStrings([g]) + (["&&"] + AtomStrings(a))
  {
    hide AtomStrings;
    GroupAlone([a]);
    GroupAlone(g);
    GroupAlone(g + [a]);
    assert [a][1..] == [] && (g + [a])[0] == g[0] && (g + [a])[1..] == g[1..] + [a];
    AndStringsAppend(g[1..], a);
    Assoc(AtomStrings(g[0]), AndStrings(g[1..]), ["&&"] + AtomStrings(a));
  }

  /** A further group comes after ||. */
  lemma GroupComesLast(q: Formula, g: seq<Atom>)
    requires q != []
    ensures FormulaStrings(q + [g]) == FormulaStrings(q) + (["||"] + FormulaStrings([g]))
  {
    hide GroupStrings;
    GroupAlone(g);
    assert (q + [g])[0] == q[0] && (q + [g])[1..] == q[1..] + [g];
    OrStringsAppend(q[1..], g);
    Assoc(GroupStrings(q[0]), OrStrings(q[1..]), ["||"] + GroupStrings(g));
  }

  lemma GroupAlone(g: seq<Atom>)
    ensures FormulaStrings([g]) == GroupStrings(g)
  {
    assert [g][1..] == [];
  }

  /** Unless a value holds a blank, the formula has a text: its strings with blanks between them. */
  lemma FormulaHasText(q: Formula)
    requires WellFormed(q)
    requires forall i, j :: 0 <= i < |q| && 0 <= j < |q[i]| ==> Words.IsWord(q[i][j].value)
    ensures var text := Words.Joined(FormulaStrings(q));
      Words.WordsOf(text) == FormulaStrings(q) && !Words.EndsInBlank(text)
  {
    hide Words.WordsOf, Words.Joined, Words.IsWord, WellFormedAtom;
    GroupWords(q[0]);
    OrWords(q[1..]);
    Words.AllWordsConcat(GroupStrings(q[0]), OrStrings(q[1..]));
    assert GroupStrings(q[0]) != [];
    Words.SplitJoined(FormulaStrings(q));
  }

  lemma AtomWords(a: Atom)
    requires WellFormedAtom(a) && Words.IsWord(a.value)
    ensures Words.AllWords(AtomStrings(a))
  {
    assert Words.FirstBlank(OpString(a.op)) == |OpString(a.op)| by {
      var s := OpString(a.op);
      assert forall i :: 0 <= i < |s| ==> s[i] != Words.BLANK;
    }
    assert Words.IsWord(a.keyword);
  }

  lemma JoinWords()
    ensures Words.IsWord("&&") && Words.IsWord("||")
  {
    assert forall i :: 0 <= i < 2 ==> "&&"[i] != Words.BLANK && "||"[i] != Words.BLANK;
  }

  lemma {:induction false} AndWords(g: seq<Atom>)
    requires WellFormedGroup(g) && forall j :: 0 <= j < |g| ==> Words.IsWord(g[j].value)
    ensures Words.AllWords(AndStrings(g))
  {
    hide Words.IsWord, WellFormedAtom, AtomStrings;
    if g != [] {
      JoinWords();
      AtomWords(g[0]);
      AndWords(g[1..]);
      Words.AllWordsConcat(AtomStrings(g[0]), AndStrings(g[1..]));
      Words.AllWordsConcat(["&&"], AtomStrings(g[0]) + AndStrings(g[1..]));
    }
  }

  lemma GroupWords(g: seq<Atom>)
    requires WellFormedGroup(g) && forall j :: 0 <= j < |g| ==> Words.IsWord(g[j].value)
    ensures Words.AllWords(GroupStrings(g))
  {
    hide Words.IsWord, WellFormedAtom, AtomStrings;
    if g != [] {
      AtomWords(g[0]);
      AndWords(g[1..]);
      Words.AllWordsConcat(AtomStrings(g[0]), AndStrings(g[1..]));
    }
  }

  lemma {:induction false} OrWords(q: Formula)
    requires WellFormedGroups(q)
    requires forall i, j :: 0 <= i < |q| && 0 <= j < |q[i]| ==> Words.IsWord(q[i][j].value)
    ensures Words.AllWords(OrStrings(q))
  {
    hide Words.IsWord, WellFormedAtom, GroupStrings;
    if q != [] {
      JoinWords();
      GroupWords(q[0]);
      OrWords(q[1..]);
      Words.AllWordsConcat(GroupStrings(q[0]), OrStrings(q[1..]));
      Words.AllWordsConcat(["||"], GroupStrings(q[0]) + OrStrings(q[1..]));
    }
  }

  // ----- its tokens

  const AND_TOKEN := Token(AND, "&&")
  const OR_TOKEN := Token(OR, "||")

  function KeyToken(a: Atom): Token {
    Token(KEYWORD, a.keyword)
  }

  function ValueToken(a: Atom): Token {
    Token(ID, a.value)
  }

  function OpToken(a: Atom): Token {
    Token(a.op, OpString(a.op))
  }

  function AtomTokens(a: Atom): seq<Token> {
    if a.valueFirst then [ValueToken(a), OpToken(a), KeyToken(a)] else [KeyToken(a), OpToken(a), ValueToken(a)]
  }

  function AndTokens(g: seq<Atom>): seq<Token> {
    if g == [] then [] else [AND_TOKEN] + (AtomTokens(g[0]) + AndTokens(g[1..]))
  }

  function GroupTokens(g: seq<Atom>): seq<Token> {
    if g == [] then [] else AtomTokens(g[0]) + AndTokens(g[1..])
  }

  function OrTokens(q: Formula): seq<Token> {
    if q == [] then [] else [OR_TOKEN] + (GroupTokens(q[0]) + OrTokens(q[1..]))
  }

  lemma ValueIsReadable(s: string)
    requires HasNumber(s)
    ensures Readable(s) && TokenOf(s, CITY_KEYWORDS) == Token(ID, s)
  {
  }

  lemma JoinReads()
    ensures AllReadable(["&&"]) && TokensOf(["&&"], CITY_KEYWORDS) == [AND_TOKEN]
    ensures AllReadable(["||"]) && TokensOf(["||"], CITY_KEYWORDS) == [OR_TOKEN]
  {
    assert ["&&"][1..] == [] && ["||"][1..] == [];
  }

  lemma AtomReads(a: Atom)
    requires WellFormedAtom(a)
    ensures AllReadable(AtomStrings(a))
    ensures TokensOf(AtomStrings(a), CITY_KEYWORDS) == AtomTokens(a)
  {
    ValueIsReadable(a.value);
    var es := AtomStrings(a);
    assert TokensOf(es[1..], CITY_KEYWORDS) == [TokenOf(es[1], CITY_KEYWORDS), TokenOf(es[2], CITY_KEYWORDS)] by {
      assert es[1..][1..] == [es[2]];
      assert [es[2]][1..] == [];
    }
  }

  lemma {:induction false} AndReads(g: seq<Atom>)
    requires WellFormedGroup(g)
    ensures AllReadable(AndStrings(g))
    ensures TokensOf(AndStrings(g), CITY_KEYWORDS) == AndTokens(g)
  {
    if g != [] {
      AtomReads(g[0]);
      AndReads(g[1..]);
      TokensOfConcat(AtomStrings(g[0]), AndStrings(g[1..]), CITY_KEYWORDS);
      TokensOfConcat(["&&"], AtomStrings(g[0]) + AndStrings(g[1..]), CITY_KEYWORDS);
      JoinReads();
    }
  }

  lemma GroupReads(g: seq<Atom>)
    requires g != [] && WellFormedGroup(g)
    ensures AllReadable(GroupStrings(g))
    ensures TokensOf(GroupStrings(g), CITY_KEYWORDS) == GroupTokens(g)
  {
    AtomReads(g[0]);
    AndReads(g[1..]);
    TokensOfConcat(AtomStrings(g[0]), AndStrings(g[1..]), CITY_KEYWORDS);
  }

  lemma {:induction false} OrReads(q: Formula)
    requires WellFormedGroups(q)
    ensures AllReadable(OrStrings(q))
    ensures TokensOf(OrStrings(q), CITY_KEYWORDS) == OrTokens(q)
  {
    if q != [] {
      GroupReads(q[0]);
      OrReads(q[1..]);
      TokensOfConcat(GroupStrings(q[0]), OrStrings(q[1..]), CITY_KEYWORDS);
      TokensOfConcat(["||"], GroupStrings(q[0]) + OrStrings(q[1..]), CITY_KEYWORDS);
      JoinReads();
    }
  }

  // ----- its postfix form

  function AtomPostfix(a: Atom): seq<Token> {
    if a.valueFirst then [ValueToken(a), KeyToken(a), OpToken(a)] else [KeyToken(a), ValueToken(a), OpToken(a)]
  }

  function AndPostfix(g: seq<Atom>): seq<Token> {
    if g == [] then [] else AtomPostfix(g[0]) + ([AND_TOKEN] + AndPostfix(g[1..]))
  }

  function GroupPostfix(g: seq<Atom>): seq<Token> {
    if g == [] then [] else AtomPostfix(g[0]) + AndPostfix(g[1..])
  }

  function OrPostfix(q: Formula): seq<Token> {
    if q == [] then [] else GroupPostfix(q[0]) + ([OR_TOKEN] + OrPostfix(q[1..]))
  }

  /** The operators that can be on the stack between two atoms. */
  predicate Joins(stack: seq<Token>) {
    stack in {[], [OR_TOKEN], [AND_TOKEN], [OR_TOKEN, AND_TOKEN]}
  }

  predicate StartsWithJoin(rest: seq<Token>) {
    rest == [] || rest[0] == AND_TOKEN || rest[0] == OR_TOKEN
  }

  predicate StartsWithOr(rest: seq<Token>) {
    rest == [] || rest[0] == OR_TOKEN
  }

  lemma KeptUnderOperator(stack: seq<Token>, op: Token)
    requires Joins(stack) && IsComparison(op.kind)
    ensures Kept(stack, op) == |stack|
    ensures Reverse(stack[|stack|..]) == [] && stack[..|stack|] == stack
  {
  }

  lemma OperatorLeaves(stack: seq<Token>, op: Token, rest: seq<Token>)
    requires Joins(stack) && IsComparison(op.kind) && StartsWithJoin(rest)
    ensures Shunt(rest, stack + [op]) == [op] + Shunt(rest, stack)
  {
    if rest == [] {
      EndLeaves(stack, op);
    } else {
      TopLeaves(stack, op, rest);
    }
  }

  /** An operator that the next token pops. */
  lemma TopLeaves(stack: seq<Token>, top: Token, rest: seq<Token>)
    requires rest != [] && !rest[0].IsOperand() && Pops(rest[0], top)
    ensures Shunt(rest, stack + [top]) == [top] + Shunt(rest, stack)
  {
    var full, n := stack + [top], Kept(stack, rest[0]);
    assert full[..|full| - 1] == stack;
    PopOne(full, n);
    assert full[..n] == stack[..n];
    Assoc([top], Reverse(stack[n..]), Shunt(rest[1..], stack[..n] + [rest[0]]));
  }

  lemma EndLeaves(stack: seq<Token>, top: Token)
    ensures Shunt([], stack + [top]) == [top] + Shunt([], stack)
  {
    assert (stack + [top])[..|stack|] == stack;
  }

  lemma Three<T>(x: T, y: T, z: T, rest: seq<T>)
    ensures [x, y, z] + rest == [x] + ([y] + ([z] + rest))
  {
  }

  lemma AtomShunts(a: Atom, rest: seq<Token>, stack: seq<Token>)
    requires WellFormedAtom(a) && Joins(stack) && StartsWithJoin(rest)
    ensures Shunt(AtomTokens(a) + rest, stack) == AtomPostfix(a) + Shunt(rest, stack)
  {
    var x, op, y := AtomTokens(a)[0], AtomTokens(a)[1], AtomTokens(a)[2];
    assert AtomTokens(a) == [x, op, y] && AtomPostfix(a) == [x, y, op];
    ThreeShunt(x, op, y, rest, stack);
  }

  lemma ThreeShunt(x: Token, op: Token, y: Token, rest: seq<Token>, stack: seq<Token>)
    requires x.IsOperand() && y.IsOperand() && IsComparison(op.kind) && Joins(stack) && StartsWithJoin(rest)
    ensures Shunt([x, op, y] + rest, stack) == [x, y, op] + Shunt(rest, stack)
  {
    Three(x, op, y, rest);
    OperandShunts(x, [op] + ([y] + rest), stack);
    KeptUnderOperator(stack, op);
    OperatorShunts(op, [y] + rest, stack);
    OperandShunts(y, rest, stack + [op]);
    OperatorLeaves(stack, op, rest);
    Three(x, y, op, Shunt(rest, stack));
  }

  /** && waits on the stack below the next atom, above a pending ||. */
  lemma AndArrives(rest: seq<Token>, stack: seq<Token>)
    requires stack == [] || stack == [OR_TOKEN]
    ensures Shunt([AND_TOKEN] + rest, stack) == Shunt(rest, stack + [AND_TOKEN])
    ensures Shunt([AND_TOKEN] + rest, stack + [AND_TOKEN]) == [AND_TOKEN] + Shunt(rest, stack + [AND_TOKEN])
  {
    OperatorShunts(AND_TOKEN, rest, stack);
    assert Kept(stack, AND_TOKEN) == |stack|;
    assert stack[|stack|..] == [] && stack[..|stack|] == stack;
    TopLeaves(stack, AND_TOKEN, [AND_TOKEN] + rest);
  }

  /** A pending && leaves before || or the end. */
  lemma AndLeaves(rest: seq<Token>, stack: seq<Token>)
    requires (stack == [] || stack == [OR_TOKEN]) && StartsWithOr(rest)
    ensures Shunt(rest, stack + [AND_TOKEN]) == [AND_TOKEN] + Shunt(rest, stack)
  {
    if rest == [] {
      EndLeaves(stack, AND_TOKEN);
    } else {
      TopLeaves(stack, AND_TOKEN, rest);
    }
  }

  lemma OrArrives(rest: seq<Token>)
    ensures Shunt([OR_TOKEN] + rest, []) == Shunt(rest, [OR_TOKEN])
    ensures Shunt([OR_TOKEN] + rest, [OR_TOKEN]) == [OR_TOKEN] + Shunt(rest, [OR_TOKEN])
  {
    OperatorShunts(OR_TOKEN, rest, []);
    assert [] + [OR_TOKEN] == [OR_TOKEN];
    TopLeaves([], OR_TOKEN, [OR_TOKEN] + rest);
  }

  lemma JoinsWithAnd(stack: seq<Token>)
    requires stack == [] || stack == [OR_TOKEN]
    ensures Joins(stack + [AND_TOKEN])
  {
    assert [] + [AND_TOKEN] == [AND_TOKEN];
    assert [OR_TOKEN] + [AND_TOKEN] == [OR_TOKEN, AND_TOKEN];
  }

  lemma TailJoins(g: seq<Atom>, rest: seq<Token>)
    requires StartsWithOr(rest)
    ensures StartsWithJoin(AndTokens(g) + rest)
  {
    assert g == [] ==> AndTokens(g) + rest == rest;
  }

  lemma {:induction false} AndTokensShunt(g: seq<Atom>, rest: seq<Token>, stack: seq<Token>)
    requires WellFormedGroup(g) && (stack == [] || stack == [OR_TOKEN]) && StartsWithOr(rest)
    ensures Shunt(AndTokens(g) + rest, stack + [AND_TOKEN]) == [AND_TOKEN] + (AndPostfix(g) + Shunt(rest, stack))
    ensures Shunt(AndTokens(g) + rest, stack) == AndPostfix(g) + Shunt(rest, stack)
  {
    if g == [] {
      AndLeaves(rest, stack);
      assert AndTokens(g) + rest == rest;
      assert AndPostfix(g) + Shunt(rest, stack) == Shunt(rest, stack);
    } else {
      var tail := AndTokens(g[1..]) + rest;
      var out := Shunt(rest, stack);
      Assoc([AND_TOKEN], AtomTokens(g[0]) + AndTokens(g[1..]), rest);
      Assoc(AtomTokens(g[0]), AndTokens(g[1..]), rest);
      Assoc(AtomPostfix(g[0]), [AND_TOKEN] + AndPostfix(g[1..]), out);
      Assoc([AND_TOKEN], AndPostfix(g[1..]), out);
      TailJoins(g[1..], rest);
      JoinsWithAnd(stack);
      AndArrives(AtomTokens(g[0]) + tail, stack);
      AtomShunts(g[0], tail, stack + [AND_TOKEN]);
      AndTokensShunt(g[1..], rest, stack);
    }
  }

  lemma GroupShunts(g: seq<Atom>, rest: seq<Token>, stack: seq<Token>)
    requires g != [] && WellFormedGroup(g) && (stack == [] || stack == [OR_TOKEN]) && StartsWithOr(rest)
    ensures Shunt(GroupTokens(g) + rest, stack) == GroupPostfix(g) + Shunt(rest, stack)
  {
    var tail := AndTokens(g[1..]) + rest;
    Assoc(AtomTokens(g[0]), AndTokens(g[1..]), rest);
    Assoc(AtomPostfix(g[0]), AndPostfix(g[1..]), Shunt(rest, stack));
    TailJoins(g[1..], rest);
    AtomShunts(g[0], tail, stack);
    AndTokensShunt(g[1..], rest, stack);
  }

  lemma {:induction false} OrTokensShunt(q: Formula)
    requires WellFormedGroups(q)
    ensures Shunt(OrTokens(q), [OR_TOKEN]) == [OR_TOKEN] + OrPostfix(q)
    ensures Shunt(OrTokens(q), []) == OrPostfix(q)
  {
    if q == [] {
      assert Shunt([], []) == [];
      EndLeaves([], OR_TOKEN);
      assert [] + [OR_TOKEN] == [OR_TOKEN];
    } else {
      var tail := OrTokens(q[1..]);
      OrArrives(GroupTokens(q[0]) + tail);
      GroupShunts(q[0], tail, [OR_TOKEN]);
      OrTokensShunt(q[1..]);
      Assoc([OR_TOKEN], GroupPostfix(q[0]), [OR_TOKEN] + OrPostfix(q[1..]));
    }
  }

  function FormulaPostfix(q: Formula): seq<Token> {
    if q == [] then [] else GroupPostfix(q[0]) + OrPostfix(q[1..])
  }

  /** From the text of a formula to its postfix form. */
  lemma FormulaShunts(q: Formula)
    requires WellFormed(q)
    ensures AllReadable(FormulaStrings(q))
    ensures Shunt(TokensOf(FormulaStrings(q), CITY_KEYWORDS), []) == FormulaPostfix(q)
  {
    GroupReads(q[0]);
    OrReads(q[1..]);
    TokensOfConcat(GroupStrings(q[0]), OrStrings(q[1..]), CITY_KEYWORDS);
    StartsWithOrTokens(q[1..]);
    GroupShunts(q[0], OrTokens(q[1..]), []);
    OrTokensShunt(q[1..]);
  }

  lemma StartsWithOrTokens(q: Formula)
    ensures StartsWithOr(OrTokens(q))
  {
  }

  // ----- evaluating a postfix form

  /** The two stacks of the evaluator; `Stuck` once one of its asserts has failed. */
  datatype Machine = Machine(tokens: seq<Token>, results: seq<set<int>>) | Stuck

  predicate IsAtom(k: Token, op: Token, v: Token) {
    k.IsKeyWord() && IsComparison(op.kind) && HasNumber(v.value) && INT64_MIN <= NumberOf(v.value) < INT64_MAX
  }

  ghost function AtomSet(rows: Rows, keyword: string, op: TokenType, v: int): set<int> {
    set key | key in rows && Satisfies(rows[key], keyword, op, v)
  }

  ghost function Step(rows: Rows, m: Machine, e: Token): Machine {
    if m.Stuck? then Stuck
    else if e.IsOperand() then m.(tokens := m.tokens + [e])
    else if e.kind == AND || e.kind == OR then
      var n := |m.results|;
      if n < 2 then Stuck
      else
        var l, r := m.results[n - 2], m.results[n - 1];
        m.(results := m.results[..n - 2] + [if e.kind == AND then l * r else l + r])
    else
      var n := |m.tokens|;
      if n < 2 then Stuck
      else
        var l, r := m.tokens[n - 1], m.tokens[n - 2];
        var k, v := if l.IsKeyWord() then l else r, if l.IsKeyWord() then r else l;
        if !IsAtom(k, e, v) then Stuck
        else Machine(m.tokens[..n - 2], m.results + [AtomSet(rows, k.value, e.kind, NumberOf(v.value))])
  }

  ghost function Eval(rows: Rows, m: Machine, es: seq<Token>): Machine
    decreases |es|
  {
    if es == [] then m else Eval(rows, Step(rows, m, es[0]), es[1..])
  }

  lemma {:induction false} EvalConcat(rows: Rows, m: Machine, es: seq<Token>, fs: seq<Token>)
    ensures Eval(rows, m, es + fs) == Eval(rows, Eval(rows, m, es), fs)
    decreases |es|
  {
    if es == [] {
      assert es + fs == fs;
    } else {
      assert (es + fs)[1..] == es[1..] + fs;
      EvalConcat(rows, Step(rows, m, es[0]), es[1..], fs);
    }
  }

  lemma EvalOne(rows: Rows, m: Machine, e: Token)
    ensures Eval(rows, m, [e]) == Step(rows, m, e)
  {
    assert [e][1..] == [];
  }

  lemma {:induction false} StuckForEver(rows: Rows, es: seq<Token>)
    ensures Eval(rows, Stuck, es) == Stuck
    decreases |es|
  {
    if es != [] {
      StuckForEver(rows, es[1..]);
    }
  }

  ghost function SetOfAtom(rows: Rows, a: Atom): set<int>
    requires WellFormedAtom(a)
  {
    AtomSet(rows, a.keyword, a.op, NumberOf(a.value))
  }

  ghost function SetOfGroup(rows: Rows, g: seq<Atom>): set<int>
    requires WellFormedGroup(g)
  {
    set key | key in rows && HoldsGroup(rows[key], g)
  }

  /** The cities that satisfy the formula. */
  ghost function SetOfFormula(rows: Rows, q: Formula): set<int>
    requires WellFormedGroups(q)
  {
    set key | key in rows && Holds(rows[key], q)
  }

  lemma AtomEvaluates(rows: Rows, a: Atom, results: seq<set<int>>)
    requires WellFormedAtom(a)
    ensures Eval(rows, Machine([], results), AtomPostfix(a)) == Machine([], results + [SetOfAtom(rows, a)])
  {
    var es := AtomPostfix(a);
    var m1 := Machine([es[0]], results);
    var m2 := Machine([es[0], es[1]], results);
    assert Step(rows, Machine([], results), es[0]) == m1;
    assert Step(rows, m1, es[1]) == m2;
    assert m2.tokens[..0] == [];
    assert Step(rows, m2, es[2]) == Machine([], results + [SetOfAtom(rows, a)]);
    assert es[1..] == [es[1], es[2]] && es[1..][1..] == [es[2]];
    EvalOne(rows, m2, es[2]);
  }

  lemma JoinEvaluates(rows: Rows, results: seq<set<int>>, l: set<int>, r: set<int>)
    ensures Step(rows, Machine([], results + [l] + [r]), AND_TOKEN) == Machine([], results + [l * r])
    ensures Step(rows, Machine([], results + [l] + [r]), OR_TOKEN) == Machine([], results + [l + r])
  {
    assert (results + [l] + [r])[..|results|] == results;
  }

  lemma {:induction false} AndEvaluates(rows: Rows, g: seq<Atom>, results: seq<set<int>>, l: set<int>)
    requires WellFormedGroup(g) && l <= rows.Keys
    ensures Eval(rows, Machine([], results + [l]), AndPostfix(g)) == Machine([], results + [l * SetOfGroup(rows, g)])
  {
    if g == [] {
      EmptyGroup(rows);
      assert l * rows.Keys == l;
    } else {
      var r := SetOfAtom(rows, g[0]);
      EvalConcat(rows, Machine([], results + [l]), AtomPostfix(g[0]), [AND_TOKEN] + AndPostfix(g[1..]));
      AtomEvaluates(rows, g[0], results + [l]);
      EvalConcat(rows, Machine([], results + [l] + [r]), [AND_TOKEN], AndPostfix(g[1..]));
      EvalOne(rows, Machine([], results + [l] + [r]), AND_TOKEN);
      JoinEvaluates(rows, results, l, r);
      AndEvaluates(rows, g[1..], results, l * r);
      GroupSplits(rows, g);
      assert l * r * SetOfGroup(rows, g[1..]) == l * (r * SetOfGroup(rows, g[1..]));
    }
  }

  lemma EmptyGroup(rows: Rows)
    ensures SetOfGroup(rows, []) == rows.Keys
  {
    assert forall key :: key in rows ==> HoldsGroup(rows[key], []);
  }

  lemma EmptyFormula(rows: Rows)
    ensures SetOfFormula(rows, []) == {}
  {
    assert forall key :: key in rows ==> !Holds(rows[key], []);
  }

  lemma GroupSplits(rows: Rows, g: seq<Atom>)
    requires WellFormedGroup(g) && g != []
    ensures SetOfGroup(rows, g) == SetOfAtom(rows, g[0]) * SetOfGroup(rows, g[1..])
  {
    forall key | key in rows
      ensures HoldsGroup(rows[key], g) <==> HoldsAtom(rows[key], g[0]) && HoldsGroup(rows[key], g[1..])
    {
      if HoldsGroup(rows[key], g[1..]) {
        assert forall i :: 0 < i < |g| ==> g[i] == g[1..][i - 1];
      }
    }
  }

  lemma FormulaSplits(rows: Rows, q: Formula)
    requires WellFormedGroups(q) && q != []
    ensures SetOfFormula(rows, q) == SetOfGroup(rows, q[0]) + SetOfFormula(rows, q[1..])
  {
    forall key | key in rows
      ensures Holds(rows[key], q) <==> HoldsGroup(rows[key], q[0]) || Holds(rows[key], q[1..])
    {
      if Holds(rows[key], q[1..]) {
        var i :| 0 <= i < |q[1..]| && HoldsGroup(rows[key], q[1..][i]);
        assert HoldsGroup(rows[key], q[i + 1]);
      }
      if Holds(rows[key], q) && !HoldsGroup(rows[key], q[0]) {
        var i :| 0 <= i < |q| && HoldsGroup(rows[key], q[i]);
        assert HoldsGroup(rows[key], q[1..][i - 1]);
      }
    }
  }

  lemma GroupEvaluates(rows: Rows, g: seq<Atom>, results: seq<set<int>>)
    requires WellFormedGroup(g) && g != []
    ensures Eval(rows, Machine([], results), GroupPostfix(g)) == Machine([], results + [SetOfGroup(rows, g)])
  {
    EvalConcat(rows, Machine([], results), AtomPostfix(g[0]), AndPostfix(g[1..]));
    AtomEvaluates(rows, g[0], results);
    AndEvaluates(rows, g[1..], results, SetOfAtom(rows, g[0]));
    GroupSplits(rows, g);
  }

  lemma {:induction false} OrEvaluates(rows: Rows, q: Formula, l: set<int>)
    requires WellFormedGroups(q)
    ensures Eval(rows, Machine([], [l]), OrPostfix(q)) == Machine([], [l + SetOfFormula(rows, q)])
  {
    if q == [] {
      EmptyFormula(rows);
      assert l + {} == l;
    } else {
      var r := SetOfGroup(rows, q[0]);
      EvalConcat(rows, Machine([], [l]), GroupPostfix(q[0]), [OR_TOKEN] + OrPostfix(q[1..]));
      GroupEvaluates(rows, q[0], [l]);
      EvalConcat(rows, Machine([], [l] + [r]), [OR_TOKEN], OrPostfix(q[1..]));
      EvalOne(rows, Machine([], [l] + [r]), OR_TOKEN);
      assert [] + [l] == [l] && [] + [l + r] == [l + r];
      JoinEvaluates(rows, [], l, r);
      OrEvaluates(rows, q[1..], l + r);
      FormulaSplits(rows, q);
      assert l + r + SetOfFormula(rows, q[1..]) == l + (r + SetOfFormula(rows, q[1..]));
    }
  }

  /** The postfix form of a formula leaves one result, the cities that satisfy it, and no token. */
  lemma FormulaEvaluates(rows: Rows, q: Formula)
    requires WellFormed(q)
    ensures Eval(rows, Machine([], []), FormulaPostfix(q)) == Machine([], [SetOfFormula(rows, q)])
  {
    var r := SetOfGroup(rows, q[0]);
    EvalConcat(rows, Machine([], []), GroupPostfix(q[0]), OrPostfix(q[1..]));
    GroupEvaluates(rows, q[0], []);
    assert [] + [r] == [r];
    OrEvaluates(rows, q[1..], r);
    FormulaSplits(rows, q);
  }

  /** The whole pipeline: tokens, shunting-yard and evaluation of any well-formed query. */
  lemma QueryMeansFormula(rows: Rows, q: Formula)
    requires WellFormed(q)
    ensures AllReadable(FormulaStrings(q))
    ensures Eval(rows, Machine([], []), Shunt(TokensOf(FormulaStrings(q), CITY_KEYWORDS), []))
      == Machine([], [SetOfFormula(rows, q)])
  {
    hide Eval, Shunt, TokensOf, FormulaStrings, SetOfFormula, AllReadable;
    FormulaShunts(q);
    FormulaEvaluates(rows, q);
  }
}
