/** The city database: cities under primary keys, one interval index per attribute, and the query call. */
module CityDB {
  import Ordered
  import Words
  import opened Tokens
  import opened CityQuery

  /** An interval map, point by point: the keys of the cities whose range contains the point. */
  class Index {
    var points: map<int, set<int>>

    constructor ()
      ensures forall x :: At(x) == {}
    {
      points := map[];
    }

    function At(x: int): set<int>
      reads this
    {
      if x in points then points[x] else {}
    }

    /** A right-open interval; one that ends before it starts adds nothing. */
    method AddCity(key: int, low: int, high: int)
      modifies this
      ensures forall x :: At(x) == old(At(x)) + if low <= x < high then {key} else {}
    {
      if low < high {
        for x := low to high
          invariant forall y :: At(y) == old(At(y)) + if low <= y < x then {key} else {}
        {
          points := points[x := At(x) + {key}];
        }
      }
    }

    /** Some point of the window belongs to the key. */
    ghost predicate Hits(low: int, high: int, key: int)
      reads this
    {
      exists x :: low <= x < high && key in At(x)
    }

    method Query(low: int, high: int) returns (rc: set<int>)
      ensures forall key :: key in rc <==> Hits(low, high, key)
    {
      var m := map x | x in points && low <= x < high :: points[x];
      var xs := Ordered.Ascending(m.Keys);
      rc := {};
      for n := 0 to |xs|
        invariant forall key :: key in rc <==> exists i :: 0 <= i < n && key in At(xs[i])
      {
        assert xs[n] in xs;
        rc := rc + m[xs[n]];
      }
      forall key ensures key in rc <==> Hits(low, high, key) {
        if Hits(low, high, key) {
          var x :| low <= x < high && key in At(x);
          assert x in xs;
        }
        if key in rc {
          var i :| 0 <= i < |xs| && key in At(xs[i]);
          assert xs[i] in xs;
        }
      }
    }
  }

  /** The source returns no value after an insertion, so what its caller sees then is undefined. */
  datatype Added = False | NothingReturned

  class CityDB {
    var cityObjectDB: map<string, City>
    var cityDB: map<int, string>
    var key: int
    const tempIndex: Index
    const humIndex: Index
    var lowestTemp: int
    var highestTemp: int
    var lowestHum: int
    var highestHum: int
    var tokenStack: seq<Token>
    var resultStack: seq<set<int>>

    static ghost predicate OtherName(names: map<int, string>, k: int, k': int) {
      k in names && k' in names && names[k] != names[k']
    }

    static ghost predicate HasKey(names: map<int, string>, n: string) {
      exists k :: k in names && names[k] == n
    }

    static ghost predicate LinkedTables(objects: map<string, City>, names: map<int, string>, key: int) {
      && 0 <= key
      && (forall k :: k in names <==> 1 <= k <= key)
      && (forall k :: k in names ==> names[k] in objects)
      && (forall k, k' {:trigger OtherName(names, k, k')} ::
            k in names && k' in names && k != k' ==> OtherName(names, k, k'))
      && (forall n {:trigger HasKey(names, n)} :: n in objects ==> HasKey(names, n))
      && (forall n :: n in objects ==> objects[n].name == n)
    }

    /** Primary keys count up from 1, and keys and names determine each other. */
    ghost predicate Linked()
      reads this`cityDB, this`cityObjectDB, this`key
    {
      LinkedTables(cityObjectDB, cityDB, key)
    }

    static function RowsOf(objects: map<string, City>, names: map<int, string>): Rows {
      map k | k in names && names[k] in objects :: objects[names[k]]
    }

    /** The stored cities by primary key. */
    function Cities(): Rows
      reads this`cityDB, this`cityObjectDB
    {
      RowsOf(cityObjectDB, cityDB)
    }

    /** An index holds exactly the ranges, and the bounds enclose them. */
    ghost predicate Indexes(index: Index, keyword: string, lowest: int, highest: int, rows: Rows)
      reads index
    {
      && (forall x, k :: k in index.At(x) <==> k in rows && InRange(rows[k], keyword, x))
      && (forall k :: k in rows ==> lowest <= Low(rows[k], keyword) && High(rows[k], keyword) <= highest)
    }

    ghost predicate Stored()
      reads this`cityDB, this`cityObjectDB, this`key
      reads this`lowestTemp, this`highestTemp, this`lowestHum, this`highestHum, tempIndex, humIndex
    {
      && tempIndex != humIndex
      && Linked()
      && Indexes(tempIndex, TEMPERATURE, lowestTemp, highestTemp, Cities())
      && Indexes(humIndex, HUMIDITY, lowestHum, highestHum, Cities())
    }

    /** Between queries both stacks are empty. */
    ghost predicate Valid()
      reads this, tempIndex, humIndex
    {
      Stored() && tokenStack == [] && resultStack == []
    }

    constructor ()
      ensures Valid() && Cities() == map[]
    {
      cityObjectDB, cityDB, key := map[], map[], 0;
      lowestTemp, highestTemp := INT64_MAX, INT64_MIN;
      lowestHum, highestHum := INT64_MAX, INT64_MIN;
      tokenStack, resultStack := [], [];
      tempIndex := new Index();
      humIndex := new Index();
    }

    /** One half of indexCreate: an index and its two bounds. */
    method IndexAttribute(index: Index, k: int, low: int, high: int, lowest: int, highest: int,
                          ghost keyword: string, ghost c: City, ghost rows: Rows) returns (lowest': int, highest': int)
      requires k !in rows && Indexes(index, keyword, lowest, highest, rows)
      requires low == Low(c, keyword) && high == High(c, keyword)
      modifies index
      ensures Indexes(index, keyword, lowest', highest', rows[k := c])
    {
      index.AddCity(k, low, high);
      lowest', highest' := lowest, highest;
      if lowest > low {
        lowest' := low;
      }
      if highest < high {
        highest' := high;
      }
      assert forall x :: InRange(c, keyword, x) <==> low <= x < high;
    }

    method IndexCreate(k: int, c: City, ghost rows: Rows)
      requires tempIndex != humIndex && k !in rows
      requires Indexes(tempIndex, TEMPERATURE, lowestTemp, highestTemp, rows)
      requires Indexes(humIndex, HUMIDITY, lowestHum, highestHum, rows)
      modifies this`lowestTemp, this`highestTemp, this`lowestHum, this`highestHum, tempIndex, humIndex
      ensures Indexes(tempIndex, TEMPERATURE, lowestTemp, highestTemp, rows[k := c])
      ensures Indexes(humIndex, HUMIDITY, lowestHum, highestHum, rows[k := c])
    {
      lowestTemp, highestTemp :=
        IndexAttribute(tempIndex, k, c.lowTemp, c.highTemp, lowestTemp, highestTemp, TEMPERATURE, c, rows);
      lowestHum, highestHum :=
        IndexAttribute(humIndex, k, c.lowHum, c.highHum, lowestHum, highestHum, HUMIDITY, c, rows);
    }

    /** A second city of the same name is refused. */
    method AddCity(c: City) returns (added: Added)
      requires Valid()
      modifies this, tempIndex, humIndex
      ensures Valid()
      ensures added == if c.name in old(cityObjectDB) then False else NothingReturned
      ensures Cities() == if added == False then old(Cities()) else old(Cities())[key := c]
      ensures added != False ==> key !in old(Cities()) && cityObjectDB == old(cityObjectDB)[c.name := c]
    {
      if c.name in cityObjectDB {
        return False;
      }
      ghost var rows := Cities();
      var k := InsertCity(c);
      IndexCreate(k, c, rows);
      return NothingReturned;
    }

    /** The two tables, under the next primary key. */
    method InsertCity(c: City) returns (k: int)
      requires Linked() && c.name !in cityObjectDB
      modifies this`key, this`cityObjectDB, this`cityDB
      ensures Linked() && k == key && k !in old(Cities())
      ensures Cities() == old(Cities())[k := c]
      ensures cityObjectDB == old(cityObjectDB)[c.name := c]
    {
      StillLinked(cityObjectDB, cityDB, key + 1, c);
      key := key + 1;
      k := key;
      cityObjectDB := cityObjectDB[c.name := c];
      cityDB := cityDB[k := c.name];
    }

    static lemma StillLinked(objects: map<string, City>, names: map<int, string>, key: int, c: City)
      requires LinkedTables(objects, names, key - 1) && c.name !in objects
      ensures key !in RowsOf(objects, names)
      ensures LinkedTables(objects[c.name := c], names[key := c.name], key)
      ensures RowsOf(objects[c.name := c], names[key := c.name]) == RowsOf(objects, names)[key := c]
    {
      var objects', names' := objects[c.name := c], names[key := c.name];
      forall n | n in objects' ensures HasKey(names', n) {
        if n == c.name {
          assert names'[key] == n;
        } else {
          assert HasKey(names, n);
          var k :| k in names && names[k] == n;
          assert names'[k] == n;
        }
      }
      forall k, k' | k in names' && k' in names' && k != k' ensures OtherName(names', k, k') {
        assert k != key && k' != key ==> OtherName(names, k, k');
      }
      var rows, rows' := RowsOf(objects, names)[key := c], RowsOf(objects', names');
      assert forall k :: k in names ==> k in rows' && rows'[k] == objects[names[k]];
      assert key in rows' && rows'[key] == c;
      assert forall k :: k in rows <==> k in rows';
      assert forall k :: k in rows ==> rows[k] == rows'[k];
    }

    // ----- queries

    /** One comparison, through the window that its operator opens in the index. */
    method QueryAtom(k: Token, op: Token, v: Token) returns (rc: set<int>)
      requires Stored() && IsAtom(k, op, v)
      ensures rc == AtomSet(Cities(), k.value, op.kind, NumberOf(v.value))
    {
      var index, low, high;
      if k.value == TEMPERATURE {
        index, low, high := tempIndex, lowestTemp, highestTemp;
      } else {
        index, low, high := humIndex, lowestHum, highestHum;
      }
      ghost var lowest, highest := low, high;
      var val := NumberOf(v.value);
      match op.kind {
        case EQ =>
          low := val;
          high := val + 1;
        case LT => high := val;
        case LE => high := val + 1;
        case GT => low := val;
        case GE => low := val + 1;
      }
      ghost var keyword := if k.value == TEMPERATURE then TEMPERATURE else HUMIDITY;
      WindowMeans(Cities(), keyword, op.kind, val, lowest, highest, low, high);
      HitsAreOverlaps(index, keyword, lowest, highest, Cities(), low, high);
      if low > high {
        rc := {};
      } else {
        rc := index.Query(low, high);
      }
      assert forall key :: key in rc <==> key in AtomSet(Cities(), keyword, op.kind, val);
      AnyOtherKeyword(Cities(), k.value, op.kind, val);
    }

    /** Every keyword but "T" is read as "H". */
    lemma AnyOtherKeyword(rows: Rows, keyword: string, op: TokenType, v: int)
      ensures AtomSet(rows, keyword, op, v)
           == AtomSet(rows, if keyword == TEMPERATURE then TEMPERATURE else HUMIDITY, op, v)
    {
      var keyword' := if keyword == TEMPERATURE then TEMPERATURE else HUMIDITY;
      forall city: City ensures Satisfies(city, keyword, op, v) <==> Satisfies(city, keyword', op, v) {
        assert forall x :: InRange(city, keyword, x) <==> InRange(city, keyword', x);
      }
    }

    /** Some point of the city's range lies in the window. */
    static ghost predicate Overlaps(city: City, keyword: string, low: int, high: int) {
      exists x :: low <= x < high && InRange(city, keyword, x)
    }

    lemma HitsAreOverlaps(index: Index, keyword: string, lowest: int, highest: int, rows: Rows, low: int, high: int)
      requires Indexes(index, keyword, lowest, highest, rows)
      ensures forall key :: index.Hits(low, high, key) <==> key in rows && Overlaps(rows[key], keyword, low, high)
      ensures low > high ==> forall key :: !index.Hits(low, high, key)
    {
      forall key ensures index.Hits(low, high, key) <==> key in rows && Overlaps(rows[key], keyword, low, high) {
        if index.Hits(low, high, key) {
          var x :| low <= x < high && key in index.At(x);
          assert InRange(rows[key], keyword, x);
        }
        if key in rows && Overlaps(rows[key], keyword, low, high) {
          var x :| low <= x < high && InRange(rows[key], keyword, x);
          assert key in index.At(x);
        }
      }
    }

    /** On the stored ranges, lying in the window is the comparison. */
    lemma WindowMeans(rows: Rows, keyword: string, op: TokenType, v: int,
                      lowest: int, highest: int, low: int, high: int)
      requires IsComparison(op)
      requires forall k :: k in rows ==> lowest <= Low(rows[k], keyword) && High(rows[k], keyword) <= highest
      requires low == (if op == EQ || op == GT then v else if op == GE then v + 1 else lowest)
      requires high == (if op == LT then v else if op == EQ || op == LE then v + 1 else highest)
      ensures forall k :: k in AtomSet(rows, keyword, op, v) <==> k in rows && Overlaps(rows[k], keyword, low, high)
    {
      forall k | k in rows
        ensures Satisfies(rows[k], keyword, op, v) <==> Overlaps(rows[k], keyword, low, high)
      {
        forall x | InRange(rows[k], keyword, x) ensures low <= x < high <==> Compares(op, x, v) {
        }
      }
    }

    method QueryOperator(op: Token)
      requires Stored() && 2 <= |tokenStack|
      requires var m := Step(Cities(), Machine(tokenStack, resultStack), op); !m.Stuck?
      requires !op.IsOperand() && op.kind != AND && op.kind != OR
      modifies this`tokenStack, this`resultStack
      ensures Machine(tokenStack, resultStack) == Step(Cities(), old(Machine(tokenStack, resultStack)), op)
      ensures tokenStack == old(tokenStack[..|tokenStack| - 2])
    {
      var n := |tokenStack|;
      var l, r := tokenStack[n - 1], tokenStack[n - 2];
      tokenStack := tokenStack[..n - 2];
      assert (l.IsKeyWord() || r.IsKeyWord()) && (l.IsOperand() || r.IsOperand());
      var k, v;
      if l.IsKeyWord() {
        k, v := l, r;
      } else {
        k, v := r, l;
      }
      assert if v.value[0] in "+-" then IsDigit(v.value[1]) else IsDigit(v.value[0]);
      var rc := QueryAtom(k, op, v);
      resultStack := resultStack + [rc];
    }

    method ResultJoin(op: Token)
      requires op.kind == AND || op.kind == OR
      requires Linked() && 2 <= |resultStack|
      modifies this`resultStack
      ensures Machine(tokenStack, resultStack) == Step(Cities(), old(Machine(tokenStack, resultStack)), op)
    {
      var n := |resultStack|;
      var r := resultStack[n - 1];
      var l := resultStack[n - 2];
      resultStack := resultStack[..n - 2];
      if op.kind == AND {
        resultStack := resultStack + [l * r];
      } else {
        resultStack := resultStack + [l + r];
      }
    }

    /** One token of the postfix form, as in the loop of the query call. */
    method Evaluate(e: Token)
      requires Stored() && !Step(Cities(), Machine(tokenStack, resultStack), e).Stuck?
      modifies this`tokenStack, this`resultStack
      ensures Stored()
      ensures Machine(tokenStack, resultStack) == Step(Cities(), old(Machine(tokenStack, resultStack)), e)
    {
      if e.IsOperand() {
        tokenStack := tokenStack + [e];
        return;
      }
      if e.kind == AND || e.kind == OR {
        ResultJoin(e);
      } else {
        QueryOperator(e);
      }
    }

    static lemma NeverStuck(rows: Rows, es: seq<Token>, n: nat)
      requires n < |es| && !Eval(rows, Machine([], []), es).Stuck?
      ensures Eval(rows, Machine([], []), es[..n + 1]) == Step(rows, Eval(rows, Machine([], []), es[..n]), es[n])
      ensures !Eval(rows, Machine([], []), es[..n + 1]).Stuck?
    {
      var m := Machine([], []);
      assert es == es[..n + 1] + es[n + 1..];
      EvalConcat(rows, m, es[..n + 1], es[n + 1..]);
      StuckForEver(rows, es[n + 1..]);
      assert es[..n + 1] == es[..n] + [es[n]];
      EvalConcat(rows, m, es[..n], [es[n]]);
      EvalOne(rows, Eval(rows, m, es[..n]), es[n]);
    }

    /** Runs the evaluator over a postfix form on which none of its asserts fails. */
    method Run(postfix: seq<Token>)
      requires Valid() && !Eval(Cities(), Machine([], []), postfix).Stuck?
      modifies this`tokenStack, this`resultStack
      ensures Stored()
      ensures Machine(tokenStack, resultStack) == Eval(Cities(), Machine([], []), postfix)
    {
      ghost var rows := Cities();
      for n := 0 to |postfix|
        invariant Stored()
        invariant Machine(tokenStack, resultStack) == Eval(rows, Machine([], []), postfix[..n])
      {
        NeverStuck(rows, postfix, n);
        Evaluate(postfix[n]);
      }
      assert postfix[..|postfix|] == postfix;
    }

    /**
      The query call, on any text whose words are the formula's and that does not end in a blank: the stored cities that
      satisfy the formula, in the order of their keys.  Where every city agrees with every atom, these are the cities
      that the text asks for.
     */
    method Query(text: string, ghost q: Formula) returns (rc: seq<City>, ghost keys: seq<int>)
      requires Valid() && WellFormed(q) && Words.WordsOf(text) == FormulaStrings(q) && !Words.EndsInBlank(text)
      modifies this`tokenStack, this`resultStack
      ensures Valid()
      ensures Ordered.Ascends(keys) && forall k :: k in keys <==> k in Cities() && Holds(Cities()[k], q)
      ensures AgreeOn(Cities(), q) ==> forall k :: k in keys <==> k in Cities() && FormulaAsWritten(Cities()[k], q)
      ensures |rc| == |keys| && forall i :: 0 <= i < |rc| ==> keys[i] in Cities() && rc[i] == Cities()[keys[i]]
    {
      hide FormulaAsWritten, Words.WordsOf;
      AnswersAsWritten(Cities(), q);
      var strings := Words.Split(text);
      rc, keys := QueryWords(strings, q);
    }

    /** The query from the words on. */
    method QueryWords(strings: seq<string>, ghost q: Formula) returns (rc: seq<City>, ghost keys: seq<int>)
      requires Valid() && WellFormed(q) && strings == FormulaStrings(q)
      modifies this`tokenStack, this`resultStack
      ensures Valid()
      ensures Ordered.Ascends(keys) && forall k :: k in keys <==> k in Cities() && Holds(Cities()[k], q)
      ensures |rc| == |keys| && forall i :: 0 <= i < |rc| ==> keys[i] in Cities() && rc[i] == Cities()[keys[i]]
    {
      hide Eval, Shunt, TokensOf, FormulaStrings, WellFormed, Holds, RowsOf, LinkedTables, Indexes;
      QueryMeansFormula(Cities(), q);
      var tokens := Tokanize(strings, CITY_KEYWORDS);
      var postfix := RecursiveDecent(tokens);
      Run(postfix);
      assert |resultStack| == 1;
      var result := resultStack[0];
      resultStack := [];
      var xs := Ordered.Ascending(result);
      assert forall i :: 0 <= i < |xs| ==> xs[i] in xs;
      rc := Fetch(xs);
      keys := xs;
    }

    method Fetch(xs: seq<int>) returns (rc: seq<City>)
      requires Linked() && forall i :: 0 <= i < |xs| ==> xs[i] in Cities()
      ensures |rc| == |xs| && forall i :: 0 <= i < |rc| ==> rc[i] == Cities()[xs[i]]
    {
      rc := [];
      for n := 0 to |xs|
        invariant |rc| == n && forall i :: 0 <= i < n ==> rc[i] == Cities()[xs[i]]
      {
        rc := rc + [cityObjectDB[cityDB[xs[n]]]];
      }
    }
  }
}
