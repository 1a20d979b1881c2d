/** The table that decides which sums can be made, with the 32-bit subtraction that indexes it. */
module SumTable {
  import opened Picks
  import opened SubsetSum

  const TWO_32: nat := 0x1_0000_0000

  // ----- the entries

  /** `j - element` of unsigned words, passed on as an int. */
  function Difference(j: nat, element: nat): int {
    var u := (j - element) % TWO_32;
    if u < INT_LIMIT then u else u - TWO_32
  }

  /** The entry of column `j` in the row of the last element; columns from `columns` on read as false. */
  function Entry(ns: seq<nat>, columns: nat, j: nat): bool
    decreases |ns|
  {
    if ns == [] then false
    else if j == 0 then true
    else
      var above, element := ns[..|ns| - 1], ns[|ns| - 1];
      var c := Difference(j, element);
      element == j || Entry(above, columns, j) || (0 <= c < columns && Entry(above, columns, c))
  }

  lemma EntryOfMore(ns: seq<nat>, element: nat, columns: nat, j: nat)
    requires 0 < j
    ensures var c := Difference(j, element);
      Entry(ns + [element], columns, j)
      <==> element == j || Entry(ns, columns, j) || (0 <= c < columns && Entry(ns, columns, c))
  {
    assert (ns + [element])[..|ns|] == ns;
  }

  // ----- when the entries are right

  ghost predicate RowRight(ns: seq<nat>, columns: nat) {
    forall j: nat :: j < columns ==> (Entry(ns, columns, j) <==> CanMake(ns, j))
  }

  ghost predicate TableRight(elements: seq<nat>, columns: nat) {
    forall k :: 0 < k <= |elements| ==> RowRight(elements[..k], columns)
  }

  /**
    An element above a column wraps around to the column `TWO_32 - element` further on.  That does no harm when every
    sum of the elements before it that is found there can be made that much smaller as well.
   */
  ghost predicate Harmless(ns: seq<nat>, element: nat, columns: nat)
    requires element < TWO_32
  {
    var d := TWO_32 - element;
    forall c: nat :: d < c < columns && CanMake(ns, c) ==> CanMake(ns, c - d)
  }

  ghost predicate AllHarmless(elements: seq<nat>, columns: nat)
    requires Words(elements)
  {
    forall k :: 0 < k < |elements| ==> Harmless(elements[..k], elements[k], columns)
  }

  /** The elements are 32-bit words. */
  predicate Words(elements: seq<nat>) {
    forall i :: 0 <= i < |elements| ==> elements[i] < TWO_32
  }

  lemma DifferenceIs(j: nat, element: nat)
    requires element < TWO_32 && j < INT_LIMIT
    ensures element <= j ==> Difference(j, element) == j - element
    ensures j < element ==>
      Difference(j, element) == (if j + (TWO_32 - element) < INT_LIMIT then j + (TWO_32 - element) else j - element)
  {
  }

  /** The first row is always right. */
  lemma FirstRowRight(element: nat, columns: nat)
    requires element < TWO_32 && columns <= INT_LIMIT
    ensures RowRight([element], columns)
  {
    assert [] + [element] == [element];
    forall j: nat | j < columns ensures Entry([element], columns, j) <==> CanMake([element], j) {
      CanMakeMore([], element, j);
      CanMakeNothing([]);
      CanMakeNothing([element]);
      if 0 < j {
        EntryOfMore([], element, columns, j);
      }
    }
  }

  /** Below a right row, the next one is right exactly when its element does no harm. */
  lemma NextRowRight(ns: seq<nat>, element: nat, columns: nat)
    requires ns != [] && element < TWO_32 && columns <= INT_LIMIT && RowRight(ns, columns)
    ensures RowRight(ns + [element], columns) <==> Harmless(ns, element, columns)
  {
    hide Entry, CanMake, Difference;
    var d := TWO_32 - element;
    if RowRight(ns + [element], columns) {
      forall c: nat | d < c < columns && CanMake(ns, c) ensures CanMake(ns, c - d) {
        EntryRight(ns, element, columns, c - d);
        assert Entry(ns + [element], columns, c - d) <==> CanMake(ns + [element], c - d);
      }
    }
    if Harmless(ns, element, columns) {
      ColumnZero(ns + [element], columns);
      forall j: nat | j < columns ensures Entry(ns + [element], columns, j) <==> CanMake(ns + [element], j) {
        if j != 0 {
          EntryRight(ns, element, columns, j);
          assert j + d < columns && CanMake(ns, j + d) ==> CanMake(ns, j + d - d);
        }
      }
    }
  }

  lemma ColumnZero(ns: seq<nat>, columns: nat)
    requires ns != []
    ensures Entry(ns, columns, 0) && CanMake(ns, 0)
  {
    CanMakeNothing(ns);
  }

  lemma EntryRight(ns: seq<nat>, element: nat, columns: nat, j: nat)
    requires ns != [] && element < TWO_32 && columns <= INT_LIMIT && RowRight(ns, columns) && 0 < j < columns
    ensures var d := TWO_32 - element;
      (Entry(ns + [element], columns, j) <==> CanMake(ns + [element], j))
      <==> (j + d < columns && CanMake(ns, j + d) ==> CanMake(ns, j))
  {
    hide Entry, CanMake, Difference;
    EntryOfMore(ns, element, columns, j);
    CanMakeMore(ns, element, j);
    CanMakeNothing(ns);
    DifferenceIs(j, element);
    if element <= j {
      assert Entry(ns, columns, j - element) <==> CanMake(ns, j - element);
    }
  }

  /** The whole table is right exactly when no element does harm. */
  lemma TableRightExactly(elements: seq<nat>, columns: nat)
    requires Words(elements) && columns <= INT_LIMIT
    ensures TableRight(elements, columns) <==> AllHarmless(elements, columns)
  {
    RowsRightExactly(elements, columns, |elements|);
  }

  lemma {:induction false} RowsRightExactly(elements: seq<nat>, columns: nat, n: nat)
    requires Words(elements) && columns <= INT_LIMIT && n <= |elements|
    ensures (forall k :: 0 < k <= n ==> RowRight(elements[..k], columns))
      <==> forall k :: 0 < k < n ==> Harmless(elements[..k], elements[k], columns)
  {
    hide RowRight, Harmless;
    if n != 0 {
      RowsRightExactly(elements, columns, n - 1);
      assert elements[..n] == elements[..n - 1] + [elements[n - 1]];
      if n == 1 {
        FirstRowRight(elements[0], columns);
        assert elements[..1] == [elements[0]];
      } else if RowRight(elements[..n - 1], columns) {
        NextRowRight(elements[..n - 1], elements[n - 1], columns);
      }
    }
  }

  /** Elements that cannot wrap around into the table do no harm. */
  lemma SmallIsHarmless(elements: seq<nat>, columns: nat)
    requires forall i :: 0 <= i < |elements| ==> elements[i] + columns <= TWO_32
    requires 0 < columns
    ensures Words(elements) && AllHarmless(elements, columns)
  {
  }

  /** The elements 3 and 2^32 - 1 and the sum 3: the entry for 2 in the second row is true, and 2 cannot be made. */
  lemma LargeElementIsWrong()
    ensures var elements := [3, 0xFFFF_FFFF];
      Entry(elements, 4, 2) && !CanMake(elements, 2) && !AllHarmless(elements, 4)
  {
    var elements := [3, 0xFFFF_FFFF];
    FirstRowRight(3, 4);
    CanMakeMore([], 3, 3);
    CanMakeMore([], 3, 2);
    CanMakeNothing([]);
    assert [] + [3] == [3] && [3] + [0xFFFF_FFFF] == elements && elements[..1] == [3];
    CanMakeMore([3], 0xFFFF_FFFF, 2);
    EntryOfMore([3], 0xFFFF_FFFF, 4, 2);
    assert Difference(2, 0xFFFF_FFFF) == 3;
    assert CanMake(elements[..1], 3) && !CanMake(elements[..1], 3 - (TWO_32 - elements[1]));
  }

  // ----- the table

  /** `expected` is one more than the largest sum. */
  class DPTable {
    const elements: seq<nat>
    const expected: nat
    const table: array2<bool>

    /** Rows up to row `i` hold their entries, and of row `i` the columns below `j`. */
    ghost predicate FilledTo(i: nat, j: nat)
      reads table
    {
      && table.Length0 == |elements| && table.Length1 == expected
      && (forall r: nat, c: nat {:trigger table[r, c]} :: r < |elements| && c < expected ==>
            table[r, c] == if r < i || (r == i && c < j) then Entry(elements[..r + 1], expected, c) else c == 0)
    }

    constructor (elements: seq<nat>, expected: nat)
      requires 0 < expected
      ensures this.elements == elements && this.expected == expected && fresh(table)
      ensures FilledTo(0, 1)
    {
      this.elements, this.expected := elements, expected;
      table := new bool[|elements|, expected]((r: nat, c: nat) => c == 0);
    }

    predicate Get(i: int, j: int)
      requires table.Length0 == |elements| && table.Length1 == expected
      reads table
    {
      if i < 0 || |elements| <= i || j < 0 || expected <= j then false else table[i, j]
    }

    method Set(i: int, j: int, value: bool)
      requires table.Length0 == |elements| && table.Length1 == expected
      modifies table
      ensures forall r: nat, c: nat :: r < |elements| && c < expected ==>
        table[r, c] == if r == i && c == j then value else old(table[r, c])
    {
      if i < 0 || |elements| <= i || j < 0 || expected <= j {
        return;
      }
      table[i, j] := value;
    }

    /** One entry is decided by two entries of the row above. */
    method Decide(i: nat, j: nat)
      requires i < |elements| && 1 <= j < expected && FilledTo(i, j)
      modifies table
      ensures FilledTo(i, j + 1)
    {
      hide Difference;
      var element := elements[i];
      assert elements[..i + 1] == elements[..i] + [element];
      EntryOfMore(elements[..i], element, expected, j);
      assert 0 < i ==> elements[..i] == elements[..i - 1 + 1];
      if element == j || Get(i - 1, j) || Get(i - 1, Difference(j, element)) {
        Set(i, j, true);
      }
    }

    /** Afterwards every entry is the recurrence's. */
    method Fill()
      requires 0 < expected && FilledTo(0, 1)
      modifies table
      ensures FilledTo(|elements|, 1)
    {
      for i := 0 to |elements|
        invariant FilledTo(i, 1)
      {
        for j := 1 to expected
          invariant FilledTo(i, j)
        {
          Decide(i, j);
        }
      }
    }
  }

  // ----- the program, and the search

  /** The table that the program prints: each entry says whether the first elements have that sum, unless one does harm. */
  method DecideSums(elements: seq<nat>, expected: nat) returns (t: DPTable)
    requires Words(elements) && expected + 1 < INT_LIMIT
    ensures fresh(t) && fresh(t.table) && t.elements == elements && t.expected == expected + 1
    ensures t.FilledTo(|elements|, 1)
    ensures (forall r: nat, c: nat :: r < |elements| && c <= expected ==> t.table[r, c] == CanMake(elements[..r + 1], c))
      <==> AllHarmless(elements, expected + 1)
  {
    t := new DPTable(elements, expected + 1);
    t.Fill();
    TableRightExactly(elements, expected + 1);
    PrintedRight(t);
  }

  lemma PrintedRight(t: DPTable)
    requires t.FilledTo(|t.elements|, 1)
    ensures (forall r: nat, c: nat :: r < |t.elements| && c < t.expected ==> t.table[r, c] == CanMake(t.elements[..r + 1], c))
      <==> TableRight(t.elements, t.expected)
  {
    hide Entry, CanMake;
    if TableRight(t.elements, t.expected) {
      forall r: nat, c: nat | r < |t.elements| && c < t.expected
        ensures t.table[r, c] == CanMake(t.elements[..r + 1], c)
      {
        assert RowRight(t.elements[..r + 1], t.expected);
      }
    }
    if forall r: nat, c: nat ::
      r < |t.elements| && c < t.expected ==> t.table[r, c] == CanMake(t.elements[..r + 1], c)
    {
      forall k | 0 < k <= |t.elements| ensures RowRight(t.elements[..k], t.expected) {
        var r: nat, row := k - 1, t.elements[..k];
        assert t.elements[..r + 1] == row;
        forall c: nat | c < t.expected ensures Entry(row, t.expected, c) <==> CanMake(row, c) {
          assert t.table[r, c] == Entry(row, t.expected, c);
        }
      }
    }
  }

  /** On the same sorted numbers, the search finds something exactly when the table's last entry says yes and the sum is not zero. */
  lemma FoundIffTableSays(sorted: seq<nat>, sum: nat, picks: seq<Pick>, t: DPTable)
    requires sorted != [] && Positive(sorted) && Total(sorted) < INT_LIMIT && sum + 1 < INT_LIMIT
    requires forall b :: b in picks <==> IsSolution(sorted, sum, b)
    requires t.elements == sorted && t.expected == sum + 1 && t.FilledTo(|sorted|, 1)
    ensures picks != [] <==> 0 < sum && t.table[|sorted| - 1, sum]
  {
    hide Entry, CanMake, IsSolution, Harmless;
    FoundIffMade(sorted, sum, picks);
    EachAtMostTotal(sorted);
    SmallIsHarmless(sorted, sum + 1);
    TableRightExactly(sorted, sum + 1);
    assert sorted[..|sorted|] == sorted;
    assert RowRight(sorted[..|sorted|], sum + 1);
  }

  lemma {:induction false} EachAtMostTotal(ns: seq<nat>)
    ensures forall i :: 0 <= i < |ns| ==> ns[i] <= Total(ns)
  {
    if ns != [] {
      EachAtMostTotal(ns[1..]);
      forall i | 0 < i < |ns| ensures ns[i] <= Total(ns) {
        assert ns[i] == ns[1..][i - 1];
      }
    }
  }
}
