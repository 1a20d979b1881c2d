/** The 0/1 knapsack table, and finding the objects again. */
module Knapsack {
  import opened Picks

  datatype Object = Object(weight: nat, value: nat)

  function Weights(os: seq<Object>): (r: seq<nat>)
    ensures |r| == |os|
  {
    seq(|os|, i requires 0 <= i < |os| => os[i].weight)
  }

  function Values(os: seq<Object>): (r: seq<nat>)
    ensures |r| == |os|
  {
    seq(|os|, i requires 0 <= i < |os| => os[i].value)
  }

  // ----- what is optimal

  /** A choice of objects within the limit. */
  ghost predicate Fits(os: seq<Object>, b: Pick, limit: nat) {
    |b| == |os| && Weight(Weights(os), b) <= limit
  }

  function Worth(os: seq<Object>, b: Pick): nat
    requires |b| == |os|
  {
    Weight(Values(os), b)
  }

  /** No choice within the limit is worth more, and one is worth that much. */
  ghost predicate IsBest(os: seq<Object>, limit: nat, v: nat) {
    && (exists b :: Fits(os, b, limit) && Worth(os, b) == v)
    && (forall b :: Fits(os, b, limit) ==> Worth(os, b) <= v)
  }

  /** An object that weighs nothing and yet is worth something. */
  predicate Free(o: Object) {
    o.weight == 0 < o.value
  }

  ghost predicate NothingFree(os: seq<Object>) {
    forall i :: 0 <= i < |os| ==> !Free(os[i])
  }

  lemma OneMore(os: seq<Object>, b: Pick, o: Object, bit: bool)
    requires |b| == |os|
    ensures Weight(Weights(os + [o]), b + [bit]) == Weight(Weights(os), b) + if bit then o.weight else 0
    ensures Worth(os + [o], b + [bit]) == Worth(os, b) + if bit then o.value else 0
  {
    assert Weights(os + [o]) == Weights(os) + [o.weight];
    assert Values(os + [o]) == Values(os) + [o.value];
    WeightConcat(Weights(os), b, [o.weight], [bit]);
    WeightConcat(Values(os), b, [o.value], [bit]);
  }

  // ----- the table

  function Max(a: int, b: int): int { if a < b then b else a }

  const INT_MIN: int := -0x8000_0000
  const INT_LIMIT: nat := 0x8000_0000

  /** The entry for all of the objects: the recurrence of the source, which leaves column 0 alone. */
  function Entry(os: seq<Object>, j: int): int {
    if j < 0 then INT_MIN
    else if os == [] || j == 0 then 0
    else Max(Entry(os[..|os| - 1], j), Entry(os[..|os| - 1], j - os[|os| - 1].weight) + os[|os| - 1].value)
  }

  lemma EntryOfMore(os: seq<Object>, o: Object, j: nat)
    requires 0 < j
    ensures Entry(os + [o], j) == Max(Entry(os, j), Entry(os, j - o.weight) + o.value)
  {
    assert (os + [o])[..|os|] == os;
  }

  /** No sum of values overflows. */
  ghost predicate Bounded(os: seq<Object>) {
    Total(Values(os)) < INT_LIMIT
  }

  lemma {:induction false} TotalConcat(ns: seq<nat>, ms: seq<nat>)
    ensures Total(ns + ms) == Total(ns) + Total(ms)
  {
    if ns == [] {
      assert ns + ms == ms;
    } else {
      assert (ns + ms)[1..] == ns[1..] + ms;
      TotalConcat(ns[1..], ms);
    }
  }

  lemma BoundedPrefix(os: seq<Object>, o: Object)
    requires Bounded(os + [o])
    ensures Bounded(os) && o.value < INT_LIMIT
  {
    assert Values(os + [o]) == Values(os) + [o.value];
    TotalConcat(Values(os), [o.value]);
  }

  /** What the recurrence does to optimal entries. */
  lemma BestOfMore(os: seq<Object>, o: Object, j: nat, v: nat, w: nat)
    requires IsBest(os, j, v)
    requires o.weight <= j ==> IsBest(os, j - o.weight, w)
    ensures IsBest(os + [o], j, if o.weight <= j && v < w + o.value then w + o.value else v)
  {
    var best := if o.weight <= j && v < w + o.value then w + o.value else v;
    var bit := o.weight <= j && v < w + o.value;
    var c :| Fits(os, c, if bit then j - o.weight else j) && Worth(os, c) == if bit then w else v;
    OneMore(os, c, o, bit);
    assert Fits(os + [o], c + [bit], j);
    forall b | Fits(os + [o], b, j) ensures Worth(os + [o], b) <= best {
      var b', bit' := b[..|os|], b[|os|];
      assert b == b' + [bit'];
      OneMore(os, b', o, bit');
      assert Fits(os, b', if bit' then j - o.weight else j);
    }
  }

  /** Without free objects, nothing of worth fits into nothing. */
  lemma {:induction false} NothingFits(os: seq<Object>)
    requires NothingFree(os)
    ensures IsBest(os, 0, 0)
    decreases |os|
  {
    if os == [] {
      assert Fits(os, [], 0) && Worth(os, []) == 0;
    } else {
      var os', o := os[..|os| - 1], os[|os| - 1];
      assert os == os' + [o];
      NothingFits(os');
      assert !Free(o);
      BestOfMore(os', o, 0, 0, 0);
    }
  }

  lemma {:induction false} EntryIsBest(os: seq<Object>, j: nat)
    requires Bounded(os) && NothingFree(os)
    ensures 0 <= Entry(os, j) && IsBest(os, j, Entry(os, j))
    decreases |os|
  {
    if j == 0 {
      NothingFits(os);
    } else if os == [] {
      assert Fits(os, [], j) && Worth(os, []) == 0;
    } else {
      var os', o := os[..|os| - 1], os[|os| - 1];
      assert os == os' + [o];
      BoundedPrefix(os', o);
      EntryIsBest(os', j);
      if o.weight <= j {
        EntryIsBest(os', j - o.weight);
      }
      BestOfMore(os', o, j, Entry(os', j), if o.weight <= j then Entry(os', j - o.weight) else 0);
    }
  }

  /** A free object is never counted in column 0. */
  lemma FreeIsLost(os: seq<Object>, i: nat)
    requires i < |os| && Free(os[i])
    ensures !IsBest(os, 0, Entry(os, 0))
  {
    var b := Nothing(|os|)[i := true];
    OnlyOne(Weights(os), i);
    OnlyOne(Values(os), i);
    assert Fits(os, b, 0) && Worth(os, b) == os[i].value;
  }

  lemma {:induction false} OnlyOne(ns: seq<nat>, i: nat)
    requires i < |ns|
    ensures Weight(ns, Nothing(|ns|)[i := true]) == ns[i]
  {
    var b := Nothing(|ns|)[i := true];
    if i == 0 {
      NothingWeighs(ns[1..], b[1..]);
    } else {
      OnlyOne(ns[1..], i - 1);
      assert b[1..] == Nothing(|ns| - 1)[i - 1 := true];
    }
  }

  /** The whole table is optimal exactly when no object is free. */
  lemma TableIsOptimal(os: seq<Object>)
    requires Bounded(os)
    ensures (forall k: nat, j: nat :: k <= |os| ==> Entry(os[..k], j) >= 0 && IsBest(os[..k], j, Entry(os[..k], j)))
            <==> NothingFree(os)
  {
    if NothingFree(os) {
      forall k: nat, j: nat | k <= |os| ensures Entry(os[..k], j) >= 0 && IsBest(os[..k], j, Entry(os[..k], j)) {
        assert Values(os) == Values(os[..k]) + Values(os[k..]);
        TotalConcat(Values(os[..k]), Values(os[k..]));
        EntryIsBest(os[..k], j);
      }
    } else {
      var i :| 0 <= i < |os| && Free(os[i]);
      FreeIsLost(os, i);
      assert os[..|os|] == os;
    }
  }

  class KnapsackTable {
    const objects: seq<Object>
    const weight: nat
    const table: array2<int>

    ghost predicate Shape() {
      table.Length0 == |objects| && table.Length1 == weight + 1
    }

    /** Rows up to row `i` hold their entries, and of row `i` the columns below `j`; the rest is zero. */
    ghost predicate FilledTo(i: nat, j: nat)
      reads table
    {
      && Shape()
      && (forall r: nat, c: nat {:trigger table[r, c]} :: r < |objects| && c <= weight ==>
            table[r, c] == if r < i || (r == i && c < j) then Entry(objects[..r + 1], c) else 0)
    }

    constructor (objects: seq<Object>, weight: nat)
      ensures this.objects == objects && this.weight == weight && fresh(table) && FilledTo(0, 1)
    {
      this.objects, this.weight := objects, weight;
      table := new int[|objects|, weight + 1]((r: nat, c: nat) => 0);
    }

    function Get(i: int, j: int): int
      requires Shape() && i < |objects| && j <= weight
      reads table
    {
      if j < 0 then INT_MIN else if i < 0 then 0 else table[i, j]
    }

    method Set(i: nat, j: nat, value: int)
      requires Shape() && i < |objects| && j <= weight
      modifies table
      ensures forall r: nat, c: nat :: r < |objects| && c <= weight ==>
        table[r, c] == if r == i && c == j then value else old(table[r, c])
    {
      table[i, j] := value;
    }

    /** A row above the one being filled holds its entries; above all rows they are zero. */
    lemma RowAbove(i: nat, j: nat, c: int)
      requires FilledTo(i, j) && i < |objects| && c <= weight
      ensures Get(i - 1, c) == Entry(objects[..i], c)
    {
      if 0 < i {
        assert objects[..i - 1 + 1] == objects[..i];
      }
    }
  }

  /** Fills the table; every entry is the recurrence's, and so the best worth unless an object is free. */
  method BuildTable(objects: seq<Object>, weight: nat) returns (table: KnapsackTable)
    requires Bounded(objects) && weight + 1 < INT_LIMIT
    ensures fresh(table) && table.objects == objects && table.weight == weight
    ensures table.FilledTo(|objects|, 1)
  {
    table := new KnapsackTable(objects, weight);
    for i := 0 to |objects|
      invariant table.FilledTo(i, 1)
      modifies table.table
    {
      var obj := objects[i];
      for j := 1 to weight + 1
        invariant table.FilledTo(i, j)
        modifies table.table
      {
        table.RowAbove(i, j, j);
        table.RowAbove(i, j, j - obj.weight);
        assert objects[..i + 1] == objects[..i] + [obj];
        EntryOfMore(objects[..i], obj, j);
        var v1 := table.Get(i - 1, j);
        var v2 := table.Get(i - 1, j - obj.weight) + obj.value;
        table.Set(i, j, Max(v1, v2));
      }
    }
  }

  // ----- finding the objects again

  /** The result is a choice of the objects, within the limit and of that worth. */
  ghost predicate IsChoice(os: seq<Object>, limit: nat, worth: int, result: seq<Object>) {
    exists b :: Fits(os, b, limit) && Worth(os, b) == worth && multiset(result) == multiset(Selected(os, b))
  }

  /** The undecided objects are the first `m`; the pick decides the others. */
  ghost predicate Decided(os: seq<Object>, m: nat, tail: Pick, result: seq<Object>) {
    m <= |os| && |tail| == |os| - m && multiset(result) == multiset(Selected(os[m..], tail))
  }

  lemma DecideOne(os: seq<Object>, m: nat, tail: Pick, result: seq<Object>, bit: bool)
    requires 0 < m && Decided(os, m, tail, result)
    ensures Decided(os, m - 1, [bit] + tail, if bit then result + [os[m - 1]] else result)
    ensures Weight(Weights(os[m - 1..]), [bit] + tail)
         == Weight(Weights(os[m..]), tail) + if bit then os[m - 1].weight else 0
    ensures Worth(os[m - 1..], [bit] + tail) == Worth(os[m..], tail) + if bit then os[m - 1].value else 0
  {
    assert os[m - 1..][1..] == os[m..] && ([bit] + tail)[1..] == tail;
    assert Weights(os[m - 1..])[1..] == Weights(os[m..]) && Values(os[m - 1..])[1..] == Values(os[m..]);
  }

  lemma {:induction false} EntryNotNegative(os: seq<Object>, j: nat)
    ensures 0 <= Entry(os, j)
    decreases |os|
  {
    if os != [] {
      EntryNotNegative(os[..|os| - 1], j);
    }
  }

  /** When the entry is not the one above, the object fits and is taken. */
  lemma TakenFits(os: seq<Object>, o: Object, j: nat)
    requires Bounded(os + [o]) && Entry(os + [o], j) != Entry(os, j)
    ensures o.weight <= j && Entry(os + [o], j) == Entry(os, j - o.weight) + o.value
  {
    EntryNotNegative(os, j);
    BoundedPrefix(os, o);
    EntryOfMore(os, o, j);
  }

  /**
    Objects, each used at most once, within the limit and worth exactly the entry for all objects.  An object that is
    taken leaves the index where it is; the entry above equals what remains, so the next turn moves on.
   */
  method GetObjects(table: KnapsackTable, limit: nat) returns (result: seq<Object>)
    requires Bounded(table.objects) && table.FilledTo(|table.objects|, 1) && limit <= table.weight
    ensures IsChoice(table.objects, limit, Entry(table.objects, limit), result)
  {
    hide Entry, Weight, Weights, Worth, Selected, Bounded;
    ghost var os := table.objects;
    var weight: nat := limit;
    var objIndex := |table.objects| - 1;
    TableHolds(table, objIndex, limit);
    var value := table.Get(objIndex, weight);
    result := [];
    EntryNotNegative(os, limit);
    ghost var m: nat, tail: Pick := |os|, [];
    NothingDecided(os);
    if value <= 0 {
      AllDecided(os, m, tail, result, weight, limit);
      return;
    }
    while weight != 0 && value != 0
      invariant weight <= limit && (m == objIndex + 1 || m == objIndex)
      invariant Decided(os, m, tail, result)
      invariant value == Entry(os[..m], weight)
      invariant Weight(Weights(os[m..]), tail) + weight == limit
      invariant Worth(os[m..], tail) + value == Entry(os, limit)
      decreases m + objIndex
    {
      SomethingLeft(os, m, weight);
      TableHolds(table, objIndex - 1, weight);
      assert os[..objIndex + 1] == os[..objIndex] + [os[objIndex]];
      if value == table.Get(objIndex - 1, weight) {
        if m == objIndex + 1 {
          DecideOne(os, m, tail, result, false);
          m, tail := m - 1, [false] + tail;
        }
        objIndex := objIndex - 1;
        continue;
      }
      var obj := table.objects[objIndex];
      BoundedUpTo(os, m);
      TakenFits(os[..objIndex], obj, weight);
      DecideOne(os, m, tail, result, true);
      m, tail := m - 1, [true] + tail;
      result := result + [obj];
      weight := weight - obj.weight;
      value := value - obj.value;
    }
    AllDecided(os, m, tail, result, weight, limit);
  }

  lemma TableHolds(table: KnapsackTable, i: int, j: nat)
    requires table.FilledTo(|table.objects|, 1) && -1 <= i < |table.objects| && j <= table.weight
    ensures table.Get(i, j) == Entry(table.objects[..i + 1], j)
  {
  }

  lemma SomethingLeft(os: seq<Object>, m: nat, j: nat)
    requires m <= |os| && Entry(os[..m], j) != 0
    ensures 0 < m
  {
  }

  lemma NothingDecided(os: seq<Object>)
    ensures os[..|os|] == os && Decided(os, |os|, [], [])
    ensures Weight(Weights(os[|os|..]), []) == 0 == Worth(os[|os|..], [])
  {
  }

  lemma BoundedUpTo(os: seq<Object>, m: nat)
    requires Bounded(os) && m <= |os|
    ensures Bounded(os[..m])
  {
    assert Values(os) == Values(os[..m]) + Values(os[m..]);
    TotalConcat(Values(os[..m]), Values(os[m..]));
  }

  /** Without weight or value left, not taking any of the undecided objects completes the choice. */
  lemma AllDecided(os: seq<Object>, m: nat, tail: Pick, result: seq<Object>, weight: nat, limit: nat)
    requires Decided(os, m, tail, result) && (weight == 0 || Entry(os[..m], weight) == 0)
    requires Weight(Weights(os[m..]), tail) + weight == limit
    ensures IsChoice(os, limit, Worth(os[m..], tail) + Entry(os[..m], weight), result)
  {
    RestUntaken(os, m, tail, result);
    var b := Nothing(m) + tail;
    assert Fits(os, b, limit) && Worth(os, b) == Worth(os[m..], tail) + Entry(os[..m], weight);
  }

  lemma RestUntaken(os: seq<Object>, m: nat, tail: Pick, result: seq<Object>)
    requires Decided(os, m, tail, result)
    ensures var b := Nothing(m) + tail;
            && |b| == |os| && multiset(result) == multiset(Selected(os, b))
            && Weight(Weights(os), b) == Weight(Weights(os[m..]), tail)
            && Worth(os, b) == Worth(os[m..], tail)
  {
    var ws, vs, none := Weights(os[..m]), Values(os[..m]), Nothing(m);
    assert os == os[..m] + os[m..] && Weights(os) == ws + Weights(os[m..]) && Values(os) == vs + Values(os[m..]);
    WeightConcat(ws, none, Weights(os[m..]), tail);
    WeightConcat(vs, none, Values(os[m..]), tail);
    SelectedConcat(os[..m], none, os[m..], tail);
    NothingWeighs(ws, none);
    NothingWeighs(vs, none);
    NothingSelected(os[..m], none);
  }

  /** The program: without free objects the result is within the limit and worth as much as possible. */
  method Solve(objects: seq<Object>, weight: nat) returns (result: seq<Object>)
    requires Bounded(objects) && weight + 1 < INT_LIMIT
    ensures exists worth :: IsChoice(objects, weight, worth, result)
                            && (NothingFree(objects) ==> IsBest(objects, weight, worth))
  {
    var table := BuildTable(objects, weight);
    result := GetObjects(table, weight);
    if NothingFree(objects) {
      EntryIsBest(objects, weight);
    }
  }
}
