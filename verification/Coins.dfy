/** Giving change with the fewest coins: the table over prefixes of the denominations, and the table over amounts only. */
module Coins {

  // ----- change

  function Sum(coins: seq<nat>): nat {
    if coins == [] then 0 else coins[0] + Sum(coins[1..])
  }

  /** Any number of coins of each denomination. */
  ghost predicate Makes(denoms: seq<nat>, coins: seq<nat>, v: nat) {
    Sum(coins) == v && forall i :: 0 <= i < |coins| ==> coins[i] in denoms
  }

  predicate Positive(denoms: seq<nat>) {
    forall i :: 0 <= i < |denoms| ==> 0 < denoms[i]
  }

  ghost predicate CanMake(denoms: seq<nat>, v: nat) {
    exists coins :: Makes(denoms, coins, v)
  }

  /** The fewest coins that make the amount, or `none` when nothing does. */
  ghost predicate IsFewest(denoms: seq<nat>, v: nat, k: nat, none: nat) {
    && (if k < none then exists coins :: Makes(denoms, coins, v) && |coins| == k else k == none)
    && (forall coins :: Makes(denoms, coins, v) ==> k <= |coins|)
  }

  lemma {:induction false} FewCoins(denoms: seq<nat>, coins: seq<nat>, v: nat)
    requires Positive(denoms) && Makes(denoms, coins, v)
    ensures |coins| <= v
  {
    if coins != [] {
      assert coins[0] in denoms && 0 < coins[0];
      MakesRest(denoms, coins, v);
      FewCoins(denoms, coins[1..], v - coins[0]);
    }
  }

  lemma MakesRest(denoms: seq<nat>, coins: seq<nat>, v: nat)
    requires coins != [] && Makes(denoms, coins, v)
    ensures coins[0] in denoms && coins[0] <= v && Makes(denoms, coins[1..], v - coins[0])
  {
    forall i | 0 <= i < |coins[1..]| ensures coins[1..][i] in denoms {
      assert coins[1..][i] == coins[i + 1];
    }
  }

  lemma {:induction false} SumAppend(coins: seq<nat>, d: nat)
    ensures Sum(coins + [d]) == Sum(coins) + d
  {
    if coins == [] {
      assert coins + [d] == [d];
    } else {
      assert (coins + [d])[1..] == coins[1..] + [d];
      SumAppend(coins[1..], d);
    }
  }

  lemma MakesMore(denoms: seq<nat>, coins: seq<nat>, v: nat, d: nat)
    requires d in denoms && Makes(denoms, coins, v)
    ensures Makes(denoms, coins + [d], v + d)
  {
    SumAppend(coins, d);
  }

  /** Below `none`, the amount can be made; at `none`, it cannot. */
  lemma FewestDecides(denoms: seq<nat>, v: nat, k: nat, none: nat)
    requires Positive(denoms) && IsFewest(denoms, v, k, none) && v < none
    ensures k < none <==> CanMake(denoms, v)
    ensures k < none ==> k <= v
  {
    if CanMake(denoms, v) {
      var coins :| Makes(denoms, coins, v);
      FewCoins(denoms, coins, v);
    }
  }

  lemma FewestIsUnique(denoms: seq<nat>, v: nat, k: nat, l: nat, none: nat)
    requires IsFewest(denoms, v, k, none) && IsFewest(denoms, v, l, none)
    ensures k == l
  {
  }

  lemma NoCoins(denoms: seq<nat>, none: nat)
    requires Positive(denoms) && 0 < none
    ensures IsFewest(denoms, 0, 0, none)
  {
    assert Makes(denoms, [], 0);
  }

  lemma NothingMakesZero(denoms: seq<nat>)
    ensures Makes(denoms, [], 0)
  {
  }

  lemma NoneFewer(denoms: seq<nat>, v: nat, k: nat, none: nat)
    requires IsFewest(denoms, v, k, none)
    ensures forall coins :: Makes(denoms, coins, v) ==> k <= |coins|
  {
  }

  // ----- one denomination more

  /** One coin is removed. */
  lemma {:induction false} SumWithout(coins: seq<nat>, i: nat)
    requires i < |coins|
    ensures Sum(coins) == coins[i] + Sum(coins[..i] + coins[i + 1..])
  {
    var without := coins[..i] + coins[i + 1..];
    if i == 0 {
      assert without == coins[1..];
    } else {
      SumWithout(coins[1..], i - 1);
      assert without[1..] == coins[1..][..i - 1] + coins[1..][i..];
    }
  }

  /** Coins that use the last denomination, without one such coin. */
  lemma MakesWithout(denoms: seq<nat>, coins: seq<nat>, v: nat, i: nat)
    requires i < |coins| && Makes(denoms, coins, v)
    ensures coins[i] <= v && Makes(denoms, coins[..i] + coins[i + 1..], v - coins[i])
  {
    SumWithout(coins, i);
    var without := coins[..i] + coins[i + 1..];
    forall j | 0 <= j < |without| ensures without[j] in denoms {
      assert without[j] == if j < i then coins[j] else coins[j + 1];
    }
  }

  function Min(a: nat, b: nat): nat { if b < a then b else a }

  /** The denomination is too large. */
  lemma FewestUnused(denoms: seq<nat>, d: nat, v: nat, k: nat, none: nat)
    requires IsFewest(denoms, v, k, none) && v < d
    ensures IsFewest(denoms + [d], v, k, none)
  {
    if k < none {
      var coins :| Makes(denoms, coins, v) && |coins| == k;
      assert Makes(denoms + [d], coins, v);
    }
    forall coins | Makes(denoms + [d], coins, v) ensures k <= |coins| {
      if i :| 0 <= i < |coins| && coins[i] == d {
        MakesWithout(denoms + [d], coins, v, i);
      } else {
        assert Makes(denoms, coins, v);
      }
    }
  }

  /** The denomination is left alone, or one coin of it is used. */
  lemma FewestUsed(denoms: seq<nat>, d: nat, v: nat, k: nat, l: nat, none: nat)
    requires 0 < d <= v && IsFewest(denoms, v, k, none) && IsFewest(denoms + [d], v - d, l, none)
    ensures IsFewest(denoms + [d], v, Min(k, l + 1), none)
  {
    var all, best := denoms + [d], Min(k, l + 1);
    if best < none {
      if k <= l + 1 {
        var coins :| Makes(denoms, coins, v) && |coins| == k;
        assert Makes(all, coins, v);
      } else {
        var coins :| Makes(all, coins, v - d) && |coins| == l;
        MakesMore(all, coins, v - d, d);
      }
    }
    forall coins | Makes(all, coins, v) ensures best <= |coins| {
      if i :| 0 <= i < |coins| && coins[i] == d {
        MakesWithout(all, coins, v, i);
      } else {
        assert Makes(denoms, coins, v);
      }
    }
  }

  lemma NoDenominations(v: nat, none: nat)
    requires 0 < v
    ensures IsFewest([], v, none, none)
  {
    forall coins: seq<nat> ensures !Makes([], coins, v) {
      var denoms: seq<nat> := [];
      assert coins == [] || coins[0] !in denoms;
    }
  }

  // ----- the table over prefixes of the denominations

  /** The values fit the source's words. */
  const INT_LIMIT: nat := 0x8000_0000

  /** Rows before row `i` hold the fewest coins, and of row `i` the columns before `j`; the rest is zero. */
  ghost predicate FilledTo(table: array2<nat>, denoms: seq<nat>, value: nat, i: nat, j: nat)
    reads table
  {
    && table.Length0 == |denoms| && table.Length1 == value + 1
    && (forall r: nat, c: nat {:trigger table[r, c]} :: r < |denoms| && c <= value ==>
          if r < i || (r == i && c < j) then IsFewest(denoms[..r + 1], c, table[r, c], value + 1)
          else table[r, c] == 0)
  }

  lemma RowAbove(table: array2<nat>, denoms: seq<nat>, value: nat, d: nat, c: nat, i: nat, j: nat)
    requires FilledTo(table, denoms, value, i, j) && d <= i && d < |denoms| && 0 < c <= value
    ensures IsFewest(denoms[..d], c, if d == 0 then value + 1 else table[d - 1, c], value + 1)
  {
    if d == 0 {
      NoDenominations(c, value + 1);
      assert denoms[..0] == [];
    } else {
      assert denoms[..d - 1 + 1] == denoms[..d];
    }
  }

  method BuildCoinTable(denoms: seq<nat>, value: nat) returns (table: array2<nat>)
    requires Positive(denoms) && value + 2 < INT_LIMIT
    ensures fresh(table) && FilledTo(table, denoms, value, |denoms|, 1)
  {
    hide IsFewest;
    table := new nat[|denoms|, value + 1]((r: nat, c: nat) => 0);
    StartRow(table, denoms, value, 0);
    for d := 0 to |denoms|
      invariant FilledTo(table, denoms, value, d, 1)
    {
      for c := 1 to value + 1
        invariant FilledTo(table, denoms, value, d, c)
      {
        var prevC := value + 1;
        if 0 < d {
          prevC := table[d - 1, c];
        }
        RowAbove(table, denoms, value, d, c, d, c);
        assert denoms[..d + 1] == denoms[..d] + [denoms[d]];
        var minC := 0;
        if c < denoms[d] {
          FewestUnused(denoms[..d], denoms[d], c, prevC, value + 1);
          minC := prevC;
        } else {
          FewestUsed(denoms[..d], denoms[d], c, prevC, table[d, c - denoms[d]], value + 1);
          minC := Min(prevC, table[d, c - denoms[d]] + 1);
        }
        table[d, c] := minC;
      }
      StartRow(table, denoms, value, d + 1);
    }
  }

  /** Column 0 is zero, and that is right. */
  lemma StartRow(table: array2<nat>, denoms: seq<nat>, value: nat, d: nat)
    requires Positive(denoms) && FilledTo(table, denoms, value, d, 0)
    ensures FilledTo(table, denoms, value, d, 1)
  {
    if d < |denoms| {
      NoCoins(denoms[..d + 1], value + 1);
    }
  }

  /** The recurrence, read off the table. */
  lemma EntryIs(table: array2<nat>, denoms: seq<nat>, value: nat, d: nat, v: nat)
    requires Positive(denoms) && FilledTo(table, denoms, value, |denoms|, 1) && d < |denoms| && 0 < v <= value
    ensures var above := if d == 0 then value + 1 else table[d - 1, v];
            table[d, v] == if v < denoms[d] then above else Min(above, table[d, v - denoms[d]] + 1)
  {
    hide IsFewest;
    var above := if d == 0 then value + 1 else table[d - 1, v];
    var ds, x, none := denoms[..d], denoms[d], value + 1;
    assert denoms[..d + 1] == ds + [x];
    RowAbove(table, denoms, value, d, v, |denoms|, 1);
    if v < x {
      FewestUnused(ds, x, v, above, none);
      FewestIsUnique(ds + [x], v, table[d, v], above, none);
    } else {
      var used := table[d, v - x];
      FewestUsed(ds, x, v, above, used, none);
      FewestIsUnique(ds + [x], v, table[d, v], Min(above, used + 1), none);
    }
  }

  lemma ZeroNeedsNone(table: array2<nat>, denoms: seq<nat>, value: nat, d: nat)
    requires Positive(denoms) && FilledTo(table, denoms, value, |denoms|, 1) && d < |denoms|
    ensures table[d, 0] == 0
  {
    NoCoins(denoms[..d + 1], value + 1);
    FewestIsUnique(denoms[..d + 1], 0, table[d, 0], 0, value + 1);
  }

  /** The coins, the fewest that make the value; none when it cannot be made. */
  method GetCoins(denoms: seq<nat>, table: array2<nat>, value: nat) returns (result: seq<nat>)
    requires Positive(denoms) && denoms != [] && FilledTo(table, denoms, value, |denoms|, 1)
    ensures !CanMake(denoms, value) ==> result == []
    ensures CanMake(denoms, value) ==>
      Makes(denoms, result, value) && forall coins :: Makes(denoms, coins, value) ==> |result| <= |coins|
  {
    hide IsFewest, Makes;
    result := [];
    NothingMakesZero(denoms);
    ghost var fewest := table[|denoms| - 1, value];
    assert denoms[..|denoms|] == denoms;
    FewestDecides(denoms, value, fewest, value + 1);
    NoneFewer(denoms, value, fewest, value + 1);
    if table[|denoms| - 1, value] > value {
      return;
    }
    var dIndex: nat := |denoms| - 1;
    var v: nat := value;
    while v != 0
      invariant dIndex < |denoms| && v <= value
      invariant Makes(denoms, result, value - v)
      invariant table[dIndex, v] + |result| == fewest
      decreases v, dIndex
    {
      EntryIs(table, denoms, value, dIndex, v);
      if 0 < dIndex && table[dIndex, v] == table[dIndex - 1, v] {
        dIndex := dIndex - 1;
        continue;
      }
      var denom := denoms[dIndex];
      MakesMore(denoms, result, value - v, denom);
      result := result + [denom];
      v := v - denom;
    }
    ZeroNeedsNone(table, denoms, value, dIndex);
  }

  // ----- the table over amounts only

  /** Every amount before `v` has its fewest coins. */
  ghost predicate CountsTo(coins: array<nat>, denoms: seq<nat>, value: nat, v: nat)
    reads coins
  {
    coins.Length == value + 1 && forall c: nat {:trigger coins[c]} :: c < v && c <= value ==> IsFewest(denoms, c, coins[c], value + 1)
  }

  ghost predicate IsPredecessor(denoms: seq<nat>, coins: seq<nat>, v: nat, pred: nat, count: nat) {
    pred < v && pred < |coins| && coins[pred] + 1 == count && v - pred in denoms
  }

  /** What an amount that can be made has for a predecessor: one coin less, one coin fewer. */
  ghost predicate PredecessorsTo(predecessors: array<nat>, coins: array<nat>, denoms: seq<nat>, value: nat, v: nat)
    reads predecessors, coins
  {
    && predecessors.Length == coins.Length == value + 1
    && forall c: nat {:trigger predecessors[c]} :: 0 < c < v && c <= value ==>
         if coins[c] <= value then IsPredecessor(denoms, coins[..], c, predecessors[c], coins[c])
         else predecessors[c] == c + 1
  }

  /** The best of one coin more, the last coin being one of the first `j` denominations. */
  ghost predicate BestOf(denoms: seq<nat>, j: nat, coins: seq<nat>, v: nat, count: nat, none: nat)
    requires j <= |denoms| && v <= |coins|
  {
    && count <= none
    && (forall i :: 0 <= i < j && 0 < denoms[i] <= v ==> count <= coins[v - denoms[i]] + 1)
    && (count < none ==> exists i :: 0 <= i < j && 0 < denoms[i] <= v && count == coins[v - denoms[i]] + 1)
  }

  /** The last coin is one of the denominations. */
  lemma BestIsFewest(denoms: seq<nat>, coins: seq<nat>, v: nat, count: nat, none: nat)
    requires Positive(denoms) && 0 < v <= |coins| && BestOf(denoms, |denoms|, coins, v, count, none)
    requires forall c: nat :: c < v ==> IsFewest(denoms, c, coins[c], none)
    ensures IsFewest(denoms, v, count, none)
  {
    if count < none {
      var i :| 0 <= i < |denoms| && 0 < denoms[i] <= v && count == coins[v - denoms[i]] + 1;
      var w := v - denoms[i];
      assert IsFewest(denoms, w, coins[w], none);
      var cs :| Makes(denoms, cs, w) && |cs| == coins[w];
      MakesMore(denoms, cs, w, denoms[i]);
    }
    forall cs | Makes(denoms, cs, v) ensures count <= |cs| {
      assert cs != [];
      MakesRest(denoms, cs, v);
      var i :| 0 <= i < |denoms| && denoms[i] == cs[0];
      assert IsFewest(denoms, v - cs[0], coins[v - cs[0]], none);
    }
  }

  /** Predecessors are smaller amounts, so a later count does not change what they say. */
  lemma PredecessorsStay(predecessors: array<nat>, before: seq<nat>, coins: array<nat>, denoms: seq<nat>, value: nat, v: nat)
    requires predecessors.Length == coins.Length == |before| == value + 1 && 0 < v <= value
    requires forall c: nat :: c <= value && c != v ==> coins[c] == before[c]
    requires forall c: nat {:trigger predecessors[c]} :: 0 < c <= v ==>
      if coins[c] <= value then IsPredecessor(denoms, before, c, predecessors[c], coins[c]) else predecessors[c] == c + 1
    ensures PredecessorsTo(predecessors, coins, denoms, value, v + 1)
  {
  }

  method DPCoin(denoms: seq<nat>, value: nat) returns (coins: array<nat>, predecessors: array<nat>)
    requires Positive(denoms) && value + 2 < INT_LIMIT
    ensures fresh(coins) && fresh(predecessors)
    ensures CountsTo(coins, denoms, value, value + 1) && PredecessorsTo(predecessors, coins, denoms, value, value + 1)
    ensures predecessors[0] == 0
  {
    hide IsFewest, BestOf, IsPredecessor;
    var maxCoins := value + 1;
    coins := new nat[value + 1](_ => 0);
    predecessors := new nat[value + 1](_ => 0);
    NoCoins(denoms, maxCoins);
    for v := 1 to value + 1
      invariant CountsTo(coins, denoms, value, v) && PredecessorsTo(predecessors, coins, denoms, value, v)
      invariant predecessors[0] == 0
    {
      var count, pred := BestLast(denoms, value, v, coins);
      BestIsFewest(denoms, coins[..], v, count, maxCoins);
      ghost var before := coins[..];
      coins[v] := count;
      predecessors[v] := pred;
      PredecessorsStay(predecessors, before, coins, denoms, value, v);
    }
  }

  /** The inner loop: the denomination to use last. */
  method BestLast(denoms: seq<nat>, value: nat, v: nat, coins: array<nat>) returns (count: nat, pred: nat)
    requires Positive(denoms) && coins.Length == value + 1 && 0 < v <= value
    ensures BestOf(denoms, |denoms|, coins[..], v, count, value + 1)
    ensures if count <= value then IsPredecessor(denoms, coins[..], v, pred, count) else pred == v + 1
  {
    pred := v + 1;
    count := value + 1;
    for j := 0 to |denoms|
      invariant BestOf(denoms, j, coins[..], v, count, value + 1)
      invariant if count <= value then IsPredecessor(denoms, coins[..], v, pred, count) else pred == v + 1
    {
      var d := denoms[j];
      if v < d {
        continue;
      }
      var c := coins[v - d] + 1;
      if count > c {
        count := c;
        pred := v - d;
      }
    }
  }

  /** Both tables agree on every amount. */
  lemma TablesAgree(table: array2<nat>, coins: array<nat>, denoms: seq<nat>, value: nat, v: nat)
    requires denoms != [] && FilledTo(table, denoms, value, |denoms|, 1) && CountsTo(coins, denoms, value, value + 1)
    requires v <= value
    ensures table[|denoms| - 1, v] == coins[v]
  {
    assert denoms[..|denoms| - 1 + 1] == denoms;
    FewestIsUnique(denoms, v, table[|denoms| - 1, v], coins[v], value + 1);
  }

  // ----- the chain of predecessors that the program prints

  /** The chain stays inside the table from its first step on exactly when the last amount can be made. */
  lemma ChainStartsInside(predecessors: array<nat>, coins: array<nat>, denoms: seq<nat>, value: nat)
    requires Positive(denoms) && CountsTo(coins, denoms, value, value + 1)
    requires PredecessorsTo(predecessors, coins, denoms, value, value + 1) && predecessors[0] == 0
    ensures predecessors[value] <= value <==> CanMake(denoms, value)
  {
    FewestDecides(denoms, value, coins[value], value + 1);
    if value == 0 {
      NothingMakesZero(denoms);
    }
  }

  /** With coins of 2 only, the chain for the amount 1 starts outside. */
  lemma OneFromTwos(predecessors: array<nat>, coins: array<nat>)
    requires CountsTo(coins, [2], 1, 2) && PredecessorsTo(predecessors, coins, [2], 1, 2) && predecessors[0] == 0
    ensures !CanMake([2], 1) && predecessors.Length <= predecessors[1]
  {
    if CanMake([2], 1) {
      var cs :| Makes([2], cs, 1);
      MakesRest([2], cs, 1);
    }
    ChainStartsInside(predecessors, coins, [2], 1);
  }

  /** The amount that step `i` of a chain leaves from. */
  function From(value: nat, chain: seq<nat>, i: nat): nat
    requires i <= |chain|
  {
    if i == 0 then value else chain[i - 1]
  }

  /** Each step of the chain is a denomination. */
  ghost predicate StepsDown(denoms: seq<nat>, value: nat, chain: seq<nat>) {
    forall i :: 0 <= i < |chain| ==> From(value, chain, i) - chain[i] in denoms
  }

  lemma StepDown(denoms: seq<nat>, value: nat, chain: seq<nat>, next: nat)
    requires StepsDown(denoms, value, chain) && From(value, chain, |chain|) - next in denoms
    ensures StepsDown(denoms, value, chain + [next])
  {
    forall i | 0 <= i <= |chain| ensures From(value, chain + [next], i) == From(value, chain, i) {
    }
  }

  lemma FirstStep(predecessors: array<nat>, coins: array<nat>, denoms: seq<nat>, value: nat)
    requires PredecessorsTo(predecessors, coins, denoms, value, value + 1) && coins.Length == value + 1
    requires 0 < value && coins[value] <= value
    ensures StepsDown(denoms, value, [predecessors[value]])
  {
  }

  /** The chain goes down to zero by denominations, as many as the fewest coins. */
  method FollowChain(predecessors: array<nat>, coins: array<nat>, denoms: seq<nat>, value: nat) returns (chain: seq<nat>)
    requires Positive(denoms) && CountsTo(coins, denoms, value, value + 1) && CanMake(denoms, value)
    requires PredecessorsTo(predecessors, coins, denoms, value, value + 1) && predecessors[0] == 0
    ensures chain != [] && chain[|chain| - 1] == 0
    ensures 0 < value ==> IsFewest(denoms, value, |chain|, value + 1)
    ensures 0 < value ==> StepsDown(denoms, value, chain)
  {
    hide IsFewest, StepsDown;
    ChainStartsInside(predecessors, coins, denoms, value);
    FewestDecides(denoms, value, coins[value], value + 1);
    var index := predecessors[value];
    chain := [index];
    if 0 < value {
      FirstStep(predecessors, coins, denoms, value);
    }
    NoCoins(denoms, value + 1);
    FewestIsUnique(denoms, 0, coins[0], 0, value + 1);
    while index != 0
      invariant index <= value && 0 < |chain| && chain[|chain| - 1] == index
      invariant 0 < value ==> coins[index] + |chain| == coins[value] <= value
      invariant value == 0 ==> index == 0
      invariant 0 < value ==> StepsDown(denoms, value, chain)
    {
      assert IsPredecessor(denoms, coins[..], index, predecessors[index], coins[index]);
      StepDown(denoms, value, chain, predecessors[index]);
      index := predecessors[index];
      chain := chain + [index];
    }
  }
}
