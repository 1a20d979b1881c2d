/** Subsets of positive numbers with a given sum, by pruned backtracking. */
module SubsetSum {

  import opened Picks

  // ----- exhaustive enumeration

  function Prepend(bit: bool, bs: seq<Pick>): (r: seq<Pick>)
    ensures |r| == |bs| && forall i :: 0 <= i < |r| ==> r[i] == [bit] + bs[i]
  {
    seq(|bs|, i requires 0 <= i < |bs| => [bit] + bs[i])
  }

  /** All picks of the given weight, in the order of an exhaustive search that tries to take first. */
  function Solutions(ns: seq<nat>, need: nat): seq<Pick> {
    if ns == [] then (if need == 0 then [[]] else [])
    else
      (if ns[0] <= need then Prepend(true, Solutions(ns[1..], need - ns[0])) else [])
      + Prepend(false, Solutions(ns[1..], need))
  }

  lemma {:induction false} SolutionsSound(ns: seq<nat>, need: nat, i: nat)
    requires i < |Solutions(ns, need)|
    ensures |Solutions(ns, need)[i]| == |ns| && Weight(ns, Solutions(ns, need)[i]) == need
  {
    if ns != [] {
      var taken := if ns[0] <= need then Solutions(ns[1..], need - ns[0]) else [];
      var b := Solutions(ns, need)[i];
      if i < |taken| {
        SolutionsSound(ns[1..], need - ns[0], i);
        assert b[1..] == taken[i];
      } else {
        SolutionsSound(ns[1..], need, i - |taken|);
        assert b[1..] == Solutions(ns[1..], need)[i - |taken|];
      }
    }
  }

  lemma {:induction false} SolutionsComplete(ns: seq<nat>, need: nat, b: Pick)
    requires |b| == |ns| && Weight(ns, b) == need
    ensures b in Solutions(ns, need)
  {
    if ns != [] {
      assert b == [b[0]] + b[1..];
      if b[0] {
        SolutionsComplete(ns[1..], need - ns[0], b[1..]);
        var i :| 0 <= i < |Solutions(ns[1..], need - ns[0])| && Solutions(ns[1..], need - ns[0])[i] == b[1..];
        assert Solutions(ns, need)[i] == b;
      } else {
        SolutionsComplete(ns[1..], need, b[1..]);
        var i :| 0 <= i < |Solutions(ns[1..], need)| && Solutions(ns[1..], need)[i] == b[1..];
        var before := if ns[0] <= need then |Solutions(ns[1..], need - ns[0])| else 0;
        assert Solutions(ns, need)[before + i] == b;
      }
    }
  }

  predicate Distinct(bs: seq<Pick>) {
    forall i, j :: 0 <= i < j < |bs| ==> bs[i] != bs[j]
  }

  lemma PrependedDistinct(taken: seq<Pick>, rest: seq<Pick>)
    requires Distinct(taken) && Distinct(rest)
    ensures Distinct(Prepend(true, taken) + Prepend(false, rest))
  {
    var all := Prepend(true, taken) + Prepend(false, rest);
    forall i, j | 0 <= i < j < |all| ensures all[i] != all[j] {
      assert all[i][1..] == if i < |taken| then taken[i] else rest[i - |taken|];
      assert all[j][1..] == if j < |taken| then taken[j] else rest[j - |taken|];
      assert all[i][0] == (i < |taken|) && all[j][0] == (j < |taken|);
    }
  }

  lemma {:induction false} SolutionsDistinct(ns: seq<nat>, need: nat)
    ensures Distinct(Solutions(ns, need))
  {
    if ns != [] {
      SolutionsDistinct(ns[1..], need);
      if ns[0] <= need {
        SolutionsDistinct(ns[1..], need - ns[0]);
        PrependedDistinct(Solutions(ns[1..], need - ns[0]), Solutions(ns[1..], need));
      } else {
        PrependedDistinct([], Solutions(ns[1..], need));
        assert Prepend(true, []) == [];
      }
    }
  }

  /** A subset of the numbers with the sum; the program asks for non-empty ones. */
  ghost predicate IsSolution(ns: seq<nat>, sum: nat, b: Pick) {
    |b| == |ns| && Weight(ns, b) == sum && exists i :: 0 <= i < |b| && b[i]
  }

  /** The results are the selections of the picks. */
  ghost predicate Describes(ns: seq<nat>, picks: seq<Pick>, result: seq<seq<nat>>) {
    && |result| == |picks|
    && forall i :: 0 <= i < |picks| ==> |picks[i]| == |ns| && result[i] == Selected(ns, picks[i])
  }

  lemma SumsAreMadeBySubsets(ns: seq<nat>, sum: nat, b: Pick)
    requires |b| == |ns| && Weight(ns, b) == sum && 0 < sum
    ensures IsSolution(ns, sum, b)
  {
    if forall i :: 0 <= i < |b| ==> !b[i] {
      NothingWeighs(ns, b);
    }
  }

  // ----- what the pruning relies on

  predicate Sorted(ns: seq<nat>) {
    forall i, j :: 0 <= i <= j < |ns| ==> ns[i] <= ns[j]
  }

  predicate Positive(ns: seq<nat>) {
    forall i :: 0 <= i < |ns| ==> 0 < ns[i]
  }

  lemma {:induction false} OnlyNothingIsFree(ns: seq<nat>)
    requires Positive(ns)
    ensures Solutions(ns, 0) == [Nothing(|ns|)]
  {
    if ns == [] {
      assert Nothing(0) == [];
    } else {
      OnlyNothingIsFree(ns[1..]);
      assert [false] + Nothing(|ns| - 1) == Nothing(|ns|);
    }
  }

  /** The bounding function: too little is left, or the smallest number left is too large. */
  lemma NoneLeft(ns: seq<nat>, need: nat)
    requires Total(ns) < need || (Sorted(ns) && ns != [] && 0 < need < ns[0])
    ensures Solutions(ns, need) == []
  {
    if Solutions(ns, need) != [] {
      var b := Solutions(ns, need)[0];
      SolutionsSound(ns, need, 0);
      WeightBound(ns, b);
      if forall i :: 0 <= i < |b| ==> !b[i] {
        NothingWeighs(ns, b);
      }
    }
  }

  // ----- the search

  /** Every sum of the numbers fits a 32-bit int, so no addition of the source wraps. */
  const INT_LIMIT: nat := 0x8000_0000

  class Search {
    const numbers: seq<nat>
    const sum: nat
    var result: seq<seq<nat>>
    ghost var picks: seq<Pick>

    ghost predicate Valid()
      reads this
    {
      && Sorted(numbers) && Positive(numbers) && Total(numbers) < INT_LIMIT
      && Describes(numbers, picks, result)
    }

    /** The numbers arrive sorted. */
    constructor (sorted: seq<nat>, target: nat)
      requires Sorted(sorted) && Positive(sorted) && Total(sorted) < INT_LIMIT
      ensures Valid() && result == [] && numbers == sorted && sum == target
    {
      numbers, sum, result, picks := sorted, target, [], [];
    }

    method InsertResult(bitmap: array<bool>, index: nat)
      requires Valid() && index < bitmap.Length == |numbers|
      requires Weight(numbers[..index + 1], bitmap[..index + 1]) == sum
      modifies this`result, this`picks
      ensures Valid()
      ensures picks == old(picks) + [Padded(old(bitmap[..index + 1]), |numbers|)]
    {
      ghost var b := bitmap[..];
      var r: seq<nat> := [];
      var s := 0;
      for i := 0 to index + 1
        invariant r == Selected(numbers[..i], b[..i]) && s == Weight(numbers[..i], b[..i])
        modifies {}
      {
        PrefixWeighsLess(numbers, b, i, index + 1);
        assert b[..index + 1] == bitmap[..index + 1];
        assert s <= sum;
        Extend(numbers, b, i);
        if bitmap[i] {
          r := r + [numbers[i]];
          s := s + numbers[i];
        }
      }
      assert b[..index + 1] == bitmap[..index + 1];
      assert s == sum;
      PaddedWeighs(numbers, b, index + 1);
      AddPick(r, Padded(b[..index + 1], |numbers|));
    }

    method AddPick(r: seq<nat>, ghost b: Pick)
      requires Valid() && |b| == |numbers| && r == Selected(numbers, b)
      modifies this`result, this`picks
      ensures Valid() && picks == old(picks) + [b]
    {
      result := result + [r];
      picks := picks + [b];
    }

    /**
      Every call but the first is promising: something is left to reach, and taking the next number
      does not overshoot.  The first call may overshoot; it then stops at once, provided a second
      number can be read.
     */
    ghost predicate CanStart(current: nat, index: nat, pending: nat) {
      && index < |numbers| && pending == Total(numbers[index..]) && sum <= current + pending
      && (if sum < current + numbers[index] then index + 1 < |numbers| else current < sum)
    }

    /** What a call adds: the completions of the prefix; nothing when nothing is left to reach. */
    ghost function Found(prefix: Pick, current: nat): seq<Pick>
      requires |prefix| <= |numbers|
    {
      if current < sum then After(prefix, Solutions(numbers[|prefix|..], sum - current)) else []
    }

    /** The completions that take the next number. */
    ghost function FoundTaking(prefix: Pick, current: nat): seq<Pick>
      requires |prefix| < |numbers|
    {
      if current < sum then After(prefix + [true], Taken(numbers, |prefix|, sum - current)) else []
    }

    lemma FoundSplits(prefix: Pick, current: nat)
      requires |prefix| < |numbers|
      ensures Found(prefix, current) == FoundTaking(prefix, current) + Found(prefix + [false], current)
    {
      if current < sum {
        assert |prefix + [false]| == |prefix| + 1;
        AfterSplits(numbers, prefix, sum - current);
      }
    }

    /** The number completes the sum: the one pick is the prefix with it and nothing else. */
    lemma TakingCompletes(prefix: Pick, current: nat)
      requires Positive(numbers) && |prefix| < |numbers| && current + numbers[|prefix|] == sum
      requires current < sum
      ensures FoundTaking(prefix, current) == [Padded(prefix + [true], |numbers|)]
    {
      OnlyNothingIsFree(numbers[|prefix| + 1..]);
    }

    /** Less than the sum: the completions that take the number are those of the longer prefix. */
    lemma TakingContinues(prefix: Pick, current: nat)
      requires |prefix| < |numbers| && current + numbers[|prefix|] < sum
      ensures FoundTaking(prefix, current) == Found(prefix + [true], current + numbers[|prefix|])
    {
    }

    /** Neither equal nor small enough to go on: taking the number finds nothing. */
    lemma TakingFails(prefix: Pick, current: nat)
      requires Sorted(numbers) && |prefix| + 1 < |numbers|
      requires current + numbers[|prefix|] != sum
      requires sum < current + numbers[|prefix|] + numbers[|prefix| + 1]
      ensures FoundTaking(prefix, current) == []
    {
      if current + numbers[|prefix|] < sum {
        NoneLeft(numbers[|prefix| + 1..], sum - current - numbers[|prefix|]);
      }
    }

    /** The bounding function: not taking the number finds nothing. */
    lemma SkippingFails(prefix: Pick, current: nat)
      requires Sorted(numbers) && |prefix| < |numbers|
      requires current + Total(numbers[|prefix| + 1..]) < sum
        || (|prefix| + 1 < |numbers| && sum < current + numbers[|prefix| + 1])
      ensures Found(prefix + [false], current) == []
    {
      if current < sum {
        NoneLeft(numbers[|prefix| + 1..], sum - current);
      }
    }

    /** A number that the search still needs is there to read. */
    lemma NextExists(current: nat, index: nat, pending: nat)
      requires Positive(numbers) && CanStart(current, index, pending)
      ensures numbers[index] <= pending && pending - numbers[index] == Total(numbers[index + 1..])
      ensures current + numbers[index] != sum || sum <= current + pending - numbers[index] ==> index + 1 < |numbers|
    {
      assert numbers[index..][1..] == numbers[index + 1..];
    }

    method ComputeFrom(bitmap: array<bool>, current: nat, index: nat, pending: nat)
      requires Valid() && bitmap.Length == |numbers| && CanStart(current, index, pending)
      requires Weight(numbers[..index], bitmap[..index]) == current
      modifies bitmap, this`result, this`picks
      ensures Valid()
      ensures bitmap[..index] == old(bitmap[..index])
      ensures picks == old(picks) + Found(old(bitmap[..index]), current)
      decreases |numbers| - index, 2
    {
      ghost var prefix, before := bitmap[..index], picks;
      TakeNumber(bitmap, current, index, pending);
      SkipNumber(bitmap, current, index, pending);
      FoundSplits(prefix, current);
      Assoc(before, FoundTaking(prefix, current), Found(prefix + [false], current));
    }

    /** The second half: the number is not taken. */
    method SkipNumber(bitmap: array<bool>, current: nat, index: nat, pending: nat)
      requires Valid() && bitmap.Length == |numbers| && CanStart(current, index, pending)
      requires Weight(numbers[..index], bitmap[..index]) == current
      modifies bitmap, this`result, this`picks
      ensures Valid()
      ensures bitmap[..index] == old(bitmap[..index])
      ensures picks == old(picks) + Found(old(bitmap[..index]) + [false], current)
      decreases |numbers| - index, 0
    {
      ghost var prefix := bitmap[..index];
      NextExists(current, index, pending);
      var pending' := pending - numbers[index];
      if current + pending' < sum || current + numbers[index + 1] > sum {
        SkippingFails(prefix, current);
        return;
      }
      SetBit(bitmap, index, false);
      assert bitmap[..index + 1] == prefix + [false];
      ComputeFrom(bitmap, current, index + 1, pending');
      assert bitmap[..index] == bitmap[..index + 1][..index];
    }

    /** The first half of the recursion: the number is taken. */
    method TakeNumber(bitmap: array<bool>, current: nat, index: nat, pending: nat)
      requires Valid() && bitmap.Length == |numbers| && CanStart(current, index, pending)
      requires Weight(numbers[..index], bitmap[..index]) == current
      modifies bitmap, this`result, this`picks
      ensures Valid()
      ensures bitmap[..index] == old(bitmap[..index])
      ensures picks == old(picks) + FoundTaking(old(bitmap[..index]), current)
      decreases |numbers| - index, 1
    {
      ghost var prefix := bitmap[..index];
      SetBit(bitmap, index, true);
      assert bitmap[..index + 1] == prefix + [true];
      if current + numbers[index] == sum {
        TakingCompletes(prefix, current);
        InsertResult(bitmap, index);
      } else {
        GoOnIfPromising(bitmap, prefix, current, index, pending);
      }
    }

    /** The taken number does not complete the sum: go on only if a further one can be taken. */
    method GoOnIfPromising(bitmap: array<bool>, ghost prefix: Pick, current: nat, index: nat, pending: nat)
      requires Valid() && bitmap.Length == |numbers| && CanStart(current, index, pending)
      requires current + numbers[index] != sum && bitmap[..index + 1] == prefix + [true] && |prefix| == index
      requires Weight(numbers[..index + 1], bitmap[..index + 1]) == current + numbers[index]
      modifies bitmap, this`result, this`picks
      ensures Valid()
      ensures bitmap[..index] == prefix
      ensures picks == old(picks) + FoundTaking(prefix, current)
      decreases |numbers| - index, 0
    {
      hide Found, FoundTaking;
      var x := numbers[index];
      NextExists(current, index, pending);
      assert bitmap[..index] == bitmap[..index + 1][..index];
      if current + x + numbers[index + 1] <= sum {
        TakingContinues(prefix, current);
        ComputeFrom(bitmap, current + x, index + 1, pending - x);
        assert bitmap[..index] == bitmap[..index + 1][..index];
      } else {
        TakingFails(prefix, current);
        assert picks == picks + [];
      }
    }

    /**
      A second call does nothing.  The first finds every non-empty subset with the sum, once each.
      It may be called only when no number past the last is read; `ComputeReads` says when that is.
     */
    method Compute()
      requires Valid() && (result == [] ==> ComputeReads(numbers, sum))
      modifies this`result, this`picks
      ensures Valid()
      ensures old(result) != [] ==> picks == old(picks)
      ensures old(result) == [] ==> Distinct(picks) && forall b :: b in picks <==> IsSolution(numbers, sum, b)
    {
      if result != [] {
        return;
      }
      var s := Sum();
      ExactlyTheSolutions();
      if s < sum {
        NoneLeft(numbers, sum);
        return;
      }
      var bitmap := new bool[|numbers|](_ => false);
      ReadsOfCompute(numbers, sum);
      assert numbers[0..] == numbers;
      ComputeFrom(bitmap, 0, 0, s);
      AllFound();
      Assoc<Pick>([], [], Found([], 0));
    }

    method Sum() returns (s: nat)
      requires Valid()
      ensures s == Total(numbers)
    {
      s := 0;
      for i := 0 to |numbers|
        invariant s + Total(numbers[i..]) == Total(numbers)
      {
        assert numbers[i..][1..] == numbers[i + 1..];
        s := s + numbers[i];
      }
    }

    lemma AllFound()
      ensures Found([], 0) == if sum == 0 then [] else Solutions(numbers, sum)
    {
      if 0 < sum {
        var all := Solutions(numbers, sum);
        assert numbers[0..] == numbers;
        forall i | 0 <= i < |all| ensures [] + all[i] == all[i] {
        }
      }
    }

    lemma ExactlyTheSolutions()
      requires Positive(numbers)
      ensures var all := if sum == 0 then [] else Solutions(numbers, sum);
              Distinct(all) && forall b :: b in all <==> IsSolution(numbers, sum, b)
    {
      var all := if sum == 0 then [] else Solutions(numbers, sum);
      SolutionsDistinct(numbers, sum);
      forall b | IsSolution(numbers, sum, b) ensures b in all {
        SolutionsComplete(numbers, sum, b);
        WeightBound(numbers, b);
      }
      forall i | 0 <= i < |all| ensures IsSolution(numbers, sum, all[i]) {
        SolutionsSound(numbers, sum, i);
        SumsAreMadeBySubsets(numbers, sum, all[i]);
      }
    }

    method SetBit(bitmap: array<bool>, index: nat, bit: bool)
      requires index < bitmap.Length == |numbers|
      modifies bitmap
      ensures bitmap[..index] == old(bitmap[..index])
      ensures bitmap[..index + 1] == old(bitmap[..index]) + [bit]
      ensures Weight(numbers[..index + 1], bitmap[..index + 1])
           == Weight(numbers[..index], bitmap[..index]) + if bit then numbers[index] else 0
    {
      bitmap[index] := bit;
      assert bitmap[..index + 1] == bitmap[..index] + [bit];
      Extend(numbers, bitmap[..], index);
      assert bitmap[..][..index + 1] == bitmap[..index + 1] && bitmap[..][..index] == bitmap[..index];
    }
  }

  ghost function Taken(ns: seq<nat>, i: nat, need: nat): seq<Pick>
    requires i < |ns|
  {
    if ns[i] <= need then Solutions(ns[i + 1..], need - ns[i]) else []
  }

  lemma SolutionsSplit(ns: seq<nat>, i: nat, need: nat)
    requires i < |ns|
    ensures Solutions(ns[i..], need) == Prepend(true, Taken(ns, i, need)) + Prepend(false, Solutions(ns[i + 1..], need))
  {
    assert ns[i..][1..] == ns[i + 1..];
    assert Prepend(true, []) == [];
  }

  lemma AfterPrepended(prefix: Pick, taken: seq<Pick>, rest: seq<Pick>)
    ensures After(prefix, Prepend(true, taken) + Prepend(false, rest))
         == After(prefix + [true], taken) + After(prefix + [false], rest)
  {
    forall b: Pick, c: bool ensures prefix + ([c] + b) == prefix + [c] + b {
    }
  }

  lemma AfterSplits(ns: seq<nat>, prefix: Pick, need: nat)
    requires |prefix| < |ns|
    ensures After(prefix, Solutions(ns[|prefix|..], need))
         == After(prefix + [true], Taken(ns, |prefix|, need)) + After(prefix + [false], Solutions(ns[|prefix| + 1..], need))
  {
    SolutionsSplit(ns, |prefix|, need);
    AfterPrepended(prefix, Taken(ns, |prefix|, need), Solutions(ns[|prefix| + 1..], need));
  }

  /** Completions of a prefix. */
  ghost function After(prefix: Pick, bs: seq<Pick>): (r: seq<Pick>)
    ensures |r| == |bs| && forall i :: 0 <= i < |r| ==> r[i] == prefix + bs[i]
  {
    seq(|bs|, i requires 0 <= i < |bs| => prefix + bs[i])
  }

  /** The pick that a prefix stands for when the rest is not taken. */
  function Padded(prefix: Pick, n: nat): (b: Pick)
    requires |prefix| <= n
    ensures |b| == n
  {
    prefix + Nothing(n - |prefix|)
  }

  lemma PaddedWeighs(ns: seq<nat>, b: Pick, k: nat)
    requires k <= |ns| == |b|
    ensures Selected(ns, Padded(b[..k], |ns|)) == Selected(ns[..k], b[..k])
    ensures Weight(ns, Padded(b[..k], |ns|)) == Weight(ns[..k], b[..k])
  {
    var rest := Nothing(|ns| - k);
    WeightConcat(ns[..k], b[..k], ns[k..], rest);
    SelectedConcat(ns[..k], b[..k], ns[k..], rest);
    NothingWeighs(ns[k..], rest);
    NothingSelected(ns[k..], rest);
    assert ns[..k] + ns[k..] == ns;
    assert Selected(ns[..k], b[..k]) + [] == Selected(ns[..k], b[..k]);
  }

  // ----- when the search stays inside the numbers

  /** A call of the search, followed into its recursive calls, reads no number past the last. */
  predicate CallReads(ns: seq<nat>, sum: nat, current: nat, index: nat, pending: nat)
    decreases |ns| - index
  {
    && index < |ns| && ns[index] <= pending
    && var x, pending' := ns[index], pending - ns[index];
    && (current + x == sum
        || (index + 1 < |ns|
            && (current + x + ns[index + 1] <= sum ==> CallReads(ns, sum, current + x, index + 1, pending'))))
    && (current + pending' < sum
        || (index + 1 < |ns|
            && (current + ns[index + 1] <= sum ==> CallReads(ns, sum, current, index + 1, pending'))))
  }

  predicate ComputeReads(ns: seq<nat>, sum: nat) {
    Total(ns) < sum || CallReads(ns, sum, 0, 0, Total(ns))
  }

  lemma {:induction false} CallReadsWithin(ns: seq<nat>, sum: nat, current: nat, index: nat)
    requires Sorted(ns) && Positive(ns) && index < |ns| && sum <= current + Total(ns[index..])
    requires if sum < current + ns[index] then index + 1 < |ns| else current < sum
    ensures CallReads(ns, sum, current, index, Total(ns[index..]))
    decreases |ns| - index
  {
    var x := ns[index];
    assert ns[index..][1..] == ns[index + 1..];
    if index + 1 < |ns| {
      assert ns[index + 1..][1..] == ns[index + 2..];
      if current + x != sum && current + x + ns[index + 1] <= sum {
        CallReadsWithin(ns, sum, current + x, index + 1);
      }
      if sum <= current + Total(ns[index + 1..]) && current + ns[index + 1] <= sum {
        CallReadsWithin(ns, sum, current, index + 1);
      }
    }
  }

  /** Two numbers are enough; a single one must not exceed the sum; without any, the sum must not be zero. */
  lemma ReadsOfCompute(ns: seq<nat>, sum: nat)
    requires Sorted(ns) && Positive(ns)
    ensures ComputeReads(ns, sum) <==>
            2 <= |ns| || (|ns| == 1 && ns[0] <= sum) || (|ns| == 0 && 0 < sum)
  {
    assert ns[0..] == ns;
    if ns != [] {
      assert Total(ns) == ns[0] + Total(ns[1..]);
      if sum <= Total(ns) && (2 <= |ns| || ns[0] <= sum) {
        CallReadsWithin(ns, sum, 0, 0);
      }
    }
  }

  /** The single number 5 and the sum 3: the search reads a second number. */
  lemma SingleNumberReadsPastTheEnd()
    ensures !ComputeReads([5], 3)
  {
    ReadsOfCompute([5], 3);
  }

  // ----- sums that can be made

  ghost predicate CanMake(ns: seq<nat>, j: nat) {
    exists b: Pick :: |b| == |ns| && Weight(ns, b) == j
  }

  lemma CanMakeMore(ns: seq<nat>, e: nat, j: nat)
    ensures CanMake(ns + [e], j) <==> CanMake(ns, j) || (e <= j && CanMake(ns, j - e))
  {
    if CanMake(ns + [e], j) {
      var b: Pick :| |b| == |ns + [e]| && Weight(ns + [e], b) == j;
      var k := |ns|;
      assert b == b[..k] + [b[k]];
      WeightConcat(ns, b[..k], [e], [b[k]]);
    }
    if CanMake(ns, j) {
      var b: Pick :| |b| == |ns| && Weight(ns, b) == j;
      WeightConcat(ns, b, [e], [false]);
    }
    if e <= j && CanMake(ns, j - e) {
      var b: Pick :| |b| == |ns| && Weight(ns, b) == j - e;
      WeightConcat(ns, b, [e], [true]);
    }
  }

  lemma CanMakeNothing(ns: seq<nat>)
    ensures CanMake(ns, 0) && forall j: nat :: CanMake([], j) ==> j == 0
  {
    NothingWeighs(ns, Nothing(|ns|));
  }

  // ----- the program

  /** The picks are the non-empty subsets with the sum, once each, and the results are what they select. */
  ghost predicate ListsTheSubsets(ns: seq<nat>, sum: nat, picks: seq<Pick>, result: seq<seq<nat>>) {
    && Describes(ns, picks, result) && Distinct(picks)
    && forall b :: b in picks <==> IsSolution(ns, sum, b)
  }

  /** The search on the sorted numbers. */
  method FindSubsets(sorted: seq<nat>, sum: nat) returns (result: seq<seq<nat>>)
    requires Sorted(sorted) && Positive(sorted) && Total(sorted) < INT_LIMIT && ComputeReads(sorted, sum)
    ensures exists picks :: ListsTheSubsets(sorted, sum, picks, result)
    ensures result != [] <==> 0 < sum && CanMake(sorted, sum)
  {
    var search := new Search(sorted, sum);
    search.Compute();
    result := search.result;
    assert ListsTheSubsets(sorted, sum, search.picks, result);
    FoundIffMade(sorted, sum, search.picks);
  }

  /** The search finds something exactly when the sum can be made and is not zero. */
  lemma FoundIffMade(sorted: seq<nat>, sum: nat, picks: seq<Pick>)
    requires Positive(sorted) && forall b :: b in picks <==> IsSolution(sorted, sum, b)
    ensures picks != [] <==> 0 < sum && CanMake(sorted, sum)
  {
    if picks != [] {
      assert IsSolution(sorted, sum, picks[0]);
      WeightBound(sorted, picks[0]);
    }
    if 0 < sum && CanMake(sorted, sum) {
      var b: Pick :| |b| == |sorted| && Weight(sorted, b) == sum;
      SumsAreMadeBySubsets(sorted, sum, b);
    }
  }
}
