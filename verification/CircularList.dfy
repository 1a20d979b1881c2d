/**
  A singly linked list whose tail may be linked back to one of its nodes; Floyd's search for the
  cycle, and the repair that cuts it.
 */
module CircularList {

  class Node {
    var number: int
    var nextp: Node?

    constructor (n: int)
      ensures number == n && nextp == null
    {
      number, nextp := n, null;
    }
  }

  // ----- laps around a cycle

  /** The remainder of k by the length of the cycle. */
  function Lap(k: nat, length: nat): (r: nat)
    requires 0 < length
    ensures r < length
  {
    if k < length then k else Lap(k - length, length)
  }

  /** Two positions t steps apart coincide only when t is a whole number of laps. */
  lemma {:induction false} WholeLaps(x: nat, t: nat, length: nat)
    requires 0 < length && Lap(x, length) == Lap(x + t, length)
    ensures Lap(t, length) == 0
    decreases x, t
  {
    if length <= x {
      WholeLaps(x - length, t, length);
    } else if length <= t {
      WholeLaps(x, t - length, length);
    }
  }

  /** Whole laps lead nowhere. */
  lemma {:induction false} LapsReturn(x: nat, t: nat, length: nat)
    requires 0 < length && Lap(t, length) == 0
    ensures Lap(x + t, length) == Lap(x, length)
    decreases x, t
  {
    if length <= x {
      LapsReturn(x - length, t, length);
    } else if length <= t {
      LapsReturn(x, t - length, length);
    }
  }

  lemma {:induction false} ProductIsWholeLaps(n: nat, length: nat)
    requires 0 < length
    ensures n <= n * length && Lap(n * length, length) == 0
  {
    if 0 < n {
      ProductIsWholeLaps(n - 1, length);
      assert n * length == (n - 1) * length + length;
    }
  }

  /**
    The index after index i in a list of n nodes whose tail is linked to index `back`.  A straight
    list has back == n, and n stands for the end.
   */
  function Next(i: nat, n: nat, back: nat): nat {
    if i == n then n else if i == n - 1 then back else i + 1
  }

  /** The index reached in k steps from the first node. */
  function Index(k: nat, n: nat, back: nat): (i: nat)
    requires back <= n
    ensures i <= n
    ensures i == n ==> back == n
  {
    if k == 0 then 0 else Next(Index(k - 1, n, back), n, back)
  }

  lemma {:induction false} LapStep(k: nat, length: nat)
    requires 0 < length
    ensures Lap(k + 1, length) == if Lap(k, length) + 1 == length then 0 else Lap(k, length) + 1
  {
    if length <= k {
      LapStep(k - length, length);
    }
  }

  lemma {:induction false} IndexInStraightList(k: nat, n: nat)
    ensures Index(k, n, n) == if k < n then k else n
  {
    if 0 < k {
      IndexInStraightList(k - 1, n);
    }
  }

  lemma {:induction false} IndexInCycle(k: nat, n: nat, back: nat)
    requires back < n
    ensures Index(k, n, back) == if k < back then k else back + Lap(k - back, n - back)
  {
    if 0 < k {
      IndexInCycle(k - 1, n, back);
      if back < k {
        LapStep(k - 1 - back, n - back);
      }
    }
  }

  /** Slow and fast meet after t steps only inside the cycle, and after whole laps. */
  lemma Meeting(t: nat, n: nat, back: nat)
    requires back <= n && 0 < t && Index(t, n, back) == Index(2 * t, n, back) < n
    ensures back < n && back <= t && Lap(t, n - back) == 0
  {
    if back == n {
      IndexInStraightList(t, n);
      IndexInStraightList(2 * t, n);
    } else {
      IndexInCycle(t, n, back);
      IndexInCycle(2 * t, n, back);
      if back <= t {
        WholeLaps(t - back, t, n - back);
      }
    }
  }

  /** They do meet after any whole number of laps that reaches the cycle. */
  lemma MeetingHappens(t: nat, n: nat, back: nat)
    requires back < n && back <= t && Lap(t, n - back) == 0
    ensures Index(t, n, back) == Index(2 * t, n, back)
  {
    IndexInCycle(t, n, back);
    IndexInCycle(2 * t, n, back);
    LapsReturn(t - back, t, n - back);
  }

  /** From the meeting point, as many steps as from the head lead to the start of the cycle. */
  lemma StepsToEntry(t: nat, j: nat, n: nat, back: nat)
    requires back < n && back <= t && Lap(t, n - back) == 0 && j <= back
    ensures Index(t + j, n, back) == Index(j, n, back) <==> j == back
  {
    IndexInCycle(t + j, n, back);
    IndexInCycle(j, n, back);
    if j == back {
      LapsReturn(0, t, n - back);
    }
  }

  /** The last of those steps leaves the tail. */
  lemma StepBeforeEntry(t: nat, n: nat, back: nat)
    requires 0 < back < n && back <= t && Lap(t, n - back) == 0
    ensures Index(t + back - 1, n, back) == n - 1
  {
    IndexInCycle(t + back - 1, n, back);
    IndexInCycle(t + back, n, back);
    LapsReturn(0, t, n - back);
  }

  // ----- the list

  class List {
    var first: Node?  // the link of the head node
    var tailp: Node?
    ghost var nodes: seq<Node>
    ghost var back: nat  // the index that the tail is linked to, or |nodes|

    ghost function NodeAt(i: nat): Node?
      reads this
      requires i <= |nodes|
    {
      if i == |nodes| then null else nodes[i]
    }

    static ghost predicate Differ(s: seq<Node>, i: nat, j: nat)
      requires i < |s| && j < |s|
    {
      s[i] != s[j]
    }

    ghost predicate Valid()
      reads this, nodes
    {
      && back <= |nodes|
      && (forall i, j :: 0 <= i < j < |nodes| ==> Differ(nodes, i, j))
      && first == NodeAt(0)
      && tailp == (if nodes == [] then null else nodes[|nodes| - 1])
      && (forall i {:trigger nodes[i].nextp} :: 0 <= i < |nodes| ==> nodes[i].nextp == NodeAt(if i == |nodes| - 1 then back else i + 1))
    }

    lemma TailIsAlone()
      requires Valid()
      ensures forall i :: 0 <= i < |nodes| - 1 ==> nodes[i] != nodes[|nodes| - 1]
    {
      forall i | 0 <= i < |nodes| - 1 ensures nodes[i] != nodes[|nodes| - 1] {
        assert Differ(nodes, i, |nodes| - 1);
      }
    }

    ghost predicate Straight()
      reads this
    {
      back == |nodes|
    }

    constructor ()
      ensures Valid() && Straight() && nodes == []
    {
      first, tailp, nodes, back := null, null, [], 0;
    }

    /** Appending also cuts the link from the old tail back into the list. */
    method PushBack(n: int)
      requires Valid()
      modifies this, nodes
      ensures Valid() && Straight()
      ensures |nodes| == |old(nodes)| + 1 && nodes[..|old(nodes)|] == old(nodes)
      ensures fresh(nodes[|old(nodes)|]) && nodes[|old(nodes)|].number == n
      ensures forall i :: 0 <= i < |old(nodes)| ==> nodes[i].number == old(nodes[i].number)
    {
      TailIsAlone();
      var nodep := new Node(n);
      if tailp != null {
        tailp.nextp := nodep;
        tailp := nodep;
      } else {
        first := nodep;
        tailp := nodep;
      }
      ghost var before := nodes;
      nodes := nodes + [nodep];
      back := |nodes|;
      forall i, j | 0 <= i < j < |before| ensures Differ(nodes, i, j) {
        assert Differ(before, i, j);
      }
    }

    /** The node reached in k steps from the first one. */
    ghost function Walk(k: nat): Node?
      requires back <= |nodes|
      reads this
    {
      NodeAt(Index(k, |nodes|, back))
    }

    lemma WalkStep(k: nat)
      requires Valid() && Walk(k) != null
      ensures Walk(k + 1) == Walk(k).nextp
    {
    }

    ghost predicate IsMeeting(steps: nat)
      reads this
    {
      0 < steps && back < |nodes| && back <= steps && Lap(steps, |nodes| - back) == 0
    }

    /** A number of steps by which the iterators have stopped. */
    lemma StepsBound() returns (bound: nat)
      requires Valid()
      ensures if Straight() then bound == |nodes| else IsMeeting(bound)
    {
      if Straight() {
        bound := |nodes|;
      } else {
        bound := (back + 1) * (|nodes| - back);
        ProductIsWholeLaps(back + 1, |nodes| - back);
      }
    }

    lemma SameNode(i: nat, j: nat)
      requires Valid() && i < |nodes| && j < |nodes|
      ensures nodes[i] == nodes[j] <==> i == j
    {
      assert i < j ==> Differ(nodes, i, j);
      assert j < i ==> Differ(nodes, j, i);
    }

    /** The iterators coincide exactly inside a cycle, after whole laps. */
    lemma MeetingExactly(steps: nat)
      requires Valid() && 0 < steps && Walk(2 * steps) != null
      ensures Walk(steps) == Walk(2 * steps) <==> IsMeeting(steps)
    {
      if Walk(steps) == Walk(2 * steps) {
        SameNode(Index(steps, |nodes|, back), Index(2 * steps, |nodes|, back));
        Meeting(steps, |nodes|, back);
      } else if IsMeeting(steps) {
        MeetingHappens(steps, |nodes|, back);
      }
    }

    /** One round of the loop: a step of the slow iterator, two of the fast one. */
    lemma Round(steps: nat)
      requires Valid() && Walk(2 * steps) != null
      ensures Straight() ==> 2 * steps < |nodes|
      ensures Walk(steps) != null && Walk(steps + 1) == Walk(steps).nextp
      ensures var middle := Walk(2 * steps).nextp;
        if middle == null then Straight()
        else Walk(2 * (steps + 1)) == middle.nextp && (middle.nextp == null ==> Straight())
    {
      if Straight() {
        IndexInStraightList(2 * steps, |nodes|);
        IndexInStraightList(steps, |nodes|);
      }
      WalkStep(steps);
      WalkStep(2 * steps);
      if Walk(2 * steps).nextp != null {
        WalkStep(2 * steps + 1);
      }
    }

    /** The node at which the two iterators stop, and (ghost) the steps of the slow one. */
    method MeetingPoint() returns (fit: Node?, ghost steps: nat)
      requires Valid()
      ensures fit == null <==> Straight()
      ensures fit != null ==> IsMeeting(steps) && fit == Walk(steps)
    {
      var sit := first;
      fit := first;
      steps := 0;
      ghost var bound := StepsBound();
      while fit != null
        invariant sit == Walk(steps) && fit == Walk(2 * steps)
        invariant fit == null ==> Straight()
        invariant !Straight() ==> steps < bound
        decreases bound - steps
      {
        Round(steps);
        fit := fit.nextp;
        if fit == null {
          return;
        }
        fit := fit.nextp;
        if fit == null {
          return;
        }
        sit := sit.nextp;
        steps := steps + 1;
        MeetingExactly(steps);
        if sit == fit {
          return;
        }
      }
    }

    method IsCircular() returns (circular: bool)
      requires Valid()
      ensures circular <==> !Straight()
    {
      ghost var steps;
      var fit;
      fit, steps := MeetingPoint();
      circular := fit != null;
    }

    /** Links the tail to the first node that carries the number, if there is one. */
    method MakeListCircular(linkTo: int)
      requires Valid() && Straight()
      modifies this`back, nodes
      ensures Valid()
      ensures forall i :: 0 <= i < |nodes| ==> nodes[i].number == old(nodes[i].number)
      ensures back < |nodes| ==> nodes[back].number == linkTo
      ensures forall i :: 0 <= i < back ==> nodes[i].number != linkTo
    {
      var it := first;
      ghost var k := 0;
      while it != null
        invariant Valid() && Straight()
        invariant k <= |nodes| && it == NodeAt(k)
        invariant forall i :: 0 <= i < k ==> nodes[i].number != linkTo
        invariant forall i :: 0 <= i < |nodes| ==> nodes[i].number == old(nodes[i].number)
        decreases |nodes| - k
      {
        if it.number == linkTo {
          TailIsAlone();
          tailp.nextp := it;
          back := k;
          break;
        }
        it := it.nextp;
        k := k + 1;
      }
    }

    /** The last assignment of the repair. */
    method CutAt(tail: Node)
      requires Valid() && nodes != [] && tail == nodes[|nodes| - 1]
      modifies this`back, tail`nextp
      ensures Valid() && Straight()
    {
      TailIsAlone();
      tail.nextp := null;
      back := |nodes|;
    }

    /** Stepping from the meeting point and from the head together, until they coincide. */
    lemma Approach(steps: nat, j: nat)
      requires Valid() && IsMeeting(steps) && j <= back
      ensures Walk(steps + j) == Walk(j) <==> j == back
      ensures 0 < j == back ==> Walk(steps + j - 1) == nodes[|nodes| - 1]
    {
      StepsToEntry(steps, j, |nodes|, back);
      SameNode(Index(steps + j, |nodes|, back), Index(j, |nodes|, back));
      if 0 < j == back {
        StepBeforeEntry(steps, |nodes|, back);
      }
    }

    /** Cuts the cycle at the tail; a straight list is left alone. */
    method FixList()
      requires Valid()
      modifies this`back
      modifies (if nodes == [] then {} else {nodes[|nodes| - 1]})`nextp
      ensures Valid() && Straight()
    {
      ghost var steps;
      var meeting;
      meeting, steps := MeetingPoint();
      if meeting == null {
        return;
      }
      var it := first;
      Approach(steps, 0);
      if it == meeting {
        CutAt(tailp);
      } else {
        var prev := NodeBehind(it, meeting, steps);
        CutAt(prev);
      }
    }

    /** The loop of the repair: it ends with `prev` on the tail. */
    method NodeBehind(head: Node?, start: Node?, ghost steps: nat) returns (prev: Node?)
      requires Valid() && IsMeeting(steps) && 0 < back
      requires head == Walk(0) && start == Walk(steps)
      ensures prev == nodes[|nodes| - 1]
    {
      var it, meeting := head, start;
      prev := null;
      ghost var j := 0;
      Approach(steps, 0);
      while it != meeting
        invariant j <= back && (it == meeting <==> j == back)
        invariant it == Walk(j) && meeting == Walk(steps + j)
        invariant j == back ==> prev == nodes[|nodes| - 1]
        decreases back - j
      {
        WalkStep(steps + j);
        WalkStep(j);
        prev := meeting;
        meeting := meeting.nextp;
        it := it.nextp;
        j := j + 1;
        Approach(steps, j);
      }
    }
  }

  /** The list 0, 1, ..., count - 1. */
  method Build(count: int) returns (list: List)
    ensures fresh(list) && fresh(list.nodes)
    ensures list.Valid() && list.Straight()
    ensures |list.nodes| == if count < 0 then 0 else count
    ensures forall k :: 0 <= k < |list.nodes| ==> list.nodes[k].number == k
  {
    list := new List();
    for i := 0 to (if count < 0 then 0 else count)
      invariant list.Valid() && list.Straight() && fresh(list) && fresh(list.nodes)
      invariant |list.nodes| == i
      invariant forall k :: 0 <= k < i ==> list.nodes[k].number == k
    {
      list.PushBack(i);
    }
  }

  /**
    What main does with its argument: build the list 0, 1, ..., link the tail to node
    `epoch % nelements` (C++ remainder, so a negative count leaves nothing to link), and repair it.
    Its assert that the linked list is circular holds exactly for a positive count; the repaired
    list is the one that was built.
   */
  method BuildLinkRepair(nelements: int, epoch: nat) returns (list: List, linked: bool)
    requires nelements != 0
    ensures linked <==> 0 < nelements
    ensures list.Valid() && list.Straight()
    ensures |list.nodes| == if nelements < 0 then 0 else nelements
    ensures forall i :: 0 <= i < |list.nodes| ==> list.nodes[i].number == i
  {
    list := Build(nelements);
    var circular := list.IsCircular();
    assert !circular;
    var linkTo := if 0 < nelements then epoch % nelements else epoch % -nelements;
    assert 0 < nelements ==> list.nodes[linkTo].number == linkTo;
    list.MakeListCircular(linkTo);
    assert 0 < nelements ==> list.nodes[linkTo].number == linkTo;
    linked := list.IsCircular();
    list.FixList();
    circular := list.IsCircular();
    assert !circular;
  }
}
