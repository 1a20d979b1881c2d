/** Choosing some elements of a sequence. */
module Picks {

  /** A pick says of each number whether it is taken. */
  type Pick = seq<bool>

  function Weight(ns: seq<nat>, b: Pick): nat
    requires |ns| == |b|
  {
    if ns == [] then 0 else (if b[0] then ns[0] else 0) + Weight(ns[1..], b[1..])
  }

  function Selected<T>(ns: seq<T>, b: Pick): seq<T>
    requires |ns| == |b|
  {
    if ns == [] then [] else (if b[0] then [ns[0]] else []) + Selected(ns[1..], b[1..])
  }

  function Total(ns: seq<nat>): nat {
    if ns == [] then 0 else ns[0] + Total(ns[1..])
  }

  function Nothing(n: nat): (b: Pick)
    ensures |b| == n && forall i :: 0 <= i < n ==> !b[i]
  {
    seq(n, _ => false)
  }

  lemma Assoc<T>(a: seq<T>, b: seq<T>, c: seq<T>)
    ensures (a + b) + c == a + (b + c)
  {
  }

  lemma {:induction false} WeightConcat(ns: seq<nat>, b: Pick, ms: seq<nat>, c: Pick)
    requires |ns| == |b| && |ms| == |c|
    ensures Weight(ns + ms, b + c) == Weight(ns, b) + Weight(ms, c)
  {
    if ns == [] {
      assert ns + ms == ms && b + c == c;
    } else {
      assert (ns + ms)[1..] == ns[1..] + ms && (b + c)[1..] == b[1..] + c;
      WeightConcat(ns[1..], b[1..], ms, c);
    }
  }

  lemma {:induction false} SelectedConcat<T>(ns: seq<T>, b: Pick, ms: seq<T>, c: Pick)
    requires |ns| == |b| && |ms| == |c|
    ensures Selected(ns + ms, b + c) == Selected(ns, b) + Selected(ms, c)
  {
    if ns == [] {
      assert ns + ms == ms && b + c == c;
    } else {
      assert (ns + ms)[1..] == ns[1..] + ms && (b + c)[1..] == b[1..] + c;
      SelectedConcat(ns[1..], b[1..], ms, c);
      Assoc(if b[0] then [ns[0]] else [], Selected(ns[1..], b[1..]), Selected(ms, c));
    }
  }

  lemma {:induction false} NothingWeighs(ns: seq<nat>, b: Pick)
    requires |b| == |ns| && forall i :: 0 <= i < |b| ==> !b[i]
    ensures Weight(ns, b) == 0
  {
    if ns != [] {
      NothingWeighs(ns[1..], b[1..]);
    }
  }

  lemma {:induction false} NothingSelected<T>(ns: seq<T>, b: Pick)
    requires |b| == |ns| && forall i :: 0 <= i < |b| ==> !b[i]
    ensures Selected(ns, b) == []
  {
    if ns != [] {
      NothingSelected(ns[1..], b[1..]);
    }
  }

  lemma {:induction false} WeightBound(ns: seq<nat>, b: Pick)
    requires |b| == |ns|
    ensures Weight(ns, b) <= Total(ns)
    ensures forall i :: 0 <= i < |b| && b[i] ==> ns[i] <= Weight(ns, b)
  {
    if ns != [] {
      WeightBound(ns[1..], b[1..]);
      forall i | 0 < i < |b| && b[i] ensures ns[i] <= Weight(ns, b) {
        assert b[1..][i - 1] && ns[1..][i - 1] == ns[i];
      }
    }
  }

  lemma Extend(ns: seq<nat>, b: Pick, i: nat)
    requires i < |ns| == |b|
    ensures Weight(ns[..i + 1], b[..i + 1]) == Weight(ns[..i], b[..i]) + if b[i] then ns[i] else 0
    ensures Selected(ns[..i + 1], b[..i + 1]) == Selected(ns[..i], b[..i]) + if b[i] then [ns[i]] else []
  {
    assert ns[..i + 1] == ns[..i] + [ns[i]] && b[..i + 1] == b[..i] + [b[i]];
    WeightConcat(ns[..i], b[..i], [ns[i]], [b[i]]);
    SelectedConcat(ns[..i], b[..i], [ns[i]], [b[i]]);
    assert Selected([ns[i]], [b[i]]) == if b[i] then [ns[i]] else [];
  }

  lemma PrefixWeighsLess(ns: seq<nat>, b: Pick, i: nat, j: nat)
    requires i <= j <= |ns| == |b|
    ensures Weight(ns[..i], b[..i]) <= Weight(ns[..j], b[..j])
  {
    assert ns[..j] == ns[..i] + ns[i..j] && b[..j] == b[..i] + b[i..j];
    WeightConcat(ns[..i], b[..i], ns[i..j], b[i..j]);
  }

  /** The weight is the sum of the numbers that are selected. */
  lemma {:induction false} WeightIsTotal(ns: seq<nat>, b: Pick)
    requires |ns| == |b|
    ensures Weight(ns, b) == Total(Selected(ns, b))
  {
    if ns != [] {
      WeightIsTotal(ns[1..], b[1..]);
      var rest := Selected(ns[1..], b[1..]);
      assert Selected(ns, b) == if b[0] then [ns[0]] + rest else [] + rest;
      assert ([ns[0]] + rest)[1..] == rest && [] + rest == rest;
    }
  }

  /** A number that is taken comes after those taken before it. */
  lemma SelectedInOrder<T>(ns: seq<T>, b: Pick, i: nat)
    requires i < |ns| == |b|
    ensures var s, k := Selected(ns, b), |Selected(ns[..i], b[..i])|;
      && k <= |s| && s[..k] == Selected(ns[..i], b[..i])
      && (b[i] ==> k < |s| && s[k] == ns[i])
  {
    assert ns == ns[..i] + ns[i..] && b == b[..i] + b[i..];
    SelectedConcat(ns[..i], b[..i], ns[i..], b[i..]);
  }
}
