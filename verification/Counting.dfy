/** Counting the threads of an interleaving that are in a given set of program points. */
module Counting {

  /** How many elements of `xs` satisfy `f`. */
  ghost function Count<T>(xs: seq<T>, f: T -> bool): nat {
    if xs == [] then 0 else Count(xs[1..], f) + if f(xs[0]) then 1 else 0
  }

  /** Changing one element changes the count by that element alone. */
  lemma {:induction false} CountUpdate<T>(xs: seq<T>, i: nat, x: T, f: T -> bool)
    requires i < |xs|
    ensures Count(xs[i := x], f) == Count(xs, f) - (if f(xs[i]) then 1 else 0) + (if f(x) then 1 else 0)
  {
    if i == 0 {
      assert xs[i := x][1..] == xs[1..];
    } else {
      assert xs[i := x][1..] == xs[1..][i - 1 := x];
      CountUpdate(xs[1..], i - 1, x, f);
    }
  }

  lemma {:induction false} CountAtLeastOne<T>(xs: seq<T>, i: nat, f: T -> bool)
    requires i < |xs| && f(xs[i])
    ensures Count(xs, f) >= 1
  {
    if i > 0 {
      CountAtLeastOne(xs[1..], i - 1, f);
    }
  }

  lemma {:induction false} CountAtLeastTwo<T>(xs: seq<T>, i: nat, j: nat, f: T -> bool)
    requires i < j < |xs| && f(xs[i]) && f(xs[j])
    ensures Count(xs, f) >= 2
  {
    if i > 0 {
      CountAtLeastTwo(xs[1..], i - 1, j - 1, f);
    } else {
      CountAtLeastOne(xs[1..], j - 1, f);
    }
  }

  /** If at most one element satisfies `f`, any two that do are the same. */
  lemma Unique<T>(xs: seq<T>, f: T -> bool)
    requires Count(xs, f) <= 1
    ensures forall i, j :: 0 <= i < |xs| && 0 <= j < |xs| && f(xs[i]) && f(xs[j]) ==> i == j
  {
    forall i, j | 0 <= i < j < |xs| && f(xs[i]) && f(xs[j]) ensures false {
      CountAtLeastTwo(xs, i, j, f);
    }
  }

  lemma {:induction false} FindCounted<T>(xs: seq<T>, f: T -> bool) returns (i: nat)
    requires Count(xs, f) >= 1
    ensures i < |xs| && f(xs[i])
  {
    if f(xs[0]) {
      i := 0;
    } else {
      i := FindCounted(xs[1..], f);
      i := i + 1;
    }
  }

  lemma {:induction false} CountNone<T>(xs: seq<T>, f: T -> bool)
    requires forall i :: 0 <= i < |xs| ==> !f(xs[i])
    ensures Count(xs, f) == 0
  {
    if xs != [] {
      CountNone(xs[1..], f);
    }
  }

  lemma {:induction false} CountAll<T>(xs: seq<T>, f: T -> bool)
    ensures Count(xs, f) <= |xs|
    ensures Count(xs, f) == |xs| <==> forall i :: 0 <= i < |xs| ==> f(xs[i])
  {
    if xs != [] {
      CountAll(xs[1..], f);
      assert (forall i :: 0 <= i < |xs| ==> f(xs[i])) <==>
             f(xs[0]) && forall i :: 0 <= i < |xs[1..]| ==> f(xs[1..][i]) by {
        assert forall i :: 0 < i < |xs| ==> xs[i] == xs[1..][i - 1];
      }
    }
  }

  /** No element is counted twice. */
  lemma {:induction false} CountApart<T>(xs: seq<T>, f: T -> bool, g: T -> bool)
    requires forall i :: 0 <= i < |xs| ==> !(f(xs[i]) && g(xs[i]))
    ensures Count(xs, f) + Count(xs, g) <= |xs|
  {
    if xs != [] { CountApart(xs[1..], f, g); }
  }

  /** Two kinds of elements that exclude each other, both of a third kind. */
  lemma {:induction false} CountWithin<T>(xs: seq<T>, f: T -> bool, g: T -> bool, h: T -> bool)
    requires forall i :: 0 <= i < |xs| ==> !(f(xs[i]) && g(xs[i])) && (f(xs[i]) || g(xs[i]) ==> h(xs[i]))
    ensures Count(xs, f) + Count(xs, g) <= Count(xs, h)
  {
    if xs != [] { CountWithin(xs[1..], f, g, h); }
  }

  /** The total of `f` over `xs`. */
  ghost function Sum<T>(xs: seq<T>, f: T -> nat): nat {
    if xs == [] then 0 else Sum(xs[1..], f) + f(xs[0])
  }

  lemma {:induction false} SumUpdate<T>(xs: seq<T>, i: nat, x: T, f: T -> nat)
    requires i < |xs|
    ensures Sum(xs[i := x], f) == Sum(xs, f) - f(xs[i]) + f(x)
  {
    if i == 0 {
      assert xs[i := x][1..] == xs[1..];
    } else {
      assert xs[i := x][1..] == xs[1..][i - 1 := x];
      SumUpdate(xs[1..], i - 1, x, f);
    }
  }

  lemma {:induction false} SumAtMost<T>(xs: seq<T>, f: T -> nat, bound: nat)
    requires forall i :: 0 <= i < |xs| ==> f(xs[i]) <= bound
    ensures Sum(xs, f) <= bound * |xs|
  {
    if xs != [] {
      SumAtMost(xs[1..], f, bound);
      assert bound * |xs| == bound * |xs[1..]| + bound;
    }
  }

  // ---------------------------------------------------------------- who took the steps of a run

  /** How often `q` occurs. */
  ghost function Tally(who: seq<nat>, q: nat): nat {
    if who == [] then 0 else Tally(who[..|who| - 1], q) + if who[|who| - 1] == q then 1 else 0
  }

  lemma TallyNone(q: nat)
    ensures Tally([], q) == 0
  {
  }

  lemma TallyNext(who: seq<nat>, t: nat, q: nat)
    ensures Tally(who + [t], q) == Tally(who, q) + if t == q then 1 else 0
  {
    assert (who + [t])[..|who|] == who;
  }

  function Same(n: nat): nat { n }

  ghost function Tallies(who: seq<nat>, n: nat): (c: seq<nat>)
    ensures |c| == n
  {
    seq(n, q requires 0 <= q => Tally(who, q))
  }

  lemma {:induction false} TalliesAdd(who: seq<nat>, n: nat)
    requires forall k :: 0 <= k < |who| ==> who[k] < n
    ensures Sum(Tallies(who, n), Same) == |who|
  {
    if who == [] {
      SumAtMost(Tallies(who, n), Same, 0);
    } else {
      var front, t := who[..|who| - 1], who[|who| - 1];
      TalliesAdd(front, n);
      var c := Tallies(front, n);
      assert Tallies(who, n) == c[t := c[t] + 1];
      SumUpdate(c, t, c[t] + 1, Same);
    }
  }

  /** If each of n threads took at most `bound` steps, all together took at most bound * n. */
  lemma StepsTogether(who: seq<nat>, n: nat, bound: nat)
    requires forall k :: 0 <= k < |who| ==> who[k] < n
    requires forall q: nat :: q < n ==> Tally(who, q) <= bound
    ensures |who| <= bound * n
  {
    hide Sum;
    TalliesAdd(who, n);
    SumAtMost(Tallies(who, n), Same, bound);
  }
}
