/** Runs of a state machine: the states before and after each labelled step. */
module Traces {

  ghost predicate IsTrace<S(!new), L(!new)>(next: (S, L, S) -> bool, steps: seq<L>, ss: seq<S>) {
    |ss| == |steps| + 1 && forall i :: 0 <= i < |steps| ==> next(ss[i], steps[i], ss[i + 1])
  }

  lemma TwoSteps<S(!new), L(!new)>(next: (S, L, S) -> bool, a: S, l: L, b: S, m: L, c: S)
    requires next(a, l, b) && next(b, m, c)
    ensures IsTrace(next, [l, m], [a, b, c])
  {
  }

  ghost predicate Preserved<S(!new), L(!new)>(next: (S, L, S) -> bool, inv: S -> bool) {
    forall s, l, s' :: inv(s) && next(s, l, s') ==> inv(s')
  }

  /** What holds at first and is preserved by every step holds throughout. */
  lemma {:induction false} Invariant<S(!new), L(!new)>(next: (S, L, S) -> bool, inv: S -> bool,
                                                      steps: seq<L>, ss: seq<S>, n: nat)
    requires IsTrace(next, steps, ss) && inv(ss[0]) && Preserved(next, inv) && n <= |steps|
    ensures inv(ss[n])
  {
    if n > 0 {
      Invariant(next, inv, steps, ss, n - 1);
      assert next(ss[n - 1], steps[n - 1], ss[n]);
    }
  }

  /** What the permitted steps preserve lasts as long as only permitted steps are taken. */
  lemma {:induction false} Lasts<S(!new), L(!new)>(next: (S, L, S) -> bool, inv: S -> bool, p: S -> bool,
                                                  permitted: (L, S) -> bool,
                                                  steps: seq<L>, ss: seq<S>, i: nat, j: nat)
    requires IsTrace(next, steps, ss) && inv(ss[0]) && Preserved(next, inv) && i <= j <= |steps| && p(ss[i])
    requires forall s, l, s' :: inv(s) && p(s) && next(s, l, s') && permitted(l, s') ==> p(s')
    requires forall m :: i <= m < j ==> permitted(steps[m], ss[m + 1])
    ensures p(ss[j])
  {
    if i < j {
      Lasts(next, inv, p, permitted, steps, ss, i, j - 1);
      Invariant(next, inv, steps, ss, j - 1);
      assert next(ss[j - 1], steps[j - 1], ss[j]) && permitted(steps[j - 1], ss[j]);
    }
  }

  ghost predicate Preorder<S(!new)>(inv: S -> bool, rel: (S, S) -> bool) {
    (forall s :: inv(s) ==> rel(s, s)) && forall a, b, c :: rel(a, b) && rel(b, c) ==> rel(a, c)
  }

  /** A preorder that every step respects holds between any earlier and any later state. */
  lemma {:induction false} Monotone<S(!new), L(!new)>(next: (S, L, S) -> bool, inv: S -> bool, rel: (S, S) -> bool,
                                                     steps: seq<L>, ss: seq<S>, i: nat, j: nat)
    requires IsTrace(next, steps, ss) && inv(ss[0]) && Preserved(next, inv) && i <= j <= |steps| && Preorder(inv, rel)
    requires forall s, l, s' :: inv(s) && next(s, l, s') ==> rel(s, s')
    ensures rel(ss[i], ss[j])
  {
    Invariant(next, inv, steps, ss, i);
    if i < j {
      Monotone(next, inv, rel, steps, ss, i, j - 1);
      Invariant(next, inv, steps, ss, j - 1);
      assert next(ss[j - 1], steps[j - 1], ss[j]);
    }
  }
}
