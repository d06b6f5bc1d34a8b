/** Runs of any deterministic system: the states it goes through and what an invariant
    of its steps says about them. */
module Runs {

  /** The state after the first k events. */
  function StateAt<S, E>(step: (S, E) -> S, s: S, evs: seq<E>, k: nat): S
    requires k <= |evs|
  {
    if k == 0 then s else step(StateAt(step, s, evs, k - 1), evs[k - 1])
  }

  /** What the first k events were answered with. */
  function OutputsOf<S, E, O>(step: (S, E) -> S, out: (S, E) -> O, s: S, evs: seq<E>, k: nat): (os: seq<O>)
    requires k <= |evs|
    ensures |os| == k
    ensures forall j :: 0 <= j < k ==> os[j] == out(StateAt(step, s, evs, j), evs[j])
  {
    if k == 0 then []
    else OutputsOf(step, out, s, evs, k - 1) + [out(StateAt(step, s, evs, k - 1), evs[k - 1])]
  }

  lemma {:induction false} OneMoreStep<S, E, O>(
      step: (S, E) -> S, out: (S, E) -> O, s: S, evs: seq<E>, k: nat, t: S, o: O)
    requires k < |evs|
    requires t == step(StateAt(step, s, evs, k), evs[k]) && o == out(StateAt(step, s, evs, k), evs[k])
    ensures t == StateAt(step, s, evs, k + 1)
    ensures OutputsOf(step, out, s, evs, k) + [o] == OutputsOf(step, out, s, evs, k + 1)
  {
  }

  ghost predicate Always<S, E>(step: (S, E) -> S, s: S, evs: seq<E>, inv: S -> bool) {
    forall k :: 0 <= k <= |evs| ==> inv(StateAt(step, s, evs, k))
  }

  ghost predicate EveryStep<S, E>(step: (S, E) -> S, s: S, evs: seq<E>, safe: (S, E) -> bool) {
    forall k :: 0 <= k < |evs| ==> safe(StateAt(step, s, evs, k), evs[k])
  }

  /** If `safe` is exactly the guard under which a step keeps `inv`, then `inv` holds
      throughout a run exactly when every step of the run was safe. */
  lemma {:induction false} AlwaysIff<S(!new), E(!new)>(
      step: (S, E) -> S, inv: S -> bool, safe: (S, E) -> bool, s: S, evs: seq<E>)
    requires inv(s)
    requires forall t, e :: inv(t) ==> (inv(step(t, e)) <==> safe(t, e))
    ensures Always(step, s, evs, inv) <==> EveryStep(step, s, evs, safe)
  {
    if EveryStep(step, s, evs, safe) {
      forall k | 0 <= k <= |evs| ensures inv(StateAt(step, s, evs, k)) {
        InvariantAt(step, inv, safe, s, evs, k);
      }
    }
    if Always(step, s, evs, inv) {
      forall k | 0 <= k < |evs| ensures safe(StateAt(step, s, evs, k), evs[k]) {
        assert inv(StateAt(step, s, evs, k + 1));
      }
    }
  }

  lemma {:induction false} InvariantAt<S(!new), E(!new)>(
      step: (S, E) -> S, inv: S -> bool, safe: (S, E) -> bool, s: S, evs: seq<E>, k: nat)
    requires inv(s) && k <= |evs|
    requires forall t, e :: inv(t) && safe(t, e) ==> inv(step(t, e))
    requires EveryStep(step, s, evs, safe)
    ensures inv(StateAt(step, s, evs, k))
  {
    if k > 0 {
      InvariantAt(step, inv, safe, s, evs, k - 1);
      assert safe(StateAt(step, s, evs, k - 1), evs[k - 1]);
    }
  }

  /** The same for an invariant that also speaks of the events so far. */
  lemma {:induction false} HistoryAt<S(!new), E(!new)>(
      step: (S, E) -> S, inv: (nat, S) -> bool, safe: (S, E) -> bool, s: S, evs: seq<E>, k: nat)
    requires inv(0, s) && k <= |evs|
    requires forall n: nat, t :: n < |evs| ==> KeepsAt(step, inv, safe, evs, n, t)
    requires EveryStep(step, s, evs, safe)
    ensures inv(k, StateAt(step, s, evs, k))
  {
    if k > 0 {
      HistoryAt(step, inv, safe, s, evs, k - 1);
      assert safe(StateAt(step, s, evs, k - 1), evs[k - 1]);
      assert KeepsAt(step, inv, safe, evs, k - 1, StateAt(step, s, evs, k - 1));
    }
  }

  ghost predicate KeepsAt<S, E>(
      step: (S, E) -> S, inv: (nat, S) -> bool, safe: (S, E) -> bool, evs: seq<E>, n: nat, t: S)
    requires n < |evs|
  {
    inv(n, t) && safe(t, evs[n]) ==> inv(n + 1, step(t, evs[n]))
  }

  /** The fact holds after every number of events from j to k. */
  ghost predicate Lasts<S, E>(step: (S, E) -> S, fact: S -> bool, s: S, evs: seq<E>, j: nat, k: nat)
    requires k <= |evs|
  {
    forall n :: j <= n <= k ==> fact(StateAt(step, s, evs, n))
  }

  /** None of the events from number j to before k is such. */
  ghost predicate Without<S, E>(step: (S, E) -> S, such: (S, E) -> bool, s: S, evs: seq<E>, j: nat, k: nat)
    requires k <= |evs|
  {
    forall n :: j <= n < k ==> !such(StateAt(step, s, evs, n), evs[n])
  }

  /** If `ends` is exactly the guard under which a step ends `fact`, then a fact true after j
      events lasts until after k exactly if no event in between ends it. */
  lemma {:induction false} LastsIff<S(!new), E(!new)>(
      step: (S, E) -> S, fact: S -> bool, ends: (S, E) -> bool, s: S, evs: seq<E>, j: nat, k: nat)
    requires j <= k <= |evs| && fact(StateAt(step, s, evs, j))
    requires forall n :: 0 <= n < |evs| && fact(StateAt(step, s, evs, n)) ==> EndsWhen(step, fact, ends, s, evs, n)
    ensures Lasts(step, fact, s, evs, j, k) <==> Without(step, ends, s, evs, j, k)
  {
    if j < k {
      LastsIff(step, fact, ends, s, evs, j, k - 1);
      assert fact(StateAt(step, s, evs, k - 1)) ==> EndsWhen(step, fact, ends, s, evs, k - 1);
      if Without(step, ends, s, evs, j, k) {
        forall n | j <= n <= k ensures fact(StateAt(step, s, evs, n)) {
          assert fact(StateAt(step, s, evs, k - 1)) && !ends(StateAt(step, s, evs, k - 1), evs[k - 1]);
        }
      }
      if Lasts(step, fact, s, evs, j, k) {
        forall n | j <= n < k ensures !ends(StateAt(step, s, evs, n), evs[n]) {
          assert fact(StateAt(step, s, evs, k - 1)) && fact(StateAt(step, s, evs, k));
        }
      }
    }
  }

  ghost predicate EndsWhen<S, E>(step: (S, E) -> S, fact: S -> bool, ends: (S, E) -> bool, s: S, evs: seq<E>, n: nat)
    requires n < |evs|
  {
    fact(StateAt(step, s, evs, n + 1)) <==> !ends(StateAt(step, s, evs, n), evs[n])
  }
}
