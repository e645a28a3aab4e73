/**
 Overload resolution narrows a list of candidate overloads in place. A filter swaps rejected
 candidates behind the end of the slice; an attempt filters, and puts the old slice back if
 it did not settle on one candidate.
 */
module Overloads {

  /** A test on the index of an overload. */
  type Test = nat -> bool

  /** What checkReturn says of the only remaining candidate. */
  datatype Verdict = Accepted | Open | Failed

  /** One step of typeCheckOverloadedExprs on the candidates. */
  datatype Op =
    | Commit(keep: Test)
    | Check(verdict: Verdict)
    | Attempt(tests: seq<Test>, verdict: Verdict)

  // ---------------------------------------------------------------------------
  // What the steps mean
  // ---------------------------------------------------------------------------

  predicate PassesAll(tests: seq<Test>, x: nat) { forall i | 0 <= i < |tests| :: tests[i](x) }

  function Passing(s: set<nat>, tests: seq<Test>): set<nat> { set x | x in s && PassesAll(tests, x) }

  /** The tests that a step leaves applied. */
  function Applied(s: set<nat>, op: Op): seq<Test> {
    match op
    case Commit(keep) => [keep]
    case Check(_) => []
    case Attempt(tests, verdict) => if |Passing(s, tests)| == 1 && !verdict.Open? then tests else []
  }

  /** Resolution ends here: a candidate was accepted. An error is not looked at by the callers. */
  predicate Stops(s: set<nat>, op: Op) {
    match op
    case Commit(_) => false
    case Check(verdict) => verdict.Accepted?
    case Attempt(tests, verdict) => |Passing(s, tests)| == 1 && verdict.Accepted?
  }

  /** An attempt that narrowed the candidates to one and failed on it. */
  predicate Errs(s: set<nat>, op: Op) {
    op.Attempt? && |Passing(s, op.tests)| == 1 && op.verdict.Failed?
  }

  /** All the tests that are applied after n steps, if none of them ends the resolution. */
  function AppliedBy(s: set<nat>, ops: seq<Op>, n: nat): seq<Test>
    requires n <= |ops|
  {
    if n == 0 then []
    else AppliedBy(s, ops, n - 1) + Applied(Passing(s, AppliedBy(s, ops, n - 1)), ops[n - 1])
  }

  /** The candidates after n steps. */
  function After(s: set<nat>, ops: seq<Op>, n: nat): set<nat>
    requires n <= |ops|
  {
    Passing(s, AppliedBy(s, ops, n))
  }

  /** The tests of the committed filters alone. */
  function Committed(ops: seq<Op>, n: nat): seq<Test>
    requires n <= |ops|
  {
    if n == 0 then [] else Committed(ops, n - 1) + (if ops[n - 1].Commit? then [ops[n - 1].keep] else [])
  }

  /** Attempts that neither settle nor fail leave no trace: only committed filters count. */
  lemma {:induction false} OnlyCommittedCount(s: set<nat>, ops: seq<Op>, n: nat)
    requires n <= |ops|
    requires forall i | 0 <= i < n :: !Stops(After(s, ops, i), ops[i]) && !Errs(After(s, ops, i), ops[i])
    ensures AppliedBy(s, ops, n) == Committed(ops, n)
  {
    if n > 0 {
      OnlyCommittedCount(s, ops, n - 1);
      assert !Stops(After(s, ops, n - 1), ops[n - 1]) && !Errs(After(s, ops, n - 1), ops[n - 1]);
    }
  }

  lemma {:induction false} PassingBoth(s: set<nat>, a: seq<Test>, b: seq<Test>)
    ensures Passing(Passing(s, a), b) == Passing(s, a + b)
  {
    forall x | x in s ensures PassesAll(a + b, x) <==> PassesAll(a, x) && PassesAll(b, x) {
      assert forall i | 0 <= i < |a| :: (a + b)[i] == a[i];
      assert forall i | 0 <= i < |b| :: (a + b)[|a| + i] == b[i];
    }
  }

  lemma {:induction false} AfterNothing(s: set<nat>, ops: seq<Op>)
    ensures After(s, ops, 0) == s
  {
    assert Passing(s, []) == s;
  }

  lemma {:induction false} AfterStep(s: set<nat>, ops: seq<Op>, n: nat)
    requires n < |ops|
    ensures After(s, ops, n + 1) == Passing(After(s, ops, n), Applied(After(s, ops, n), ops[n]))
  {
    hide Applied, Passing;
    PassingBoth(s, AppliedBy(s, ops, n), Applied(After(s, ops, n), ops[n]));
  }

  /** So the candidates are then exactly the overloads that pass every committed filter. */
  lemma {:induction false} OnlyCommittedStay(s: set<nat>, ops: seq<Op>, n: nat)
    requires n <= |ops|
    requires forall i | 0 <= i < n :: !Stops(After(s, ops, i), ops[i]) && !Errs(After(s, ops, i), ops[i])
    ensures After(s, ops, n) == Passing(s, Committed(ops, n))
  {
    hide Stops, Errs, Passing, Committed, AppliedBy;
    OnlyCommittedCount(s, ops, n);
  }

  /** An attempt keeps the candidates exactly if it is undone or had only one to begin with. */
  lemma {:induction false} AttemptKeeps(s: set<nat>, tests: seq<Test>, verdict: Verdict)
    ensures var op := Attempt(tests, verdict);
            Passing(s, Applied(s, op)) == s <==> !(Stops(s, op) || Errs(s, op)) || |s| == 1
  {
    var t := Passing(s, tests);
    assert t <= s;
    assert Passing(s, []) == s;
    SubsetSize(t, s);
  }

  lemma {:induction false} SubsetSize(t: set<nat>, s: set<nat>)
    requires t <= s
    ensures |t| == |s| <==> t == s
  {
    if t != s {
      var rest := s - t;
      assert s == t + rest;
    }
  }

  /** Two candidates, one of them passing, and an error: the other one is lost. */
  lemma {:induction false} ErrorLosesCandidate()
    ensures var op := Attempt([x => x == 0], Failed);
            Errs({0, 1}, op) && Passing({0, 1}, Applied({0, 1}, op)) == {0}
  {
    var tests: seq<Test> := [x => x == 0];
    assert PassesAll(tests, 0) && !PassesAll(tests, 1) by { assert !tests[0](1); }
    assert Passing({0, 1}, tests) == {0};
  }

  // ---------------------------------------------------------------------------
  // The slice
  // ---------------------------------------------------------------------------

  lemma {:induction false} SplitCount(a: seq<nat>, n: nat)
    requires n <= |a|
    ensures multiset(a) == multiset(a[..n]) + multiset(a[n..])
  {
    assert a == a[..n] + a[n..];
  }

  /** What stays in front after a filter: the passing ones of before, each as often. */
  lemma {:induction false} FrontPasses(a: seq<nat>, n: nat, s: set<nat>, keep: Test)
    requires n <= |a| && multiset(a) == multiset(s)
    requires forall i | 0 <= i < n :: keep(a[i])
    requires forall i | n <= i < |a| :: !keep(a[i])
    ensures multiset(a[..n]) == multiset(Passing(s, [keep]))
  {
    SplitCount(a, n);
    var t := Passing(s, [keep]);
    forall x ensures multiset(a[..n])[x] == multiset(t)[x] {
      assert [keep][0] == keep;
      assert PassesAll([keep], x) <==> keep(x);
      assert multiset(a)[x] == multiset(s)[x];
      if keep(x) {
        assert x !in a[n..];
      } else {
        assert x !in a[..n];
      }
    }
  }

  lemma {:induction false} SwapCount(a: seq<nat>, b: seq<nat>, i: nat, j: nat)
    requires i < |a| && j < |a| && b == a[i := a[j]][j := a[i]]
    ensures multiset(b) == multiset(a)
  {
  }

  /** A permutation of the front alone permutes the whole. */
  lemma {:induction false} FrontPermuted(a: seq<nat>, b: seq<nat>, n: nat)
    requires n <= |a| == |b| && multiset(a[..n]) == multiset(b[..n])
    requires forall j | n <= j < |a| :: a[j] == b[j]
    ensures multiset(a) == multiset(b)
  {
    SplitCount(a, n);
    SplitCount(b, n);
    assert a[n..] == b[n..];
  }

  /** The overloads 0 to k - 1. */
  function Indices(k: nat): set<nat> { if k == 0 then {} else Indices(k - 1) + {k - 1} }

  lemma {:induction false} InIndices(k: nat, x: nat)
    ensures x in Indices(k) <==> x < k
  {
    if k > 0 { InIndices(k - 1, x); }
  }

  lemma {:induction false} AllIndices(a: seq<nat>)
    requires forall i | 0 <= i < |a| :: a[i] == i
    ensures multiset(a) == multiset(Indices(|a|))
  {
    if a != [] {
      var k := |a| - 1;
      AllIndices(a[..k]);
      InIndices(k, k);
      assert a == a[..k] + [a[k]];
    }
  }

  /** overloadIdxs: a slice that starts where its array starts. */
  class Candidates {
    const idxs: array<nat>
    var len: nat

    ghost predicate Holds(s: set<nat>)
      reads this, idxs
    {
      len <= idxs.Length && multiset(idxs[..len]) == multiset(s)
    }

    /** All of the k overloads. */
    constructor (k: nat)
      ensures fresh(idxs) && Holds(Indices(k))
    {
      idxs := new nat[k](i => i);
      len := k;
      new;
      AllIndices(idxs[..]);
      assert idxs[..k] == idxs[..];
    }

    method Swap(i: nat, j: nat, ghost n: nat)
      requires i < n && j < n <= idxs.Length
      modifies idxs
      ensures idxs[i] == old(idxs[j]) && idxs[j] == old(idxs[i])
      ensures forall k | 0 <= k < idxs.Length && k != i && k != j :: idxs[k] == old(idxs[k])
      ensures multiset(idxs[..n]) == old(multiset(idxs[..n]))
    {
      ghost var a := idxs[..n];
      idxs[i], idxs[j] := idxs[j], idxs[i];
      SwapCount(a, idxs[..n], i, j);
    }

    /** filterOverloads: permutes the slice, touches nothing behind it, and keeps what passes. */
    method Filter(keep: Test, ghost s: set<nat>)
      requires Holds(s)
      modifies this, idxs
      ensures len <= old(len) && Holds(Passing(s, [keep]))
      ensures multiset(idxs[..old(len)]) == multiset(s)
      ensures forall j | old(len) <= j < idxs.Length :: idxs[j] == old(idxs[j])
    {
      hide Passing;
      ghost var n := len;
      var i := 0;
      while i < len
        invariant 0 <= i <= len <= n <= idxs.Length
        invariant multiset(idxs[..n]) == multiset(s)
        invariant forall j | n <= j < idxs.Length :: idxs[j] == old(idxs[j])
        invariant forall j | 0 <= j < i :: keep(idxs[j])
        invariant forall j | len <= j < n :: !keep(idxs[j])
        decreases len - i
      {
        if keep(idxs[i]) {
          i := i + 1;
        } else {
          Swap(i, len - 1, n);
          len := len - 1;
        }
      }
      FrontPasses(idxs[..n], len, s, keep);
      assert idxs[..n][..len] == idxs[..len];
    }

    /** One more filter of an attempt that began with n candidates. */
    method FilterMore(test: Test, ghost s: set<nat>, ghost n: nat)
      requires Holds(s) && len <= n <= idxs.Length
      modifies this, idxs
      ensures len <= n && Holds(Passing(s, [test]))
      ensures multiset(idxs[..n]) == old(multiset(idxs[..n]))
    {
      hide Passing;
      ghost var a, m := idxs[..n], len;
      assert a[..m] == idxs[..m];
      Filter(test, s);
      assert idxs[..n][..m] == idxs[..m];
      FrontPermuted(a, idxs[..n], m);
    }

    /** The filters of an attempt, one after the other. */
    method FilterAll(tests: seq<Test>, ghost s: set<nat>)
      requires Holds(s)
      modifies this, idxs
      ensures len <= old(len) <= idxs.Length && Holds(Passing(s, tests))
      ensures multiset(idxs[..old(len)]) == multiset(s)
    {
      ghost var t := s;
      assert Passing(s, []) == s && tests[..0] == [];
      hide Passing;
      for i := 0 to |tests|
        invariant len <= old(len) <= idxs.Length && multiset(idxs[..old(len)]) == multiset(s)
        invariant t == Passing(s, tests[..i]) && Holds(t)
      {
        FilterMore(tests[i], t, old(len));
        t := Passing(t, [tests[i]]);
        PassingBoth(s, tests[..i], [tests[i]]);
        assert tests[..i] + [tests[i]] == tests[..i + 1];
      }
      assert tests[..|tests|] == tests;
    }

    /** filterAttempt: settled if the candidate was accepted, undone unless it narrowed to one. */
    method TryFilters(tests: seq<Test>, verdict: Verdict, ghost s: set<nat>) returns (settled: bool)
      requires Holds(s)
      modifies this, idxs
      ensures Holds(Passing(s, Applied(s, Attempt(tests, verdict))))
      ensures settled == Stops(s, Attempt(tests, verdict))
    {
      assert Passing(s, []) == s;
      hide Passing;
      var before := len;
      FilterAll(tests, s);
      ghost var t := Passing(s, tests);
      assert |multiset(idxs[..len])| == len && |multiset(t)| == |t|;
      if len == 1 && verdict.Failed? {
        return false;
      }
      if len == 1 && verdict.Accepted? {
        return true;
      }
      len := before;
      return false;
    }

    /** The steps of typeCheckOverloadedExprs, until one of them settles on a candidate. */
    method Resolve(ops: seq<Op>, ghost s: set<nat>) returns (n: nat, settled: bool)
      requires Holds(s)
      modifies this, idxs
      ensures n <= |ops| && (settled <==> n < |ops|)
      ensures forall i | 0 <= i < n :: !Stops(After(s, ops, i), ops[i])
      ensures settled ==> Stops(After(s, ops, n), ops[n])
      ensures !settled ==> Holds(After(s, ops, n))
      ensures !settled && (forall i | 0 <= i < n :: !Errs(After(s, ops, i), ops[i])) ==> Holds(Passing(s, Committed(ops, n)))
    {
      hide Applied, Stops, Errs, After, Passing, Committed;
      n := 0;
      AfterNothing(s, ops);
      while n < |ops|
        invariant n <= |ops| && Holds(After(s, ops, n))
        invariant forall i | 0 <= i < n :: !Stops(After(s, ops, i), ops[i])
      {
        ghost var t := After(s, ops, n);
        AfterStep(s, ops, n);
        OneStep(t, ops[n]);
        settled := false;
        match ops[n] {
          case Commit(keep) => Filter(keep, t);
          case Check(verdict) => settled := verdict.Accepted?;
          case Attempt(tests, verdict) => settled := TryFilters(tests, verdict, t);
        }
        if settled { return; }
        n := n + 1;
      }
      settled := false;
      if forall i | 0 <= i < n :: !Errs(After(s, ops, i), ops[i]) { OnlyCommittedStay(s, ops, n); }
    }
  }

  lemma {:induction false} OneStep(s: set<nat>, op: Op)
    ensures op.Commit? ==> Applied(s, op) == [op.keep] && !Stops(s, op)
    ensures op.Check? ==> Passing(s, Applied(s, op)) == s && Stops(s, op) == op.verdict.Accepted?
  {
  }
}
