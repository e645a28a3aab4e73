/**
 The contract that Next and Prev of tuples are said to keep at least: what is above a in the
 comparison of SQL, where a NULL element is unknown, is not below a.Next() in the order of
 index keys, and what is below b is not above b.Prev(). Elements that are tuples are compared
 as keys there too, and so both can skip something. What they skip is stated exactly.
 */
module SqlNeighbours {
  import opened Values
  import opened Comparison
  import opened SharedTuples
  import opened Successors

  /** Where a row comparison is decided: equal values, none of them NULL, and then a smaller one. */
  predicate DecidedAt(xs: seq<Datum>, ys: seq<Datum>, p: nat) {
    && p < |xs| == |ys|
    && (forall j | 0 <= j < p :: xs[j] == ys[j] && !xs[j].DNull?)
    && !xs[p].DNull? && !ys[p].DNull? && Compare(xs[p], ys[p]) < 0
  }

  lemma {:induction false} DecidedFrom(xs: seq<Datum>, ys: seq<Datum>, i: nat) returns (p: nat)
    requires |xs| == |ys| && i <= |xs| && RowCompareFrom(LT, xs, ys, i) == True
    requires forall j | 0 <= j < i :: xs[j] == ys[j] && !xs[j].DNull?
    ensures DecidedAt(xs, ys, p)
    decreases |xs| - i
  {
    hide Compare;
    CompareSign(xs[i], ys[i]);
    if Less3(xs[i], ys[i]) == True {
      p := i;
    } else {
      p := DecidedFrom(xs, ys, i + 1);
    }
  }

  lemma {:induction false} DecidedIsLess(xs: seq<Datum>, ys: seq<Datum>, p: nat, i: nat)
    requires DecidedAt(xs, ys, p) && i <= p
    ensures RowCompareFrom(LT, xs, ys, i) == True
    decreases p - i
  {
    hide Compare;
    CompareSign(xs[i], ys[i]);
    if i < p { DecidedIsLess(xs, ys, p, i + 1); }
  }

  /** A difference at p decides the order of keys, if there is none before. */
  lemma {:induction false} CompareAt(xs: seq<Datum>, ys: seq<Datum>, p: nat, i: nat)
    requires i <= p < |xs| == |ys| && forall j | i <= j < p :: xs[j] == ys[j]
    ensures CompareFrom(xs, ys, i) == if Compare(xs[p], ys[p]) != 0 then Compare(xs[p], ys[p]) else CompareFrom(xs, ys, p + 1)
    decreases p - i
  {
    hide Compare;
    CompareSign(xs[i], ys[i]);
    if i < p { CompareAt(xs, ys, p, i + 1); }
  }

  lemma {:induction false} AboveNullTail(xs: seq<Datum>, ys: seq<Datum>, i: nat)
    requires |xs| == |ys| && forall j | i <= j < |ys| :: ys[j] == DNull
    ensures CompareFrom(xs, ys, i) >= 0
    decreases |xs| - i
  {
    if i < |xs| {
      NullIsLeast(xs[i]);
      AboveNullTail(xs, ys, i + 1);
    }
  }

  /** An element that is changed decides the order of keys, if nothing before it does. */
  lemma {:induction false} ChangedAt(xs: seq<Datum>, ys: seq<Datum>, p: nat)
    requires p < |xs| == |ys| && Compare(xs[p], ys[p]) != 0 && forall j | 0 <= j < p :: xs[j] == ys[j]
    ensures CompareAll(xs, ys) == Compare(xs[p], ys[p])
  {
    hide Compare;
    CompareAt(xs, ys, p, 0);
  }

  /** A row comparison gets to position p: no NULL before it, and none there. */
  predicate GetsTo(ds: seq<Datum>, p: nat) {
    p < |ds| && forall j | 0 <= j <= p :: !ds[j].DNull?
  }

  // ---------------------------------------------------------------------------
  // Next
  // ---------------------------------------------------------------------------

  /** q is the element that Next advances. */
  predicate AdvancesAt(ds: seq<Datum>, q: nat) {
    q < |ds| && !IsMax(ds[q]) && forall j | q < j < |ds| :: IsMax(ds[j])
  }

  /** What is above ds in SQL is not below its Next as a key. */
  ghost predicate NextReachesAll(ds: seq<Datum>, ks: seq<Kind>) {
    forall xs | HaveKinds(xs, ks) && RowCompare(LT, ds, xs) == True ::
      NextElems(ds).Some? && CompareAll(xs, NextElems(ds).value) >= 0
  }

  /** Next skips tuples that differ at p: it skips some in the element it advances, or resets
      an element that something is above, because it is a tuple with a NULL in it. */
  predicate NextSkipsAt(ds: seq<Datum>, q: nat, p: nat) {
    q <= p && GetsTo(ds, p) && if p == q then !ExactNext(ds[p]) else !NullFree(ds[p])
  }

  lemma {:induction false} AboveMax(d: Datum, x: Datum, k: Kind)
    requires HasKind(d, k) && HasKind(x, k) && IsMax(d) && Compare(d, x) < 0
    ensures !NullFree(d)
  {
    CompareSign(d, x);
    if NullFree(d) { TrueMax(d, x, k); }
  }

  lemma {:induction false} NextReaches(ds: seq<Datum>, xs: seq<Datum>, ks: seq<Kind>, q: nat)
    requires HaveKinds(ds, ks) && HaveKinds(xs, ks) && AdvancesAt(ds, q) && RowCompare(LT, ds, xs) == True
    requires forall p :: !NextSkipsAt(ds, q, p)
    ensures NextElems(ds).Some? && CompareAll(xs, NextElems(ds).value) >= 0
  {
    hide Compare, IsMax, Next, HasKind, NextElems, RowCompareFrom, ExactNext, NullFree;
    var p := DecidedFrom(ds, xs, 0);
    NextElemsAt(ds, q);
    NextExists(ds[q], ks[q]);
    var ns := NextElems(ds).value;
    CompareSign(ds[p], xs[p]);
    assert !NextSkipsAt(ds, q, p);
    if p > q { AboveMax(ds[p], xs[p], ks[p]); }
    CompareAt(xs, ns, p, 0);
    if p == q {
      NextIsExact(ds[q], ks[q], xs[q]);
      AboveNullTail(xs, ns, q + 1);
    }
  }

  lemma {:induction false} NextSkips(ds: seq<Datum>, ks: seq<Kind>, q: nat, p: nat) returns (xs: seq<Datum>)
    requires HaveKinds(ds, ks) && AdvancesAt(ds, q) && NextSkipsAt(ds, q, p)
    ensures HaveKinds(xs, ks) && RowCompare(LT, ds, xs) == True
    ensures NextElems(ds).Some? && CompareAll(xs, NextElems(ds).value) < 0
  {
    hide Compare, IsMax, Next, HasKind, NextElems, RowCompareFrom, ExactNext, NullFree;
    NextElemsAt(ds, q);
    NextExists(ds[q], ks[q]);
    var y;
    if p == q { y := NextMisses(ds[p], ks[p]); } else { y := AboveNull(ds[p], ks[p]); }
    CompareSign(ds[p], y);
    NullIsLeast(ds[p]);
    xs := ds[p := y];
    DecidedIsLess(ds, xs, p, 0);
    ChangedAt(xs, NextElems(ds).value, q);
  }

  /** Next keeps the weaker contract exactly if it skips nothing at any element. */
  lemma {:induction false} NextReachesExactly(ds: seq<Datum>, ks: seq<Kind>, q: nat)
    requires HaveKinds(ds, ks) && AdvancesAt(ds, q)
    ensures NextReachesAll(ds, ks) <==> forall p :: !NextSkipsAt(ds, q, p)
  {
    hide RowCompare, NextElems, CompareFrom, HaveKinds, NextSkipsAt;
    if p :| NextSkipsAt(ds, q, p) {
      var xs := NextSkips(ds, ks, q, p);
    } else {
      forall xs | HaveKinds(xs, ks) && RowCompare(LT, ds, xs) == True
        ensures NextElems(ds).Some? && CompareAll(xs, NextElems(ds).value) >= 0
      {
        NextReaches(ds, xs, ks, q);
      }
    }
  }

  predicate IsScalar(k: Kind) { k.BoolKind? || k.IntKind? }

  /** In tuples of BOOL and INT there is nothing to skip, NULLs or not. */
  lemma {:induction false} FlatNextReaches(ds: seq<Datum>, ks: seq<Kind>, q: nat)
    requires HaveKinds(ds, ks) && AdvancesAt(ds, q) && forall i | 0 <= i < |ks| :: IsScalar(ks[i])
    ensures NextReachesAll(ds, ks)
  {
    hide NextReachesAll, IsMax;
    NextReachesExactly(ds, ks, q);
  }

  /** ((1, 5)) is above ((1, NULL)) in SQL but below its Next. */
  lemma {:induction false} NestedNextSkips()
    ensures var ds, xs := [DTuple([DInt(1), DNull])], [DTuple([DInt(1), DInt(5)])];
            RowCompare(LT, ds, xs) == True && NextElems(ds).Some? && CompareAll(xs, NextElems(ds).value) < 0
  {
    var a, x := [DInt(1), DNull], [DInt(1), DInt(5)];
    assert CompareFrom(a, x, 1) == -1;
    assert Compare(DTuple(a), DTuple(x)) == -1;
    assert RowCompareFrom(LT, [DTuple(a)], [DTuple(x)], 1) == False;
    assert a[..1] == [DInt(1)];
    assert NextElems([DInt(1)]) == Some([DInt(2)]) by { assert [DInt(1)][..0] + [DInt(2)] == [DInt(2)]; }
    var n := [DInt(2), DNull];
    assert [DInt(2)] + [DNull] == n;
    assert NextElems(a) == WithTail(NextElems(a[..1]), [DNull]);
    assert Compare(DTuple(x), DTuple(n)) == -1;
    assert !IsMax(DTuple(a)) by { assert !IsMax(a[0]); }
    assert NextElems([DTuple(a)]) == Some([DTuple(n)]) by { assert [DTuple(a)][..0] + [DTuple(n)] == [DTuple(n)]; }
  }

  // ---------------------------------------------------------------------------
  // Prev
  // ---------------------------------------------------------------------------

  /** q is the element that Prev steps back. */
  predicate StepsBackAt(ds: seq<Datum>, q: nat) {
    q < |ds| && !IsMin(ds[q]) && forall j | q < j < |ds| :: IsMin(ds[j])
  }

  /** What is below ds in SQL is not above its Prev as a key. */
  ghost predicate PrevReachesAll(ds: seq<Datum>, ks: seq<Kind>) {
    forall xs | HaveKinds(xs, ks) && RowCompare(LT, xs, ds) == True ::
      PrevElems(ds).Some? && CompareAll(xs, PrevElems(ds).value) <= 0
  }

  /** A tuple that other tuples are below: not all of its elements are NULL. */
  predicate HasLower(d: Datum) { d.DTuple? && exists i | 0 <= i < |d.elems| :: !d.elems[i].DNull? }

  predicate NullBehind(ds: seq<Datum>, q: nat) { exists j | q < j < |ds| :: !NullFree(ds[j]) }

  /** Prev skips tuples that differ at p: it borrows in the element that steps back, or resets
      a NULL behind it, or resets an element that something is below. */
  predicate PrevSkipsAt(ds: seq<Datum>, q: nat, p: nat) {
    q <= p && GetsTo(ds, p) && if p == q then !NoBorrow(ds[p]) || NullBehind(ds, q) else HasLower(ds[p])
  }

  lemma {:induction false} BelowMin(d: Datum, x: Datum, k: Kind)
    requires HasKind(d, k) && HasKind(x, k) && IsMin(d) && !d.DNull? && !x.DNull? && Compare(x, d) < 0
    ensures HasLower(d)
  {
    if d.DTuple? && !HasLower(d) {
      assert forall j | 0 <= j < |d.elems| :: d.elems[j] == DNull;
      AboveNullTail(x.elems, d.elems, 0);
    }
  }

  lemma {:induction false} BelowMaxTail(xs: seq<Datum>, ds: seq<Datum>, ys: seq<Datum>, ks: seq<Kind>, i: nat)
    requires HaveKinds(xs, ks) && HaveKinds(ds, ks) && |ys| == |ds| && i <= |ds|
    requires forall j | i <= j < |ds| :: NullFree(ds[j]) && ys[j] == Max(ds[j])
    ensures CompareFrom(xs, ys, i) <= 0
    decreases |ds| - i
  {
    hide Compare, Max, IsMax, NullFree;
    if i < |ds| {
      MaxIsMax(ds[i], ks[i]);
      TrueMax(Max(ds[i]), xs[i], ks[i]);
      BelowMaxTail(xs, ds, ys, ks, i + 1);
    }
  }

  lemma {:induction false} PrevReaches(ds: seq<Datum>, xs: seq<Datum>, ks: seq<Kind>, q: nat)
    requires HaveKinds(ds, ks) && HaveKinds(xs, ks) && StepsBackAt(ds, q) && RowCompare(LT, xs, ds) == True
    requires forall p :: !PrevSkipsAt(ds, q, p)
    ensures PrevElems(ds).Some? && CompareAll(xs, PrevElems(ds).value) <= 0
  {
    hide Compare, IsMin, Prev, Max, HasKind, PrevElems, RowCompareFrom, NoBorrow, HasLower, NullFree;
    var p := DecidedFrom(xs, ds, 0);
    PrevElemsAt(ds, q);
    PrevExists(ds[q], ks[q]);
    var ps := PrevElems(ds).value;
    assert !PrevSkipsAt(ds, q, p);
    if p > q { BelowMin(ds[p], xs[p], ks[p]); }
    CompareAt(xs, ps, p, 0);
    if p == q {
      PrevWithoutBorrow(ds[q], ks[q], xs[q]);
      BelowMaxTail(xs, ds, ps, ks, q + 1);
    }
  }

  /** Something instead of a NULL makes a tuple greater. */
  lemma {:induction false} NullsReplaced(xs: seq<Datum>, ys: seq<Datum>, i: nat, w: nat)
    requires i <= w < |xs| == |ys| && xs[w] != DNull && forall j | i <= j < |ys| :: ys[j] == DNull
    ensures CompareFrom(xs, ys, i) > 0
    decreases w - i
  {
    hide Compare;
    CompareSign(xs[i], ys[i]);
    NullIsLeast(xs[i]);
    if xs[i] == ys[i] { NullsReplaced(xs, ys, i + 1, w); }
  }

  /** The tuple of NULLs is below every other one. */
  lemma {:induction false} LowerTuple(d: Datum, k: Kind) returns (y: Datum)
    requires HasKind(d, k) && HasLower(d)
    ensures HasKind(y, k) && !y.DNull? && Compare(y, d) < 0
  {
    var ys := seq(|d.elems|, i => DNull);
    var w :| 0 <= w < |d.elems| && !d.elems[w].DNull?;
    NullsReplaced(d.elems, ys, 0, w);
    y := DTuple(ys);
    CompareSign(d, y);
  }

  lemma {:induction false} PrevSkips(ds: seq<Datum>, ks: seq<Kind>, q: nat, p: nat) returns (xs: seq<Datum>)
    requires HaveKinds(ds, ks) && StepsBackAt(ds, q) && PrevSkipsAt(ds, q, p)
    ensures HaveKinds(xs, ks) && RowCompare(LT, xs, ds) == True
    ensures PrevElems(ds).Some? && CompareAll(xs, PrevElems(ds).value) > 0
  {
    hide Compare, IsMin, Prev, Max, HasKind, PrevElems, RowCompareFrom, NoBorrow, HasLower, NullFree;
    PrevElemsAt(ds, q);
    PrevExists(ds[q], ks[q]);
    var ps := PrevElems(ds).value;
    if p == q && NoBorrow(ds[q]) {
      xs := ResetSkips(ds, ks, q, ps);
    } else {
      var y;
      if p == q { y := PrevMisses(ds[p], ks[p]); } else { y := LowerTuple(ds[p], ks[p]); }
      NullIsLeast(Prev(ds[q]).value);
      CompareSign(Prev(ds[q]).value, ds[q]);
      xs := ds[p := y];
      DecidedIsLess(xs, ds, p, 0);
      ChangedAt(xs, ps, q);
    }
  }

  /** A NULL behind the element that steps back is reset to NULL, and skips what is above it. */
  lemma {:induction false} ResetSkips(ds: seq<Datum>, ks: seq<Kind>, q: nat, ps: seq<Datum>) returns (xs: seq<Datum>)
    requires HaveKinds(ds, ks) && StepsBackAt(ds, q) && GetsTo(ds, q) && NullBehind(ds, q) && PrevElems(ds) == Some(ps)
    ensures HaveKinds(xs, ks) && RowCompare(LT, xs, ds) == True && CompareAll(xs, ps) > 0
  {
    hide Compare, IsMin, Prev, Max, HasKind, PrevElems, RowCompareFrom, NullFree;
    PrevElemsAt(ds, q);
    PrevExists(ds[q], ks[q]);
    assert !AllMin(ds);
    PrevElemsExist(ds, ks);
    var j :| q < j < |ds| && !NullFree(ds[j]);
    MaxHasKind(ds[j], ks[j]);
    var y := AboveNull(Max(ds[j]), ks[j]);
    xs := ps[j := y];
    DecidedIsLess(xs, ds, q, 0);
    ChangedAt(xs, ps, j);
  }

  /** Prev keeps the weaker contract exactly if it skips nothing at any element. */
  lemma {:induction false} PrevReachesExactly(ds: seq<Datum>, ks: seq<Kind>, q: nat)
    requires HaveKinds(ds, ks) && StepsBackAt(ds, q)
    ensures PrevReachesAll(ds, ks) <==> forall p :: !PrevSkipsAt(ds, q, p)
  {
    hide RowCompare, PrevElems, CompareFrom, HaveKinds, PrevSkipsAt;
    if p :| PrevSkipsAt(ds, q, p) {
      var xs := PrevSkips(ds, ks, q, p);
    } else {
      forall xs | HaveKinds(xs, ks) && RowCompare(LT, xs, ds) == True
        ensures PrevElems(ds).Some? && CompareAll(xs, PrevElems(ds).value) <= 0
      {
        PrevReaches(ds, xs, ks, q);
      }
    }
  }

  /** In tuples of BOOL and INT: exactly if it does not reset a NULL that a comparison can get past. */
  lemma {:induction false} FlatPrevReaches(ds: seq<Datum>, ks: seq<Kind>, q: nat)
    requires HaveKinds(ds, ks) && StepsBackAt(ds, q) && forall i | 0 <= i < |ks| :: IsScalar(ks[i])
    ensures PrevReachesAll(ds, ks) <==> !(GetsTo(ds, q) && exists j | q < j < |ds| :: ds[j].DNull?)
  {
    hide PrevReachesAll, IsMin;
    PrevReachesExactly(ds, ks, q);
    assert forall j | 0 <= j < |ds| :: !ds[j].DTuple? by {
      forall j | 0 <= j < |ds| ensures !ds[j].DTuple? { assert HasKind(ds[j], ks[j]); }
    }
    if GetsTo(ds, q) && exists j | q < j < |ds| :: ds[j].DNull? { assert PrevSkipsAt(ds, q, q); }
  }

  /** (1, 5) is below (2, NULL) in SQL but above its Prev. */
  lemma {:induction false} FlatPrevSkips()
    ensures var ds, xs := [DInt(2), DNull], [DInt(1), DInt(5)];
            RowCompare(LT, xs, ds) == True && PrevElems(ds).Some? && CompareAll(xs, PrevElems(ds).value) > 0
  {
    var ds, xs := [DInt(2), DNull], [DInt(1), DInt(5)];
    assert RowCompareFrom(LT, xs, ds, 0) == Or3(True, And3(False, RowCompareFrom(LT, xs, ds, 1)));
    assert ds[..1] == [DInt(2)];
    assert PrevElems([DInt(2)]) == Some([DInt(1)]) by { assert [DInt(2)][..0] + [DInt(1)] == [DInt(1)]; }
    var ps := [DInt(1), DNull];
    assert [DInt(1)] + [DNull] == ps;
    assert PrevElems(ds) == WithTail(PrevElems(ds[..1]), [DNull]);
    assert CompareFrom(xs, ps, 1) == 1;
  }
}
