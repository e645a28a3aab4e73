/**
 Next and Prev: the neighbours of a tuple or an array in the order of index keys. The
 written contract is that x > a exactly when x >= a.Next(), and x < b exactly when
 x <= b.Prev(), for every x of the same type. For tuples it holds under conditions that
 are stated here exactly; for arrays it always holds.
 */
module Successors {
  import opened Values
  import opened SharedTuples
  import Arithmetic

  /** The types that have neighbours: BOOL, INT, and tuples of such types. */
  datatype Kind = BoolKind | IntKind | TupleKind(elems: seq<Kind>)

  /** d is NULL or a value of the kind; a tuple's elements may be NULL. */
  predicate HasKind(d: Datum, k: Kind) {
    match d
    case DNull => true
    case DBool(_) => k == BoolKind
    case DInt(_) => k == IntKind
    case DTuple(ds) =>
      k.TupleKind? && |ds| == |k.elems| && forall i | 0 <= i < |ds| :: HasKind(ds[i], k.elems[i])
  }

  predicate HaveKinds(ds: seq<Datum>, ks: seq<Kind>) {
    |ds| == |ks| && forall i | 0 <= i < |ds| :: HasKind(ds[i], ks[i])
  }

  // ---------------------------------------------------------------------------
  // The operations
  // ---------------------------------------------------------------------------

  /** NULL counts as a maximum, and as a minimum, of every type. */
  predicate IsMax(d: Datum) {
    match d
    case DNull => true
    case DBool(b) => b
    case DInt(i) => i == MAX_INT64
    case DTuple(ds) => forall i | 0 <= i < |ds| :: IsMax(ds[i])
  }

  predicate IsMin(d: Datum) {
    match d
    case DNull => true
    case DBool(b) => !b
    case DInt(i) => i == MIN_INT64
    case DTuple(ds) => forall i | 0 <= i < |ds| :: IsMin(ds[i])
  }

  function Max(d: Datum): Datum {
    match d
    case DNull => DNull
    case DBool(_) => DBool(true)
    case DInt(_) => DInt(MAX_INT64)
    case DTuple(ds) => DTuple(seq(|ds|, i requires 0 <= i < |ds| => Max(ds[i])))
  }

  function Next(d: Datum): Option<Datum> {
    match d
    case DNull => None
    case DBool(_) => Some(DBool(true))
    case DInt(i) => Some(DInt(Arithmetic.Wrap(i + 1)))
    case DTuple(ds) => (match NextElems(ds) case None => None case Some(ns) => Some(DTuple(ns)))
  }

  /** The last element that is not a maximum is advanced; the ones behind it become NULL. */
  function NextElems(ds: seq<Datum>): Option<seq<Datum>> {
    if ds == [] then Some([])
    else
      var n := |ds| - 1;
      if !IsMax(ds[n]) then
        match Next(ds[n])
        case None => None
        case Some(v) => Some(ds[..n] + [v])
      else
        WithTail(NextElems(ds[..n]), [DNull])
  }

  function Prev(d: Datum): Option<Datum> {
    match d
    case DNull => None
    case DBool(_) => Some(DBool(false))
    case DInt(i) => Some(DInt(Arithmetic.Wrap(i - 1)))
    case DTuple(ds) => (match PrevElems(ds) case None => None case Some(ps) => Some(DTuple(ps)))
  }

  /** The last element that is not a minimum steps back; the ones behind it become maxima. */
  function PrevElems(ds: seq<Datum>): Option<seq<Datum>> {
    if ds == [] then Some([])
    else
      var n := |ds| - 1;
      if !IsMin(ds[n]) then
        match Prev(ds[n])
        case None => None
        case Some(v) => Some(ds[..n] + [v])
      else
        WithTail(PrevElems(ds[..n]), [Max(ds[n])])
  }

  function WithTail(o: Option<seq<Datum>>, tail: seq<Datum>): Option<seq<Datum>> {
    match o
    case None => None
    case Some(ds) => Some(ds + tail)
  }

  lemma {:induction false} NextElemsStep(ds: seq<Datum>, i: nat)
    requires i < |ds|
    ensures NextElems(ds[..i + 1]) ==
              if IsMax(ds[i]) then WithTail(NextElems(ds[..i]), [DNull])
              else if Next(ds[i]).None? then None
              else Some(ds[..i] + [Next(ds[i]).value])
  {
    assert ds[..i + 1][..i] == ds[..i] && ds[..i + 1][i] == ds[i];
  }

  /** The result, by position, when everything behind position p is reset. */
  lemma {:induction false} NextElemsAt(ds: seq<Datum>, p: int)
    requires -1 <= p < |ds| && forall j | p < j < |ds| :: IsMax(ds[j])
    requires p >= 0 ==> !IsMax(ds[p])
    ensures var o := NextElems(ds);
            && (o.None? <==> p >= 0 && Next(ds[p]).None?)
            && (o.Some? ==> |o.value| == |ds| && forall j | 0 <= j < |ds| ::
                  o.value[j] == if j < p then ds[j] else if j == p then Next(ds[p]).value else DNull)
    decreases |ds|
  {
    hide IsMax, Next;
    if |ds| - 1 > p {
      NextElemsAt(ds[..|ds| - 1], p);
    }
  }

  /** The carry loop. */
  method NextTuple(ds: seq<Datum>) returns (r: Option<seq<Datum>>)
    ensures r == NextElems(ds)
  {
    hide NextElems, IsMax, Next;
    var res := ds;
    var i := |res| - 1;
    while i >= 0
      invariant -1 <= i < |ds| == |res|
      invariant forall j | 0 <= j <= i :: res[j] == ds[j]
      invariant forall j | i < j < |ds| :: IsMax(ds[j]) && res[j] == DNull
    {
      if !IsMax(res[i]) {
        NextElemsAt(ds, i);
        var nextVal := Next(res[i]);
        if nextVal.None? {
          return None;
        }
        res := res[i := nextVal.value];
        assert res == NextElems(ds).value;
        return Some(res);
      }
      res := res[i := DNull];
      i := i - 1;
    }
    NextElemsAt(ds, -1);
    assert res == NextElems(ds).value;
    return Some(res);
  }

  lemma {:induction false} PrevElemsStep(ds: seq<Datum>, i: nat)
    requires i < |ds|
    ensures PrevElems(ds[..i + 1]) ==
              if IsMin(ds[i]) then WithTail(PrevElems(ds[..i]), [Max(ds[i])])
              else if Prev(ds[i]).None? then None
              else Some(ds[..i] + [Prev(ds[i]).value])
  {
    assert ds[..i + 1][..i] == ds[..i] && ds[..i + 1][i] == ds[i];
  }

  /** The result, by position, when everything behind position p is reset. */
  lemma {:induction false} PrevElemsAt(ds: seq<Datum>, p: int)
    requires -1 <= p < |ds| && forall j | p < j < |ds| :: IsMin(ds[j])
    requires p >= 0 ==> !IsMin(ds[p])
    ensures var o := PrevElems(ds);
            && (o.None? <==> p >= 0 && Prev(ds[p]).None?)
            && (o.Some? ==> |o.value| == |ds| && forall j | 0 <= j < |ds| ::
                  o.value[j] == if j < p then ds[j] else if j == p then Prev(ds[p]).value else Max(ds[j]))
    decreases |ds|
  {
    hide IsMin, Prev, Max;
    if |ds| - 1 > p {
      PrevElemsAt(ds[..|ds| - 1], p);
    }
  }

  /** The borrow loop. */
  method PrevTuple(ds: seq<Datum>) returns (r: Option<seq<Datum>>)
    ensures r == PrevElems(ds)
  {
    hide PrevElems, IsMin, Prev, Max;
    var res := ds;
    var i := |res| - 1;
    while i >= 0
      invariant -1 <= i < |ds| == |res|
      invariant forall j | 0 <= j <= i :: res[j] == ds[j]
      invariant forall j | i < j < |ds| :: IsMin(ds[j]) && res[j] == Max(ds[j])
    {
      if !IsMin(res[i]) {
        PrevElemsAt(ds, i);
        var prevVal := Prev(res[i]);
        if prevVal.None? {
          return None;
        }
        res := res[i := prevVal.value];
        assert res == PrevElems(ds).value;
        return Some(res);
      }
      res := res[i := Max(res[i])];
      i := i - 1;
    }
    PrevElemsAt(ds, -1);
    assert res == PrevElems(ds).value;
    return Some(res);
  }

  // ---------------------------------------------------------------------------
  // Lexicographic comparison, from the back
  // ---------------------------------------------------------------------------

  lemma {:induction false} CompareSnocFrom(xs: seq<Datum>, x: Datum, ys: seq<Datum>, y: Datum, i: nat)
    requires |xs| == |ys| && i <= |xs|
    ensures CompareFrom(xs + [x], ys + [y], i) ==
            if CompareFrom(xs, ys, i) != 0 then CompareFrom(xs, ys, i) else Compare(x, y)
    decreases |xs| - i
  {
    hide Compare;
    if i < |xs| {
      CompareSnocFrom(xs, x, ys, y, i + 1);
    } else {
      assert CompareFrom(xs + [x], ys + [y], i + 1) == 0;
    }
  }

  /** Tuples of one length compare by everything but the last element first. */
  lemma {:induction false} CompareByLast(xs: seq<Datum>, ys: seq<Datum>)
    requires |xs| == |ys| > 0
    ensures var n := |xs| - 1;
            var c := CompareAll(xs[..n], ys[..n]);
            CompareAll(xs, ys) == if c != 0 then c else Compare(xs[n], ys[n])
  {
    hide Compare;
    var n := |xs| - 1;
    assert xs == xs[..n] + [xs[n]] && ys == ys[..n] + [ys[n]];
    CompareSnocFrom(xs[..n], xs[n], ys[..n], ys[n], 0);
  }

  lemma {:induction false} CompareAllSelf(xs: seq<Datum>)
    ensures CompareAll(xs, xs) == 0
  {
    CompareFromSign(xs, xs, 0);
  }

  // ---------------------------------------------------------------------------
  // Next
  // ---------------------------------------------------------------------------

  /** Next of a tuple is exact: behind the element that is advanced stand true maxima, no
      NULLs, and the advance of that element is itself exact. */
  predicate ExactNext(d: Datum) { d.DTuple? ==> ExactNextElems(d.elems) }

  predicate ExactNextElems(ds: seq<Datum>) {
    ds == [] ||
    (var n := |ds| - 1;
     if !IsMax(ds[n]) then ExactNext(ds[n]) else NullFree(ds[n]) && ExactNextElems(ds[..n]))
  }

  predicate AllMax(ds: seq<Datum>) { forall i | 0 <= i < |ds| :: IsMax(ds[i]) }

  /** A datum that is not a maximum has a next one, greater, of its kind, not NULL. */
  lemma {:induction false} NextExists(d: Datum, k: Kind)
    requires HasKind(d, k) && !IsMax(d)
    ensures Next(d).Some? && !Next(d).value.DNull? && HasKind(Next(d).value, k)
    ensures Compare(d, Next(d).value) < 0
    decreases d, 1
  {
    if d.DTuple? { NextElemsExist(d.elems, k.elems); }
  }

  lemma {:induction false} NextElemsExist(ds: seq<Datum>, ks: seq<Kind>)
    requires HaveKinds(ds, ks) && !AllMax(ds)
    ensures var o := NextElems(ds); o.Some? && HaveKinds(o.value, ks) && CompareAll(ds, o.value) < 0
    decreases ds, 0
  {
    hide Compare;
    var n := |ds| - 1;
    if !IsMax(ds[n]) {
      NextExists(ds[n], ks[n]);
      var v := Next(ds[n]).value;
      assert (ds[..n] + [v])[..n] == ds[..n];
      CompareByLast(ds, ds[..n] + [v]);
      CompareAllSelf(ds[..n]);
    } else {
      assert !AllMax(ds[..n]);
      NextElemsExist(ds[..n], ks[..n]);
      var ns := NextElems(ds[..n]).value;
      assert (ns + [DNull])[..n] == ns;
      CompareByLast(ds, ns + [DNull]);
    }
  }

  /** Nothing of its kind is above a maximum without NULLs. */
  lemma {:induction false} TrueMax(d: Datum, x: Datum, k: Kind)
    requires HasKind(d, k) && HasKind(x, k) && IsMax(d) && NullFree(d)
    ensures Compare(x, d) <= 0
    decreases d, 1
  {
    if d.DTuple? && x.DTuple? { TrueMaxElems(d.elems, x.elems, k.elems, 0); }
  }

  lemma {:induction false} TrueMaxElems(ds: seq<Datum>, xs: seq<Datum>, ks: seq<Kind>, i: nat)
    requires HaveKinds(ds, ks) && HaveKinds(xs, ks) && AllMax(ds) && !ContainsNull(ds)
    ensures CompareFrom(xs, ds, i) <= 0
    decreases ds, 0, |ds| - i
  {
    if i < |ds| {
      assert ds[i] in ds;
      TrueMax(ds[i], xs[i], ks[i]);
      TrueMaxElems(ds, xs, ks, i + 1);
    }
  }

  lemma {:induction false} NextIsExact(a: Datum, k: Kind, x: Datum)
    requires HasKind(a, k) && HasKind(x, k) && !IsMax(a) && ExactNext(a)
    ensures Next(a).Some? && (Compare(x, a) > 0 <==> Compare(x, Next(a).value) >= 0)
    decreases a, 1
  {
    NextExists(a, k);
    if a.DTuple? && x.DTuple? { NextElemsExact(a.elems, k.elems, x.elems); }
  }

  lemma {:induction false} NextElemsExact(ds: seq<Datum>, ks: seq<Kind>, xs: seq<Datum>)
    requires HaveKinds(ds, ks) && HaveKinds(xs, ks) && !AllMax(ds) && ExactNextElems(ds)
    ensures NextElems(ds).Some? && (CompareAll(xs, ds) > 0 <==> CompareAll(xs, NextElems(ds).value) >= 0)
    decreases ds, 0
  {
    hide Compare;
    var n := |ds| - 1;
    NextElemsExist(ds, ks);
    var ns := NextElems(ds).value;
    CompareByLast(xs, ds);
    CompareByLast(xs, ns);
    if !IsMax(ds[n]) {
      NextIsExact(ds[n], ks[n], xs[n]);
      assert ns[..n] == ds[..n];
    } else {
      assert !AllMax(ds[..n]);
      NextElemsExact(ds[..n], ks[..n], xs[..n]);
      assert ns[..n] == NextElems(ds[..n]).value && ns[n] == DNull;
      TrueMax(ds[n], xs[n], ks[n]);
      NullIsLeast(xs[n]);
    }
  }

  lemma {:induction false} NullIsLeast(x: Datum)
    ensures Compare(x, DNull) >= 0 && (x != DNull ==> Compare(DNull, x) < 0 && Compare(x, DNull) > 0)
  {
  }

  // ---- and only then

  function DefaultOf(k: Kind): Datum {
    match k
    case BoolKind => DBool(false)
    case IntKind => DInt(0)
    case TupleKind(ks) => DTuple(seq(|ks|, i requires 0 <= i < |ks| => DefaultOf(ks[i])))
  }

  lemma {:induction false} DefaultHasKind(k: Kind)
    ensures HasKind(DefaultOf(k), k) && !DefaultOf(k).DNull?
  {
    if k.TupleKind? {
      forall i | 0 <= i < |k.elems| ensures HasKind(DefaultOf(k.elems[i]), k.elems[i]) { DefaultHasKind(k.elems[i]); }
    }
  }

  /** Something of its kind is above a datum with a NULL in it. */
  lemma {:induction false} AboveNull(d: Datum, k: Kind) returns (x: Datum)
    requires HasKind(d, k) && !NullFree(d)
    ensures HasKind(x, k) && Compare(x, d) > 0
    decreases d, 1
  {
    if d.DNull? {
      DefaultHasKind(k);
      x := DefaultOf(k);
    } else {
      var xs := AboveNulls(d.elems, k.elems);
      x := DTuple(xs);
    }
  }

  lemma {:induction false} AboveNulls(ds: seq<Datum>, ks: seq<Kind>) returns (xs: seq<Datum>)
    requires HaveKinds(ds, ks) && ContainsNull(ds)
    ensures HaveKinds(xs, ks) && CompareAll(xs, ds) > 0
    decreases ds, 0
  {
    hide Compare;
    var n := |ds| - 1;
    if !NullFree(ds[n]) {
      var y := AboveNull(ds[n], ks[n]);
      xs := ds[..n] + [y];
      assert xs[..n] == ds[..n];
      CompareAllSelf(ds[..n]);
    } else {
      NullBefore(ds);
      var ys := AboveNulls(ds[..n], ks[..n]);
      xs := ys + [ds[n]];
      assert xs[..n] == ys;
    }
    CompareByLast(xs, ds);
  }

  lemma {:induction false} NullBefore(ds: seq<Datum>)
    requires ContainsNull(ds) && ds != [] && NullFree(ds[|ds| - 1])
    ensures ContainsNull(ds[..|ds| - 1])
  {
    var d :| d in ds && (d.DNull? || (d.DTuple? && ContainsNull(d.elems)));
    assert d in ds[..|ds| - 1];
  }

  lemma {:induction false} NextMisses(a: Datum, k: Kind) returns (x: Datum)
    requires HasKind(a, k) && !IsMax(a) && !ExactNext(a)
    ensures HasKind(x, k) && Next(a).Some? && Compare(x, a) > 0 && Compare(x, Next(a).value) < 0
    decreases a, 1
  {
    NextExists(a, k);
    var xs := NextElemsMiss(a.elems, k.elems);
    x := DTuple(xs);
  }

  lemma {:induction false} NextElemsMiss(ds: seq<Datum>, ks: seq<Kind>) returns (xs: seq<Datum>)
    requires HaveKinds(ds, ks) && !AllMax(ds) && !ExactNextElems(ds)
    ensures HaveKinds(xs, ks) && NextElems(ds).Some? && CompareAll(xs, ds) > 0 && CompareAll(xs, NextElems(ds).value) < 0
    decreases ds, 0
  {
    hide Compare, CompareFrom, HasKind, NextElems, Next;
    var n := |ds| - 1;
    NextElemsExist(ds, ks);
    NextElemsStep(ds, n);
    assert ds[..n + 1] == ds;
    var ns := NextElems(ds).value;
    CompareAllSelf(ds[..n]);
    if !IsMax(ds[n]) {
      var y := NextMisses(ds[n], ks[n]);
      xs := ds[..n] + [y];
    } else {
      assert !AllMax(ds[..n]);
      NextElemsExist(ds[..n], ks[..n]);
      if !NullFree(ds[n]) {
        var y := AboveNull(ds[n], ks[n]);
        xs := ds[..n] + [y];
      } else {
        var ys := NextElemsMiss(ds[..n], ks[..n]);
        xs := ys + [ds[n]];
        assert xs[..n] == ys;
      }
    }
    CompareByLast(xs, ds);
    CompareByLast(xs, ns);
  }

  ghost predicate MeetsNextContract(a: Datum, k: Kind) {
    Next(a).Some? && forall x | HasKind(x, k) :: Compare(x, a) > 0 <==> Compare(x, Next(a).value) >= 0
  }

  /** Next meets its contract on every x of the kind, NULLs included, exactly for these. */
  lemma {:induction false} NextContract(a: Datum, k: Kind)
    requires HasKind(a, k) && !IsMax(a)
    ensures MeetsNextContract(a, k) <==> ExactNext(a)
    ensures NullFree(a) ==> ExactNext(a)
  {
    hide Compare, Next, IsMax;
    if ExactNext(a) {
      NextExists(a, k);
      forall x | HasKind(x, k) ensures Compare(x, a) > 0 <==> Compare(x, Next(a).value) >= 0 { NextIsExact(a, k, x); }
    } else {
      var x := NextMisses(a, k);
      assert !(Compare(x, a) > 0 <==> Compare(x, Next(a).value) >= 0);
    }
    if NullFree(a) { NullFreeIsExact(a); }
  }

  /** (1, 5) is above (1, NULL) but below its Next, (2, NULL). */
  lemma {:induction false} NextCounterexample()
    ensures var a, x := DTuple([DInt(1), DNull]), DTuple([DInt(1), DInt(5)]);
            Next(a) == Some(DTuple([DInt(2), DNull])) && Compare(x, a) > 0 && Compare(x, Next(a).value) < 0
  {
    var ds, xs, ns := [DInt(1), DNull], [DInt(1), DInt(5)], [DInt(2), DNull];
    NextElemsStep(ds, 0);
    NextElemsStep(ds, 1);
    assert ds[..2] == ds && ds[..0] + [DInt(2)] == [DInt(2)] && [DInt(2)] + [DNull] == ns;
    assert CompareFrom(xs, ds, 1) == 1 && CompareFrom(xs, ns, 0) == -1;
  }

  lemma {:induction false} NullFreeIsExact(d: Datum)
    requires NullFree(d)
    ensures ExactNext(d)
    decreases d, 1
  {
    if d.DTuple? { NullFreeElemsExact(d.elems); }
  }

  lemma {:induction false} NullFreeElemsExact(ds: seq<Datum>)
    requires !ContainsNull(ds)
    ensures ExactNextElems(ds)
    decreases ds, 0
  {
    if ds != [] {
      var n := |ds| - 1;
      assert ds[n] in ds && forall d <- ds[..n] :: d in ds;
      NullFreeIsExact(ds[n]);
      NullFreeElemsExact(ds[..n]);
    }
  }

  // ---------------------------------------------------------------------------
  // Prev
  // ---------------------------------------------------------------------------

  predicate AllMin(ds: seq<Datum>) { forall i | 0 <= i < |ds| :: IsMin(ds[i]) }

  /** Max of a datum without NULLs is a true maximum of its kind. */
  lemma {:induction false} MaxIsMax(d: Datum, k: Kind)
    requires HasKind(d, k) && NullFree(d)
    ensures HasKind(Max(d), k) && IsMax(Max(d)) && NullFree(Max(d))
  {
    if d.DTuple? {
      var ms := Max(d).elems;
      forall i | 0 <= i < |ms| ensures HasKind(ms[i], k.elems[i]) && IsMax(ms[i]) && NullFree(ms[i]) {
        assert d.elems[i] in d.elems;
        MaxIsMax(d.elems[i], k.elems[i]);
      }
      assert forall m <- ms :: exists i | 0 <= i < |ms| :: m == ms[i];
    }
  }

  /** Nothing of its kind without NULLs is below a minimum. */
  lemma {:induction false} TrueMin(d: Datum, x: Datum, k: Kind)
    requires HasKind(d, k) && HasKind(x, k) && IsMin(d) && NullFree(x)
    ensures Compare(x, d) >= 0
    decreases d, 1
  {
    if d.DTuple? && x.DTuple? { TrueMinElems(d.elems, x.elems, k.elems, 0); }
  }

  lemma {:induction false} TrueMinElems(ds: seq<Datum>, xs: seq<Datum>, ks: seq<Kind>, i: nat)
    requires HaveKinds(ds, ks) && HaveKinds(xs, ks) && AllMin(ds) && !ContainsNull(xs)
    ensures CompareFrom(xs, ds, i) >= 0
    decreases ds, 0, |ds| - i
  {
    if i < |ds| {
      assert xs[i] in xs;
      TrueMin(ds[i], xs[i], ks[i]);
      TrueMinElems(ds, xs, ks, i + 1);
    }
  }

  /** A datum that is not a minimum has a previous one, smaller, of its kind, not NULL. */
  lemma {:induction false} PrevExists(d: Datum, k: Kind)
    requires HasKind(d, k) && !IsMin(d)
    ensures Prev(d).Some? && !Prev(d).value.DNull? && HasKind(Prev(d).value, k)
    ensures Compare(Prev(d).value, d) < 0
    decreases d, 1
  {
    if d.DTuple? { PrevElemsExist(d.elems, k.elems); }
  }

  /** Max keeps the kind and the NULLs. */
  lemma {:induction false} MaxHasKind(d: Datum, k: Kind)
    requires HasKind(d, k)
    ensures HasKind(Max(d), k) && (NullFree(Max(d)) <==> NullFree(d)) && (Max(d).DNull? <==> d.DNull?)
  {
    if d.DTuple? {
      var ds, ms := d.elems, Max(d).elems;
      forall i | 0 <= i < |ds| ensures HasKind(ms[i], k.elems[i]) && (NullFree(ms[i]) <==> NullFree(ds[i])) {
        MaxHasKind(ds[i], k.elems[i]);
      }
      NullFreeByIndex(ds);
      NullFreeByIndex(ms);
    }
  }

  lemma {:induction false} NullFreeByIndex(ds: seq<Datum>)
    ensures ContainsNull(ds) <==> exists i | 0 <= i < |ds| :: !NullFree(ds[i])
  {
    if ContainsNull(ds) {
      var d :| d in ds && (d.DNull? || (d.DTuple? && ContainsNull(d.elems)));
      var i :| 0 <= i < |ds| && ds[i] == d;
      assert !NullFree(ds[i]);
    }
    if i :| 0 <= i < |ds| && !NullFree(ds[i]) { assert ds[i] in ds; }
  }

  lemma {:induction false} PrevElemsExist(ds: seq<Datum>, ks: seq<Kind>)
    requires HaveKinds(ds, ks) && !AllMin(ds)
    ensures var o := PrevElems(ds); o.Some? && HaveKinds(o.value, ks) && CompareAll(o.value, ds) < 0
    decreases ds, 0
  {
    hide Compare, CompareFrom, Prev, Max;
    var n := |ds| - 1;
    MaxHasKind(ds[n], ks[n]);
    if !IsMin(ds[n]) {
      PrevExists(ds[n], ks[n]);
      var v := Prev(ds[n]).value;
      assert (ds[..n] + [v])[..n] == ds[..n];
      CompareByLast(ds[..n] + [v], ds);
      CompareAllSelf(ds[..n]);
    } else {
      assert !AllMin(ds[..n]);
      PrevElemsExist(ds[..n], ks[..n]);
      var ps := PrevElems(ds[..n]).value;
      assert (ps + [Max(ds[n])])[..n] == ps;
      CompareByLast(ps + [Max(ds[n])], ds);
    }
  }

  lemma {:induction false} NullFreeParts(ds: seq<Datum>)
    requires !ContainsNull(ds) && ds != []
    ensures NullFree(ds[|ds| - 1]) && !ContainsNull(ds[..|ds| - 1])
  {
    assert ds[|ds| - 1] in ds && forall d <- ds[..|ds| - 1] :: d in ds;
  }

  /** For tuples without NULLs, against every x without NULLs, Prev meets its contract. */
  lemma {:induction false} PrevIsExact(b: Datum, k: Kind, x: Datum)
    requires HasKind(b, k) && HasKind(x, k) && !IsMin(b) && NullFree(b) && NullFree(x)
    ensures Prev(b).Some? && (Compare(x, b) < 0 <==> Compare(x, Prev(b).value) <= 0)
    decreases b, 1
  {
    PrevExists(b, k);
    if b.DTuple? && x.DTuple? { PrevElemsExact(b.elems, k.elems, x.elems); }
  }

  lemma {:induction false} PrevElemsExact(ds: seq<Datum>, ks: seq<Kind>, xs: seq<Datum>)
    requires HaveKinds(ds, ks) && HaveKinds(xs, ks) && !AllMin(ds) && !ContainsNull(ds) && !ContainsNull(xs)
    ensures PrevElems(ds).Some? && (CompareAll(xs, ds) < 0 <==> CompareAll(xs, PrevElems(ds).value) <= 0)
    decreases ds, 0
  {
    hide Compare, CompareFrom, HasKind, Prev, PrevElems, Max, ContainsNull;
    var n := |ds| - 1;
    PrevElemsExist(ds, ks);
    PrevElemsStep(ds, n);
    assert ds[..n + 1] == ds;
    var ps := PrevElems(ds).value;
    NullFreeParts(ds);
    NullFreeParts(xs);
    CompareByLast(xs, ds);
    CompareByLast(xs, ps);
    if !IsMin(ds[n]) {
      PrevIsExact(ds[n], ks[n], xs[n]);
      assert ps[..n] == ds[..n];
    } else {
      assert !AllMin(ds[..n]);
      PrevElemsExact(ds[..n], ks[..n], xs[..n]);
      assert ps[..n] == PrevElems(ds[..n]).value;
      TrueMin(ds[n], xs[n], ks[n]);
      MaxIsMax(ds[n], ks[n]);
      TrueMax(Max(ds[n]), xs[n], ks[n]);
    }
  }

  /** No element is borrowed from: the last element steps back, and it too without borrowing. */
  predicate NoBorrow(d: Datum) {
    d.DTuple? ==> d.elems != [] && !IsMin(d.elems[|d.elems| - 1]) && NoBorrow(d.elems[|d.elems| - 1])
  }

  ghost predicate MeetsPrevContract(b: Datum, k: Kind) {
    Prev(b).Some? && forall x | HasKind(x, k) :: Compare(x, b) < 0 <==> Compare(x, Prev(b).value) <= 0
  }

  /** Against an x that may hold NULLs, Prev meets its contract exactly when it borrows nothing:
      a borrow leaves out the tuples with a NULL in the place of the borrowing element, and a
      borrowing NULL leaves out those with anything else there. */
  lemma {:induction false} PrevContract(b: Datum, k: Kind)
    requires HasKind(b, k) && !IsMin(b)
    ensures MeetsPrevContract(b, k) <==> NoBorrow(b)
    ensures NullFree(b) ==>
              forall x | HasKind(x, k) && NullFree(x) :: Prev(b).Some? && (Compare(x, b) < 0 <==> Compare(x, Prev(b).value) <= 0)
  {
    hide Compare, Prev, IsMin, HasKind;
    PrevExists(b, k);
    if NoBorrow(b) {
      forall x | HasKind(x, k) ensures Compare(x, b) < 0 <==> Compare(x, Prev(b).value) <= 0 { PrevWithoutBorrow(b, k, x); }
    } else {
      var x := PrevMisses(b, k);
      assert !(Compare(x, b) < 0 <==> Compare(x, Prev(b).value) <= 0);
    }
    if NullFree(b) {
      forall x | HasKind(x, k) && NullFree(x)
        ensures Prev(b).Some? && (Compare(x, b) < 0 <==> Compare(x, Prev(b).value) <= 0)
      {
        PrevIsExact(b, k, x);
      }
    }
  }

  /** (1, NULL) is below (1, FALSE) but above its Prev, (0, TRUE). */
  lemma {:induction false} PrevCounterexample()
    ensures var b, x := DTuple([DInt(1), DBool(false)]), DTuple([DInt(1), DNull]);
            Prev(b) == Some(DTuple([DInt(0), DBool(true)])) && Compare(x, b) < 0 && Compare(x, Prev(b).value) > 0
  {
    var ds, xs, ps := [DInt(1), DBool(false)], [DInt(1), DNull], [DInt(0), DBool(true)];
    PrevElemsStep(ds, 0);
    PrevElemsStep(ds, 1);
    assert ds[..2] == ds && ds[..0] + [DInt(0)] == [DInt(0)] && [DInt(0)] + [DBool(true)] == ps;
    assert CompareFrom(xs, ds, 1) == -1 && CompareFrom(xs, ps, 0) == 1;
  }

  lemma {:induction false} PrevWithoutBorrow(b: Datum, k: Kind, x: Datum)
    requires HasKind(b, k) && HasKind(x, k) && !IsMin(b) && NoBorrow(b)
    ensures Prev(b).Some? && (Compare(x, b) < 0 <==> Compare(x, Prev(b).value) <= 0)
  {
    hide CompareFrom;
    PrevExists(b, k);
    if b.DTuple? && x.DTuple? {
      var ds, xs, n := b.elems, x.elems, |b.elems| - 1;
      PrevWithoutBorrow(ds[n], k.elems[n], xs[n]);
      var ps := ds[..n] + [Prev(ds[n]).value];
      assert PrevElems(ds) == Some(ps);
      assert ps[..n] == ds[..n];
      CompareByLast(xs, ds);
      CompareByLast(xs, ps);
    }
  }

  lemma {:induction false} PrevMisses(b: Datum, k: Kind) returns (x: Datum)
    requires HasKind(b, k) && !IsMin(b) && !NoBorrow(b)
    ensures HasKind(x, k) && Prev(b).Some? && Compare(x, b) < 0 && Compare(x, Prev(b).value) > 0
    decreases b, 1
  {
    PrevExists(b, k);
    var xs := PrevElemsMiss(b.elems, k.elems);
    x := DTuple(xs);
  }

  lemma {:induction false} PrevElemsMiss(ds: seq<Datum>, ks: seq<Kind>) returns (xs: seq<Datum>)
    requires HaveKinds(ds, ks) && !AllMin(ds) && !NoBorrow(DTuple(ds))
    ensures HaveKinds(xs, ks) && PrevElems(ds).Some? && CompareAll(xs, ds) < 0 && CompareAll(xs, PrevElems(ds).value) > 0
    decreases ds, 0
  {
    hide Compare, CompareFrom, HasKind, Prev, PrevElems, Max;
    var n := |ds| - 1;
    PrevElemsExist(ds, ks);
    PrevElemsStep(ds, n);
    assert ds[..n + 1] == ds;
    var ps := PrevElems(ds).value;
    CompareAllSelf(ds[..n]);
    if !IsMin(ds[n]) {
      var y := PrevMisses(ds[n], ks[n]);
      xs := ds[..n] + [y];
    } else {
      assert !AllMin(ds[..n]);
      PrevElemsExist(ds[..n], ks[..n]);
      xs := BorrowMisses(ds, ks, ps);
      CompareAllSelf(ps[..n]);
    }
    CompareByLast(xs, ds);
    CompareByLast(xs, ps);
  }

  /** What a borrow leaves out, by its parts. */
  lemma {:induction false} BorrowMisses(ds: seq<Datum>, ks: seq<Kind>, ps: seq<Datum>) returns (xs: seq<Datum>)
    requires HaveKinds(ds, ks) && HaveKinds(ps, ks) && ds != [] && ps[|ds| - 1] == Max(ds[|ds| - 1])
    requires CompareAll(ps[..|ds| - 1], ds[..|ds| - 1]) < 0
    ensures HaveKinds(xs, ks)
    ensures var n := |ds| - 1;
            || (xs[..n] == ds[..n] && Compare(xs[n], ds[n]) < 0 && CompareAll(xs[..n], ps[..n]) > 0)
            || (xs[..n] == ps[..n] && Compare(xs[n], ps[n]) > 0)
  {
    hide Compare, CompareFrom, Max;
    var n := |ds| - 1;
    CompareFromSign(ps[..n], ds[..n], 0);
    MaxHasKind(ds[n], ks[n]);
    if NullFree(ds[n]) {
      NullIsLeast(ds[n]);
      xs := ds[..n] + [DNull];
      assert xs[..n] == ds[..n];
    } else {
      var y := AboveNull(Max(ds[n]), ks[n]);
      xs := ps[..n] + [y];
      assert xs[..n] == ps[..n];
    }
  }

  // ---------------------------------------------------------------------------
  // Arrays
  // ---------------------------------------------------------------------------

  /** The next array is the array with a NULL appended. */
  function NextArray(a: seq<Datum>): seq<Datum> { a + [DNull] }

  /** Among arrays of every length it is the exact successor. */
  lemma {:induction false} NextArrayIsExact(a: seq<Datum>, x: seq<Datum>)
    ensures CompareAll(x, a) > 0 <==> CompareAll(x, NextArray(a)) >= 0
  {
    NextArrayFrom(a, x, 0);
  }

  lemma {:induction false} NextArrayFrom(a: seq<Datum>, x: seq<Datum>, i: nat)
    requires i <= |a| && i <= |x|
    ensures CompareFrom(x, a, i) > 0 <==> CompareFrom(x, NextArray(a), i) >= 0
    decreases |a| - i
  {
    hide Compare;
    if i < |a| && i < |x| {
      NextArrayFrom(a, x, i + 1);
    } else if i < |x| {
      NullIsLeast(x[i]);
    }
  }
}
