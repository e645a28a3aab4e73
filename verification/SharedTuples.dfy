/**
 Tuple datums as they live in memory: a slice of a backing array that copies of the tuple
 share, and a flag that says the slice may be binary-searched. Normalizing a copy sorts and
 compacts the shared array, and still every tuple over it answers IN as before.
 */
module SharedTuples {
  import opened Values
  import opened Comparison
  import opened Tuples

  /** A NULL somewhere in the list, possibly inside nested tuples. */
  predicate ContainsNull(ds: seq<Datum>) {
    exists d <- ds :: d.DNull? || (d.DTuple? && ContainsNull(d.elems))
  }

  // ---------------------------------------------------------------------------
  // Compaction in place
  // ---------------------------------------------------------------------------

  /** The whole slice after compaction: the kept elements, then what was there before. */
  function CompactInPlace(s: seq<Datum>): seq<Datum>
    requires |Compact(s)| <= |s|
  {
    Compact(s) + s[|Compact(s)|..]
  }

  lemma {:induction false} CompactShrinks(s: seq<Datum>)
    ensures |Compact(s)| <= |s|
  {
    if s != [] { CompactShrinks(s[..|s| - 1]); }
  }

  /** Where a binary search for v may stop. */
  predicate IsBoundary(s: seq<Datum>, v: Datum, i: nat) {
    && i <= |s|
    && (i > 0 ==> Compare(s[i - 1], v) < 0)
    && (i < |s| ==> Compare(s[i], v) >= 0)
  }

  predicate FoundAt(s: seq<Datum>, v: Datum, i: nat) { i < |s| && s[i] == v }

  lemma {:induction false} SortedBoundary(s: seq<Datum>, v: Datum, i: nat)
    requires Sorted(s) && IsBoundary(s, v, i)
    ensures FoundAt(s, v, i) <==> v in s
  {
    hide Compare;
    if v in s {
      var k :| 0 <= k < |s| && s[k] == v;
      CompareSign(v, v);
      if k < i {
        if k < i - 1 { CompareTrans(s[k], s[i - 1], v); }
      } else if i < k {
        CompareSign(s[i], v);
      }
    }
  }

  /** A binary search over kept elements u followed by leftovers finds what is in u, as long
      as the leftovers are sorted, come from u, and miss no element of u behind a smaller one. */
  lemma {:induction false} LeftoverBoundary(u: seq<Datum>, tail: seq<Datum>, v: Datum, i: nat)
    requires u != [] && StrictlySorted(u) && Sorted(tail)
    requires forall w <- tail :: w in u
    requires forall w <- u :: tail != [] && Compare(tail[0], w) < 0 ==> w in tail
    requires IsBoundary(u + tail, v, i)
    ensures FoundAt(u + tail, v, i) <==> v in u
  {
    hide Compare;
    var n, s := |u|, u + tail;
    if i < n {
      assert IsBoundary(u, v, i);
      SortedBoundary(u, v, i);
    } else if i == n {
      assert s[n - 1] == u[n - 1];
      BelowAll(u, v);
      if tail != [] {
        assert tail[0] in tail;
        assert s[n] == tail[0];
      }
    } else {
      assert s[i - 1] == tail[i - 1 - n];
      assert IsBoundary(tail, v, i - n) by { assert i < |s| ==> s[i] == tail[i - n]; }
      SortedBoundary(tail, v, i - n);
      if i - 1 > n { CompareTransStrict(tail[0], tail[i - 1 - n], v); }
    }
  }

  lemma {:induction false} CompareTransStrict(x: Datum, y: Datum, z: Datum)
    requires Compare(x, y) <= 0 && Compare(y, z) < 0
    ensures Compare(x, z) < 0
  {
    CompareTrans(x, y, z);
  }

  /** Nothing above the last element of an ascending list is in it. */
  lemma {:induction false} BelowAll(u: seq<Datum>, v: Datum)
    requires u != [] && StrictlySorted(u) && Compare(u[|u| - 1], v) < 0
    ensures v !in u
  {
    hide Compare;
    if v in u {
      var k :| 0 <= k < |u| && u[k] == v;
      CompareSign(u[|u| - 1], v);
      CompareSign(v, v);
    }
  }

  /** What compaction leaves behind the kept elements. */
  lemma {:induction false} Leftovers(t: seq<Datum>)
    requires Sorted(t) && t != [] && |Compact(t)| <= |t|
    ensures var u, tail := Compact(t), t[|Compact(t)|..];
            && u != [] && StrictlySorted(u) && Sorted(tail)
            && (forall w <- tail :: w in u)
            && (forall w <- u :: tail != [] && Compare(tail[0], w) < 0 ==> w in tail)
  {
    hide Compare, Compact;
    var u := Compact(t);
    var tail := t[|u|..];
    CompactLast(t);
    CompactStrict(t);
    CompactValues(t);
    forall w | w in tail ensures w in u { assert w in t; }
    forall w | w in u && tail != [] && Compare(tail[0], w) < 0 ensures w in tail {
      assert w in t;
      var k :| 0 <= k < |t| && t[k] == w;
      CompareSign(t[|u|], w);
      assert k > |u|;
      assert tail[k - |u|] == w;
    }
  }

  /** Compacting a sorted slice can leave it unsorted, but a binary search in it still finds
      exactly the values that were there. */
  lemma {:induction false} CompactedBoundary(t: seq<Datum>, v: Datum, i: nat)
    requires Sorted(t) && |Compact(t)| <= |t| && IsBoundary(CompactInPlace(t), v, i)
    ensures FoundAt(CompactInPlace(t), v, i) <==> v in t
  {
    hide Compare, Compact, IsBoundary;
    if t != [] {
      Leftovers(t);
      CompactValues(t);
      LeftoverBoundary(Compact(t), t[|Compact(t)|..], v, i);
    }
  }

  /** Compacting twice is compacting once. */
  lemma {:induction false} CompactAgain(t: seq<Datum>)
    requires Sorted(t) && |Compact(t)| <= |t|
    ensures Compact(CompactInPlace(t)) == Compact(t)
    ensures SameValues(CompactInPlace(t), t)
  {
    hide Compare, Compact;
    CompactValues(t);
    if t == [] {
      assert CompactInPlace(t) == t;
    } else {
      Leftovers(t);
      CompactStrict(t);
      CompactKeeps(Compact(t));
      forall w | w in t[|Compact(t)|..] ensures Compare(w, Compact(t)[|Compact(t)| - 1]) <= 0 {
        LastIsGreatest(Compact(t), w);
      }
      CompactIgnores(Compact(t), t[|Compact(t)|..]);
    }
  }

  lemma {:induction false} LastIsGreatest(u: seq<Datum>, w: Datum)
    requires StrictlySorted(u) && w in u
    ensures Compare(w, u[|u| - 1]) <= 0
  {
    CompareSign(w, w);
  }

  lemma {:induction false} CompactKeeps(u: seq<Datum>)
    requires StrictlySorted(u)
    ensures Compact(u) == u
  {
    if u != [] {
      var n := |u| - 1;
      assert u == u[..n] + [u[n]];
      CompactKeeps(u[..n]);
    }
  }

  lemma {:induction false} CompactIgnores(u: seq<Datum>, tail: seq<Datum>)
    requires u != [] && Compact(u) == u && forall w <- tail :: Compare(w, u[|u| - 1]) <= 0
    ensures Compact(u + tail) == u
  {
    if tail == [] {
      assert u + tail == u;
    } else {
      var n := |tail| - 1;
      assert (u + tail)[..|u + tail| - 1] == u + tail[..n];
      assert tail[n] in tail && forall w <- tail[..n] :: w in tail;
      CompactIgnores(u, tail[..n]);
      CompareSign(tail[n], u[|u| - 1]);
    }
  }

  // ---------------------------------------------------------------------------
  // In-place sorting
  // ---------------------------------------------------------------------------

  lemma {:induction false} InsertSplit(x: Datum, s: seq<Datum>, j: nat)
    requires j <= |s| && forall k | j <= k < |s| :: Compare(s[k], x) > 0
    ensures Insert(x, s) == Insert(x, s[..j]) + s[j..]
    decreases |s|
  {
    hide Compare;
    if j == |s| {
      assert s[..j] == s;
    } else {
      var n := |s| - 1;
      assert s[..n][..j] == s[..j] && s[..n][j..] + [s[n]] == s[j..];
      InsertSplit(x, s[..n], j);
    }
  }

  lemma {:induction false} SortStep(s: seq<Datum>, i: nat)
    requires i <= |s|
    ensures i == 0 ==> Sort(s[..i]) == []
    ensures i < |s| ==> Sort(s[..i + 1]) == Insert(s[i], Sort(s[..i]))
  {
    if i < |s| { assert s[..i + 1][..i] == s[..i]; }
  }

  /** Sorts the first n elements of the array and leaves the others alone. */
  method SortPrefix(a: array<Datum>, n: nat)
    requires n <= a.Length
    modifies a
    ensures a[..n] == Sort(old(a[..n])) && a[n..] == old(a[n..])
  {
    hide Sort, Insert, Compare;
    ghost var s := a[..n];
    var i := 0;
    SortStep(s, 0);
    while i < n
      invariant 0 <= i <= n
      invariant a[..i] == Sort(s[..i])
      invariant forall k | i <= k < a.Length :: a[k] == old(a[k])
    {
      SortStep(s, i);
      ghost var before := a[i + 1..];
      InsertAt(a, i);
      i := i + 1;
      assert forall k | i <= k < a.Length :: a[k] == a[i..][k - i] == before[k - i];
    }
    assert s[..n] == s;
  }

  /** Moves element i to its place among the i elements before it. */
  method InsertAt(a: array<Datum>, i: nat)
    requires i < a.Length
    modifies a
    ensures a[..i + 1] == Insert(old(a[i]), old(a[..i])) && a[i + 1..] == old(a[i + 1..])
  {
    hide Compare, Insert;
    ghost var s := a[..i];
    var x := a[i];
    var j := i;
    while j > 0 && Compare(a[j - 1], x) > 0
      invariant 0 <= j <= i
      invariant forall k | 0 <= k < j :: a[k] == s[k]
      invariant forall k | j < k <= i :: a[k] == s[k - 1]
      invariant forall k | j <= k < i :: Compare(s[k], x) > 0
      invariant forall k | i < k < a.Length :: a[k] == old(a[k])
    {
      a[j] := a[j - 1];
      j := j - 1;
    }
    assert forall k | 0 <= k <= i && k != j :: a[k] == if k < j then s[k] else s[k - 1];
    a[j] := x;
    InsertElement(x, s, j, 0);
    forall k | 0 <= k <= i ensures a[k] == Insert(x, s)[k] {
      InsertElement(x, s, j, k);
    }
  }

  lemma {:induction false} InsertElement(x: Datum, s: seq<Datum>, j: nat, k: nat)
    requires j <= |s| && k <= |s| && forall n | j <= n < |s| :: Compare(s[n], x) > 0
    requires j > 0 ==> Compare(s[j - 1], x) <= 0
    ensures |Insert(x, s)| == |s| + 1
    ensures Insert(x, s)[k] == if k < j then s[k] else if k == j then x else s[k - 1]
  {
    hide Compare;
    InsertSplit(x, s, j);
    InsertLast(x, s[..j]);
  }

  lemma {:induction false} CompactEmpty(s: seq<Datum>)
    ensures Compact(s[..0]) == []
  {
  }

  /** Compacts the first m elements of the array; n of them are kept. */
  method CompactPrefix(a: array<Datum>, m: nat) returns (n: nat)
    requires m <= a.Length
    modifies a
    ensures n == |Compact(old(a[..m]))| <= m
    ensures a[..m] == CompactInPlace(old(a[..m]))
    ensures a[m..] == old(a[m..])
  {
    hide Compare, Compact;
    ghost var s := a[..m];
    n := 0;
    CompactEmpty(s);
    ghost var kept := Compact(s[..0]);
    for i := 0 to m
      invariant kept == Compact(s[..i]) && n == |kept| <= i
      invariant forall k | 0 <= k < n :: a[k] == kept[k]
      invariant forall k | n <= k < a.Length :: a[k] == old(a[k])
    {
      CompactStep(s, i);
      if n == 0 || Compare(a[n - 1], a[i]) < 0 {
        a[n] := a[i];
        n := n + 1;
      }
      kept := Compact(s[..i + 1]);
    }
    assert s[..m] == s;
    assert a[..m] == kept + s[n..];
  }

  // ---------------------------------------------------------------------------
  // Tuples
  // ---------------------------------------------------------------------------

  /** What the sorted flag promises of the slice: it was sorted, or is what compacting a
      sorted slice leaves. */
  ghost predicate SearchReady(s: seq<Datum>) {
    !ContainsNull(s) && (Sorted(s) || exists t :: IsCompactionOf(s, t))
  }

  ghost predicate IsCompactionOf(s: seq<Datum>, t: seq<Datum>) {
    Sorted(t) && |Compact(t)| <= |t| && s == CompactInPlace(t)
  }

  lemma {:induction false} ContainsNullSameValues(s: seq<Datum>, t: seq<Datum>)
    requires SameValues(s, t)
    ensures ContainsNull(s) == ContainsNull(t)
  {
  }

  /** Compacting a slice that may be searched gives its values once and in order, and leaves
      the slice ready to be searched. */
  lemma {:induction false} CompactSearchReady(s: seq<Datum>)
    requires SearchReady(s)
    ensures |Compact(s)| <= |s| && Compact(s) == SortedUnique(s)
    ensures SearchReady(CompactInPlace(s)) && SameValues(CompactInPlace(s), s)
  {
    hide Compare, Compact, Sort, ContainsNull;
    CompactShrinks(s);
    if Sorted(s) {
      SortOfSorted(s);
      CompactAgain(s);
      assert IsCompactionOf(CompactInPlace(s), s);
      ContainsNullSameValues(CompactInPlace(s), s);
    } else {
      var t :| IsCompactionOf(s, t);
      CompactAgain(t);
      assert CompactInPlace(s) == s;
      CompactStrict(t);
      CompactValues(t);
      SortedUniqueIsCanonical(s);
      CanonicalIsUnique(Compact(t), SortedUnique(s));
    }
  }

  /** The same for a slice that is sorted first; with a NULL in it, it is never searched. */
  lemma {:induction false} CompactSorted(s: seq<Datum>)
    ensures |Compact(Sort(s))| <= |s| == |Sort(s)|
    ensures SameValues(CompactInPlace(Sort(s)), s)
    ensures !ContainsNull(s) ==> SearchReady(CompactInPlace(Sort(s)))
    ensures ContainsNull(Sort(s)) == ContainsNull(s) == ContainsNull(SortedUnique(s))
  {
    hide Compare, Compact, Sort, ContainsNull;
    SortPermutes(s);
    assert |multiset(Sort(s))| == |multiset(s)|;
    SortSameValues(s);
    CompactShrinks(Sort(s));
    CompactAgain(Sort(s));
    SortedUniqueIsCanonical(s);
    ContainsNullSameValues(Sort(s), s);
    ContainsNullSameValues(SortedUnique(s), s);
    ContainsNullSameValues(CompactInPlace(Sort(s)), s);
    assert IsCompactionOf(CompactInPlace(Sort(s)), Sort(s));
  }

  class Tuple {
    var slots: array<Datum>   // shared between copies
    var len: nat
    var sorted: bool

    ghost predicate Valid()
      reads this, slots
    {
      len <= slots.Length && (sorted ==> SearchReady(slots[..len]))
    }

    ghost function Contents(): seq<Datum>
      reads this, slots
      requires Valid()
    {
      slots[..len]
    }

    constructor (slots: array<Datum>, len: nat, sorted: bool)
      requires len <= slots.Length && (sorted ==> SearchReady(slots[..len]))
      ensures this.slots == slots && this.len == len && this.sorted == sorted && Valid()
    {
      this.slots, this.len, this.sorted := slots, len, sorted;
    }

    /** A slice with a NULL in it is never searched. */
    method SetSorted()
      requires Valid() && Sorted(Contents())
      modifies this`sorted
      ensures Valid() && sorted == (old(sorted) || !ContainsNull(Contents()))
    {
      if ContainsNull(slots[..len]) {
        return;
      }
      sorted := true;
    }

    method Sort()
      requires Valid()
      modifies this`sorted, slots
      ensures Valid() && sorted == (old(sorted) || !ContainsNull(old(Contents())))
      ensures Contents() == if old(sorted) then old(Contents()) else Tuples.Sort(old(Contents()))
      ensures slots[len..] == old(slots[len..])
    {
      if !sorted {
        SortPermutes(Contents());
        CompactSorted(Contents());
        SortPrefix(slots, len);
        SetSorted();
      }
    }

    /** Keeps one of each run of equal elements, at the front of the slice. */
    method MakeUnique()
      requires len <= slots.Length
      modifies this`len, slots
      ensures len == |Compact(old(slots[..len]))| <= old(len)
      ensures slots[..old(len)] == CompactInPlace(old(slots[..len]))
      ensures slots[old(len)..] == old(slots[len..])
    {
      len := CompactPrefix(slots, len);
    }

    /** Sorts, if that has not been done, and removes duplicates. */
    method Normalize()
      requires Valid()
      modifies this`len, this`sorted, slots
      ensures Valid() && Contents() == SortedUnique(old(Contents()))
      ensures sorted == (old(sorted) || !ContainsNull(old(Contents())))
      ensures var s := old(slots[..len]);
              var t := if old(sorted) then s else Tuples.Sort(s);
              |Compact(t)| <= |t| && slots[..old(len)] == CompactInPlace(t)
      ensures slots[old(len)..] == old(slots[len..])
    {
      hide Compare, Compact, Tuples.Sort, ContainsNull;
      ghost var s := slots[..len];
      CompactSorted(s);
      if sorted { CompactSearchReady(s); }
      Sort();
      MakeUnique();
      ghost var t := if old(sorted) then s else Tuples.Sort(s);
      assert slots[..len] == slots[..old(len)][..len] == Compact(t);
      KeptIsSearchReady(s);
    }
  }

  // ---------------------------------------------------------------------------
  // IN
  // ---------------------------------------------------------------------------

  lemma {:induction false} SearchReadyBoundary(s: seq<Datum>, v: Datum, i: nat)
    requires SearchReady(s) && IsBoundary(s, v, i)
    ensures FoundAt(s, v, i) <==> v in s
  {
    hide Compare, Compact, ContainsNull, IsBoundary;
    if Sorted(s) {
      SortedBoundary(s, v, i);
    } else {
      var t :| IsCompactionOf(s, t);
      CompactedBoundary(t, v, i);
      CompactAgain(t);
    }
  }

  /** The datum is not NULL and no NULL is nested in it. */
  predicate NullFree(d: Datum) { !d.DNull? && (d.DTuple? ==> !ContainsNull(d.elems)) }

  lemma {:induction false} RowEqNullFree(xs: seq<Datum>, ys: seq<Datum>, i: nat)
    requires !ContainsNull(xs) && !ContainsNull(ys) && i <= |xs| && i <= |ys|
    ensures RowCompareFrom(EQ, xs, ys, i) == TruthOf(|xs| == |ys| && xs[i..] == ys[i..])
    decreases |xs| - i
  {
    hide Compare;
    if i < |xs| && i < |ys| {
      assert xs[i] in xs && ys[i] in ys;
      CompareSign(xs[i], ys[i]);
      RowEqNullFree(xs, ys, i + 1);
      assert xs[i..] == [xs[i]] + xs[i + 1..] && ys[i..] == [ys[i]] + ys[i + 1..];
    }
  }

  lemma {:induction false} EqNullFree(x: Datum, y: Datum)
    requires NullFree(x) && NullFree(y)
    ensures BaseCompare(EQ, x, y) == TruthOf(x == y)
  {
    hide Compare, ContainsNull;
    CompareSign(x, y);
    if x.DTuple? && y.DTuple? {
      RowEqNullFree(x.elems, y.elems, 0);
      assert x.elems[0..] == x.elems && y.elems[0..] == y.elems;
    }
  }

  lemma {:induction false} InNullFree(x: Datum, vs: seq<Datum>)
    requires NullFree(x) && !ContainsNull(vs)
    ensures In3(x, vs) == TruthOf(x in vs)
  {
    hide Compare, BaseCompare;
    InVerdict(x, vs);
    forall v | v in vs ensures BaseCompare(EQ, x, v) == TruthOf(x == v) { EqNullFree(x, v); }
  }

  /** sort.Search: the first position, found by halving, that is not below the target. */
  method SearchSorted(t: Tuple, target: Datum) returns (i: nat, found: bool)
    requires t.Valid() && t.sorted && NullFree(target)
    ensures IsBoundary(t.Contents(), target, i)
    ensures found == (target in t.Contents())
  {
    hide Compare, ContainsNull, SearchReady;
    var j := t.len;
    i := 0;
    while i < j
      invariant 0 <= i <= j <= t.len
      invariant i > 0 ==> Compare(t.slots[i - 1], target) < 0
      invariant j < t.len ==> Compare(t.slots[j], target) >= 0
    {
      var h := i + (j - i) / 2;
      if Compare(t.slots[h], target) >= 0 {
        j := h;
      } else {
        i := h + 1;
      }
    }
    SearchReadyBoundary(t.Contents(), target, i);
    if i < t.len { CompareSign(t.slots[i], target); }
    found := i < t.len && Compare(t.slots[i], target) == 0;
  }

  lemma {:induction false} InStep(x: Datum, vs: seq<Datum>, i: nat)
    requires i < |vs|
    ensures In3(x, vs[..i + 1]) == Or3(In3(x, vs[..i]), BaseCompare(EQ, x, vs[i]))
  {
    hide BaseCompare;
    assert vs[..i + 1][..i] == vs[..i] && vs[..i + 1][i] == vs[i];
  }

  lemma {:induction false} InSettled(x: Datum, vs: seq<Datum>, v: Datum)
    requires v in vs && BaseCompare(EQ, x, v) == True
    ensures In3(x, vs) == True
  {
    InVerdict(x, vs);
  }

  /** arg IN tuple: a binary search where the flag and the argument allow it, otherwise a
      scan that remembers unknown comparisons. */
  method EvalTupleIn(arg: Datum, t: Tuple) returns (b: Truth)
    requires t.Valid()
    requires forall v <- t.Contents() :: arg.DTuple? && v.DTuple? ==> |v.elems| == |arg.elems|
    ensures b == In3(arg, t.Contents())
  {
    hide Compare, ContainsNull, BaseCompare, In3, SearchReady;
    ghost var vs := t.Contents();
    InEmpty(arg, vs);
    if t.len == 0 {
      return False;
    }
    if arg.DNull? {
      return Unknown;
    }
    if t.sorted && !(arg.DTuple? && ContainsNull(arg.elems)) {
      var _, found := SearchSorted(t, arg);
      FlagMeansNullFree(vs);
      InNullFree(arg, vs);
      return TruthOf(found);
    }
    var sawNull := false;
    var i := 0;
    while i < t.len
      invariant 0 <= i <= t.len
      invariant In3(arg, vs[..i]) == if sawNull then Unknown else False
    {
      var val := t.slots[i];
      InStep(arg, vs, i);
      ScanStep(arg, val);
      assert val in vs;
      if val.DNull? {
        sawNull := true;
      } else if !arg.DTuple? || !val.DTuple? {
        if Compare(val, arg) == 0 {
          InSettled(arg, vs, val);
          return True;
        }
      } else {
        var res := CompareRows(EQ, arg.elems, val.elems);
        if res == Unknown {
          sawNull := true;
        } else if res == True {
          InSettled(arg, vs, val);
          return True;
        }
      }
      i := i + 1;
    }
    assert vs[..t.len] == vs;
    b := if sawNull then Unknown else False;
  }

  lemma {:induction false} FlagMeansNullFree(vs: seq<Datum>)
    requires SearchReady(vs)
    ensures !ContainsNull(vs)
  {
  }

  lemma {:induction false} InEmpty(x: Datum, vs: seq<Datum>)
    ensures vs == [] ==> In3(x, vs) == False
    ensures vs[..0] == [] && In3(x, []) == False
    ensures x.DNull? && vs != [] ==> In3(x, vs) == Unknown
    decreases |vs|
  {
    if |vs| > 1 { InEmpty(x, vs[..|vs| - 1]); }
  }

  /** The equality of the argument with one element, by the element's kind. */
  lemma {:induction false} ScanStep(arg: Datum, val: Datum)
    requires !arg.DNull?
    ensures BaseCompare(EQ, arg, val) ==
              if val.DNull? then Unknown
              else if arg.DTuple? && val.DTuple? then RowCompare(EQ, arg.elems, val.elems)
              else TruthOf(Compare(val, arg) == 0)
  {
    hide Compare;
    CompareSign(arg, val);
  }

  lemma {:induction false} KeptIsSearchReady(s: seq<Datum>)
    ensures !ContainsNull(s) ==> SearchReady(SortedUnique(s))
  {
    hide Compare, Compact, Tuples.Sort, ContainsNull;
    SortedUniqueIsCanonical(s);
    ContainsNullSameValues(SortedUnique(s), s);
  }

  /** c shares its slots with t and holds the values of t once, in order. */
  ghost predicate IsNormalizedCopy(c: Tuple, t: Tuple)
    reads c, t, c.slots, t.slots
  {
    c.slots == t.slots && c.Valid() && t.Valid() && c.Contents() == SortedUnique(t.Contents())
  }

  lemma {:induction false} SameCanonical(s: seq<Datum>, t: seq<Datum>)
    ensures SameValues(s, t) ==> SortedUnique(s) == SortedUnique(t)
  {
    hide Compare, Compact, Tuples.Sort;
    SortedUniqueIsCanonical(s);
    SortedUniqueIsCanonical(t);
    if SameValues(s, t) { CanonicalIsUnique(SortedUnique(s), SortedUnique(t)); }
  }

  /** The copy of a tuple shares its slots. Normalizing the copy rearranges them under the
      original, which keeps its length, its values and its readiness for searching. A copy that
      was normalized before keeps everything. */
  method NormalizeCopy(t: Tuple) returns (c: Tuple)
    requires t.Valid()
    modifies t.slots
    ensures fresh(c) && c.Valid() && c.slots == t.slots
    ensures c.Contents() == SortedUnique(old(t.Contents()))
    ensures t.Valid() && SameValues(t.Contents(), old(t.Contents()))
    ensures forall x :: In3(x, c.Contents()) == In3(x, old(t.Contents())) == In3(x, t.Contents())
    ensures forall c': Tuple | old(allocated(c') && IsNormalizedCopy(c', t)) ::
              c'.Valid() && c'.Contents() == old(c'.Contents()) && IsNormalizedCopy(c', t)
  {
    hide Compare, Compact, Tuples.Sort, ContainsNull, In3;
    ghost var s := t.Contents();
    CompactSorted(s);
    if t.sorted { CompactSearchReady(s); }
    c := new Tuple(t.slots, t.len, t.sorted);
    c.Normalize();
    SameCanonical(s, t.Contents());
    forall x ensures In3(x, c.Contents()) == In3(x, s) == In3(x, t.Contents()) {
      InNormalizedList(x, s);
      InSameValues(x, t.Contents(), s);
    }
  }
}
