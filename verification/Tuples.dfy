/**
 Constant lists on the right of IN: sorting, removal of duplicates, and why neither
 changes the answer of IN.
 */
module Tuples {
  import opened Values
  import opened Comparison

  predicate Sorted(s: seq<Datum>) {
    forall i, j | 0 <= i < j < |s| :: Compare(s[i], s[j]) <= 0
  }

  predicate StrictlySorted(s: seq<Datum>) {
    forall i, j | 0 <= i < j < |s| :: Compare(s[i], s[j]) < 0
  }

  /** Inserts x before the first element that is not smaller. */
  function Insert(x: Datum, s: seq<Datum>): seq<Datum> {
    if s == [] then [x]
    else if Compare(s[|s| - 1], x) <= 0 then s + [x]
    else Insert(x, s[..|s| - 1]) + [s[|s| - 1]]
  }

  function Sort(s: seq<Datum>): seq<Datum> {
    if s == [] then [] else Insert(s[|s| - 1], Sort(s[..|s| - 1]))
  }

  /** Keeps an element only if it is greater than the last one kept. */
  function Compact(s: seq<Datum>): seq<Datum> {
    if s == [] then []
    else
      var kept, x := Compact(s[..|s| - 1]), s[|s| - 1];
      if kept == [] || Compare(kept[|kept| - 1], x) < 0 then kept + [x] else kept
  }

  function SortedUnique(s: seq<Datum>): seq<Datum> { Compact(Sort(s)) }

  /** The two lists hold the same values, in any order and any number. */
  ghost predicate SameValues(s: seq<Datum>, t: seq<Datum>) {
    forall d :: d in s <==> d in t
  }

  lemma {:induction false} InsertPermutes(x: Datum, s: seq<Datum>)
    ensures multiset(Insert(x, s)) == multiset(s) + multiset{x}
  {
    if s != [] {
      assert s == s[..|s| - 1] + [s[|s| - 1]];
      InsertPermutes(x, s[..|s| - 1]);
    }
  }

  lemma {:induction false} InsertSorted(x: Datum, s: seq<Datum>)
    requires Sorted(s)
    ensures Sorted(Insert(x, s))
  {
    if s != [] {
      var n := |s| - 1;
      if Compare(s[n], x) <= 0 {
        forall i | 0 <= i < n ensures Compare(s[i], x) <= 0 {
          CompareTrans(s[i], s[n], x);
        }
      } else {
        CompareSign(s[n], x);
        InsertSorted(x, s[..n]);
        InsertPermutes(x, s[..n]);
        var t := Insert(x, s[..n]);
        forall i | 0 <= i < |t| ensures Compare(t[i], s[n]) <= 0 {
          assert t[i] in multiset(t);
          assert t[i] == x || t[i] in s[..n];
        }
      }
    }
  }

  lemma {:induction false} SortPermutes(s: seq<Datum>)
    ensures multiset(Sort(s)) == multiset(s)
    ensures Sorted(Sort(s))
  {
    if s != [] {
      var n := |s| - 1;
      assert s == s[..n] + [s[n]];
      SortPermutes(s[..n]);
      InsertPermutes(s[n], Sort(s[..n]));
      InsertSorted(s[n], Sort(s[..n]));
    }
  }

  /** Compacting ends with the last element of a sorted list, so it drops only repetitions. */
  lemma {:induction false} CompactLast(s: seq<Datum>)
    requires Sorted(s) && s != []
    ensures Compact(s) != [] && Compact(s)[|Compact(s)| - 1] == s[|s| - 1]
  {
    var n := |s| - 1;
    if n > 0 {
      CompactLast(s[..n]);
      assert s[..n][n - 1] == s[n - 1];
      CompareSign(s[n - 1], s[n]);
    }
  }

  lemma {:induction false} CompactStrict(s: seq<Datum>)
    requires Sorted(s)
    ensures StrictlySorted(Compact(s))
    ensures |Compact(s)| <= |s|
  {
    if s != [] {
      var n := |s| - 1;
      CompactStrict(s[..n]);
      var kept := Compact(s[..n]);
      if kept != [] && Compare(kept[|kept| - 1], s[n]) < 0 {
        forall i | 0 <= i < |kept| - 1 ensures Compare(kept[i], s[n]) < 0 {
          CompareTrans(kept[i], kept[|kept| - 1], s[n]);
        }
      }
    }
  }

  lemma {:induction false} CompactValues(s: seq<Datum>)
    requires Sorted(s)
    ensures SameValues(Compact(s), s)
  {
    if s != [] {
      var n := |s| - 1;
      assert s == s[..n] + [s[n]];
      CompactValues(s[..n]);
      CompactLast(s);
    }
  }

  lemma {:induction false} SortSameValues(s: seq<Datum>)
    ensures SameValues(Sort(s), s)
  {
    SortPermutes(s);
    forall d ensures d in Sort(s) <==> d in s {
      assert d in Sort(s) <==> d in multiset(Sort(s));
      assert d in s <==> d in multiset(s);
    }
  }

  /** Normalizing a list leaves each of its values once, in ascending order. */
  lemma {:induction false} SortedUniqueIsCanonical(s: seq<Datum>)
    ensures StrictlySorted(SortedUnique(s))
    ensures SameValues(SortedUnique(s), s)
  {
    SortPermutes(s);
    SortSameValues(s);
    CompactStrict(Sort(s));
    CompactValues(Sort(s));
  }

  /** The strictly ascending list of a set of values is unique. */
  lemma {:induction false} CanonicalIsUnique(s: seq<Datum>, t: seq<Datum>)
    requires StrictlySorted(s) && StrictlySorted(t) && SameValues(s, t)
    ensures s == t
  {
    BothOrNone(s, t);
    if s != [] {
      var m, n := |s| - 1, |t| - 1;
      SameLast(s, t);
      SameFront(s, t);
      CanonicalIsUnique(s[..m], t[..n]);
      assert s == s[..m] + [s[m]] && t == t[..n] + [t[n]];
    }
  }

  lemma {:induction false} BothOrNone(s: seq<Datum>, t: seq<Datum>)
    requires SameValues(s, t)
    ensures s == [] <==> t == []
  {
    assert s != [] ==> s[0] in s && s[0] in t;
    assert t != [] ==> t[0] in t && t[0] in s;
  }

  lemma {:induction false} SameLast(s: seq<Datum>, t: seq<Datum>)
    requires StrictlySorted(s) && StrictlySorted(t) && SameValues(s, t) && s != [] && t != []
    ensures s[|s| - 1] == t[|t| - 1]
  {
    hide Compare, StrictlySorted;
    var x, y := s[|s| - 1], t[|t| - 1];
    Greatest(s, y);
    Greatest(t, x);
    CompareSign(x, y);
  }

  lemma {:induction false} SameFront(s: seq<Datum>, t: seq<Datum>)
    requires StrictlySorted(s) && StrictlySorted(t) && SameValues(s, t) && s != [] && t != []
    requires s[|s| - 1] == t[|t| - 1]
    ensures SameValues(s[..|s| - 1], t[..|t| - 1])
    ensures StrictlySorted(s[..|s| - 1]) && StrictlySorted(t[..|t| - 1])
  {
    hide Compare;
    var a, b := s[..|s| - 1], t[..|t| - 1];
    forall d ensures d in a <==> d in b {
      WithoutLast(s, d);
      WithoutLast(t, d);
    }
  }

  lemma {:induction false} Greatest(s: seq<Datum>, d: Datum)
    requires StrictlySorted(s) && s != []
    ensures d in s ==> Compare(d, s[|s| - 1]) <= 0
    ensures s[|s| - 1] in s
  {
    hide Compare;
    CompareSign(d, d);
  }

  lemma {:induction false} WithoutLast(s: seq<Datum>, d: Datum)
    requires StrictlySorted(s) && s != []
    ensures d in s[..|s| - 1] <==> d in s && d != s[|s| - 1]
  {
    hide Compare;
    CompareSign(d, d);
    assert s == s[..|s| - 1] + [s[|s| - 1]];
  }

  /** A sorted list stays as it is. */
  lemma {:induction false} SortOfSorted(s: seq<Datum>)
    requires Sorted(s)
    ensures Sort(s) == s
  {
    hide Compare;
    if s != [] {
      var n := |s| - 1;
      SortOfSorted(s[..n]);
      InsertLast(s[n], s[..n]);
      assert s == s[..n] + [s[n]];
    }
  }

  lemma {:induction false} InsertLast(x: Datum, s: seq<Datum>)
    requires s == [] || Compare(s[|s| - 1], x) <= 0
    ensures Insert(x, s) == s + [x]
  {
    hide Compare;
  }

  lemma {:induction false} CompactStep(s: seq<Datum>, i: nat)
    requires i < |s|
    ensures var kept := Compact(s[..i]);
            Compact(s[..i + 1]) == if kept == [] || Compare(kept[|kept| - 1], s[i]) < 0 then kept + [s[i]] else kept
  {
    hide Compare;
    assert s[..i + 1][..i] == s[..i];
  }

  // ---------------------------------------------------------------------------
  // IN looks at the values of the list only
  // ---------------------------------------------------------------------------

  lemma {:induction false} InVerdict(x: Datum, vs: seq<Datum>)
    ensures In3(x, vs) == True <==> exists v <- vs :: BaseCompare(EQ, x, v) == True
    ensures In3(x, vs) == False <==> forall v <- vs :: BaseCompare(EQ, x, v) == False
  {
    if vs != [] {
      var n := |vs| - 1;
      InVerdict(x, vs[..n]);
      assert forall v :: v in vs <==> v in vs[..n] || v == vs[n];
    }
  }

  lemma {:induction false} InSameValues(x: Datum, vs: seq<Datum>, ws: seq<Datum>)
    requires SameValues(vs, ws)
    ensures In3(x, vs) == In3(x, ws)
  {
    InVerdict(x, vs);
    InVerdict(x, ws);
  }

  /** Sorting and removing duplicates never changes the answer of IN, NULLs included. */
  lemma {:induction false} InNormalizedList(x: Datum, vs: seq<Datum>)
    ensures In3(x, SortedUnique(vs)) == In3(x, vs)
  {
    SortedUniqueIsCanonical(vs);
    InSameValues(x, SortedUnique(vs), vs);
  }
}
