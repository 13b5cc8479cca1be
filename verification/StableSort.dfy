/**
 Stable sorting by an integer key, as the sort of JavaScript arrays and Python's `sorted` promise it:
 the only ordered arrangement that keeps the given order of equal keys.
 */
module StableSort {
  import opened Wrappers

  ghost predicate Sorted<T>(key: T -> int, s: seq<T>) {
    forall i, j | 0 <= i <= j < |s| :: key(s[i]) <= key(s[j])
  }

  // The elements with one key, in order.
  function WithKey<T>(key: T -> int, s: seq<T>, k: int): (r: seq<T>) {
    if s == [] then []
    else (if key(s[0]) == k then [s[0]] else []) + WithKey(key, s[1..], k)
  }

  // A stable arrangement: the same elements, with equal keys in the same order.
  ghost predicate Arranges<T>(key: T -> int, r: seq<T>, s: seq<T>) {
    forall k :: WithKey(key, r, k) == WithKey(key, s, k)
  }

  // The left sequence goes first where keys tie.
  function Merge<T>(key: T -> int, a: seq<T>, b: seq<T>): (r: seq<T>)
    ensures |r| == |a| + |b|
    decreases |a| + |b|
  {
    if a == [] then b
    else if b == [] then a
    else if key(a[0]) <= key(b[0]) then [a[0]] + Merge(key, a[1..], b)
    else [b[0]] + Merge(key, a, b[1..])
  }

  function Sort<T>(key: T -> int, s: seq<T>): (r: seq<T>)
    ensures |r| == |s|
    decreases |s|
  {
    if s == [] then [] else Merge(key, Sort(key, s[..|s| - 1]), [s[|s| - 1]])
  }

  // ----- merging

  lemma {:induction false} MergeIsSorted<T>(key: T -> int, a: seq<T>, b: seq<T>)
    requires Sorted(key, a) && Sorted(key, b)
    ensures Sorted(key, Merge(key, a, b))
    ensures forall x | x in Merge(key, a, b) :: x in a || x in b
    decreases |a| + |b|
  {
    if a != [] && b != [] {
      if key(a[0]) <= key(b[0]) {
        MergeIsSorted(key, a[1..], b);
      } else {
        MergeIsSorted(key, a, b[1..]);
      }
    }
  }

  lemma {:induction false} MergeIsAssociative<T>(key: T -> int, a: seq<T>, b: seq<T>, c: seq<T>)
    ensures Merge(key, Merge(key, a, b), c) == Merge(key, a, Merge(key, b, c))
    decreases |a| + |b| + |c|
  {
    if a != [] && b != [] && c != [] {
      if key(a[0]) <= key(b[0]) && key(a[0]) <= key(c[0]) {
        MergeIsAssociative(key, a[1..], b, c);
      } else if key(a[0]) > key(b[0]) && key(b[0]) <= key(c[0]) {
        MergeIsAssociative(key, a, b[1..], c);
      } else {
        MergeIsAssociative(key, a, b, c[1..]);
      }
    }
  }

  lemma {:induction false} WithKeyConcat<T>(key: T -> int, a: seq<T>, b: seq<T>, k: int)
    ensures WithKey(key, a + b, k) == WithKey(key, a, k) + WithKey(key, b, k)
    decreases |a|
  {
    if a == [] {
      assert a + b == b;
    } else {
      assert (a + b)[1..] == a[1..] + b;
      WithKeyConcat(key, a[1..], b, k);
      var head := if key(a[0]) == k then [a[0]] else [];
      var rest, other := WithKey(key, a[1..], k), WithKey(key, b, k);
      assert WithKey(key, a + b, k) == head + (rest + other);
      assert WithKey(key, a, k) == head + rest;
    }
  }

  lemma {:induction false} NoneWithKey<T>(key: T -> int, s: seq<T>, k: int)
    requires forall x | x in s :: key(x) > k
    ensures WithKey(key, s, k) == []
    decreases |s|
  {
    if s != [] {
      NoneWithKey(key, s[1..], k);
    }
  }

  lemma WithKeyOfFirst<T>(key: T -> int, first: T, rest: seq<T>, k: int)
    ensures WithKey(key, [first] + rest, k) == (if key(first) == k then [first] else []) + WithKey(key, rest, k)
  {
    assert ([first] + rest)[1..] == rest;
  }

  lemma Regrouped<T>(a: seq<T>, b: seq<T>, c: seq<T>)
    ensures a + (b + c) == (a + b) + c
    ensures a == [] || b == [] ==> a + (b + c) == b + (a + c)
  {
  }

  lemma {:induction false} MergeKeepsOrderWithin<T>(key: T -> int, a: seq<T>, b: seq<T>, k: int)
    requires Sorted(key, a) && Sorted(key, b)
    ensures WithKey(key, Merge(key, a, b), k) == WithKey(key, a, k) + WithKey(key, b, k)
    decreases |a| + |b|
  {
    if a != [] && b != [] {
      if key(a[0]) <= key(b[0]) {
        MergeKeepsOrderWithin(key, a[1..], b, k);
        WithKeyOfFirst(key, a[0], Merge(key, a[1..], b), k);
        Regrouped(if key(a[0]) == k then [a[0]] else [], WithKey(key, a[1..], k), WithKey(key, b, k));
      } else {
        MergeKeepsOrderWithin(key, a, b[1..], k);
        WithKeyOfFirst(key, b[0], Merge(key, a, b[1..]), k);
        if key(b[0]) == k {
          NoneWithKey(key, a, k);
        }
        Regrouped(if key(b[0]) == k then [b[0]] else [], WithKey(key, a, k), WithKey(key, b[1..], k));
      }
    }
  }

  lemma MergeArranges<T>(key: T -> int, a: seq<T>, b: seq<T>, k: int)
    requires Sorted(key, a) && Sorted(key, b)
    ensures WithKey(key, Merge(key, a, b), k) == WithKey(key, a + b, k)
  {
    MergeKeepsOrderWithin(key, a, b, k);
    WithKeyConcat(key, a, b, k);
  }

  // ----- sorting

  lemma {:induction false} SortIsSorted<T>(key: T -> int, s: seq<T>)
    ensures Sorted(key, Sort(key, s))
    decreases |s|
  {
    if s != [] {
      SortIsSorted(key, s[..|s| - 1]);
      MergeIsSorted(key, Sort(key, s[..|s| - 1]), [s[|s| - 1]]);
    }
  }

  lemma {:induction false} SortKeepsOrderWithin<T>(key: T -> int, s: seq<T>, k: int)
    ensures WithKey(key, Sort(key, s), k) == WithKey(key, s, k)
    decreases |s|
  {
    if s != [] {
      var early, last := s[..|s| - 1], [s[|s| - 1]];
      assert s == early + last;
      SortIsSorted(key, early);
      SortKeepsOrderWithin(key, early, k);
      MergeArranges(key, Sort(key, early), last, k);
      WithKeyConcat(key, Sort(key, early), last, k);
      WithKeyConcat(key, early, last, k);
    }
  }

  lemma SortArranges<T>(key: T -> int, s: seq<T>)
    ensures Arranges(key, Sort(key, s), s)
  {
    forall k ensures WithKey(key, Sort(key, s), k) == WithKey(key, s, k) {
      SortKeepsOrderWithin(key, s, k);
    }
  }

  lemma {:induction false} KeyIsPresent<T>(key: T -> int, s: seq<T>, k: int)
    ensures WithKey(key, s, k) != [] <==> exists x | x in s :: key(x) == k
    decreases |s|
  {
    if s != [] {
      KeyIsPresent(key, s[1..], k);
    }
  }

  // There is only one sorted stable arrangement, so any stable sort computes `Sort`.
  lemma {:induction false} SortedArrangementIsUnique<T>(key: T -> int, a: seq<T>, b: seq<T>)
    requires Sorted(key, a) && Sorted(key, b) && Arranges(key, a, b)
    ensures a == b
    decreases |a|
  {
    var first := if b == [] then 0 else key(b[0]);
    assert WithKey(key, a, first) == WithKey(key, b, first);
    if a != [] {
      var k := key(a[0]);
      assert WithKey(key, a, k) == WithKey(key, b, k);
      KeyIsPresent(key, b, k);
      assert WithKey(key, a, key(b[0])) == WithKey(key, b, key(b[0]));
      KeyIsPresent(key, a, key(b[0]));
      assert key(a[0]) == key(b[0]);
      assert WithKey(key, a, k)[0] == a[0] && WithKey(key, b, k)[0] == b[0];
      forall j ensures WithKey(key, a[1..], j) == WithKey(key, b[1..], j) {
        assert WithKey(key, a, j) == WithKey(key, b, j);
        var head := if j == k then [a[0]] else [];
        assert WithKey(key, a, j) == head + WithKey(key, a[1..], j);
        assert WithKey(key, b, j) == head + WithKey(key, b[1..], j);
        assert WithKey(key, a[1..], j) == WithKey(key, a, j)[|head|..];
        assert WithKey(key, b[1..], j) == WithKey(key, b, j)[|head|..];
      }
      SortedArrangementIsUnique(key, a[1..], b[1..]);
      assert a == [a[0]] + a[1..] && b == [b[0]] + b[1..];
    }
  }

  lemma {:induction false} SortOfSorted<T>(key: T -> int, s: seq<T>)
    requires Sorted(key, s)
    ensures Sort(key, s) == s
  {
    SortIsSorted(key, s);
    SortArranges(key, s);
    SortedArrangementIsUnique(key, Sort(key, s), s);
  }

  lemma {:induction false} SortOfConcat<T>(key: T -> int, a: seq<T>, b: seq<T>)
    ensures Sort(key, a + b) == Merge(key, Sort(key, a), Sort(key, b))
    decreases |b|
  {
    if b == [] {
      assert a + b == a;
    } else {
      var early, last := b[..|b| - 1], [b[|b| - 1]];
      assert (a + b)[..|a + b| - 1] == a + early;
      SortOfConcat(key, a, early);
      MergeIsAssociative(key, Sort(key, a), Sort(key, early), last);
    }
  }

  lemma {:induction false} SortKeepsElements<T>(key: T -> int, s: seq<T>, x: T)
    ensures x in Sort(key, s) <==> x in s
  {
    SortArranges(key, s);
    assert WithKey(key, Sort(key, s), key(x)) == WithKey(key, s, key(x));
    WithKeyHolds(key, Sort(key, s), x);
    WithKeyHolds(key, s, x);
  }

  lemma {:induction false} WithKeyHolds<T>(key: T -> int, s: seq<T>, x: T)
    ensures x in WithKey(key, s, key(x)) <==> x in s
    decreases |s|
  {
    if s != [] {
      WithKeyHolds(key, s[1..], x);
    }
  }

  ghost predicate DistinctBy<T, K>(name: T -> K, s: seq<T>) {
    forall i, j | 0 <= i < j < |s| :: name(s[i]) != name(s[j])
  }

  // A list is distinct when all but its last element are, and its last is unlike any of those.
  lemma DistinctByLast<T, K>(name: T -> K, early: seq<T>, last: T)
    ensures DistinctBy(name, early + [last]) <==>
            DistinctBy(name, early) && forall x | x in early :: name(x) != name(last)
  {
    var s := early + [last];
    assert forall i | 0 <= i < |early| :: s[i] == early[i];
    if DistinctBy(name, s) {
      forall i, j | 0 <= i < j < |early| ensures name(early[i]) != name(early[j]) {
        assert name(s[i]) != name(s[j]);
      }
      forall x | x in early ensures name(x) != name(last) {
        var i :| 0 <= i < |early| && early[i] == x;
        assert name(s[i]) != name(s[|early|]);
      }
    }
  }

  lemma {:induction false} MergeKeepsDistinct<T, K>(key: T -> int, name: T -> K, a: seq<T>, b: seq<T>)
    requires DistinctBy(name, a) && DistinctBy(name, b)
    requires forall x, y | x in a && y in b :: name(x) != name(y)
    ensures DistinctBy(name, Merge(key, a, b))
    ensures forall x | x in Merge(key, a, b) :: x in a || x in b
    decreases |a| + |b|
  {
    if a != [] && b != [] {
      if key(a[0]) <= key(b[0]) {
        MergeKeepsDistinct(key, name, a[1..], b);
      } else {
        MergeKeepsDistinct(key, name, a, b[1..]);
      }
    }
  }

  lemma {:induction false} SortKeepsDistinct<T, K>(key: T -> int, name: T -> K, s: seq<T>)
    requires DistinctBy(name, s)
    ensures DistinctBy(name, Sort(key, s))
    decreases |s|
  {
    if s != [] {
      var early, last := s[..|s| - 1], s[|s| - 1];
      SortKeepsDistinct(key, name, early);
      forall x | x in Sort(key, early) ensures name(x) != name(last) {
        SortKeepsElements(key, early, x);
      }
      MergeKeepsDistinct(key, name, Sort(key, early), [last]);
    }
  }

  // The first element that is wanted.
  function FirstWanted<T>(wanted: T -> bool, s: seq<T>): (first: Option<T>) {
    if s == [] then None else if wanted(s[0]) then Some(s[0]) else FirstWanted(wanted, s[1..])
  }

  // The wanted element with the least key, the earliest of those, found by one scan.
  function LeastWanted<T>(key: T -> int, wanted: T -> bool, s: seq<T>): (least: Option<T>)
    decreases |s|
  {
    if s == [] then None
    else
      var earlier, last := LeastWanted(key, wanted, s[..|s| - 1]), s[|s| - 1];
      if wanted(last) && (earlier.None? || key(last) < key(earlier.value)) then Some(last) else earlier
  }

  lemma {:induction false} FirstWantedOfInsertion<T>(key: T -> int, wanted: T -> bool, s: seq<T>, x: T)
    requires Sorted(key, s)
    ensures FirstWanted(wanted, Merge(key, s, [x]))
         == var first := FirstWanted(wanted, s);
            if wanted(x) && (first.None? || key(x) < key(first.value)) then Some(x) else first
    decreases |s|
  {
    if s != [] {
      if key(s[0]) <= key(x) {
        FirstWantedOfInsertion(key, wanted, s[1..], x);
      } else {
        assert Merge(key, s, [x]) == [x] + s;
        FirstWantedIsWanted(wanted, s);
      }
    }
  }

  // Sorting and taking the first wanted element is scanning for the least one.
  lemma {:induction false} FirstOfSortIsLeast<T>(key: T -> int, wanted: T -> bool, s: seq<T>)
    ensures FirstWanted(wanted, Sort(key, s)) == LeastWanted(key, wanted, s)
    decreases |s|
  {
    if s != [] {
      var early, last := s[..|s| - 1], s[|s| - 1];
      FirstOfSortIsLeast(key, wanted, early);
      SortIsSorted(key, early);
      FirstWantedOfInsertion(key, wanted, Sort(key, early), last);
    }
  }

  lemma {:induction false} FirstWantedIsWanted<T>(wanted: T -> bool, s: seq<T>)
    ensures match FirstWanted(wanted, s)
            case None => forall x | x in s :: !wanted(x)
            case Some(x) => x in s && wanted(x)
  {
    if s != [] {
      FirstWantedIsWanted(wanted, s[1..]);
    }
  }
}
