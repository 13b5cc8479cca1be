/**
 Lists without repetition, taking an element out of a list, and the sizes of finite sets.
 */
module DistinctLists {

  predicate Distinct<T(==)>(s: seq<T>) {
    forall i, j | 0 <= i < j < |s| :: s[i] != s[j]
  }

  function Elements<T(==)>(s: seq<T>): set<T> {
    set x | x in s
  }

  function Without<T(==)>(s: seq<T>, x: T): seq<T> {
    if s == [] then []
    else if s[0] == x then Without(s[1..], x)
    else [s[0]] + Without(s[1..], x)
  }

  lemma {:induction false} WithoutOfConcat<T>(left: seq<T>, right: seq<T>, x: T)
    ensures Without(left + right, x) == Without(left, x) + Without(right, x)
  {
    if left == [] {
      assert left + right == right;
    } else {
      var all := left + right;
      WithoutOfConcat(left[1..], right, x);
      assert all[0] == left[0] && all[1..] == left[1..] + right;
      assert Without(all, x) == (if left[0] == x then [] else [left[0]]) + Without(all[1..], x);
    }
  }

  lemma {:induction false} WithoutIsExact<T>(s: seq<T>, x: T)
    ensures forall y :: y in Without(s, x) <==> y in s && y != x
    ensures x !in s ==> Without(s, x) == s
    ensures |Without(s, x)| <= |s|
  {
    if s != [] {
      assert s == [s[0]] + s[1..];
      WithoutIsExact(s[1..], x);
    }
  }

  lemma WithoutInMiddle<T>(before: seq<T>, x: T, after: seq<T>)
    requires x !in before && x !in after
    ensures Without(before + [x] + after, x) == before + after
  {
    var left := before + [x];
    assert Without(left, x) == before by {
      WithoutOfConcat(before, [x], x);
      WithoutIsExact(before, x);
      assert Without([x], x) == [];
    }
    assert Without(after, x) == after by {
      WithoutIsExact(after, x);
    }
    WithoutOfConcat(left, after, x);
  }

  lemma {:induction false} WithoutIsDistinct<T>(s: seq<T>, x: T)
    requires Distinct(s)
    ensures Distinct(Without(s, x))
    ensures x in s ==> |Without(s, x)| == |s| - 1
  {
    if s != [] {
      WithoutIsDistinct(s[1..], x);
      WithoutIsExact(s[1..], x);
      assert s[0] !in s[1..];
    }
  }

  lemma {:induction false} DistinctIsCounted<T>(s: seq<T>)
    requires Distinct(s)
    ensures |s| == |Elements(s)|
  {
    if s != [] {
      var init, last := s[..|s| - 1], s[|s| - 1];
      DistinctIsCounted(init);
      assert s == init + [last] && last !in init;
      assert Elements(s) == Elements(init) + {last};
    }
  }

  lemma {:induction false} SubsetIsSmaller<T>(a: set<T>, b: set<T>)
    requires a <= b
    ensures |a| <= |b|
    decreases |b|
  {
    if a != {} {
      var x :| x in a;
      SubsetIsSmaller(a - {x}, b - {x});
    }
  }

  lemma DistinctOneMore<T>(early: seq<T>, last: T)
    ensures Distinct(early + [last]) <==> Distinct(early) && last !in early
  {
    var s := early + [last];
    assert forall i | 0 <= i < |early| :: s[i] == early[i];
    if Distinct(s) {
      forall i, j | 0 <= i < j < |early| ensures early[i] != early[j] {
        assert s[i] != s[j];
      }
      forall i | 0 <= i < |early| ensures early[i] != last {
        assert s[i] != s[|early|];
      }
    }
  }
}
