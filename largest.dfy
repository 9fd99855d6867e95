/** Largest selection (`findLargestBoxes`): a stable sort by area, largest
    first, then the boxes whose area equals that of the first. The sort and the
    filter take their key as a selector, as `sortedByDescending { it.area }`
    and `filter { it.area == ... }` do. */
module Largest {
  import opened Geometry
  import opened Seqs

  /** Puts `x` in front of the first element of `s` whose key is not larger than its own. */
  function InsertByKey<T>(key: T -> int, x: T, s: seq<T>): (r: seq<T>)
    ensures |r| == |s| + 1
  {
    if s == [] || key(s[0]) <= key(x) then [x] + s
    else [s[0]] + InsertByKey(key, x, s[1..])
  }

  /** `sortedByDescending(key)`: a stable insertion sort, largest key first. */
  function SortByDescending<T>(key: T -> int, s: seq<T>): (r: seq<T>)
    ensures |r| == |s|
    ensures multiset(r) == multiset(s)
  {
    if s == [] then []
    else
      var sorted := SortByDescending(key, s[1..]);
      InsertByKeyPermutes(key, s[0], sorted);
      assert s == [s[0]] + s[1..];
      InsertByKey(key, s[0], sorted)
  }

  /** `filter { key(it) == k }`. */
  function WithKey<T(!new)>(key: T -> int, s: seq<T>, k: int): (r: seq<T>)
    ensures forall x :: x in r <==> x in s && key(x) == k
  {
    if s == [] then []
    else (if key(s[0]) == k then [s[0]] else []) + WithKey(key, s[1..], k)
  }

  /** The largest key in a non-empty sequence. */
  function MaxKey<T(!new)>(key: T -> int, s: seq<T>): (m: int)
    requires s != []
    ensures exists x :: x in s && key(x) == m
    ensures forall x :: x in s ==> key(x) <= m
  {
    if |s| == 1 then key(s[0])
    else
      var rest := MaxKey(key, s[1..]);
      assert forall x :: x in s ==> x == s[0] || x in s[1..];
      if key(s[0]) >= rest then key(s[0]) else rest
  }

  ghost predicate SortedDescending<T>(key: T -> int, s: seq<T>)
  {
    forall i, j :: 0 <= i < j < |s| ==> key(s[i]) >= key(s[j])
  }

  lemma {:induction false} InsertByKeyPermutes<T>(key: T -> int, x: T, s: seq<T>)
    ensures multiset(InsertByKey(key, x, s)) == multiset{x} + multiset(s)
  {
    if s != [] && key(s[0]) > key(x) {
      InsertByKeyPermutes(key, x, s[1..]);
      assert s == [s[0]] + s[1..];
    }
  }

  lemma {:induction false} InsertByKeySorted<T>(key: T -> int, x: T, s: seq<T>)
    requires SortedDescending(key, s)
    ensures SortedDescending(key, InsertByKey(key, x, s))
    ensures multiset(InsertByKey(key, x, s)) == multiset([x] + s)
  {
    InsertByKeyPermutes(key, x, s);
    if s != [] && key(s[0]) > key(x) {
      var r := InsertByKey(key, x, s[1..]);
      InsertByKeySorted(key, x, s[1..]);
      InsertHeadDominates(key, x, s);
      ConsSorted(key, s[0], r);
    }
  }

  lemma ConsSorted<T>(key: T -> int, h: T, r: seq<T>)
    requires SortedDescending(key, r)
    requires forall j :: 0 <= j < |r| ==> key(h) >= key(r[j])
    ensures SortedDescending(key, [h] + r)
  {
    var full := [h] + r;
    forall a, b | 0 <= a < b < |full| ensures key(full[a]) >= key(full[b]) {
      if a > 0 {
        assert full[a] == r[a - 1] && full[b] == r[b - 1];
      } else {
        assert full[b] == r[b - 1];
      }
    }
  }

  /** The first element of a sorted list is at least as large as everything
      the insertion into the rest of the list produces. */
  lemma InsertHeadDominates<T>(key: T -> int, x: T, s: seq<T>)
    requires SortedDescending(key, s) && s != [] && key(s[0]) > key(x)
    ensures forall j :: 0 <= j < |InsertByKey(key, x, s[1..])| ==>
              key(s[0]) >= key(InsertByKey(key, x, s[1..])[j])
  {
    var r := InsertByKey(key, x, s[1..]);
    InsertByKeyPermutes(key, x, s[1..]);
    forall j | 0 <= j < |r| ensures key(s[0]) >= key(r[j]) {
      assert r[j] in multiset(r);
      if r[j] != x {
        assert r[j] in multiset(s[1..]);
        var i :| 0 <= i < |s[1..]| && s[1..][i] == r[j];
        assert s[i + 1] == r[j];
      }
    }
  }

  /** The sort orders by non-increasing key and keeps every element. */
  lemma {:induction false} SortIsSortedPermutation<T>(key: T -> int, s: seq<T>)
    ensures SortedDescending(key, SortByDescending(key, s))
    ensures multiset(SortByDescending(key, s)) == multiset(s)
  {
    if s != [] {
      SortIsSortedPermutation(key, s[1..]);
      InsertByKeySorted(key, s[0], SortByDescending(key, s[1..]));
      assert s == [s[0]] + s[1..];
    }
  }

  lemma WithKeyCons<T(!new)>(key: T -> int, y: T, t: seq<T>, k: int)
    ensures WithKey(key, [y] + t, k) == (if key(y) == k then [y] else []) + WithKey(key, t, k)
  {
    assert ([y] + t)[1..] == t;
  }

  lemma {:induction false} WithKeyInsert<T(!new)>(key: T -> int, x: T, s: seq<T>, k: int)
    ensures WithKey(key, InsertByKey(key, x, s), k) == WithKey(key, [x] + s, k)
  {
    if s != [] && key(s[0]) > key(x) {
      var t := s[1..];
      var hx: seq<T> := if key(x) == k then [x] else [];
      var hs: seq<T> := if key(s[0]) == k then [s[0]] else [];
      assert hx == [] || hs == [];
      calc {
        WithKey(key, InsertByKey(key, x, s), k);
        WithKey(key, [s[0]] + InsertByKey(key, x, t), k);
        { WithKeyCons(key, s[0], InsertByKey(key, x, t), k); }
        hs + WithKey(key, InsertByKey(key, x, t), k);
        { WithKeyInsert(key, x, t, k); WithKeyCons(key, x, t, k); }
        hs + (hx + WithKey(key, t, k));
        hx + (hs + WithKey(key, t, k));
        { WithKeyCons(key, s[0], t, k); assert s == [s[0]] + t; }
        hx + WithKey(key, s, k);
        { WithKeyCons(key, x, s, k); }
        WithKey(key, [x] + s, k);
      }
    }
  }

  /** The sort is stable: the elements with any one key keep their relative order. */
  lemma {:induction false} SortIsStable<T(!new)>(key: T -> int, s: seq<T>, k: int)
    ensures WithKey(key, SortByDescending(key, s), k) == WithKey(key, s, k)
  {
    if s != [] {
      SortIsStable(key, s[1..], k);
      WithKeyInsert(key, s[0], SortByDescending(key, s[1..]), k);
      assert ([s[0]] + SortByDescending(key, s[1..]))[1..] == SortByDescending(key, s[1..]);
    }
  }

  /** The filter keeps every copy of an element with the key. */
  lemma {:induction false} WithKeyCount<T(!new)>(key: T -> int, s: seq<T>, k: int)
    ensures forall x :: key(x) == k ==> multiset(WithKey(key, s, k))[x] == multiset(s)[x]
  {
    if s != [] {
      WithKeyCount(key, s[1..], k);
      assert s == [s[0]] + s[1..];
    }
  }

  lemma {:induction false} WithKeySubseq<T(!new)>(key: T -> int, s: seq<T>, k: int)
    ensures IsSubseq(WithKey(key, s, k), s)
  {
    if s != [] {
      WithKeySubseq(key, s[1..], k);
      if key(s[0]) == k {
        assert WithKey(key, s, k)[1..] == WithKey(key, s[1..], k);
      } else {
        assert WithKey(key, s, k) == WithKey(key, s[1..], k);
      }
    }
  }

  function AreaOf(b: Box): int
  {
    b.Area()
  }

  /** `findLargestBoxes`. */
  function FindLargestBoxes(bbs: seq<Box>): (r: seq<Box>)
    ensures bbs != [] <==> r != []
  {
    var sorted := SortByDescending(AreaOf, bbs);
    if |sorted| == 0 || |sorted| == 1 then sorted
    else WithKey(AreaOf, sorted, sorted[0].Area())
  }

  /** The first box of the sorted list has the largest area. */
  lemma SortedHeadIsMax(bbs: seq<Box>)
    requires bbs != []
    ensures SortByDescending(AreaOf, bbs)[0] in bbs
    ensures AreaOf(SortByDescending(AreaOf, bbs)[0]) == MaxKey(AreaOf, bbs)
  {
    var sorted := SortByDescending(AreaOf, bbs);
    SortIsSortedPermutation(AreaOf, bbs);
    assert sorted[0] in multiset(bbs);
    forall c | c in bbs ensures AreaOf(c) <= AreaOf(sorted[0]) {
      assert c in multiset(sorted);
      var i :| 0 <= i < |sorted| && sorted[i] == c;
    }
  }

  /** An empty or one-box list comes back unchanged; otherwise the result is
      exactly the boxes of largest area, in their input order. */
  lemma FindLargestBoxesSpec(bbs: seq<Box>)
    ensures |bbs| <= 1 ==> FindLargestBoxes(bbs) == bbs
    ensures |bbs| >= 2 ==> FindLargestBoxes(bbs) == WithKey(AreaOf, bbs, MaxKey(AreaOf, bbs))
    ensures forall b :: b in FindLargestBoxes(bbs) <==>
              b in bbs && forall c :: c in bbs ==> c.Area() <= b.Area()
    ensures IsSubseq(FindLargestBoxes(bbs), bbs)
  {
    if |bbs| <= 1 {
      var sorted := SortByDescending(AreaOf, bbs);
      assert |bbs| == 1 ==> sorted == [bbs[0]];
      assert sorted == bbs;
      SubseqRefl(bbs);
    } else {
      var m := MaxKey(AreaOf, bbs);
      SortedHeadIsMax(bbs);
      SortIsStable(AreaOf, bbs, m);
      WithKeySubseq(AreaOf, bbs, m);
    }
  }

  /** When every box has the same area, all of them come back in input order. */
  lemma AllTiedKept(bbs: seq<Box>, k: int)
    requires forall b :: b in bbs ==> b.Area() == k
    ensures FindLargestBoxes(bbs) == bbs
  {
    if |bbs| >= 2 {
      SortedHeadIsMax(bbs);
      SortIsStable(AreaOf, bbs, k);
      WithKeyAll(AreaOf, bbs, k);
    } else {
      FindLargestBoxesSpec(bbs);
    }
  }

  /** Four tied one-cell boxes all come back, in row-major order. */
  lemma FourTiedCorners(bbs: seq<Box>)
    requires bbs == [Box(Star(1, 1), Star(1, 1)), Box(Star(1, 9), Star(1, 9)),
                     Box(Star(9, 1), Star(9, 1)), Box(Star(9, 9), Star(9, 9))]
    ensures FindLargestBoxes(bbs) == bbs
  {
    assert forall i :: 0 <= i < |bbs| ==> bbs[i].Area() == 1;
    AllTiedKept(bbs, 1);
  }

  lemma {:induction false} WithKeyAll<T(!new)>(key: T -> int, s: seq<T>, k: int)
    requires forall x :: x in s ==> key(x) == k
    ensures WithKey(key, s, k) == s
  {
    if s != [] {
      WithKeyAll(key, s[1..], k);
      assert s == [s[0]] + s[1..];
    }
  }
}
