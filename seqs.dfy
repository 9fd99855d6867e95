/** Sequence operations that stand for the Kotlin collection calls the program
    makes: an insertion-ordered set (LinkedHashSet) is a sequence without
    duplicates, and `remove`, `removeAll` and `addAll` become the functions below. */
module Seqs {

  datatype Option<T> = None | Some(value: T)

  /** The list's `head`: its first element, or none when it is empty. */
  function Head<T>(s: seq<T>): (r: Option<T>)
    ensures r.None? <==> s == []
    ensures r.Some? ==> r.value in s
  {
    if s == [] then None else Some(s[0])
  }

  /** The list's `tail`: all but its first element (empty for the empty list). */
  function Tail<T>(s: seq<T>): (r: seq<T>)
    ensures |r| == if s == [] then 0 else |s| - 1
    ensures forall x :: x in r ==> x in s
  {
    if s == [] then [] else s[1..]
  }

  /** A non-empty list is its head followed by its tail. */
  lemma HeadTail<T>(s: seq<T>)
    requires s != []
    ensures [Head(s).value] + Tail(s) == s
  {
  }

  function Elems<T>(s: seq<T>): set<T>
  {
    set x | x in s
  }

  predicate NoDup<T(==)>(s: seq<T>)
  {
    forall i, j :: 0 <= i < j < |s| ==> s[i] != s[j]
  }

  /** The elements of `s` that are not in `r`, in their original order:
      `removeAll` on a list, and repeated `remove` on a linked hash set. */
  function Without<T(==,!new)>(s: seq<T>, r: set<T>): (res: seq<T>)
    ensures |res| <= |s|
    ensures forall x :: x in res <==> x in s && x !in r
    ensures forall x :: x in s && x in r ==> |res| < |s|
    ensures NoDup(s) ==> NoDup(res)
    ensures r == {} ==> res == s
  {
    if s == [] then []
    else
      assert NoDup(s) ==> s[0] !in s[1..];
      (if s[0] in r then [] else [s[0]]) + Without(s[1..], r)
  }

  /** The position of the first occurrence of `x` in `s`. */
  function IndexOf<T(==)>(s: seq<T>, x: T): (i: nat)
    requires x in s
    ensures i < |s| && s[i] == x && x !in s[..i]
  {
    if s[0] == x then 0
    else
      var j := IndexOf(s[1..], x);
      assert s[..j + 1] == [s[0]] + s[1..][..j];
      j + 1
  }

  /** `MutableList.remove(x)`: drops the first element equal to `x`, if any. */
  function RemoveFirst<T(==)>(s: seq<T>, x: T): (res: seq<T>)
    ensures |res| <= |s|
    ensures forall y :: y in res ==> y in s
    ensures forall y :: y in s && y != x ==> y in res
    ensures x !in s ==> res == s
    ensures x in s ==> res == s[..IndexOf(s, x)] + s[IndexOf(s, x) + 1..]
  {
    if s == [] then []
    else if s[0] == x then s[1..]
    else
      var rest := RemoveFirst(s[1..], x);
      if x in s[1..] then
        var j := IndexOf(s[1..], x);
        assert IndexOf(s, x) == j + 1;
        SliceCons(s, j);
        ConcatAssoc([s[0]], s[1..][..j], s[1..][j + 1..]);
        [s[0]] + rest
      else
        [s[0]] + rest
  }

  lemma SliceCons<T>(s: seq<T>, j: nat)
    requires j + 1 < |s|
    ensures s[..j + 1] == [s[0]] + s[1..][..j] && s[j + 2..] == s[1..][j + 1..]
  {
  }

  /** `addAll` on a linked hash set: each new element is appended once, elements
      already present keep their place. */
  function AddAll<T(==,!new)>(s: seq<T>, xs: seq<T>): (res: seq<T>)
    ensures forall x :: x in res <==> x in s || x in xs
    ensures NoDup(s) ==> NoDup(res)
    ensures |s| <= |res| && res[..|s|] == s
    ensures NoDup(xs) ==> res == s + Without(xs, Elems(s))
    decreases |xs|
  {
    if xs == [] then s
    else
      var s' := if xs[0] in s then s else s + [xs[0]];
      assert s'[..|s|] == s;
      if xs[0] in s then
        AddAllSkip(s, xs);
        AddAll(s', xs[1..])
      else if NoDup(xs) then
        NoDupTail(xs);
        AddAllAppend(s, xs);
        AddAll(s', xs[1..])
      else
        AddAll(s', xs[1..])
  }

  /** One element of `addAll` that is already present: skipping it changes
      nothing in what remains to append. */
  lemma AddAllSkip<T(!new)>(s: seq<T>, xs: seq<T>)
    requires xs != [] && xs[0] in s
    ensures Without(xs, Elems(s)) == Without(xs[1..], Elems(s))
  {
    WithoutCons(xs[0], xs[1..], Elems(s));
    assert xs == [xs[0]] + xs[1..];
  }

  /** One new element of a duplicate-free `addAll`: appending it and then the
      rest is appending the whole. */
  lemma AddAllAppend<T(!new)>(s: seq<T>, xs: seq<T>)
    requires xs != [] && xs[0] !in s && NoDup(xs)
    ensures (s + [xs[0]]) + Without(xs[1..], Elems(s + [xs[0]])) == s + Without(xs, Elems(s))
  {
    var x, t := xs[0], xs[1..];
    var e := Elems(s);
    var w := Without(t, e);
    ElemsSnoc(s, x);
    NoDupTail(xs);
    WithoutAbsent(t, e, x);
    assert x !in e;
    WithoutCons(x, t, e);
    assert xs == [x] + t;
    ConcatAssoc(s, [x], w);
  }

  lemma ConcatAssoc<T>(a: seq<T>, b: seq<T>, c: seq<T>)
    ensures (a + b) + c == a + (b + c)
  {
  }

  lemma ElemsSnoc<T>(s: seq<T>, x: T)
    ensures Elems(s + [x]) == Elems(s) + {x}
  {
  }

  /** Removing an element that does not occur as well changes nothing. */
  lemma WithoutAbsent<T(!new)>(t: seq<T>, r: set<T>, x: T)
    requires x !in t
    ensures Without(t, r + {x}) == Without(t, r)
  {
    WithoutWithout(t, r, {x});
    WithoutNone(Without(t, r), {x});
  }

  lemma NoDupTail<T>(xs: seq<T>)
    requires NoDup(xs) && xs != []
    ensures NoDup(xs[1..]) && xs[0] !in xs[1..]
  {
    forall j | 0 <= j < |xs[1..]| ensures xs[1..][j] != xs[0] {
      assert xs[1..][j] == xs[j + 1];
    }
  }

  lemma WithoutCons<T(!new)>(x: T, t: seq<T>, r: set<T>)
    ensures Without([x] + t, r) == (if x in r then [] else [x]) + Without(t, r)
  {
    assert ([x] + t)[1..] == t;
  }

  /** Removing every element that occurs leaves nothing. */
  lemma WithoutAll<T(!new)>(s: seq<T>, r: set<T>)
    requires forall x :: x in s ==> x in r
    ensures Without(s, r) == []
  {
  }

  /** Removing elements that do not occur changes nothing. */
  lemma {:induction false} WithoutNone<T(!new)>(s: seq<T>, r: set<T>)
    requires forall x :: x in s ==> x !in r
    ensures Without(s, r) == s
  {
    if s != [] {
      WithoutNone(s[1..], r);
    }
  }

  /** `a` is `b` with some elements left out, the others in their original order. */
  ghost predicate IsSubseq<T>(a: seq<T>, b: seq<T>)
    decreases |b|
  {
    if b == [] then a == []
    else (a != [] && a[0] == b[0] && IsSubseq(a[1..], b[1..])) || IsSubseq(a, b[1..])
  }

  lemma {:induction false} SubseqRefl<T>(s: seq<T>)
    ensures IsSubseq(s, s)
  {
    if s != [] {
      SubseqRefl(s[1..]);
    }
  }

  lemma {:induction false} SubseqElems<T>(a: seq<T>, b: seq<T>)
    requires IsSubseq(a, b)
    ensures forall x :: x in a ==> x in b
  {
    if b != [] {
      if a != [] && a[0] == b[0] && IsSubseq(a[1..], b[1..]) {
        SubseqElems(a[1..], b[1..]);
        assert forall x :: x in a ==> x == a[0] || x in a[1..];
      } else {
        SubseqElems(a, b[1..]);
      }
    }
  }

  lemma {:induction false} SubseqTrans<T>(a: seq<T>, b: seq<T>, c: seq<T>)
    requires IsSubseq(a, b) && IsSubseq(b, c)
    ensures IsSubseq(a, c)
    decreases |c|
  {
    if c == [] {
      assert b == [];
      assert a == [];
    } else if IsSubseq(b, c[1..]) {
      SubseqTrans(a, b, c[1..]);
    } else {
      assert b != [] && b[0] == c[0] && IsSubseq(b[1..], c[1..]);
      if a != [] && a[0] == b[0] && IsSubseq(a[1..], b[1..]) {
        SubseqTrans(a[1..], b[1..], c[1..]);
      } else {
        SubseqTrans(a, b[1..], c[1..]);
      }
    }
  }

  /** `removeAll` keeps every copy of an element it does not remove. */
  lemma {:induction false} WithoutCount<T(!new)>(s: seq<T>, r: set<T>)
    ensures forall x :: x !in r ==> multiset(Without(s, r))[x] == multiset(s)[x]
  {
    if s != [] {
      WithoutCount(s[1..], r);
      assert s == [s[0]] + s[1..];
    }
  }

  lemma {:induction false} WithoutSubseq<T(!new)>(s: seq<T>, r: set<T>)
    ensures IsSubseq(Without(s, r), s)
  {
    if s != [] {
      WithoutSubseq(s[1..], r);
      if s[0] in r {
        assert Without(s, r) == Without(s[1..], r);
      } else {
        assert Without(s, r) == [s[0]] + Without(s[1..], r);
        assert Without(s, r)[1..] == Without(s[1..], r);
      }
    }
  }

  lemma {:induction false} RemoveFirstSubseq<T>(s: seq<T>, x: T)
    ensures IsSubseq(RemoveFirst(s, x), s)
  {
    if s != [] {
      if s[0] == x {
        SubseqRefl(s[1..]);
      } else {
        RemoveFirstSubseq(s[1..], x);
        assert RemoveFirst(s, x)[1..] == RemoveFirst(s[1..], x);
      }
    }
  }

  /** Removing two sets one after the other is removing their union. */
  lemma {:induction false} WithoutWithout<T(!new)>(s: seq<T>, a: set<T>, b: set<T>)
    ensures Without(Without(s, a), b) == Without(s, a + b)
  {
    if s != [] {
      WithoutWithout(s[1..], a, b);
      if s[0] in a {
        assert Without(s, a) == Without(s[1..], a);
      } else {
        assert Without(s, a) == [s[0]] + Without(s[1..], a);
        assert Without(s, a)[1..] == Without(s[1..], a);
      }
    }
  }

  /** A subsequence holds no more copies of any element than the sequence. */
  lemma {:induction false} SubseqMultiset<T>(a: seq<T>, b: seq<T>)
    requires IsSubseq(a, b)
    ensures multiset(a) <= multiset(b)
    decreases |b|
  {
    if b != [] {
      assert b == [b[0]] + b[1..];
      if a != [] && a[0] == b[0] && IsSubseq(a[1..], b[1..]) {
        SubseqMultiset(a[1..], b[1..]);
        assert a == [a[0]] + a[1..];
      } else {
        SubseqMultiset(a, b[1..]);
      }
    }
  }
}
