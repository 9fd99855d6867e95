/** Overlap elimination (`processOverlaps`): the box list is walked head by
    head; a head that overlaps some later box is dropped together with every
    box equal to one of those it overlaps, and the walk restarts from the front. */
module Resolver {
  import opened Geometry
  import opened Seqs

  /** `tail.filter { it.overlaps(head) }`. */
  function OverlapsWith(tail: seq<Box>, head: Box): (r: seq<Box>)
    ensures forall x :: x in r <==> x in tail && x.Overlaps(head)
  {
    if tail == [] then []
    else (if tail[0].Overlaps(head) then [tail[0]] else []) + OverlapsWith(tail[1..], head)
  }

  /** The boxes that remain when the walk is at head position `k`
      (head `bbs[k]`, tail `bbs[k + 1..]`). */
  function ResolveFrom(bbs: seq<Box>, k: nat): (r: seq<Box>)
    ensures |r| <= |bbs|
    ensures forall x :: x in r ==> x in bbs
    decreases |bbs|, |bbs| - k
  {
    if k + 1 >= |bbs| then bbs
    else
      var head := bbs[k];
      var overlaps := OverlapsWith(bbs[k + 1..], head);
      if overlaps == [] then ResolveFrom(bbs, k + 1)
      else
        assert overlaps[0] in bbs[k + 1..] && overlaps[0] in Elems(overlaps);
        assert overlaps[0] in bbs;
        var bbs' := RemoveFirst(Without(bbs, Elems(overlaps)), head);
        ResolveFrom(bbs', 0)
  }

  /** The box list `processOverlaps` leaves. */
  function Resolve(bbs: seq<Box>): (r: seq<Box>)
    ensures |r| <= |bbs|
    ensures forall x :: x in r ==> x in bbs
    ensures |bbs| <= 1 ==> r == bbs
  {
    ResolveFrom(bbs, 0)
  }

  /** No box before position `k` overlaps a box after it. */
  ghost predicate CheckedBefore(bbs: seq<Box>, k: nat)
  {
    forall i, j :: 0 <= i < k && i < j < |bbs| ==> !bbs[i].Overlaps(bbs[j])
  }

  ghost predicate PairwiseDisjoint(bbs: seq<Box>)
  {
    forall i, j :: 0 <= i < j < |bbs| ==> !bbs[i].Overlaps(bbs[j])
  }

  lemma {:induction false} ResolveFromDisjoint(bbs: seq<Box>, k: nat)
    requires CheckedBefore(bbs, k)
    ensures PairwiseDisjoint(ResolveFrom(bbs, k))
    decreases |bbs|, |bbs| - k
  {
    if k + 1 < |bbs| {
      var head := bbs[k];
      var overlaps := OverlapsWith(bbs[k + 1..], head);
      if overlaps == [] {
        CheckedAdvance(bbs, k);
        ResolveFromDisjoint(bbs, k + 1);
      } else {
        assert overlaps[0] in bbs[k + 1..] && overlaps[0] in Elems(overlaps);
        assert overlaps[0] in bbs;
        ResolveFromDisjoint(RemoveFirst(Without(bbs, Elems(overlaps)), head), 0);
      }
    }
  }

  /** A head that overlaps no later box extends the checked prefix by one. */
  lemma CheckedAdvance(bbs: seq<Box>, k: nat)
    requires CheckedBefore(bbs, k) && k + 1 < |bbs| && OverlapsWith(bbs[k + 1..], bbs[k]) == []
    ensures CheckedBefore(bbs, k + 1)
  {
    forall j | k < j < |bbs| ensures !bbs[k].Overlaps(bbs[j]) {
      assert bbs[j] == bbs[k + 1..][j - k - 1];
      OverlapsSymmetric(bbs[j], bbs[k]);
    }
  }

  /** After `processOverlaps` no two remaining boxes overlap. */
  lemma ResolveDisjoint(bbs: seq<Box>)
    ensures PairwiseDisjoint(Resolve(bbs))
  {
    ResolveFromDisjoint(bbs, 0);
  }

  lemma {:induction false} ResolveFromSubseq(bbs: seq<Box>, k: nat)
    ensures IsSubseq(ResolveFrom(bbs, k), bbs)
    decreases |bbs|, |bbs| - k
  {
    if k + 1 >= |bbs| {
      SubseqRefl(bbs);
    } else {
      var head := bbs[k];
      var overlaps := OverlapsWith(bbs[k + 1..], head);
      if overlaps == [] {
        ResolveFromSubseq(bbs, k + 1);
      } else {
        assert overlaps[0] in bbs[k + 1..] && overlaps[0] in Elems(overlaps);
        assert overlaps[0] in bbs;
        var removed := Without(bbs, Elems(overlaps));
        var bbs' := RemoveFirst(removed, head);
        ResolveFromSubseq(bbs', 0);
        RemoveFirstSubseq(removed, head);
        WithoutSubseq(bbs, Elems(overlaps));
        SubseqTrans(bbs', removed, bbs);
        SubseqTrans(ResolveFrom(bbs', 0), bbs', bbs);
      }
    }
  }

  /** The boxes that remain are a subsequence of the input: only removals, in
      the original order. */
  lemma ResolveSubseq(bbs: seq<Box>)
    ensures IsSubseq(Resolve(bbs), bbs)
    ensures forall b :: b in Resolve(bbs) ==> b in bbs
  {
    ResolveFromSubseq(bbs, 0);
    SubseqElems(Resolve(bbs), bbs);
  }

  /** `x` overlaps a box of `bbs` held at another position: another box, or
      a second copy of `x` itself. */
  ghost predicate OverlapsAnother(bbs: seq<Box>, x: Box)
  {
    exists y :: y in bbs && x.Overlaps(y) && (y != x || multiset(bbs)[x] >= 2)
  }

  lemma {:induction false} ResolveFromDropsOnlyOverlapping(bbs: seq<Box>, k: nat)
    ensures forall x :: x in bbs && x !in ResolveFrom(bbs, k) ==> OverlapsAnother(bbs, x)
    decreases |bbs|, |bbs| - k
  {
    if k + 1 < |bbs| {
      var head := bbs[k];
      var overlaps := OverlapsWith(bbs[k + 1..], head);
      if overlaps == [] {
        ResolveFromDropsOnlyOverlapping(bbs, k + 1);
      } else {
        assert overlaps[0] in bbs[k + 1..] && overlaps[0] in Elems(overlaps);
        assert overlaps[0] in bbs;
        var bbs' := RemoveFirst(Without(bbs, Elems(overlaps)), head);
        ResolveFromDropsOnlyOverlapping(bbs', 0);
        RestartShrinks(bbs, Elems(overlaps), head);
        forall x | x in bbs && x !in ResolveFrom(bbs', 0)
          ensures OverlapsAnother(bbs, x)
        {
          if x in bbs' {
            AnotherInLarger(bbs', bbs, x);
          } else {
            RemovedOverlapsHead(bbs, k, x);
          }
        }
      }
    }
  }

  /** The restart step only takes boxes out. */
  lemma RestartShrinks(bbs: seq<Box>, r: set<Box>, head: Box)
    ensures multiset(RemoveFirst(Without(bbs, r), head)) <= multiset(bbs)
  {
    var removed := Without(bbs, r);
    RemoveFirstSubseq(removed, head);
    WithoutSubseq(bbs, r);
    SubseqTrans(RemoveFirst(removed, head), removed, bbs);
    SubseqMultiset(RemoveFirst(removed, head), bbs);
  }

  /** Overlapping another box survives adding boxes. */
  lemma AnotherInLarger(a: seq<Box>, b: seq<Box>, x: Box)
    requires multiset(a) <= multiset(b) && OverlapsAnother(a, x)
    ensures OverlapsAnother(b, x)
  {
    var y :| y in a && x.Overlaps(y) && (y != x || multiset(a)[x] >= 2);
    assert y in multiset(a);
  }

  /** A box the restart step removes overlaps the head or one of the boxes the
      head overlaps, at another position of the list. */
  lemma RemovedOverlapsHead(bbs: seq<Box>, k: nat, x: Box)
    requires k + 1 < |bbs| && OverlapsWith(bbs[k + 1..], bbs[k]) != []
    requires x in bbs && x !in RemoveFirst(Without(bbs, Elems(OverlapsWith(bbs[k + 1..], bbs[k]))), bbs[k])
    ensures OverlapsAnother(bbs, x)
  {
    var head := bbs[k];
    var overlaps := OverlapsWith(bbs[k + 1..], head);
    if x in overlaps {
      assert x.Overlaps(head);
      if x == head {
        var p :| k + 1 <= p < |bbs| && bbs[p] == x;
        TwoCopies(bbs, k, p);
      }
    } else {
      assert x !in Elems(overlaps);
      assert x in Without(bbs, Elems(overlaps));
      assert x == head;
      var y := overlaps[0];
      assert y in bbs[k + 1..];
      OverlapsSymmetric(y, head);
    }
  }

  /** A value held at two positions occurs at least twice. */
  lemma TwoCopies(s: seq<Box>, i: nat, j: nat)
    requires i < j < |s| && s[i] == s[j]
    ensures multiset(s)[s[i]] >= 2
  {
    assert s == s[..j] + [s[j]] + s[j + 1..];
    assert s[i] in s[..j];
  }

  /** A value that occurs at least twice is held at a second position. */
  lemma OtherPosition(s: seq<Box>, i: nat)
    requires i < |s| && multiset(s)[s[i]] >= 2
    ensures exists j :: 0 <= j < |s| && j != i && s[j] == s[i]
  {
    var x := s[i];
    assert s == s[..i] + [x] + s[i + 1..];
    if x in s[..i] {
      var j :| 0 <= j < i && s[..i][j] == x;
      assert s[j] == x;
    } else {
      assert multiset(s[i + 1..])[x] >= 1;
      assert x in s[i + 1..];
      var j :| 0 <= j < |s[i + 1..]| && s[i + 1..][j] == x;
      assert s[i + 1 + j] == x;
    }
  }

  /** A box is dropped only if it overlaps a box at another position of the input. */
  lemma ResolveDropsOnlyOverlapping(bbs: seq<Box>)
    ensures forall i :: 0 <= i < |bbs| && bbs[i] !in Resolve(bbs) ==>
              exists j :: 0 <= j < |bbs| && j != i && bbs[i].Overlaps(bbs[j])
  {
    ResolveFromDropsOnlyOverlapping(bbs, 0);
    forall i | 0 <= i < |bbs| && bbs[i] !in Resolve(bbs)
      ensures exists j :: 0 <= j < |bbs| && j != i && bbs[i].Overlaps(bbs[j])
    {
      var x := bbs[i];
      var y :| y in bbs && x.Overlaps(y) && (y != x || multiset(bbs)[x] >= 2);
      if y != x {
        var j :| 0 <= j < |bbs| && bbs[j] == y;
      } else {
        OtherPosition(bbs, i);
        var j :| 0 <= j < |bbs| && j != i && bbs[j] == x;
      }
    }
  }

  /** The outcome depends on the order of the list: when A overlaps B and B
      overlaps C but A does not overlap C, the order A, B, C keeps C ... */
  lemma ResolveKeepsLast(a: Box, b: Box, c: Box)
    requires a.Overlaps(b) && b.Overlaps(c) && !a.Overlaps(c)
    ensures Resolve([a, b, c]) == [c]
  {
    var abc := [a, b, c];
    assert b.Overlaps(a) && !c.Overlaps(a) && a != b && c != b by {
      OverlapsSymmetric(a, b);
      OverlapsSymmetric(a, c);
    }
    assert abc[1..] == [b, c];
    OverlapsWithTwo(b, c, a);
    assert OverlapsWith(abc[1..], abc[0]) == [b];
    DropOne(a, b, c);
    assert RemoveFirst([a, c], a) == [c];
    ResolveFromStep(abc, 0);
    assert Resolve([c]) == [c];
  }

  /** ... while the order B, A, C keeps nothing. */
  lemma ResolveKeepsNothing(a: Box, b: Box, c: Box)
    requires a.Overlaps(b) && b.Overlaps(c) && !a.Overlaps(c)
    ensures Resolve([b, a, c]) == []
  {
    var bac := [b, a, c];
    assert a.Overlaps(b) && c.Overlaps(b) && b != a && b != c by {
      OverlapsSymmetric(a, b);
      OverlapsSymmetric(b, c);
    }
    assert bac[1..] == [a, c];
    OverlapsWithTwo(a, c, b);
    assert OverlapsWith(bac[1..], bac[0]) == [a, c];
    DropTwo(b, a, c);
    assert RemoveFirst([b], b) == [];
    ResolveFromStep(bac, 0);
    assert Resolve([]) == [];
  }

  /** When every box overlaps every other box, all of them are eliminated:
      the first head overlaps the whole tail, so the restart step drops
      everything. */
  lemma ResolveAllOverlapping(bbs: seq<Box>)
    requires |bbs| >= 2
    requires forall i, j :: 0 <= i < |bbs| && 0 <= j < |bbs| && i != j ==> bbs[i].Overlaps(bbs[j])
    ensures Resolve(bbs) == []
  {
    var head, tail := bbs[0], bbs[1..];
    var overlaps := OverlapsWith(tail, head);
    var e := Elems(overlaps);
    forall x | x in tail ensures x in e {
      var t :| 0 <= t < |tail| && tail[t] == x;
      assert bbs[t + 1] == x;
    }
    assert tail[0] in overlaps;
    WithoutAll(tail, e);
    WithoutCons(head, tail, e);
    assert bbs == [head] + tail;
    assert Without(bbs, e) == (if head in e then [] else [head]);
    assert RemoveFirst([head], head) == [];
    ResolveFromStep(bbs, 0);
  }

  /** One step of the walk at head position `k`: move on to the next head, or
      drop the overlapping boxes and the head and restart from the front. */
  lemma ResolveFromStep(bbs: seq<Box>, k: nat)
    requires k + 1 < |bbs|
    ensures OverlapsWith(bbs[k + 1..], bbs[k]) == [] ==> ResolveFrom(bbs, k) == ResolveFrom(bbs, k + 1)
    ensures OverlapsWith(bbs[k + 1..], bbs[k]) != [] ==>
              ResolveFrom(bbs, k) ==
              ResolveFrom(RemoveFirst(Without(bbs, Elems(OverlapsWith(bbs[k + 1..], bbs[k]))), bbs[k]), 0)
  {
  }

  lemma OverlapsWithTwo(x: Box, y: Box, head: Box)
    ensures OverlapsWith([x, y], head) ==
              (if x.Overlaps(head) then [x] else []) + (if y.Overlaps(head) then [y] else [])
  {
    assert [x, y][1..] == [y] && [y][1..] == [];
    assert OverlapsWith([y], head) == (if y.Overlaps(head) then [y] else []);
  }

  lemma DropOne(a: Box, b: Box, c: Box)
    requires a != b && c != b
    ensures Without([a, b, c], Elems([b])) == [a, c]
  {
    assert Elems([b]) == {b};
    assert [a, b, c][1..] == [b, c] && [b, c][1..] == [c] && [c][1..] == [];
    assert Without([c], {b}) == [c];
  }

  lemma DropTwo(b: Box, a: Box, c: Box)
    requires b != a && b != c
    ensures Without([b, a, c], Elems([a, c])) == [b]
  {
    assert Elems([a, c]) == {a, c};
    assert [b, a, c][1..] == [a, c] && [a, c][1..] == [c] && [c][1..] == [];
    assert Without([c], {a, c}) == [];
  }

  /** Three boxes of that kind exist: (1,1)-(3,3), (2,2)-(5,5) and (4,4)-(6,6). */
  lemma OrderExample(a: Box, b: Box, c: Box)
    requires a == Box(Star(1, 1), Star(3, 3)) && b == Box(Star(2, 2), Star(5, 5)) && c == Box(Star(4, 4), Star(6, 6))
    ensures a.Overlaps(b) && b.Overlaps(c) && !a.Overlaps(c)
    ensures Resolve([a, b, c]) == [c] && Resolve([b, a, c]) == []
  {
    ResolveKeepsLast(a, b, c);
    ResolveKeepsNothing(a, b, c);
  }
}
