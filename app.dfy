/** The program's state and its imperative stages: reading lines into the set
    of unprocessed stars, draining that set component by component into boxes,
    and pruning the overlapping boxes; then the whole pipeline. */
module App {
  import opened Seqs
  import opened Geometry
  import opened Components
  import opened Input
  import opened Resolver
  import opened Largest

  /** `State`: the unprocessed stars (an insertion-ordered set, here a sequence
      without duplicates) and the list of boxes found so far. */
  class State {
    var unprocessed: seq<Star>
    var bbs: seq<Box>

    ghost predicate Valid()
      reads this
    {
      NoDup(unprocessed) && forall b :: b in bbs ==> b.WellFormed()
    }

    constructor ()
      ensures Valid() && unprocessed == [] && bbs == []
    {
      unprocessed := [];
      bbs := [];
    }

    /** `processInputLine`: adds the stars of `line`, numbered `lineNum`. */
    method ProcessInputLine(lineNum: int, line: string)
      requires Valid()
      modifies this
      ensures Valid() && bbs == old(bbs)
      ensures unprocessed == AddAll(old(unprocessed), LineStars(lineNum, line))
      ensures Elems(unprocessed) == Elems(old(unprocessed)) + Elems(LineStars(lineNum, line))
    {
      unprocessed := AddAll(unprocessed, LineStars(lineNum, line));
    }

    /** `processPointRec`, with the recursion replaced by a stack of stars still
        to try: a star that is still unprocessed is removed, widens `box`, and
        has its four neighbours pushed so that they are tried right, bottom,
        left, top. */
    method Traverse(star: Star, box: BoundingBox)
      requires Valid() && box.Valid()
      modifies this, box
      ensures Valid() && box.Valid() && bbs == old(bbs)
      ensures unprocessed == Without(old(unprocessed), Component(Elems(old(unprocessed)), star))
      ensures IsBoundingBoxOf(box.Value(), Corners(old(box.Value())) + Component(Elems(old(unprocessed)), star))
      ensures star !in old(unprocessed) ==> unprocessed == old(unprocessed) && box.Value() == old(box.Value())
    {
      ghost var u0 := unprocessed;
      ghost var b0 := box.Value();
      ghost var visited: set<Star> := {};
      var work := [star];
      TraverseStart(u0, b0, star);
      while work != []
        invariant Valid() && box.Valid() && bbs == old(bbs)
        invariant TraverseInv(u0, b0, star, visited, work, unprocessed, box.Value())
        decreases |unprocessed|, |work|
      {
        visited, work := TryNext(star, box, u0, b0, visited, work);
      }
      TraverseDone(u0, b0, star, visited, unprocessed, box.Value());
    }

    /** One call of `processPointRec`: the star on top of the stack is popped;
        if it is still unprocessed it is removed, widens `box`, and its
        neighbours are pushed. */
    method TryNext(star: Star, box: BoundingBox, ghost u0: seq<Star>, ghost b0: Box, ghost visited: set<Star>,
                   work: seq<Star>) returns (ghost visited': set<Star>, work': seq<Star>)
      requires Valid() && box.Valid() && work != []
      requires TraverseInv(u0, b0, star, visited, work, unprocessed, box.Value())
      modifies this, box
      ensures Valid() && box.Valid() && bbs == old(bbs)
      ensures TraverseInv(u0, b0, star, visited', work', unprocessed, box.Value())
      ensures |unprocessed| < |old(unprocessed)| || (unprocessed == old(unprocessed) && |work'| < |work|)
    {
      var s := work[|work| - 1];
      if s in unprocessed {
        TraverseVisit(u0, b0, star, visited, work, unprocessed, box.Value());
        unprocessed := Without(unprocessed, {s});
        box.ModifyBounds(s);
        visited' := visited + {s};
        work' := work[..|work| - 1] + Neighbours(s);
      } else {
        TraverseSkip(u0, b0, star, visited, work, unprocessed, box.Value());
        visited' := visited;
        work' := work[..|work| - 1];
      }
    }

    /** `processPoint`: a new one-star box at `star`, grown over the component
        of `star` and appended to the box list. */
    method ProcessPoint(star: Star)
      requires Valid()
      modifies this
      ensures Valid()
      ensures unprocessed == Without(old(unprocessed), Component(Elems(old(unprocessed)), star))
      ensures |bbs| == |old(bbs)| + 1 && bbs[..|old(bbs)|] == old(bbs)
      ensures IsBoundingBoxOf(bbs[|old(bbs)|], {star} + Component(Elems(old(unprocessed)), star))
    {
      var box := new BoundingBox(star, star);
      assert Corners(box.Value()) == {star};
      Traverse(star, box);
      bbs := bbs + [box.Value()];
    }

    /** `findBoundingBoxes`: while stars remain, the earliest remaining star
        seeds a new box. The ghost results name, for each appended box, its
        seed and the connected component it bounds. */
    method FindBoundingBoxes() returns (ghost seeds: seq<Star>, ghost comps: seq<set<Star>>)
      requires Valid()
      modifies this
      ensures Valid() && unprocessed == []
      ensures |bbs| >= |old(bbs)| && bbs[..|old(bbs)|] == old(bbs)
      ensures FoundComponents(old(unprocessed), seeds, comps, bbs[|old(bbs)|..])
    {
      ghost var u0 := unprocessed;
      ghost var bbs0 := bbs;
      ghost var done: set<Star> := {};
      seeds, comps := [], [];
      FindStart(u0, bbs0);
      while |unprocessed| > 0
        invariant Valid()
        invariant FindInv(u0, bbs0, done, seeds, comps, unprocessed, bbs)
        decreases |unprocessed|
      {
        var star := unprocessed[0];
        ghost var u, b := unprocessed, bbs;
        ProcessPoint(star);
        FindStep(u0, bbs0, done, seeds, comps, u, b, bbs);
        seeds, comps := seeds + [star], comps + [Component(Elems(u0), star)];
        done := done + Component(Elems(u0), star);
      }
      FindDone(u0, bbs0, done, seeds, comps, bbs);
    }

    /** `processOverlaps`: the walk over the box list with `head` and a copy of
        its `tail`; `removeAll` takes out every box equal to one the head
        overlaps, `remove` the first box equal to the head. */
    method ProcessOverlaps()
      requires Valid()
      modifies this
      ensures Valid() && unprocessed == old(unprocessed)
      ensures bbs == Resolve(old(bbs))
    {
      var head := Head(bbs);
      var tail := Tail(bbs);
      ghost var k := 0;
      while head.Some? && tail != []
        invariant Valid() && unprocessed == old(unprocessed)
        invariant WalkAt(bbs, k, head, tail)
        invariant ResolveFrom(bbs, k) == Resolve(old(bbs))
        decreases |bbs|, |bbs| - k
      {
        head, tail, k := OverlapStep(head, tail, k);
      }
    }

    /** One pass of the `processOverlaps` loop body with `head` at position `k`. */
    method OverlapStep(head: Option<Box>, tail: seq<Box>, ghost k: nat)
      returns (head': Option<Box>, tail': seq<Box>, ghost k': nat)
      requires Valid() && WalkAt(bbs, k, head, tail) && head.Some? && tail != []
      modifies this
      ensures Valid() && unprocessed == old(unprocessed)
      ensures WalkAt(bbs, k', head', tail')
      ensures ResolveFrom(bbs, k') == ResolveFrom(old(bbs), k)
      ensures |bbs| < |old(bbs)| || (bbs == old(bbs) && k' == k + 1)
    {
      ghost var before := bbs;
      ResolveFromStep(before, k);
      var overlaps := OverlapsWith(tail, head.value);
      bbs := Without(bbs, Elems(overlaps));
      if overlaps != [] {
        assert overlaps[0] in before[k + 1..] && overlaps[0] in Elems(overlaps);
        bbs := RemoveFirst(bbs, head.value);
        head' := Head(bbs);
        tail' := Tail(bbs);
        k' := 0;
      } else {
        assert Elems(overlaps) == {};
        assert before[k + 1..][1..] == before[k + 2..];
        head' := Head(tail);
        tail' := Tail(tail);
        k' := k + 1;
      }
    }
  }

  /** The walk of `processOverlaps` is at position `k` of `bbs`: `head` is the
      box there and `tail` the boxes after it (none and empty past the end). */
  ghost predicate WalkAt(bbs: seq<Box>, k: nat, head: Option<Box>, tail: seq<Box>)
  {
    k <= |bbs| &&
    head == (if k < |bbs| then Some(bbs[k]) else None) &&
    tail == (if k < |bbs| then bbs[k + 1..] else [])
  }

  /** The neighbours of `s` in the order they are pushed, so that they are
      popped right, bottom, left, top, the order of the recursive calls. */
  function Neighbours(s: Star): (r: seq<Star>)
    ensures forall n :: n in r <==> Adjacent(s, n)
  {
    var right, bottom := Star(s.line, s.col + 1), Star(s.line + 1, s.col);
    var left, top := Star(s.line, s.col - 1), Star(s.line - 1, s.col);
    [top, left, bottom, right]
  }

  /** What the traversal keeps true: every star it removed (`visited`) is in
      the component of `star`; every star still to try is `star` or next to a
      removed one; and every unremoved star of `s0` next to a removed one, and
      `star` itself until removed, is still to be tried. */
  ghost predicate TraversalInvariant(s0: set<Star>, star: Star, visited: set<Star>, work: seq<Star>)
  {
    visited <= Component(s0, star) &&
    (star !in s0 ==> visited == {}) &&
    (forall w :: w in work ==> w == star || exists v :: v in visited && Adjacent(v, w)) &&
    (forall v, n :: v in visited && n in s0 && n !in visited && Adjacent(v, n) ==> n in work) &&
    (star in s0 && star !in visited ==> star in work)
  }

  lemma SkipStep(s0: set<Star>, star: Star, visited: set<Star>, work: seq<Star>)
    requires TraversalInvariant(s0, star, visited, work) && work != []
    requires work[|work| - 1] !in s0 || work[|work| - 1] in visited
    ensures TraversalInvariant(s0, star, visited, work[..|work| - 1])
  {
    var last := work[|work| - 1];
    var rest := work[..|work| - 1];
    assert work == rest + [last];
    forall w | w in rest ensures w == star || exists v :: v in visited && Adjacent(v, w) {
      assert w in work;
    }
    forall v, n | v in visited && n in s0 && n !in visited && Adjacent(v, n) ensures n in rest {
      assert n in work && n != last;
    }
  }

  lemma VisitStep(s0: set<Star>, star: Star, visited: set<Star>, work: seq<Star>)
    requires TraversalInvariant(s0, star, visited, work) && work != []
    requires work[|work| - 1] in s0 && work[|work| - 1] !in visited
    ensures TraversalInvariant(s0, star, visited + {work[|work| - 1]}, work[..|work| - 1] + Neighbours(work[|work| - 1]))
  {
    var s := work[|work| - 1];
    var rest := work[..|work| - 1];
    var work' := rest + Neighbours(s);
    var visited' := visited + {s};
    assert work == rest + [s];
    assert s in work;
    assert forall w :: w in work ==> w in rest || w == s;
    if s == star {
      ReachableSelf(s0, star);
    } else {
      var v :| v in visited && Adjacent(v, s);
      ReachableStep(s0, star, v, s);
    }
    forall w | w in work' ensures w == star || exists v :: v in visited' && Adjacent(v, w) {
      if w in Neighbours(s) {
        assert s in visited' && Adjacent(s, w);
      } else {
        assert w in rest;
        assert w in work;
        if w != star {
          var v :| v in visited && Adjacent(v, w);
          assert v in visited';
        }
      }
    }
    forall v, n | v in visited' && n in s0 && n !in visited' && Adjacent(v, n) ensures n in work' {
      if v == s {
        assert n in Neighbours(s);
      } else {
        assert n in work;
      }
    }
  }

  /** The whole loop state of `Traverse`: `u` is the initial list less the
      removed stars and `b` bounds the initial box together with them. */
  ghost predicate TraverseInv(u0: seq<Star>, b0: Box, star: Star, visited: set<Star>, work: seq<Star>,
                              u: seq<Star>, b: Box)
  {
    u == Without(u0, visited) &&
    TraversalInvariant(Elems(u0), star, visited, work) &&
    IsBoundingBoxOf(b, Corners(b0) + visited)
  }

  lemma TraverseStart(u0: seq<Star>, b0: Box, star: Star)
    requires b0.WellFormed()
    ensures TraverseInv(u0, b0, star, {}, [star], u0, b0)
  {
    CornersBound(b0);
    assert Corners(b0) + {} == Corners(b0);
  }

  lemma TraverseVisit(u0: seq<Star>, b0: Box, star: Star, visited: set<Star>, work: seq<Star>, u: seq<Star>, b: Box)
    requires TraverseInv(u0, b0, star, visited, work, u, b) && work != [] && work[|work| - 1] in u
    ensures |Without(u, {work[|work| - 1]})| < |u|
    ensures TraverseInv(u0, b0, star, visited + {work[|work| - 1]}, work[..|work| - 1] + Neighbours(work[|work| - 1]),
                        Without(u, {work[|work| - 1]}), b.Widen(work[|work| - 1]))
  {
    var s := work[|work| - 1];
    VisitRemoves(u0, visited, u, s);
    VisitStep(Elems(u0), star, visited, work);
    VisitWidens(b0, visited, b, s);
  }

  lemma VisitRemoves(u0: seq<Star>, visited: set<Star>, u: seq<Star>, s: Star)
    requires u == Without(u0, visited) && s in u
    ensures s in Elems(u0) && s !in visited
    ensures |Without(u, {s})| < |u| && Without(u, {s}) == Without(u0, visited + {s})
  {
    WithoutWithout(u0, visited, {s});
  }

  lemma VisitWidens(b0: Box, visited: set<Star>, b: Box, s: Star)
    requires IsBoundingBoxOf(b, Corners(b0) + visited)
    ensures IsBoundingBoxOf(b.Widen(s), Corners(b0) + (visited + {s}))
  {
    WidenExtends(b, Corners(b0) + visited, s);
    assert Corners(b0) + visited + {s} == Corners(b0) + (visited + {s});
  }

  lemma TraverseSkip(u0: seq<Star>, b0: Box, star: Star, visited: set<Star>, work: seq<Star>, u: seq<Star>, b: Box)
    requires TraverseInv(u0, b0, star, visited, work, u, b) && work != [] && work[|work| - 1] !in u
    ensures TraverseInv(u0, b0, star, visited, work[..|work| - 1], u, b)
  {
    SkipStep(Elems(u0), star, visited, work);
  }

  lemma TraverseDone(u0: seq<Star>, b0: Box, star: Star, visited: set<Star>, u: seq<Star>, b: Box)
    requires TraverseInv(u0, b0, star, visited, [], u, b) && b0.WellFormed()
    ensures u == Without(u0, Component(Elems(u0), star))
    ensures IsBoundingBoxOf(b, Corners(b0) + Component(Elems(u0), star))
    ensures star !in u0 ==> u == u0 && b == b0
  {
    TraversalDone(Elems(u0), star, visited);
    if star !in u0 {
      assert visited == {};
      assert Corners(b0) + visited == Corners(b0);
      assert IsBoundingBoxOf(b, Corners(b0));
      CornersBound(b0);
      BoundingBoxUnique(b, b0, Corners(b0));
    }
  }

  lemma TraversalDone(s0: set<Star>, star: Star, visited: set<Star>)
    requires TraversalInvariant(s0, star, visited, [])
    ensures visited == Component(s0, star)
  {
    ClosedHoldsComponent(s0, visited, star);
  }

  /** The loop state of `findBoundingBoxes`, in four parts below. */
  ghost predicate FindInv(u0: seq<Star>, bbs0: seq<Box>, done: set<Star>, seeds: seq<Star>,
                          comps: seq<set<Star>>, u: seq<Star>, bbs: seq<Box>)
  {
    DoneOk(u0, done, comps, u) && CompsOk(u0, seeds, comps) && SeedsFirst(u0, seeds, comps) &&
    BoxesOk(bbs0, comps, bbs)
  }

  /** `done`, the union of the components found so far, is closed under
      adjacency, and the remaining list is the initial one less `done`. */
  ghost predicate DoneOk(u0: seq<Star>, done: set<Star>, comps: seq<set<Star>>, u: seq<Star>)
  {
    done == UnionOf(comps) && done <= Elems(u0) && Closed(Elems(u0), done) && u == Without(u0, done)
  }

  /** Each component found is the component of its seed, and they are pairwise disjoint. */
  ghost predicate CompsOk(u0: seq<Star>, seeds: seq<Star>, comps: seq<set<Star>>)
  {
    |seeds| == |comps| &&
    (forall i :: 0 <= i < |comps| ==> seeds[i] in comps[i] && comps[i] == Component(Elems(u0), seeds[i])) &&
    (forall i, j :: 0 <= i < j < |comps| ==> comps[i] !! comps[j])
  }

  /** Each seed was the first star left when it was taken. */
  ghost predicate SeedsFirst(u0: seq<Star>, seeds: seq<Star>, comps: seq<set<Star>>)
    requires |seeds| == |comps|
  {
    forall i :: 0 <= i < |comps| ==>
      Without(u0, UnionOf(comps[..i])) != [] && seeds[i] == Without(u0, UnionOf(comps[..i]))[0]
  }

  /** One new box per component, each the bounding box of its component. */
  ghost predicate BoxesOk(bbs0: seq<Box>, comps: seq<set<Star>>, bbs: seq<Box>)
  {
    |bbs| == |bbs0| + |comps| && bbs[..|bbs0|] == bbs0 &&
    (forall i :: 0 <= i < |comps| ==> IsBoundingBoxOf(bbs[|bbs0|..][i], comps[i]))
  }

  lemma FindStart(u0: seq<Star>, bbs0: seq<Box>)
    ensures FindInv(u0, bbs0, {}, [], [], u0, bbs0)
  {
  }

  lemma StepDone(u0: seq<Star>, done: set<Star>, comps: seq<set<Star>>, u: seq<Star>)
    requires DoneOk(u0, done, comps, u) && u != []
    ensures Component(Elems(u), u[0]) == Component(Elems(u0), u[0])
    ensures {u[0]} + Component(Elems(u), u[0]) == Component(Elems(u0), u[0])
    ensures u[0] in Component(Elems(u0), u[0]) && Component(Elems(u0), u[0]) !! done
    ensures |Without(u, Component(Elems(u0), u[0]))| < |u|
    ensures DoneOk(u0, done + Component(Elems(u0), u[0]), comps + [Component(Elems(u0), u[0])],
                   Without(u, Component(Elems(u0), u[0])))
  {
    var c := Component(Elems(u0), u[0]);
    RemainderComponent(u0, done, u);
    ComponentClosed(Elems(u0), u[0]);
    ClosedUnion(Elems(u0), done, c);
    WithoutWithout(u0, done, c);
    assert (comps + [c])[..|comps|] == comps;
  }

  /** The component of the first remaining star is the same in what remains
      as in the whole set, and lies outside `done`. */
  lemma RemainderComponent(u0: seq<Star>, done: set<Star>, u: seq<Star>)
    requires u == Without(u0, done) && done <= Elems(u0) && Closed(Elems(u0), done) && u != []
    ensures Component(Elems(u), u[0]) == Component(Elems(u0), u[0])
    ensures {u[0]} + Component(Elems(u), u[0]) == Component(Elems(u0), u[0])
    ensures u[0] in Component(Elems(u0), u[0]) && Component(Elems(u0), u[0]) !! done
  {
    var s0 := Elems(u0);
    var star := u[0];
    assert Elems(u) == s0 - done;
    ComponentOfRemainder(s0, done, star);
    ReachableSelf(s0, star);
    assert {star} + Component(s0, star) == Component(s0, star);
  }

  lemma StepComps(u0: seq<Star>, seeds: seq<Star>, comps: seq<set<Star>>, star: Star, c: set<Star>)
    requires CompsOk(u0, seeds, comps)
    requires c == Component(Elems(u0), star) && star in c && c !! UnionOf(comps)
    ensures CompsOk(u0, seeds + [star], comps + [c])
  {
    var comps' := comps + [c];
    forall i, j | 0 <= i < j < |comps'| ensures comps'[i] !! comps'[j] {
      assert comps'[i] == comps[i];
      if j == |comps| {
        UnionOfHolds(comps, i);
      } else {
        assert comps'[j] == comps[j];
      }
    }
  }

  lemma StepSeeds(u0: seq<Star>, seeds: seq<Star>, comps: seq<set<Star>>, star: Star, c: set<Star>)
    requires |seeds| == |comps| && SeedsFirst(u0, seeds, comps)
    requires Without(u0, UnionOf(comps)) != [] && star == Without(u0, UnionOf(comps))[0]
    ensures SeedsFirst(u0, seeds + [star], comps + [c])
  {
    var comps', seeds' := comps + [c], seeds + [star];
    forall i | 0 <= i < |comps'|
      ensures Without(u0, UnionOf(comps'[..i])) != [] && seeds'[i] == Without(u0, UnionOf(comps'[..i]))[0]
    {
      if i < |comps| {
        assert comps'[..i] == comps[..i] && seeds'[i] == seeds[i];
      } else {
        assert comps'[..i] == comps;
      }
    }
  }

  lemma StepBoxes(bbs0: seq<Box>, comps: seq<set<Star>>, bbs: seq<Box>, bbs': seq<Box>, c: set<Star>)
    requires BoxesOk(bbs0, comps, bbs)
    requires |bbs'| == |bbs| + 1 && bbs'[..|bbs|] == bbs && IsBoundingBoxOf(bbs'[|bbs|], c)
    ensures BoxesOk(bbs0, comps + [c], bbs')
  {
    assert bbs'[|bbs0|..] == bbs[|bbs0|..] + [bbs'[|bbs|]];
  }

  lemma FindStep(u0: seq<Star>, bbs0: seq<Box>, done: set<Star>, seeds: seq<Star>, comps: seq<set<Star>>,
                 u: seq<Star>, bbs: seq<Box>, bbs': seq<Box>)
    requires FindInv(u0, bbs0, done, seeds, comps, u, bbs) && u != []
    requires |bbs'| == |bbs| + 1 && bbs'[..|bbs|] == bbs
    requires IsBoundingBoxOf(bbs'[|bbs|], {u[0]} + Component(Elems(u), u[0]))
    ensures |Without(u, Component(Elems(u), u[0]))| < |u|
    ensures FindInv(u0, bbs0, done + Component(Elems(u0), u[0]), seeds + [u[0]],
                    comps + [Component(Elems(u0), u[0])], Without(u, Component(Elems(u), u[0])), bbs')
  {
    var c := Component(Elems(u0), u[0]);
    StepDone(u0, done, comps, u);
    StepComps(u0, seeds, comps, u[0], c);
    StepSeeds(u0, seeds, comps, u[0], c);
    StepBoxes(bbs0, comps, bbs, bbs', c);
  }

  /** What `findBoundingBoxes` achieves, starting from the list `u0`, with
      `boxes` the boxes it appends: one box per seed; each seed's component is taken whole,
      the components are disjoint and together hold every star; each new box is
      the bounding box of its component; each seed was the earliest star left. */
  ghost predicate FoundComponents(u0: seq<Star>, seeds: seq<Star>, comps: seq<set<Star>>, boxes: seq<Box>)
  {
    |seeds| == |comps| && |boxes| == |comps| &&
    (forall i :: 0 <= i < |comps| ==> seeds[i] in comps[i] && comps[i] == Component(Elems(u0), seeds[i])) &&
    (forall i, j :: 0 <= i < j < |comps| ==> comps[i] !! comps[j]) &&
    UnionOf(comps) == Elems(u0) &&
    (forall i :: 0 <= i < |boxes| ==> IsBoundingBoxOf(boxes[i], comps[i])) &&
    SeedsFirst(u0, seeds, comps)
  }

  lemma FindDone(u0: seq<Star>, bbs0: seq<Box>, done: set<Star>, seeds: seq<Star>, comps: seq<set<Star>>, bbs: seq<Box>)
    requires FindInv(u0, bbs0, done, seeds, comps, [], bbs)
    ensures |bbs| >= |bbs0| && bbs[..|bbs0|] == bbs0
    ensures FoundComponents(u0, seeds, comps, bbs[|bbs0|..])
  {
    DoneCovers(u0, done, comps);
  }

  lemma DoneCovers(u0: seq<Star>, done: set<Star>, comps: seq<set<Star>>)
    requires DoneOk(u0, done, comps, [])
    ensures UnionOf(comps) == Elems(u0)
  {
    forall s | s in u0 ensures s in done {
      assert s !in Without(u0, done);
    }
  }

  /** Boxes taken in order from a list of pairwise non-overlapping boxes do not overlap either. */
  lemma {:induction false} SubseqDisjoint(a: seq<Box>, b: seq<Box>)
    requires IsSubseq(a, b) && PairwiseDisjoint(b)
    ensures PairwiseDisjoint(a)
    decreases |b|
  {
    if b != [] {
      assert PairwiseDisjoint(b[1..]) by {
        forall i, j | 0 <= i < j < |b[1..]| ensures !b[1..][i].Overlaps(b[1..][j]) {
          assert b[1..][i] == b[i + 1] && b[1..][j] == b[j + 1];
        }
      }
      if a != [] && a[0] == b[0] && IsSubseq(a[1..], b[1..]) {
        SubseqDisjoint(a[1..], b[1..]);
        SubseqElems(a[1..], b[1..]);
        forall i, j | 0 <= i < j < |a| ensures !a[i].Overlaps(a[j]) {
          if i == 0 {
            assert a[j] == a[1..][j - 1];
            assert a[j] in a[1..];
            var m :| 0 <= m < |b[1..]| && b[1..][m] == a[j];
            assert b[m + 1] == a[j];
          } else {
            assert a[i] == a[1..][i - 1] && a[j] == a[1..][j - 1];
          }
        }
      } else {
        SubseqDisjoint(a, b[1..]);
      }
    }
  }

  /** The whole program without its input and output: the lines before the
      first empty one are read as rows 1, 2, ...; the result is what `main`
      prints, one box per line. The ghost results record the intermediate
      stages: the stars read, in reading order, the seed and component of each
      box found, and the boxes before overlap elimination. */
  method Run(lines: seq<string>)
    returns (boxes: seq<Box>, ghost u0: seq<Star>, ghost seeds: seq<Star>, ghost comps: seq<set<Star>>, ghost found: seq<Box>)
    ensures Elems(u0) == GridStars(TakeUntilEmpty(lines)) && RowMajor(u0)
    ensures FoundComponents(u0, seeds, comps, found)
    ensures boxes == FindLargestBoxes(Resolve(found))
    ensures forall b :: b in Resolve(found) && (forall c :: c in Resolve(found) ==> c.Area() <= b.Area()) ==> b in boxes
    ensures PairwiseDisjoint(boxes)
    ensures forall b, c :: b in boxes && c in boxes ==> b.Area() == c.Area()
    ensures forall b :: b in boxes ==> BoundsComponent(b, GridStars(TakeUntilEmpty(lines)))
    ensures GridStars(TakeUntilEmpty(lines)) == {} ==> boxes == []
  {
    var state := ReadInput(TakeUntilEmpty(lines));
    u0 := state.unprocessed;
    seeds, comps := state.FindBoundingBoxes();
    found := state.bbs;
    assert found[0..] == found;
    state.ProcessOverlaps();
    boxes := FindLargestBoxes(state.bbs);
    PipelineResult(u0, seeds, comps, found);
  }

  /** The reading loop of `main`: line `i + 1` of `input` goes through
      `processInputLine`. */
  method ReadInput(input: seq<string>) returns (state: State)
    ensures fresh(state) && state.Valid() && state.bbs == []
    ensures Elems(state.unprocessed) == GridStars(input)
    ensures RowMajor(state.unprocessed)
  {
    state := new State();
    var i := 0;
    while i < |input|
      invariant 0 <= i <= |input|
      invariant fresh(state) && state.Valid() && state.bbs == []
      invariant Elems(state.unprocessed) == GridStars(input[..i])
      invariant RowMajor(state.unprocessed)
      invariant forall k :: 0 <= k < |state.unprocessed| ==> state.unprocessed[k].line <= i
    {
      assert input[..i + 1][..i] == input[..i];
      AddLineAppends(state.unprocessed, i + 1, input[i]);
      state.ProcessInputLine(i + 1, input[i]);
      i := i + 1;
    }
    assert input[..i] == input;
  }

  /** `b` is the bounding box of the whole connected component of some star of `S`. */
  ghost predicate BoundsComponent(b: Box, S: set<Star>)
  {
    exists s {:trigger Component(S, s)} :: s in S && IsBoundingBoxOf(b, Component(S, s))
  }

  /** The boxes `findBoundingBoxes` leaves, once pruned by `processOverlaps`
      and reduced by `findLargestBoxes`, are pairwise non-overlapping, of one
      area, and each the bounding box of a whole component of the stars. */
  lemma PipelineResult(u0: seq<Star>, seeds: seq<Star>, comps: seq<set<Star>>, found: seq<Box>)
    requires FoundComponents(u0, seeds, comps, found)
    ensures PairwiseDisjoint(FindLargestBoxes(Resolve(found)))
    ensures forall b, c :: b in FindLargestBoxes(Resolve(found)) && c in FindLargestBoxes(Resolve(found)) ==>
              b.Area() == c.Area()
    ensures forall b :: b in FindLargestBoxes(Resolve(found)) ==>
              BoundsComponent(b, Elems(u0))
    ensures u0 == [] ==> FindLargestBoxes(Resolve(found)) == []
    ensures forall b :: b in Resolve(found) && (forall c :: c in Resolve(found) ==> c.Area() <= b.Area()) ==>
              b in FindLargestBoxes(Resolve(found))
  {
    var resolved := Resolve(found);
    var boxes := FindLargestBoxes(resolved);
    ResolveSubseq(found);
    ResolveDisjoint(found);
    FindLargestBoxesSpec(resolved);
    SubseqDisjoint(boxes, resolved);
    FoundBoxesBound(u0, seeds, comps, found);
    if u0 == [] {
      NoStarsNoBoxes(u0, seeds, comps, found);
    }
  }

  lemma FoundBoxesBound(u0: seq<Star>, seeds: seq<Star>, comps: seq<set<Star>>, found: seq<Box>)
    requires FoundComponents(u0, seeds, comps, found)
    ensures forall b :: b in found ==> BoundsComponent(b, Elems(u0))
  {
    forall b | b in found ensures BoundsComponent(b, Elems(u0)) {
      var j :| 0 <= j < |found| && found[j] == b;
      assert seeds[j] in comps[j];
      assert IsBoundingBoxOf(b, Component(Elems(u0), seeds[j]));
    }
  }

  lemma NoStarsNoBoxes(u0: seq<Star>, seeds: seq<Star>, comps: seq<set<Star>>, found: seq<Box>)
    requires FoundComponents(u0, seeds, comps, found) && u0 == []
    ensures found == [] && FindLargestBoxes(Resolve(found)) == []
  {
    if |comps| > 0 {
      assert false;
    }
  }
}
