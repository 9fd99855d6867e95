/** Four-directional adjacency between stars and the connected components it
    induces on a set of stars. */
module Components {
  import opened Geometry

  /** `b` lies immediately right of, below, left of or above `a` (no diagonals). */
  predicate Adjacent(a: Star, b: Star)
  {
    (a.line == b.line && (a.col + 1 == b.col || b.col + 1 == a.col)) ||
    (a.col == b.col && (a.line + 1 == b.line || b.line + 1 == a.line))
  }

  /** `p` walks from star to adjacent star without leaving `S`. */
  ghost predicate IsPath(S: set<Star>, p: seq<Star>)
  {
    |p| > 0 &&
    (forall i :: 0 <= i < |p| ==> p[i] in S) &&
    (forall i, j :: 0 <= i < |p| && j == i + 1 < |p| ==> Adjacent(p[i], p[j]))
  }

  ghost predicate Reachable(S: set<Star>, a: Star, b: Star)
  {
    exists p :: IsPath(S, p) && p[0] == a && p[|p| - 1] == b
  }

  /** The connected component of `a` in `S` (empty when `a` is not in `S`). */
  ghost function Component(S: set<Star>, a: Star): set<Star>
  {
    set b | b in S && Reachable(S, a, b)
  }

  /** No star of `S` outside `R` is adjacent to a star of `R`. */
  ghost predicate Closed(S: set<Star>, R: set<Star>)
  {
    forall x, y :: x in R && y in S && Adjacent(x, y) ==> y in R
  }

  lemma ReachableSelf(S: set<Star>, a: Star)
    requires a in S
    ensures a in Component(S, a)
  {
    assert IsPath(S, [a]);
  }

  /** A path can be extended by one adjacent star of `S`. */
  lemma ReachableStep(S: set<Star>, a: Star, v: Star, s: Star)
    requires Reachable(S, a, v) && s in S && Adjacent(v, s)
    ensures s in Component(S, a)
  {
    var p :| IsPath(S, p) && p[0] == a && p[|p| - 1] == v;
    var q := p + [s];
    assert IsPath(S, q);
  }

  /** A component contains every star of `S` adjacent to it. */
  lemma ComponentClosed(S: set<Star>, a: Star)
    ensures Closed(S, Component(S, a))
  {
    forall x, y | x in Component(S, a) && y in S && Adjacent(x, y)
      ensures y in Component(S, a)
    {
      ReachableStep(S, a, x, y);
    }
  }

  /** Every star on a path that starts in a closed set stays in it. */
  lemma {:induction false} PathStaysInClosed(S: set<Star>, R: set<Star>, p: seq<Star>, j: nat)
    requires IsPath(S, p) && Closed(S, R) && p[0] in R && j < |p|
    ensures p[j] in R
  {
    if j > 0 {
      PathStaysInClosed(S, R, p, j - 1);
      assert Adjacent(p[j - 1], p[j]);
    }
  }

  /** A path that ends in a closed set started in it (adjacency is symmetric). */
  lemma {:induction false} PathStartsInClosed(S: set<Star>, R: set<Star>, p: seq<Star>, j: nat)
    requires IsPath(S, p) && Closed(S, R) && j < |p| && p[j] in R
    ensures p[0] in R
  {
    if j > 0 {
      assert Adjacent(p[j], p[j - 1]);
      PathStartsInClosed(S, R, p, j - 1);
    }
  }

  /** A closed set holding `a` (when `a` is in `S`) holds the whole component of `a`. */
  lemma ClosedHoldsComponent(S: set<Star>, R: set<Star>, a: Star)
    requires Closed(S, R) && (a in S ==> a in R)
    ensures Component(S, a) <= R
  {
    forall b | b in Component(S, a) ensures b in R {
      var p :| IsPath(S, p) && p[0] == a && p[|p| - 1] == b;
      PathStaysInClosed(S, R, p, |p| - 1);
    }
  }

  /** Taking away a union of whole components (a closed subset `R`) leaves the
      component of every remaining star as it was. */
  lemma ComponentOfRemainder(S: set<Star>, R: set<Star>, a: Star)
    requires R <= S && Closed(S, R) && a in S && a !in R
    ensures Component(S - R, a) == Component(S, a)
  {
    forall b | b in Component(S - R, a) ensures b in Component(S, a) {
      var p :| IsPath(S - R, p) && p[0] == a && p[|p| - 1] == b;
      assert IsPath(S, p);
    }
    forall b | b in Component(S, a) ensures b in Component(S - R, a) {
      var p :| IsPath(S, p) && p[0] == a && p[|p| - 1] == b;
      forall j | 0 <= j < |p| ensures p[j] !in R {
        if p[j] in R {
          PathStartsInClosed(S, R, p, j);
        }
      }
      assert IsPath(S - R, p);
    }
  }

  lemma ClosedUnion(S: set<Star>, A: set<Star>, B: set<Star>)
    requires Closed(S, A) && Closed(S, B)
    ensures Closed(S, A + B)
  {
  }

  /** The union of a list of sets of stars. */
  ghost function UnionOf(cs: seq<set<Star>>): set<Star>
  {
    if cs == [] then {} else UnionOf(cs[..|cs| - 1]) + cs[|cs| - 1]
  }

  lemma {:induction false} UnionOfMembers(cs: seq<set<Star>>)
    ensures forall x :: x in UnionOf(cs) <==> exists i :: 0 <= i < |cs| && x in cs[i]
  {
    if cs != [] {
      var init := cs[..|cs| - 1];
      UnionOfMembers(init);
      assert forall i :: 0 <= i < |init| ==> init[i] == cs[i];
    }
  }

  lemma {:induction false} UnionOfHolds(cs: seq<set<Star>>, i: nat)
    requires i < |cs|
    ensures cs[i] <= UnionOf(cs)
  {
    if i < |cs| - 1 {
      UnionOfHolds(cs[..|cs| - 1], i);
    }
  }
}
