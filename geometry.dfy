/** Stars (marker coordinates) and bounding boxes on the integer grid:
    the data classes `Star` and `BoundingBox` of the program. */
module Geometry {

  /** A marker at 1-based `line` and `col`; equality is by coordinates. */
  datatype Star = Star(line: int, col: int)

  /** The value of a bounding box: its two corners. Two boxes are equal when
      their corners are, as for the data class. */
  datatype Box = Box(topLeft: Star, bottomRight: Star) {

    /** The invariant the data class checks when it is built. */
    predicate WellFormed()
    {
      topLeft.line <= bottomRight.line && topLeft.col <= bottomRight.col
    }

    predicate Contains(s: Star)
    {
      topLeft.line <= s.line <= bottomRight.line && topLeft.col <= s.col <= bottomRight.col
    }

    /** Number of grid cells the box covers: for a well-formed box at least
        one, and at least its width and its height. */
    function Area(): (r: int)
      ensures WellFormed() ==> r >= 1
      ensures WellFormed() ==> r >= 1 + bottomRight.col - topLeft.col && r >= 1 + bottomRight.line - topLeft.line
    {
      var w, h := 1 + bottomRight.col - topLeft.col, 1 + bottomRight.line - topLeft.line;
      ProductCoversFactors(w, h);
      w * h
    }

    /** The box after `modifyBounds(s)`: each corner moves out just far enough to take in `s`. */
    function Widen(s: Star): (r: Box)
      ensures r.Contains(s)
      ensures forall t :: Contains(t) ==> r.Contains(t)
    {
      Box(Star(if topLeft.line > s.line then s.line else topLeft.line,
               if topLeft.col > s.col then s.col else topLeft.col),
          Star(if bottomRight.line < s.line then s.line else bottomRight.line,
               if bottomRight.col < s.col then s.col else bottomRight.col))
    }

    /** `overlaps`: the line ranges and the column ranges both overlap. */
    function Overlaps(other: Box): (r: bool)
      ensures WellFormed() && other.WellFormed() ==>
                (r <==> bottomRight.line > other.topLeft.line && other.bottomRight.line > topLeft.line &&
                        bottomRight.col > other.topLeft.col && other.bottomRight.col > topLeft.col)
    {
      EdgeOverlaps(topLeft.line, bottomRight.line, other.topLeft.line, other.bottomRight.line) &&
      EdgeOverlaps(topLeft.col, bottomRight.col, other.topLeft.col, other.bottomRight.col)
    }
  }

  /** `edgeOverlaps`: the ranges properly cross, or one strictly swallows the
      other. On ordered ranges the two "swallows" clauses add nothing to the
      strict crossing test. */
  function EdgeOverlaps(min1: int, max1: int, min2: int, max2: int): (r: bool)
    ensures min1 <= max1 && min2 <= max2 ==> (r <==> max1 > min2 && max2 > min1)
  {
    (max1 > min2 && max2 > min1) ||
    (min1 < min2 && max1 > max2) ||
    (min1 > min2 && max1 < max2)
  }

  /** `b` is the smallest box holding every star of the non-empty set `S`:
      it holds them all and each of its four sides passes through one of them. */
  ghost predicate IsBoundingBoxOf(b: Box, S: set<Star>)
  {
    S != {} &&
    (forall s :: s in S ==> b.Contains(s)) &&
    (exists s :: s in S && s.line == b.topLeft.line) &&
    (exists s :: s in S && s.col == b.topLeft.col) &&
    (exists s :: s in S && s.line == b.bottomRight.line) &&
    (exists s :: s in S && s.col == b.bottomRight.col)
  }

  /** The corners of a box, as the set of stars a box of that size is the bounding box of. */
  function Corners(b: Box): set<Star>
  {
    {b.topLeft, b.bottomRight}
  }

  /** A product of positive factors is at least each of them. */
  lemma ProductCoversFactors(w: int, h: int)
    ensures w >= 1 && h >= 1 ==> w * h >= w && w * h >= h
  {
    if w >= 1 && h >= 1 {
      assert (w - 1) * h >= 0;
      assert w * (h - 1) >= 0;
    }
  }

  /** A box is the bounding box of its own corners exactly when it is well formed. */
  lemma CornersBound(b: Box)
    ensures IsBoundingBoxOf(b, Corners(b)) <==> b.WellFormed()
  {
    if b.WellFormed() {
      assert b.topLeft in Corners(b) && b.bottomRight in Corners(b);
    }
  }

  /** The bounding box of a set is unique, so the order in which stars are
      added does not matter. */
  lemma BoundingBoxUnique(b1: Box, b2: Box, S: set<Star>)
    requires IsBoundingBoxOf(b1, S) && IsBoundingBoxOf(b2, S)
    ensures b1 == b2
  {
    var s1 :| s1 in S && s1.line == b1.topLeft.line;
    var s2 :| s2 in S && s2.line == b2.topLeft.line;
    assert b1.topLeft.line == b2.topLeft.line by {
      assert b1.Contains(s2) && b2.Contains(s1);
    }
    var s3 :| s3 in S && s3.col == b1.topLeft.col;
    var s4 :| s4 in S && s4.col == b2.topLeft.col;
    assert b1.topLeft.col == b2.topLeft.col by {
      assert b1.Contains(s4) && b2.Contains(s3);
    }
    var s5 :| s5 in S && s5.line == b1.bottomRight.line;
    var s6 :| s6 in S && s6.line == b2.bottomRight.line;
    assert b1.bottomRight.line == b2.bottomRight.line by {
      assert b1.Contains(s6) && b2.Contains(s5);
    }
    var s7 :| s7 in S && s7.col == b1.bottomRight.col;
    var s8 :| s8 in S && s8.col == b2.bottomRight.col;
    assert b1.bottomRight.col == b2.bottomRight.col by {
      assert b1.Contains(s8) && b2.Contains(s7);
    }
  }

  /** A bounding box is well formed and covers at least one cell. */
  lemma BoundingBoxWellFormed(b: Box, S: set<Star>)
    requires IsBoundingBoxOf(b, S)
    ensures b.WellFormed() && b.Area() >= 1
  {
    var s :| s in S;
    assert b.Contains(s);
  }

  /** Widening the bounding box of `S` by `s` gives the bounding box of `S + {s}`. */
  lemma WidenExtends(b: Box, S: set<Star>, s: Star)
    requires IsBoundingBoxOf(b, S)
    ensures IsBoundingBoxOf(b.Widen(s), S + {s})
  {
    var w := b.Widen(s);
    var S' := S + {s};
    forall t | t in S' ensures w.Contains(t) {
      if t in S {
        assert b.Contains(t);
      }
    }
    var a1 :| a1 in S && a1.line == b.topLeft.line;
    assert exists t :: t in S' && t.line == w.topLeft.line by {
      if s.line < b.topLeft.line { assert s in S'; } else { assert a1 in S'; }
    }
    var a2 :| a2 in S && a2.col == b.topLeft.col;
    assert exists t :: t in S' && t.col == w.topLeft.col by {
      if s.col < b.topLeft.col { assert s in S'; } else { assert a2 in S'; }
    }
    var a3 :| a3 in S && a3.line == b.bottomRight.line;
    assert exists t :: t in S' && t.line == w.bottomRight.line by {
      if s.line > b.bottomRight.line { assert s in S'; } else { assert a3 in S'; }
    }
    var a4 :| a4 in S && a4.col == b.bottomRight.col;
    assert exists t :: t in S' && t.col == w.bottomRight.col by {
      if s.col > b.bottomRight.col { assert s in S'; } else { assert a4 in S'; }
    }
  }

  /** `modifyBounds(s)` makes a well-formed box the smallest box holding both
      the old box and `s`; in particular the result is well formed. */
  lemma WidenIsSmallestCover(b: Box, s: Star)
    requires b.WellFormed()
    ensures IsBoundingBoxOf(b.Widen(s), Corners(b) + {s})
    ensures b.Widen(s).WellFormed() && b.Widen(s).Area() >= 1
  {
    CornersBound(b);
    WidenExtends(b, Corners(b), s);
    BoundingBoxWellFormed(b.Widen(s), Corners(b) + {s});
  }

  /** Widening changes nothing exactly when the star is already inside. */
  lemma WidenUnchangedIffInside(b: Box, s: Star)
    requires b.WellFormed()
    ensures b.Widen(s) == b <==> b.Contains(s)
  {
    if b.Widen(s) == b {
      WidenIsSmallestCover(b, s);
      assert s in Corners(b) + {s};
    }
  }

  /** `overlaps` is symmetric. */
  lemma OverlapsSymmetric(a: Box, b: Box)
    ensures a.Overlaps(b) <==> b.Overlaps(a)
  {
  }

  /** Boxes whose line ranges only share their end value do not overlap, even
      though they then share a row of cells; likewise for columns. A box one
      cell high or wide does not even overlap itself. */
  lemma TouchingBoxesDoNotOverlap(a: Box, b: Box)
    requires a.WellFormed() && b.WellFormed()
    requires a.bottomRight.line == b.topLeft.line || a.bottomRight.col == b.topLeft.col
    ensures !a.Overlaps(b)
    ensures a.topLeft.line == a.bottomRight.line || a.topLeft.col == a.bottomRight.col ==> !a.Overlaps(a)
  {
  }

  /** The data class `BoundingBox`: a box whose corners `modifyBounds` moves in place. */
  class BoundingBox {
    var topLeft: Star
    var bottomRight: Star

    function Value(): Box
      reads this
    {
      Box(topLeft, bottomRight)
    }

    ghost predicate Valid()
      reads this
    {
      Value().WellFormed()
    }

    /** Building a box whose corners are out of order is a fatal error in the
        program (`require` in `init`), so it is a precondition here. */
    constructor (topLeft: Star, bottomRight: Star)
      requires Box(topLeft, bottomRight).WellFormed()
      ensures Valid() && Value() == Box(topLeft, bottomRight)
    {
      this.topLeft := topLeft;
      this.bottomRight := bottomRight;
    }

    method ModifyBounds(star: Star)
      requires Valid()
      modifies this
      ensures Valid()
      ensures Value() == old(Value()).Widen(star)
    {
      WidenIsSmallestCover(Value(), star);
      topLeft := Star(if topLeft.line > star.line then star.line else topLeft.line,
                      if topLeft.col > star.col then star.col else topLeft.col);
      bottomRight := Star(if bottomRight.line < star.line then star.line else bottomRight.line,
                          if bottomRight.col < star.col then star.col else bottomRight.col);
    }
  }
}
