/** Turning input lines into stars: every character other than the background
    glyph '-' is a marker. */
module Input {
  import opened Geometry
  import opened Seqs

  /** The stars of one line (`processInputLine`'s fold): position `i` (0-based)
      gives `Star(lineNum, i + 1)` unless its character is '-'. */
  function LineStars(lineNum: int, line: string): (r: seq<Star>)
    ensures forall s :: s in r <==> s.line == lineNum && 1 <= s.col <= |line| && line[s.col - 1] != '-'
    ensures forall j, k :: 0 <= j < k < |r| ==> r[j].col < r[k].col
  {
    StarsFrom(lineNum, line, 0)
  }

  /** The stars of `line` from 0-based position `i` on, left to right. */
  function StarsFrom(lineNum: int, line: string, i: nat): (r: seq<Star>)
    requires i <= |line|
    ensures forall s :: s in r <==> s.line == lineNum && i + 1 <= s.col <= |line| && line[s.col - 1] != '-'
    ensures forall j :: 0 <= j < |r| ==> i + 1 <= r[j].col
    ensures forall j, k :: 0 <= j < k < |r| ==> r[j].col < r[k].col
    decreases |line| - i
  {
    if i == |line| then []
    else (if line[i] == '-' then [] else [Star(lineNum, i + 1)]) + StarsFrom(lineNum, line, i + 1)
  }

  /** Row-major reading order: an earlier line, or the same line further left. */
  predicate Before(a: Star, b: Star)
  {
    a.line < b.line || (a.line == b.line && a.col < b.col)
  }

  /** Stars listed strictly in reading order, as the program's insertion-ordered
      set holds them once all lines are read. */
  predicate RowMajor(u: seq<Star>)
  {
    forall i, j :: 0 <= i < j < |u| ==> Before(u[i], u[j])
  }

  /** Adding the stars of line `n` to stars of earlier lines in reading order
      appends them all, in order, and keeps the reading order. */
  lemma AddLineAppends(u: seq<Star>, n: int, line: string)
    requires RowMajor(u)
    requires forall k :: 0 <= k < |u| ==> u[k].line < n
    ensures AddAll(u, LineStars(n, line)) == u + LineStars(n, line)
    ensures RowMajor(u + LineStars(n, line))
  {
    var ls := LineStars(n, line);
    assert NoDup(ls) by {
      forall j, k | 0 <= j < k < |ls| ensures ls[j] != ls[k] {
        assert ls[j].col < ls[k].col;
      }
    }
    forall x | x in ls ensures x !in Elems(u) {
      assert x.line == n;
    }
    WithoutNone(ls, Elems(u));
    var v := u + ls;
    forall i, j | 0 <= i < j < |v| ensures Before(v[i], v[j]) {
      if j < |u| {
        assert Before(u[i], u[j]);
      } else if i < |u| {
        assert v[j] in ls;
      } else {
        assert v[i] == ls[i - |u|] && v[j] == ls[j - |u|];
      }
    }
  }

  /** The lines the program reads: those before the first empty line. */
  function TakeUntilEmpty(lines: seq<string>): (r: seq<string>)
    ensures |r| <= |lines| && r == lines[..|r|]
    ensures forall i :: 0 <= i < |r| ==> r[i] != ""
    ensures |r| < |lines| ==> lines[|r|] == ""
  {
    if lines == [] || lines[0] == "" then []
    else [lines[0]] + TakeUntilEmpty(lines[1..])
  }

  /** All stars of a field of lines numbered from 1. */
  ghost function GridStars(lines: seq<string>): set<Star>
  {
    if lines == [] then {}
    else
      var n := |lines|;
      GridStars(lines[..n - 1]) + Elems(LineStars(n, lines[n - 1]))
  }

  /** The stars of a field are exactly its non-'-' cells, at 1-based line and column. */
  lemma {:induction false} GridStarsMembers(lines: seq<string>)
    ensures forall s :: s in GridStars(lines) <==>
              1 <= s.line <= |lines| && 1 <= s.col <= |lines[s.line - 1]| && lines[s.line - 1][s.col - 1] != '-'
  {
    if lines != [] {
      var n := |lines|;
      GridStarsMembers(lines[..n - 1]);
    }
  }
}
