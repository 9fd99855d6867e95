# bounding-box, modelled in Dafny

The program reads a field of text lines. Every character other than the background glyph `-` is a
star at a 1-based (line, column). It then works in four stages:

1. It collects the stars into an insertion-ordered set (`processInputLine`).
2. It repeatedly takes the earliest remaining star and flood-fills its 4-connected component,
   removing the stars and widening a bounding box as it goes (`findBoundingBoxes`, `processPoint`,
   `processPointRec`, `BoundingBox.modifyBounds`).
3. It eliminates overlapping boxes by walking the box list head by head (`processOverlaps`, with
   `overlaps`/`edgeOverlaps`).
4. It keeps the boxes tied for the largest area after a stable descending sort (`findLargestBoxes`).

The Dafny project follows those stages, one module each:

- `seqs.dfy` (`Seqs`): the collection calls the program makes.
  - The insertion-ordered set is a sequence without duplicates.
  - `removeAll` on the box list is `Without`, and `addAll` is `AddAll`.
  - `bbs.remove(head)` on the box list removes the first equal box: `RemoveFirst`.
  - `unprocessedStars.remove(star)` on the set is `Without(unprocessed, {star})`.
  - `head`/`tail` are `Head`/`Tail`.
  - Also the subsequence relation.
- `geometry.dfy` (`Geometry`):
  - `Star`, and the value `Box` of a bounding box, with `Area`, `Widen` (what `modifyBounds` does)
    and `Overlaps`.
  - `IsBoundingBoxOf`, which characterises the smallest box around a set of stars.
  - The class `BoundingBox`, whose corners `ModifyBounds` updates in place.
- `components.dfy` (`Components`): 4-adjacency, paths, and the connected component of a star
  within a set.
- `input.dfy` (`Input`): the stars of a line and of a field of lines, and the cut at the first
  empty line.
- `resolver.dfy` (`Resolver`): `ResolveFrom`, the function that specifies the `processOverlaps`
  walk, and what it guarantees.
- `largest.dfy` (`Largest`): the stable insertion sort by key, the filter, and `FindLargestBoxes`.
- `app.dfy` (`App`):
  - The class `State`, holding the unprocessed stars and the box list, whose methods are the
    imperative stages.
  - `Run`, the whole pipeline on a list of lines.

The recursive flood fill becomes a loop over an explicit stack. The neighbours are pushed as
top, left, bottom, right, so they are tried right, bottom, left, top, exactly as the recursive
calls are. The check "still unprocessed?" happens when a star is popped, as it happens on entry to
`processPointRec`. The loop is proved against the connected component.

In three places the program's own comments say more than its code does; the model follows the code:

- The comment at `src/main/kotlin/Main.kt:30` speaks of each found `'*'`, but the fold at line 35
  skips only `-`. Any other character is a star.
- The comment at `src/main/kotlin/Main.kt:96-97` says the walk removes the overlapping boxes. It
  does not remove all of them. With A overlapping B, B overlapping C, and A not overlapping C, the
  order A, B, C keeps C, although C overlapped B (`Resolver.ResolveKeepsLast`). What the walk does
  guarantee is that no two surviving boxes overlap, and that a box is dropped only if it overlaps a
  box at another position of the list (`Resolver.ResolveDropsOnlyOverlapping`).
- The comment at `src/main/kotlin/Main.kt:16` says reading stops at an empty line. At end of input
  without one, `readln` throws instead. The model takes all lines in that case (see "Left out").

## Model

| member | source | states |
|---|---|---|
| Input.LineStars | src/main/kotlin/Main.kt:33-39 | a star `(lineNum, c)` is produced exactly when `1 <= c <= |line|` and character `c` is not `-`; the stars come in increasing column order |
| Input.TakeUntilEmpty | src/main/kotlin/Main.kt:18-19 | the result is the longest prefix of the lines with no empty line; the line after it, if any, is empty |
| Input.GridStarsMembers | src/main/kotlin/Main.kt:18-27 | the stars of a field are exactly its non-`-` cells, with line `i + 1` for the `i`-th line and 1-based columns |
| Seqs.AddAll | src/main/kotlin/Main.kt:40 | `addAll` into an insertion-ordered set keeps the old elements as a prefix in their order, its elements are the union, and it stays duplicate-free; for a duplicate-free argument the result is the old set followed by the new elements in argument order |
| Seqs.Without | src/main/kotlin/Main.kt:104 | `removeAll` keeps the elements not in the removed set and only those, and stays duplicate-free; it shrinks when something present is removed and is the identity for an empty set |
| Seqs.WithoutCount | src/main/kotlin/Main.kt:104 | `removeAll` keeps every copy of an element it does not remove (with `WithoutSubseq`, the kept elements in their original order and multiplicity) |
| Seqs.RemoveFirst | src/main/kotlin/Main.kt:106 | `remove(x)` cuts out exactly the first position holding `x` when there is one, and changes nothing when `x` is absent; so it keeps every other element and adds none |
| Seqs.IndexOf | src/main/kotlin/Main.kt:106 | the position found holds `x`, and no earlier position does |
| Seqs.Head | src/main/kotlin/Main.kt:100 | `head` is absent exactly for the empty list, and otherwise an element of the list |
| Seqs.Tail | src/main/kotlin/Main.kt:101 | `tail` of a non-empty list is one element shorter, of the empty list empty, and holds only elements of the list |
| Seqs.HeadTail | src/main/kotlin/Main.kt:100-101 | a non-empty list is its `head` followed by its `tail` |
| App.State.ProcessInputLine | src/main/kotlin/Main.kt:33-42 | the unprocessed stars grow by exactly the stars of the line, in order, and the box list is unchanged |
| Input.AddLineAppends | src/main/kotlin/Main.kt:33-40 | adding the stars of a line to stars of earlier lines held in reading order appends all of them, left to right, and keeps the reading order |
| App.ReadInput | src/main/kotlin/Main.kt:18-27 | after reading, the unprocessed stars are exactly the stars of the field, held strictly in reading order (by line, then by column), and there are no boxes yet |
| App.State.constructor | src/main/kotlin/Main.kt:132-141 | a new state has no unprocessed stars and no boxes |
| Geometry.BoundingBox.constructor | src/main/kotlin/Main.kt:147-155 | a box is built only when its corners are in order, and it holds those corners |
| Geometry.BoundingBox.ModifyBounds | src/main/kotlin/Main.kt:157-166 | the corners become those of the old box widened by the star, and the box stays well formed |
| Geometry.Box.Widen | src/main/kotlin/Main.kt:157-166 | the widened box holds the star and every cell the old box held |
| Geometry.WidenIsSmallestCover | src/main/kotlin/Main.kt:157-166 | widening a well-formed box by `s` gives the smallest box holding the old corners and `s`; the result is well formed with area at least 1 |
| Geometry.WidenExtends | src/main/kotlin/Main.kt:157-166 | widening the bounding box of `S` by `s` gives the bounding box of `S + {s}` |
| Geometry.WidenUnchangedIffInside | src/main/kotlin/Main.kt:157-166 | widening leaves a well-formed box unchanged exactly when the star is already inside |
| Geometry.Box.Area | src/main/kotlin/Main.kt:179-180 | a well-formed box has area at least 1, and at least its width and its height |
| Geometry.CornersBound | src/main/kotlin/Main.kt:152-155 | a box is the bounding box of its own two corners exactly when it satisfies the `init` checks |
| Geometry.BoundingBoxUnique | src/main/kotlin/Main.kt:74-93 | the bounding box of a set of stars is unique, so the order in which the stars are visited does not change the final box |
| Geometry.BoundingBoxWellFormed | src/main/kotlin/Main.kt:152-155 | a bounding box passes the `init` checks and has area at least 1 |
| Geometry.OverlapsSymmetric | src/main/kotlin/Main.kt:168-175 | `a.overlaps(b)` equals `b.overlaps(a)` |
| Geometry.EdgeOverlaps | src/main/kotlin/Main.kt:172-175 | on ordered ranges, `edgeOverlaps` holds exactly when the ranges cross strictly; the "swallows" clauses add nothing |
| Geometry.Box.Overlaps | src/main/kotlin/Main.kt:168-170 | well-formed boxes overlap exactly when both their line ranges and their column ranges cross strictly |
| Geometry.TouchingBoxesDoNotOverlap | src/main/kotlin/Main.kt:168-175 | boxes that only share an end line or end column do not overlap; a box one cell high or wide does not overlap itself |
| Components.ComponentClosed | src/main/kotlin/Main.kt:83-91 | a component holds every star of the set adjacent to one of its stars |
| Components.ClosedHoldsComponent | src/main/kotlin/Main.kt:74-93 | a set closed under adjacency that holds `a` holds the whole component of `a` |
| Components.ComponentOfRemainder | src/main/kotlin/Main.kt:50-54 | removing whole components leaves the component of every remaining star as it was |
| App.Neighbours | src/main/kotlin/Main.kt:83-86 | the four stars tried are exactly the stars adjacent to `s` |
| App.SkipStep | src/main/kotlin/Main.kt:75-77 | trying a star that is already processed or absent keeps the traversal invariant |
| App.VisitStep | src/main/kotlin/Main.kt:79-91 | removing an unprocessed star and queueing its neighbours keeps the traversal invariant, and the star lies in the component of the seed |
| App.TraversalDone | src/main/kotlin/Main.kt:74-93 | once nothing remains to try, the removed stars are exactly the component of the seed |
| App.State.TryNext | src/main/kotlin/Main.kt:75-91 | one call of `processPointRec` keeps the traversal invariant, and either removes a star or shortens the stack |
| App.State.Traverse | src/main/kotlin/Main.kt:74-93 | `processPointRec` removes exactly the component of `star`, keeping the order of the other stars, and leaves `box` the bounding box of its old corners plus that component; when `star` is not unprocessed, nothing changes |
| App.State.ProcessPoint | src/main/kotlin/Main.kt:62-67 | `processPoint` removes the component of `star` and appends one box, the bounding box of `star` and its component |
| App.FindStep | src/main/kotlin/Main.kt:50-54 | one iteration of `findBoundingBoxes` keeps its loop invariant and shrinks the unprocessed stars |
| App.FindDone | src/main/kotlin/Main.kt:47-56 | when no star remains, the appended boxes are one per component, the components partition the stars, and each box bounds its component |
| App.State.FindBoundingBoxes | src/main/kotlin/Main.kt:47-56 | `findBoundingBoxes` ends with no unprocessed stars and only appends to the box list. Box `i` bounds the component of seed `i`; the seed is the earliest star left at that point. The components are disjoint and cover every star |
| App.FoundBoxesBound | src/main/kotlin/Main.kt:47-67 | every box found is the bounding box of a whole component of the stars |
| Resolver.OverlapsWith | src/main/kotlin/Main.kt:103 | the filter keeps exactly the tail boxes that overlap the head |
| Resolver.ResolveFrom | src/main/kotlin/Main.kt:99-115 | the walk from any position only removes boxes: the result is no longer than the list and holds only its boxes |
| Resolver.Resolve | src/main/kotlin/Main.kt:99-115 | `processOverlaps` only removes boxes, and returns a list of at most one box unchanged, since the loop needs a head and a non-empty tail |
| Resolver.CheckedAdvance | src/main/kotlin/Main.kt:109-111 | a head that overlaps no later box can be passed without ever being compared again |
| Resolver.ResolveFromDisjoint | src/main/kotlin/Main.kt:99-115 | from any position before which no box overlaps a later one, the walk ends with no two boxes overlapping |
| Resolver.ResolveDisjoint | src/main/kotlin/Main.kt:99-115 | after `processOverlaps` no two remaining boxes overlap |
| Resolver.ResolveSubseq | src/main/kotlin/Main.kt:99-115 | after `processOverlaps` the boxes are a subsequence of the input, in the original order |
| Resolver.RemovedOverlapsHead | src/main/kotlin/Main.kt:103-106 | a box the restart step removes overlaps a box held at another position of the list: a different box, or a second copy of itself |
| Resolver.RestartShrinks | src/main/kotlin/Main.kt:104-106 | the restart step only takes boxes out: the new list is contained in the old one as a multiset |
| Resolver.ResolveDropsOnlyOverlapping | src/main/kotlin/Main.kt:99-115 | the box at position `i` is dropped only if it overlaps the box at some other position `j` of the input |
| Resolver.ResolveKeepsLast | src/main/kotlin/Main.kt:99-115 | with A∩B, B∩C and A not overlapping C, the order A, B, C leaves exactly C |
| Resolver.ResolveKeepsNothing | src/main/kotlin/Main.kt:99-115 | for the same boxes, the order B, A, C leaves nothing |
| Resolver.ResolveAllOverlapping | src/main/kotlin/Main.kt:99-115 | when two or more boxes all overlap each other, every one of them is eliminated |
| Resolver.OrderExample | src/main/kotlin/Main.kt:168-175 | boxes (1,1)-(3,3), (2,2)-(5,5) and (4,4)-(6,6) are such a triple, so the result depends on the order |
| App.State.OverlapStep | src/main/kotlin/Main.kt:103-112 | one pass of the loop body either advances head and tail or removes boxes and restarts at the front, and it keeps the result of the walk |
| App.State.ProcessOverlaps | src/main/kotlin/Main.kt:99-115 | the box list becomes `Resolve` of the old list, whose properties are the `Resolver` lemmas |
| Largest.InsertByKeyPermutes | src/main/kotlin/Main.kt:122 | insertion adds exactly the new element |
| Largest.InsertByKeySorted | src/main/kotlin/Main.kt:122 | insertion into a list sorted by non-increasing key keeps it sorted |
| Largest.SortByDescending | src/main/kotlin/Main.kt:122 | `sortedByDescending` returns a permutation of its input |
| Largest.SortIsSortedPermutation | src/main/kotlin/Main.kt:122 | `sortedByDescending` returns a permutation, sorted by non-increasing area |
| Largest.WithKeyInsert | src/main/kotlin/Main.kt:122 | inserting an element does not change the relative order of the elements with any one key |
| Largest.SortIsStable | src/main/kotlin/Main.kt:122 | the sort is stable: the boxes of each area keep their input order |
| Largest.WithKey | src/main/kotlin/Main.kt:125 | the filter keeps the elements with the given key and only those |
| Largest.WithKeyCount | src/main/kotlin/Main.kt:125 | the filter keeps every copy of an element with the key (with `WithKeySubseq`, in their input order and multiplicity) |
| Largest.WithKeySubseq | src/main/kotlin/Main.kt:125 | the filter keeps the input order |
| Largest.MaxKey | src/main/kotlin/Main.kt:125 | the largest area is the area of some box, and no box has a larger area |
| Largest.FindLargestBoxes | src/main/kotlin/Main.kt:121-126 | `findLargestBoxes` returns at least one box exactly when it is given at least one |
| Largest.SortedHeadIsMax | src/main/kotlin/Main.kt:122-125 | `sorted[0]` is an input box, and its area is the largest |
| Largest.FindLargestBoxesSpec | src/main/kotlin/Main.kt:121-126 | an empty or one-box list is returned unchanged. Otherwise the result is the boxes of maximum area, in input order. A box is in the result exactly when no input box is larger |
| Largest.AllTiedKept | src/main/kotlin/Main.kt:121-126 | when all boxes have the same area, all are returned in input order |
| Largest.FourTiedCorners | src/test/kotlin/TestBoundingBoxApp.kt:16-22 | the four one-cell corner boxes come back all four, in row-major order |
| App.SubseqDisjoint | src/main/kotlin/Main.kt:121-126 | boxes taken in order from a non-overlapping list do not overlap |
| App.NoStarsNoBoxes | src/main/kotlin/Main.kt:47-56 | with no stars, no box is found and the result is empty |
| App.PipelineResult | src/main/kotlin/Main.kt:6-9 | the printed boxes do not overlap, all have the same area, and each is the bounding box of a whole component of the stars; every surviving box whose area no other surviving box exceeds is printed; with no stars, nothing is printed |
| App.Run | src/main/kotlin/Main.kt:4-12 | the result is exactly `FindLargestBoxes(Resolve(found))`, where `found` are the boxes `findBoundingBoxes` builds from the stars of the lines before the first empty one, read in reading order; so it also has every guarantee of `PipelineResult` |

## Left out

- Reading from standard input and printing (`readln`, `println`, the `toString` formats): the
  lines are a parameter of `Run` and the boxes its result.
- `readln` throws at end of input when there is no empty line; `TakeUntilEmpty` then takes all lines.
- The `overlapping` field of `BoundingBox` is never read or set, and it is not modelled. Data-class
  equality on boxes is therefore equality of the corners.
- `State.currentLine`/`currentLineNum` and the `copy` of the state per line: they become
  parameters of `ProcessInputLine`.
- Geometry.Box.Area: coordinates and areas are unbounded integers. The 32-bit `Int` overflow of
  `area`, and of `col + 1` near the `Int` limits, is not modelled.
- The JVM call stack of the recursive `processPointRec` (a stack overflow on very large
  components) is not modelled; the recursion is an explicit stack with the same visiting order.
- Hashing in the `LinkedHashSet` is not modelled: it is a sequence without duplicates, and only
  its iteration order matters.
- Object identity: `bbs` holds the `BoundingBox` objects, and the model holds their values. Boxes
  are not changed after they are appended, and removal is by value, so nothing depends on aliasing.
- `head` and `tail` are not defined in `Main.kt`. They are read as the first element (or none) and
  a copy of all but the first element.
- Input.LineStars: Kotlin's `foldIndexed` over a `String` walks UTF-16 code units, while a Dafny
  `string` holds Unicode scalar values. A character outside the Basic Multilingual Plane is one
  star here, but two stars (its two surrogates) in the program, and every later column on that
  line is one larger there. The model matches the program on lines of BMP characters only.
- The `require` checks in `BoundingBox.init` are a precondition of the constructor. The program
  only builds one-star boxes, so they never fail.
