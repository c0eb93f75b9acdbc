/**
 * The pieces the structural edits of the table are built from: the rectangle
 * a merge clears, the span a split leaves, the least and largest selected
 * line, the row-height bookkeeping of `delete_row` and `move_row`, and the
 * loops that re-key `merged_cells` (as methods proved against the passes of
 * the `Shift` module).
 */
module Edits {
  import opened Dict
  import opened Geometry
  import opened Shift

  /* ---------------- merge_cells / split_cell ---------------- */

  /** The coordinates of the rectangle anchored at `origin` with extent `span`. */
  function Block(origin: Coord, span: Span): (b: set<Coord>)
    ensures forall p :: p in b <==> Covers(origin, span, p)
  {
    set r: int, c: int | origin.0 <= r < origin.0 + span.0 && origin.1 <= c < origin.1 + span.1 :: (r, c)
  }

  /**
   * The span `split_cell` leaves: a requested axis with more than one line
   * shrinks to one line, every other extent stays.
   */
  function SplitSpan(span: Span, horizontal: bool, vertical: bool): (r: Span)
    ensures r.0 == (if horizontal && span.0 > 1 then 1 else span.0)
    ensures r.1 == (if vertical && span.1 > 1 then 1 else span.1)
  {
    (if horizontal && span.0 > 1 then 1 else span.0, if vertical && span.1 > 1 then 1 else span.1)
  }

  /** A split never grows a block, and changes it exactly when a requested axis spans more than one line. */
  lemma SplitSpanShrinks(span: Span, horizontal: bool, vertical: bool)
    ensures var r := SplitSpan(span, horizontal, vertical);
      r.0 <= span.0 && r.1 <= span.1 &&
      (r != span <==> (horizontal && span.0 > 1) || (vertical && span.1 > 1))
  {
  }

  /* ---------------- lines of a selection ---------------- */

  /** The lines along `axis` a set of coordinates touches: `{r for r, c in selected_cells}`. */
  function LinesOf(s: set<Coord>, axis: Axis): (lines: set<int>)
    ensures forall p | p in s :: Line(p, axis) in lines
    ensures forall l | l in lines :: exists p | p in s :: Line(p, axis) == l
    ensures s != {} ==> lines != {}
  {
    set p | p in s :: Line(p, axis)
  }

  /** A non-empty set of integers has an element to pick. */
  lemma HasElement(s: set<int>)
    ensures s != {} ==> exists y :: y in s
  {
    if forall y :: y !in s {
      assert s == {};
    }
  }

  /** `m` is the least element of `s`. */
  predicate IsSmallest(m: int, s: set<int>) {
    m in s && forall x | x in s :: m <= x
  }

  /** `m` is the greatest element of `s`. */
  predicate IsLargest(m: int, s: set<int>) {
    m in s && forall x | x in s :: x <= m
  }

  lemma {:induction false} SmallestExists(s: set<int>)
    requires s != {}
    ensures exists m :: IsSmallest(m, s)
    decreases |s|
  {
    HasElement(s);
    var y :| y in s;
    if s == {y} {
      assert forall x | x in s :: x == y;
      assert IsSmallest(y, s);
    } else {
      SmallestExists(s - {y});
      var m :| IsSmallest(m, s - {y});
      if y < m {
        forall x | x in s ensures y <= x {
          if x != y { assert x in s - {y}; }
        }
        assert IsSmallest(y, s);
      } else {
        forall x | x in s ensures m <= x {
          if x != y { assert x in s - {y}; }
        }
        assert IsSmallest(m, s);
      }
    }
  }

  lemma {:induction false} LargestExists(s: set<int>)
    requires s != {}
    ensures exists m :: IsLargest(m, s)
    decreases |s|
  {
    HasElement(s);
    var y :| y in s;
    if s == {y} {
      assert forall x | x in s :: x == y;
      assert IsLargest(y, s);
    } else {
      LargestExists(s - {y});
      var m :| IsLargest(m, s - {y});
      if m < y {
        forall x | x in s ensures x <= y {
          if x != y { assert x in s - {y}; }
        }
        assert IsLargest(y, s);
      } else {
        forall x | x in s ensures x <= m {
          if x != y { assert x in s - {y}; }
        }
        assert IsLargest(m, s);
      }
    }
  }

  /** Python's `min` of a non-empty set of integers. */
  function Smallest(s: set<int>): (m: int)
    requires s != {}
    ensures m in s && forall x | x in s :: m <= x
  {
    SmallestExists(s);
    var m :| IsSmallest(m, s);
    m
  }

  /** Python's `max` of a non-empty set of integers. */
  function Largest(s: set<int>): (m: int)
    requires s != {}
    ensures m in s && forall x | x in s :: x <= m
  {
    LargestExists(s);
    var m :| IsLargest(m, s);
    m
  }

  /** The only element of a one-element set (what `pop` takes from it). */
  lemma SingletonSmallest(s: set<int>, x: int)
    requires |s| == 1 && x in s
    ensures Smallest(s) == x
  {
    var m := Smallest(s);
    assert |s - {x}| == 0;
    assert m !in s - {x};
  }

  /** `sorted(s, reverse=True)`. */
  function Descending(s: set<int>): (r: seq<int>)
    ensures |r| == |s|
    ensures forall x :: x in r <==> x in s
    ensures forall i, j | 0 <= i < j < |r| :: r[i] > r[j]
    decreases |s|
  {
    if s == {} then []
    else
      var m := Largest(s);
      [m] + Descending(s - {m})
  }

  /* ---------------- row heights ---------------- */

  /**
   * The loop `for row in lines: del row_heights[row]` on a list of `h`
   * heights: the count left, and whether an index outside `[-h, h)` raised
   * IndexError and stopped the loop.
   */
  function DeleteHeights(h: int, lines: seq<int>): (r: (int, bool))
    ensures !r.1 ==> r.0 == h - |lines|
    decreases |lines|
  {
    if lines == [] then (h, false)
    else if -h <= lines[0] < h then DeleteHeights(h - 1, lines[1..])
    else (h, true)
  }

  /**
   * Deleting distinct non-negative lines from the largest down succeeds
   * exactly when the largest of them indexes the list: every later index is
   * smaller than the list that is left.
   */
  lemma {:induction false} DeleteHeightsFromTop(h: int, lines: seq<int>)
    requires lines != []
    requires forall i | 0 <= i < |lines| :: lines[i] >= 0
    requires forall i, j | 0 <= i < j < |lines| :: lines[i] > lines[j]
    ensures !DeleteHeights(h, lines).1 <==> lines[0] < h
    decreases |lines|
  {
    if lines[0] < h && |lines| > 1 {
      assert lines[1] < lines[0];
      DeleteHeightsFromTop(h - 1, lines[1..]);
    }
  }

  /** The loop `for row in lines: del row_heights[row]`, on the count of heights only. */
  method DropHeights(h0: int, lines: seq<int>) returns (h: int, failed: bool)
    ensures (h, failed) == DeleteHeights(h0, lines)
  {
    h, failed := h0, false;
    var i := 0;
    while i < |lines|
      invariant 0 <= i <= |lines|
      invariant DeleteHeights(h, lines[i..]) == DeleteHeights(h0, lines)
    {
      assert lines[i..][1..] == lines[i + 1..];
      if !(-h <= lines[i] < h) {
        return h, true;
      }
      h := h - 1;
      i := i + 1;
    }
  }

  /** The swap `row_heights[a], row_heights[b] = row_heights[b], row_heights[a]` on `h` heights raises unless both index the list. */
  predicate SwapHeightsOk(h: int, a: int, b: int) {
    -h <= a < h && -h <= b < h
  }

  /* ---------------- the re-keying loops ---------------- */

  /**
   * The loop of `insert_row` / `insert_column` over the sorted cell keys, as
   * far as `merged_cells` is concerned (the shifted copy of the cells it also
   * builds is replaced by `create_grid` straight after).
   */
  method ShiftForInsert(merged0: Merges, keys: seq<Coord>, axis: Axis, at: int) returns (merged: Merges)
    ensures merged == InsertPass(merged0, keys, axis, at)
  {
    merged := merged0;
    var i := 0;
    while i < |keys|
      invariant 0 <= i <= |keys|
      invariant InsertPass(merged, keys[i..], axis, at) == InsertPass(merged0, keys, axis, at)
    {
      var k := keys[i];
      assert keys[i..][1..] == keys[i + 1..];
      if Line(k, axis) >= at && k in Keys(merged) {
        merged := Move(merged, k, Bump(k, axis));
      }
      i := i + 1;
    }
    assert keys[i..] == [];
  }

  /**
   * The loop of `delete_row` / `delete_column` over the sorted cell keys:
   * keys on a deleted line are counted in `deleted_indices`, and a surviving
   * origin is re-keyed past the deleted lines met so far.
   */
  method ShiftForDelete(merged0: Merges, keys: seq<Coord>, axis: Axis, del: set<int>) returns (merged: Merges)
    ensures merged == DeletePass(merged0, keys, axis, del, 0)
  {
    merged := merged0;
    var deleted: set<int> := {};
    var i := 0;
    DeleteLoopStart(merged0, keys, axis, del);
    while i < |keys|
      invariant DeleteLoopAt(merged0, keys, axis, del, i, merged, deleted)
      decreases |keys| - i
    {
      merged, deleted := DeleteAt(merged0, keys, axis, del, i, merged, deleted);
      i := i + 1;
    }
    DeleteLoopEnd(merged0, keys, axis, del, i, merged, deleted);
  }

  /**
   * The state of the delete loop before key `i`: `deleted_indices` holds the
   * deleted lines met so far, and finishing the pass from `merged` gives what
   * the whole pass gives from `start`.
   */
  ghost predicate DeleteLoopAt(start: Merges, keys: seq<Coord>, axis: Axis, del: set<int>, i: int, merged: Merges, deleted: set<int>) {
    0 <= i <= |keys| && deleted == SeenBefore(keys, i, axis, del) &&
    DeletePass(merged, keys, axis, del, i) == DeletePass(start, keys, axis, del, 0)
  }

  lemma DeleteLoopStart(start: Merges, keys: seq<Coord>, axis: Axis, del: set<int>)
    ensures DeleteLoopAt(start, keys, axis, del, 0, start, {})
  {
    assert SeenBefore(keys, 0, axis, del) == {};
  }

  lemma DeleteLoopEnd(start: Merges, keys: seq<Coord>, axis: Axis, del: set<int>, i: int, merged: Merges, deleted: set<int>)
    requires DeleteLoopAt(start, keys, axis, del, i, merged, deleted) && i >= |keys|
    ensures merged == DeletePass(start, keys, axis, del, 0)
  {
    DeletePassDone(merged, keys, axis, del);
  }

  /**
   * One key of the delete loop: a key on a deleted line joins
   * `deleted_indices`; a surviving origin moves back by the number of deleted
   * lines met before it.
   */
  method DeleteAt(ghost start: Merges, keys: seq<Coord>, axis: Axis, del: set<int>, i: int, merged0: Merges, deleted0: set<int>)
    returns (merged: Merges, deleted: set<int>)
    requires i < |keys| && DeleteLoopAt(start, keys, axis, del, i, merged0, deleted0)
    ensures DeleteLoopAt(start, keys, axis, del, i + 1, merged, deleted)
  {
    merged, deleted := merged0, deleted0;
    var k := keys[i];
    var line := Line(k, axis);
    if line in del {
      deleted := deleted + {line};
    } else {
      var target := WithLine(k, axis, line - DeletedBelow(deleted, line));
      assert target == DeleteTarget(keys, i, axis, del);
      if k in Keys(merged) {
        merged := Move(merged, k, target);
      }
    }
    SeenBeforeStep(keys, i, axis, del);
    DeletePassStep(merged0, keys, axis, del, i);
  }

  /** One key of the delete loop. */
  function DeleteStep(merged: Merges, keys: seq<Coord>, axis: Axis, del: set<int>, i: int): Merges
    requires 0 <= i < |keys|
  {
    if Line(keys[i], axis) !in del && keys[i] in Keys(merged) then
      Move(merged, keys[i], DeleteTarget(keys, i, axis, del))
    else merged
  }

  lemma DeletePassStep(merged: Merges, keys: seq<Coord>, axis: Axis, del: set<int>, i: int)
    requires 0 <= i < |keys|
    ensures DeletePass(merged, keys, axis, del, i) == DeletePass(DeleteStep(merged, keys, axis, del, i), keys, axis, del, i + 1)
  {
  }

  lemma DeletePassDone(merged: Merges, keys: seq<Coord>, axis: Axis, del: set<int>)
    ensures DeletePass(merged, keys, axis, del, |keys|) == merged
  {
  }

  lemma SeenBeforeStep(keys: seq<Coord>, i: int, axis: Axis, del: set<int>)
    requires 0 <= i < |keys|
    ensures var line := Line(keys[i], axis);
      SeenBefore(keys, i + 1, axis, del) == SeenBefore(keys, i, axis, del) + (if line in del then {line} else {})
  {
  }

  /** The coordinates along `line` at positions `0 .. n - 1` across it. */
  function LineCoords(axis: Axis, line: int, n: int): (ps: seq<Coord>)
    ensures |ps| == if n < 0 then 0 else n
    ensures forall j | 0 <= j < |ps| :: ps[j] == At(axis, line, j)
  {
    seq(if n < 0 then 0 else n, j => At(axis, line, j))
  }

  /**
   * One iteration of the swap loop: the texts of `a` and `b` are exchanged
   * when both have a cell, and an origin at `a` (or else at `b`) moves to the
   * other coordinate.
   */
  method SwapAt(cells0: map<Coord, string>, merged0: Merges, a: Coord, b: Coord)
    returns (cells: map<Coord, string>, merged: Merges)
    ensures (cells, merged) == SwapStep(cells0, merged0, a, b)
  {
    cells, merged := cells0, merged0;
    if a in cells && b in cells {
      var temp := cells[a];
      cells := cells[a := cells[b]];
      cells := cells[b := temp];
      if a in Keys(merged) {
        merged := Move(merged, a, b);
      } else if b in Keys(merged) {
        merged := Move(merged, b, a);
      }
    }
  }

  /**
   * The swap loop of `move_row` / `move_column` over the `n` positions
   * across the moved line.
   */
  method SwapLoop(cells0: map<Coord, string>, merged0: Merges, axis: Axis, from: int, to: int, n: int)
    returns (cells: map<Coord, string>, merged: Merges)
    ensures (cells, merged) == SwapPass(cells0, merged0, axis, from, to, 0, n)
  {
    cells, merged := cells0, merged0;
    var j := 0;
    while j < n
      invariant 0 <= j <= (if n < 0 then 0 else n)
      invariant SwapPass(cells, merged, axis, from, to, j, n) == SwapPass(cells0, merged0, axis, from, to, 0, n)
      decreases n - j
    {
      cells, merged := SwapAt(cells, merged, At(axis, from, j), At(axis, to, j));
      j := j + 1;
    }
  }
}
