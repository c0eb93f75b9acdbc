/**
 * Grid geometry of the table: coordinates, merge spans, which coordinates are
 * merge members, where a member redirects to, and which coordinates get a cell
 * when the grid is rebuilt.
 */
module Geometry {
  import opened Dict
  import opened Wrappers

  /** (row, col), both 0-based. */
  type Coord = (int, int)

  /** (span_rows, span_cols) of a merged block. */
  type Span = (int, int)

  /** `merged_cells`: origin -> span, in insertion order. */
  type Merges = Dict<Coord, Span>

  predicate InBounds(p: Coord, rows: int, cols: int) {
    0 <= p.0 < rows && 0 <= p.1 < cols
  }

  /** The block anchored at `origin` with extent `span` contains `p` (the origin included). */
  predicate Covers(origin: Coord, span: Span, p: Coord) {
    origin.0 <= p.0 < origin.0 + span.0 && origin.1 <= p.1 < origin.1 + span.1
  }

  /** `p` lies inside the block anchored at `origin` and is not the origin itself. */
  predicate IsMember(origin: Coord, span: Span, p: Coord) {
    Covers(origin, span, p) && origin != p
  }

  /** `is_merged_cell`: does some merged block have `p` as a member? */
  function IsMergedCell(merged: Merges, p: Coord): (b: bool)
    ensures b <==> exists i | 0 <= i < |merged| :: IsMember(merged[i].0, merged[i].1, p)
  {
    if |merged| == 0 then false
    else
      var rest := IsMergedCell(merged[1..], p);
      assert forall i | 1 <= i < |merged| :: merged[i] == merged[1..][i - 1];
      IsMember(merged[0].0, merged[0].1, p) || rest
  }

  /** `get_merged_span`: the span stored for an origin, (1, 1) for any other coordinate. */
  function GetMergedSpan(merged: Merges, p: Coord): (s: Span)
    ensures p in Keys(merged) ==> s == Get(merged, p)
    ensures p !in Keys(merged) ==> s == (1, 1)
  {
    GetOr(merged, p, (1, 1))
  }

  /**
   * Index of the first block, in dictionary order, that covers `p`: the loop
   * `for (r, c), (span_r, span_c) in merged_cells.items(): if ...: break`.
   */
  function FirstCovering(merged: Merges, p: Coord): (r: Option<nat>)
    ensures r.Some? ==> r.value < |merged| && Covers(merged[r.value].0, merged[r.value].1, p)
    ensures r.Some? ==> forall j | 0 <= j < r.value :: !Covers(merged[j].0, merged[j].1, p)
    ensures r.None? ==> forall j | 0 <= j < |merged| :: !Covers(merged[j].0, merged[j].1, p)
  {
    if |merged| == 0 then None
    else if Covers(merged[0].0, merged[0].1, p) then Some(0)
    else
      assert forall i | 1 <= i < |merged| :: merged[i] == merged[1..][i - 1];
      match FirstCovering(merged[1..], p)
      case None => None
      case Some(i) => Some(i + 1)
  }

  /**
   * The coordinate a read or write of `p` is redirected to: the origin of the
   * first block covering `p` when `p` is a merge member, `p` itself otherwise.
   */
  function Redirect(merged: Merges, p: Coord): (q: Coord)
    ensures !IsMergedCell(merged, p) ==> q == p
    ensures IsMergedCell(merged, p) ==>
      exists i | 0 <= i < |merged| :: merged[i].0 == q && Covers(merged[i].0, merged[i].1, p)
  {
    if IsMergedCell(merged, p) then
      var i := FirstCovering(merged, p);
      merged[i.value].0
    else p
  }

  /**
   * The cells of the rectangle from `(sr, sc)` to `(er, ec)` inclusive, row by
   * row: `[(r, c) for r in range(sr, er + 1) for c in range(sc, ec + 1)]`.
   */
  function RangeCoords(sr: int, sc: int, er: int, ec: int): seq<Coord>
    decreases er - sr
  {
    if sr > er then [] else RowCoords(sr, sc, ec) + RangeCoords(sr + 1, sc, er, ec)
  }

  /** The cells of row `r` from column `sc` to `ec` inclusive, left to right. */
  function RowCoords(r: int, sc: int, ec: int): seq<Coord>
    decreases ec - sc
  {
    if sc > ec then [] else [(r, sc)] + RowCoords(r, sc + 1, ec)
  }

  /** The rectangle's listing holds exactly its cells. */
  lemma {:induction false} RangeCoordsMembers(sr: int, sc: int, er: int, ec: int)
    ensures forall p :: p in RangeCoords(sr, sc, er, ec) <==> sr <= p.0 <= er && sc <= p.1 <= ec
    decreases er - sr
  {
    if sr <= er {
      RowCoordsMembers(sr, sc, ec);
      RangeCoordsMembers(sr + 1, sc, er, ec);
    }
  }

  /** The row's listing holds exactly its cells, one per column. */
  lemma {:induction false} RowCoordsMembers(r: int, sc: int, ec: int)
    ensures forall p :: p in RowCoords(r, sc, ec) <==> p.0 == r && sc <= p.1 <= ec
    ensures |RowCoords(r, sc, ec)| == if sc <= ec then ec - sc + 1 else 0
    decreases ec - sc
  {
    if sc <= ec {
      RowCoordsMembers(r, sc + 1, ec);
    }
  }

  /** The row-major listing grows by one row at its end. */
  lemma {:induction false} RangeCoordsSnoc(sr: int, sc: int, er: int, ec: int)
    requires sr <= er + 1
    ensures RangeCoords(sr, sc, er + 1, ec) == RangeCoords(sr, sc, er, ec) + RowCoords(er + 1, sc, ec)
    decreases er - sr
  {
    var row := RowCoords(er + 1, sc, ec);
    if sr <= er {
      RangeCoordsSnoc(sr + 1, sc, er, ec);
      var first, mid := RowCoords(sr, sc, ec), RangeCoords(sr + 1, sc, er, ec);
      calc {
        RangeCoords(sr, sc, er + 1, ec);
        first + RangeCoords(sr + 1, sc, er + 1, ec);
        first + (mid + row);
        { AppendAssoc(first, mid, row); }
        (first + mid) + row;
        RangeCoords(sr, sc, er, ec) + row;
      }
    } else {
      calc {
        RangeCoords(sr, sc, er + 1, ec);
        row + RangeCoords(sr + 1, sc, er + 1, ec);
        row + [];
        [] + row;
        RangeCoords(sr, sc, er, ec) + row;
      }
    }
  }

  lemma AppendAssoc<T>(a: seq<T>, b: seq<T>, c: seq<T>)
    ensures a + (b + c) == (a + b) + c
  {
  }

  /** A row listing grows by one coordinate at its end. */
  lemma {:induction false} RowCoordsSnoc(r: int, sc: int, ec: int)
    requires sc <= ec + 1
    ensures RowCoords(r, sc, ec + 1) == RowCoords(r, sc, ec) + [(r, ec + 1)]
    decreases ec - sc
  {
    var last := [(r, ec + 1)];
    if sc <= ec {
      RowCoordsSnoc(r, sc + 1, ec);
      var mid := RowCoords(r, sc + 1, ec);
      calc {
        RowCoords(r, sc, ec + 1);
        [(r, sc)] + RowCoords(r, sc + 1, ec + 1);
        [(r, sc)] + (mid + last);
        { AppendAssoc([(r, sc)], mid, last); }
        ([(r, sc)] + mid) + last;
        RowCoords(r, sc, ec) + last;
      }
    } else {
      calc {
        RowCoords(r, sc, ec + 1);
        last + RowCoords(r, sc + 1, ec + 1);
        last + [];
        [] + last;
        RowCoords(r, sc, ec) + last;
      }
    }
  }

  /** The coordinates `create_grid` gives a cell: in bounds and not a merge member. */
  function GridKeys(rows: int, cols: int, merged: Merges): (keys: set<Coord>)
    ensures forall p :: p in keys <==> InBounds(p, rows, cols) && !IsMergedCell(merged, p)
  {
    set r: int, c: int | 0 <= r < rows && 0 <= c < cols && !IsMergedCell(merged, (r, c)) :: (r, c)
  }

  /** The cell map right after `create_grid`: every cell present and empty. */
  function EmptyGrid(rows: int, cols: int, merged: Merges): map<Coord, string> {
    map p | p in GridKeys(rows, cols, merged) :: ""
  }

  /* ---------------- Python's sorted() on coordinate keys ---------------- */

  /** Python's tuple order on coordinates. */
  predicate Before(a: Coord, b: Coord) {
    a.0 < b.0 || (a.0 == b.0 && a.1 < b.1)
  }

  predicate SortedStrict(s: seq<Coord>) {
    forall i, j | 0 <= i < j < |s| :: Before(s[i], s[j])
  }

  /** Two sorted listings, the first wholly before the second, make a sorted listing. */
  lemma ConcatSorted(a: seq<Coord>, b: seq<Coord>)
    requires SortedStrict(a) && SortedStrict(b)
    requires forall x, y | x in a && y in b :: Before(x, y)
    ensures SortedStrict(a + b)
  {
    forall i, j | 0 <= i < j < |a + b| ensures Before((a + b)[i], (a + b)[j]) {
      if j < |a| {
        assert (a + b)[i] == a[i] && (a + b)[j] == a[j];
      } else if i >= |a| {
        assert (a + b)[i] == b[i - |a|] && (a + b)[j] == b[j - |a|];
      } else {
        assert (a + b)[i] in a && (a + b)[j] in b;
      }
    }
  }

  /** A row's listing runs left to right. */
  lemma {:induction false} RowCoordsSorted(r: int, sc: int, ec: int)
    ensures SortedStrict(RowCoords(r, sc, ec))
    decreases ec - sc
  {
    if sc <= ec {
      RowCoordsSorted(r, sc + 1, ec);
      RowCoordsMembers(r, sc + 1, ec);
      ConcatSorted([(r, sc)], RowCoords(r, sc + 1, ec));
    }
  }

  /** The rectangle's listing is in row-major order: `sorted()` order. */
  lemma {:induction false} RangeCoordsSorted(sr: int, sc: int, er: int, ec: int)
    ensures SortedStrict(RangeCoords(sr, sc, er, ec))
    decreases er - sr
  {
    if sr <= er {
      RowCoordsSorted(sr, sc, ec);
      RowCoordsMembers(sr, sc, ec);
      RangeCoordsSorted(sr + 1, sc, er, ec);
      RangeCoordsMembers(sr + 1, sc, er, ec);
      ConcatSorted(RowCoords(sr, sc, ec), RangeCoords(sr + 1, sc, er, ec));
    }
  }

  predicate IsLeast(m: Coord, s: set<Coord>) {
    m in s && forall x | x in s :: x == m || Before(m, x)
  }

  lemma {:induction false} LeastExists(s: set<Coord>)
    requires s != {}
    ensures exists m :: IsLeast(m, s)
    decreases |s|
  {
    var y :| y in s;
    if s == {y} {
      assert IsLeast(y, s);
    } else {
      LeastExists(s - {y});
      var m :| IsLeast(m, s - {y});
      if Before(y, m) {
        forall x | x in s ensures x == y || Before(y, x) {
          if x != y { assert x in s - {y}; }
        }
        assert IsLeast(y, s);
      } else {
        assert IsLeast(m, s);
      }
    }
  }

  function Least(s: set<Coord>): (m: Coord)
    requires s != {}
    ensures IsLeast(m, s)
  {
    LeastExists(s);
    var m :| IsLeast(m, s);
    m
  }

  /** `sorted(keys)` for a set of coordinates. */
  function SortedCoords(s: set<Coord>): (r: seq<Coord>)
    ensures SortedStrict(r)
    ensures forall x :: x in r <==> x in s
    ensures |r| == |s|
    decreases |s|
  {
    if s == {} then []
    else
      var m := Least(s);
      var rest := SortedCoords(s - {m});
      [m] + rest
  }

  /** The first element of a strictly sorted listing is the least of its elements. */
  lemma HeadIsLeast(a: seq<Coord>)
    requires SortedStrict(a) && a != []
    ensures IsLeast(a[0], set x | x in a)
  {
    forall x | x in a ensures x == a[0] || Before(a[0], x) {
      var k :| 0 <= k < |a| && a[k] == x;
      if k > 0 { assert Before(a[0], a[k]); }
    }
  }

  /** Two strictly sorted listings of the same coordinates are equal. */
  lemma {:induction false} SortedUnique(a: seq<Coord>, b: seq<Coord>)
    requires SortedStrict(a) && SortedStrict(b)
    requires forall x :: x in a <==> x in b
    ensures a == b
  {
    assert a != [] ==> a[0] in b;
    assert b != [] ==> b[0] in a;
    if a != [] && b != [] {
      HeadIsLeast(a);
      HeadIsLeast(b);
      assert (set x | x in a) == (set x | x in b);
      assert a[0] == b[0];
      forall x ensures x in a[1..] <==> x in b[1..] {
        assert x in a[1..] ==> Before(a[0], x);
        assert x in b[1..] ==> Before(b[0], x);
        assert x in a <==> x == a[0] || x in a[1..];
        assert x in b <==> x == b[0] || x in b[1..];
      }
      SortedUnique(a[1..], b[1..]);
      assert a == [a[0]] + a[1..];
      assert b == [b[0]] + b[1..];
    }
  }

  /* ---------------- Lines of the grid ---------------- */

  /** A structural edit works on rows or on columns. */
  datatype Axis = Rows | Cols

  /** The coordinate of `p` along `axis`. */
  function Line(p: Coord, axis: Axis): int {
    if axis == Rows then p.0 else p.1
  }

  /** `p` with its coordinate along `axis` replaced by `v`. */
  function WithLine(p: Coord, axis: Axis, v: int): (q: Coord)
    ensures Line(q, axis) == v
    ensures axis == Rows ==> q.1 == p.1
    ensures axis == Cols ==> q.0 == p.0
  {
    if axis == Rows then (v, p.1) else (p.0, v)
  }
}
