/**
 * The selection rules of the table: `select_cell`, `select_range`,
 * `update_selection`, and the re-selection `refresh_grid` and
 * `_restore_state` perform, as functions of the selection they start from.
 */
module Selection {
  import opened Dict
  import opened Geometry

  /** `selection_mode`: "single" or "multiple". */
  datatype Mode = Single | Multiple

  /** `order` lists the elements of `s`, each once: one of the orders `list(s)` may produce. */
  ghost predicate IsListing(order: seq<Coord>, s: set<Coord>) {
    (forall p :: p in order <==> p in s) &&
    (forall i, j | 0 <= i < j < |order| :: order[i] != order[j])
  }

  /** Every selection can be listed. */
  lemma ListingExists(s: set<Coord>)
    ensures IsListing(SortedCoords(s), s)
  {
    var order := SortedCoords(s);
    forall i, j | 0 <= i < j < |order| ensures order[i] != order[j] {
      assert Before(order[i], order[j]);
    }
  }

  /** A listing has exactly one entry per element of the set it lists. */
  lemma {:induction false} ListingSize(order: seq<Coord>, s: set<Coord>)
    requires IsListing(order, s)
    ensures |order| == |s|
    decreases |order|
  {
    if order != [] {
      var x, rest := order[0], order[1..];
      forall p ensures p in rest <==> p in s - {x} {
        if p in rest {
          var k :| 0 <= k < |rest| && rest[k] == p;
          assert order[k + 1] == p;
        }
        if p in s - {x} {
          var k :| 0 <= k < |order| && order[k] == p;
          assert rest[k - 1] == p;
        }
      }
      forall i, j | 0 <= i < j < |rest| ensures rest[i] != rest[j] {
        assert order[i + 1] != order[j + 1];
      }
      ListingSize(rest, s - {x});
    }
  }

  /** The only listing of the empty selection is empty. */
  lemma ListingOfEmpty(order: seq<Coord>)
    requires IsListing(order, {})
    ensures order == []
  {
    ListingSize(order, {});
  }

  /**
   * `select_cell(p)`: nothing happens outside the grid; in single mode the
   * selection is cleared first; `p` joins it only when it has a cell.
   */
  function SelectCell(sel: set<Coord>, mode: Mode, rows: int, cols: int, keys: set<Coord>, p: Coord): set<Coord> {
    if !InBounds(p, rows, cols) then sel
    else
      var base := if mode == Single then {} else sel;
      if p in keys then base + {p} else base
  }

  /** `select_cell` applied to each coordinate of `ps` in turn. */
  function SelectEach(sel: set<Coord>, mode: Mode, rows: int, cols: int, keys: set<Coord>, ps: seq<Coord>): set<Coord>
    decreases |ps|
  {
    if ps == [] then sel else SelectEach(SelectCell(sel, mode, rows, cols, keys, ps[0]), mode, rows, cols, keys, ps[1..])
  }

  /**
   * The re-selection loop of `refresh_grid` and `_restore_state`: after
   * `clear_selection`, `select_cell` for each listed coordinate that has a cell.
   */
  function Reselect(mode: Mode, rows: int, cols: int, keys: set<Coord>, order: seq<Coord>): set<Coord> {
    SelectEach({}, mode, rows, cols, keys, Present(order, keys))
  }

  /** The listed coordinates that have a cell, in order. */
  function Present(order: seq<Coord>, keys: set<Coord>): (r: seq<Coord>)
    ensures forall p :: p in r <==> p in order && p in keys
  {
    if order == [] then []
    else (if order[0] in keys then [order[0]] else []) + Present(order[1..], keys)
  }

  /** Selecting the coordinates of `ps + qs` is selecting those of `ps`, then those of `qs`. */
  lemma {:induction false} SelectEachAppend(sel: set<Coord>, mode: Mode, rows: int, cols: int, keys: set<Coord>, ps: seq<Coord>, qs: seq<Coord>)
    ensures SelectEach(sel, mode, rows, cols, keys, ps + qs) ==
      SelectEach(SelectEach(sel, mode, rows, cols, keys, ps), mode, rows, cols, keys, qs)
    decreases |ps|
  {
    if ps != [] {
      assert (ps + qs)[1..] == ps[1..] + qs;
      SelectEachAppend(SelectCell(sel, mode, rows, cols, keys, ps[0]), mode, rows, cols, keys, ps[1..], qs);
    } else {
      assert ps + qs == qs;
    }
  }

  /** Filtering a listing with one more coordinate at its end. */
  lemma {:induction false} PresentSnoc(order: seq<Coord>, x: Coord, keys: set<Coord>)
    ensures Present(order + [x], keys) == Present(order, keys) + (if x in keys then [x] else [])
    decreases |order|
  {
    if order != [] {
      assert (order + [x])[1..] == order[1..] + [x];
      PresentSnoc(order[1..], x, keys);
    } else {
      assert order + [x] == [x];
    }
  }

  /** The re-selection loop takes one more listed coordinate: `select_cell` when it has a cell. */
  lemma ReselectStep(mode: Mode, rows: int, cols: int, keys: set<Coord>, order: seq<Coord>, i: int)
    requires 0 <= i < |order|
    ensures var before := SelectEach({}, mode, rows, cols, keys, Present(order[..i], keys));
      SelectEach({}, mode, rows, cols, keys, Present(order[..i + 1], keys)) ==
        if order[i] in keys then SelectCell(before, mode, rows, cols, keys, order[i]) else before
  {
    var p := order[i];
    var ps := Present(order[..i], keys);
    assert order[..i + 1] == order[..i] + [p];
    PresentSnoc(order[..i], p, keys);
    if p in keys {
      SelectEachAppend({}, mode, rows, cols, keys, ps, [p]);
      assert [p][1..] == [];
    } else {
      assert ps + [] == ps;
    }
  }

  /** `select_range`: clear, then `select_cell` over the rectangle, row by row. */
  function SelectRange(mode: Mode, rows: int, cols: int, keys: set<Coord>, sr: int, sc: int, er: int, ec: int): set<Coord> {
    SelectEach({}, mode, rows, cols, keys, RangeCoords(Min(sr, er), Min(sc, ec), Max(sr, er), Max(sc, ec)))
  }

  function Min(a: int, b: int): int { if a <= b then a else b }
  function Max(a: int, b: int): int { if a <= b then b else a }

  /**
   * `update_selection(p)`: a merge member stands for the origin of the first
   * block covering it; an in-bounds target becomes the only selected cell,
   * otherwise the selection stays as it was.
   */
  function UpdateSelection(sel: set<Coord>, merged: Merges, rows: int, cols: int, p: Coord): (r: set<Coord>)
    ensures InBounds(Redirect(merged, p), rows, cols) ==> r == {Redirect(merged, p)}
    ensures !InBounds(Redirect(merged, p), rows, cols) ==> r == sel
  {
    var q := Redirect(merged, p);
    if InBounds(q, rows, cols) then {q} else sel
  }

  /** The coordinates of `ps` that are in bounds and have a cell. */
  function Selectable(ps: seq<Coord>, rows: int, cols: int, keys: set<Coord>): set<Coord> {
    set p | p in ps && InBounds(p, rows, cols) && p in keys
  }

  /** In multiple mode, selecting each coordinate adds exactly the selectable ones. */
  lemma {:induction false} SelectEachMultiple(sel: set<Coord>, rows: int, cols: int, keys: set<Coord>, ps: seq<Coord>)
    ensures SelectEach(sel, Multiple, rows, cols, keys, ps) == sel + Selectable(ps, rows, cols, keys)
    decreases |ps|
  {
    if ps != [] {
      var next := SelectCell(sel, Multiple, rows, cols, keys, ps[0]);
      SelectEachMultiple(next, rows, cols, keys, ps[1..]);
      assert Selectable(ps, rows, cols, keys) ==
        (if InBounds(ps[0], rows, cols) && ps[0] in keys then {ps[0]} else {}) + Selectable(ps[1..], rows, cols, keys)
      by {
        assert forall p :: p in ps <==> p == ps[0] || p in ps[1..];
      }
    }
  }

  /**
   * The index of the last coordinate of `ps` inside the grid, or -1 when
   * none is.
   */
  function LastInBounds(ps: seq<Coord>, rows: int, cols: int): (k: int)
    ensures -1 <= k < |ps|
    ensures k >= 0 ==> InBounds(ps[k], rows, cols)
    ensures forall j | k < j < |ps| :: !InBounds(ps[j], rows, cols)
    decreases |ps|
  {
    if ps == [] then -1
    else
      var k := LastInBounds(ps[1..], rows, cols);
      if k >= 0 then k + 1
      else if InBounds(ps[0], rows, cols) then 0
      else -1
  }

  /** `{p}` when `p` has a cell, nothing otherwise: what single mode leaves after selecting `p`. */
  function OnlyIfCell(p: Coord, keys: set<Coord>): set<Coord> {
    if p in keys then {p} else {}
  }

  /**
   * In single mode every in-bounds `select_cell` clears the selection first,
   * so the last in-bounds coordinate decides the outcome: it alone is
   * selected when it has a cell, nothing is when it has none, and with no
   * in-bounds coordinate the selection is untouched.
   */
  lemma {:induction false} SelectEachSingle(sel: set<Coord>, rows: int, cols: int, keys: set<Coord>, ps: seq<Coord>)
    ensures var k := LastInBounds(ps, rows, cols);
      SelectEach(sel, Single, rows, cols, keys, ps) == if k < 0 then sel else OnlyIfCell(ps[k], keys)
    decreases |ps|
  {
    if ps != [] {
      var next := SelectCell(sel, Single, rows, cols, keys, ps[0]);
      SelectEachSingle(next, rows, cols, keys, ps[1..]);
      var k := LastInBounds(ps[1..], rows, cols);
      if k >= 0 {
        assert ps[1..][k] == ps[k + 1];
      }
    }
  }

  /** From an empty selection, single mode selects at most one selectable coordinate. */
  lemma SelectEachSingleFromEmpty(rows: int, cols: int, keys: set<Coord>, ps: seq<Coord>)
    ensures |SelectEach({}, Single, rows, cols, keys, ps)| <= 1
    ensures SelectEach({}, Single, rows, cols, keys, ps) <= Selectable(ps, rows, cols, keys)
  {
    SelectEachSingle({}, rows, cols, keys, ps);
    var k := LastInBounds(ps, rows, cols);
    if k >= 0 {
      assert ps[k] in ps;
    }
  }

  /** Multiple mode: `select_range` selects exactly the rectangle's in-bounds cells. */
  lemma SelectRangeMultiple(rows: int, cols: int, keys: set<Coord>, sr: int, sc: int, er: int, ec: int)
    ensures forall p :: p in SelectRange(Multiple, rows, cols, keys, sr, sc, er, ec) <==>
      Min(sr, er) <= p.0 <= Max(sr, er) && Min(sc, ec) <= p.1 <= Max(sc, ec) && InBounds(p, rows, cols) && p in keys
  {
    RangeCoordsMembers(Min(sr, er), Min(sc, ec), Max(sr, er), Max(sc, ec));
    SelectEachMultiple({}, rows, cols, keys, RangeCoords(Min(sr, er), Min(sc, ec), Max(sr, er), Max(sc, ec)));
  }

  /**
   * In a sorted listing, an in-bounds coordinate after which every listed
   * coordinate is outside the grid is the last in-bounds one.
   */
  lemma LastInBoundsOfSorted(ps: seq<Coord>, rows: int, cols: int, q: Coord)
    requires SortedStrict(ps) && q in ps && InBounds(q, rows, cols)
    requires forall p | p in ps && Before(q, p) :: !InBounds(p, rows, cols)
    ensures LastInBounds(ps, rows, cols) >= 0 && ps[LastInBounds(ps, rows, cols)] == q
  {
    var i :| 0 <= i < |ps| && ps[i] == q;
    forall j | i < j < |ps| ensures !InBounds(ps[j], rows, cols) {
      assert Before(ps[i], ps[j]) && ps[j] in ps;
    }
  }

  /**
   * Single mode: `select_range` selects the rectangle's last cell inside the
   * grid in row-major order, its bottom-right in-bounds corner, when that
   * coordinate has a cell; nothing when it has none or when the rectangle
   * lies outside the grid.
   */
  lemma SelectRangeSingle(rows: int, cols: int, keys: set<Coord>, sr: int, sc: int, er: int, ec: int)
    ensures var top, left := Max(Min(sr, er), 0), Max(Min(sc, ec), 0);
      var bottom, right := Min(Max(sr, er), rows - 1), Min(Max(sc, ec), cols - 1);
      SelectRange(Single, rows, cols, keys, sr, sc, er, ec) ==
        if top <= bottom && left <= right then OnlyIfCell((bottom, right), keys) else {}
    ensures |SelectRange(Single, rows, cols, keys, sr, sc, er, ec)| <= 1
    ensures forall p | p in SelectRange(Single, rows, cols, keys, sr, sc, er, ec) ::
      Min(sr, er) <= p.0 <= Max(sr, er) && Min(sc, ec) <= p.1 <= Max(sc, ec) && InBounds(p, rows, cols) && p in keys
  {
    var lr, lc, hr, hc := Min(sr, er), Min(sc, ec), Max(sr, er), Max(sc, ec);
    var top, left, bottom, right := Max(lr, 0), Max(lc, 0), Min(hr, rows - 1), Min(hc, cols - 1);
    var ps := RangeCoords(lr, lc, hr, hc);
    RangeCoordsMembers(lr, lc, hr, hc);
    SelectEachSingle({}, rows, cols, keys, ps);
    SelectEachSingleFromEmpty(rows, cols, keys, ps);
    if top <= bottom && left <= right {
      RangeCoordsSorted(lr, lc, hr, hc);
      forall p | p in ps && Before((bottom, right), p) ensures !InBounds(p, rows, cols) {
      }
      LastInBoundsOfSorted(ps, rows, cols, (bottom, right));
    } else {
      forall j | 0 <= j < |ps| ensures !InBounds(ps[j], rows, cols) {
        assert ps[j] in ps;
      }
    }
  }

  /**
   * Re-selection keeps what was selected and still has an in-bounds cell: all
   * of it in multiple mode; in single mode exactly the last listed coordinate
   * that has a cell inside the grid, or nothing when there is none.
   */
  lemma Reselected(mode: Mode, rows: int, cols: int, keys: set<Coord>, order: seq<Coord>)
    ensures mode == Multiple ==> forall p :: p in Reselect(mode, rows, cols, keys, order) <==>
      p in order && p in keys && InBounds(p, rows, cols)
    ensures mode == Single ==>
      var ps := Present(order, keys);
      var k := LastInBounds(ps, rows, cols);
      Reselect(mode, rows, cols, keys, order) == if k < 0 then {} else {ps[k]}
    ensures mode == Single ==> |Reselect(mode, rows, cols, keys, order)| <= 1
    ensures forall p | p in Reselect(mode, rows, cols, keys, order) :: p in order && p in keys && InBounds(p, rows, cols)
  {
    var ps := Present(order, keys);
    if mode == Multiple {
      SelectEachMultiple({}, rows, cols, keys, ps);
    } else {
      SelectEachSingle({}, rows, cols, keys, ps);
      SelectEachSingleFromEmpty(rows, cols, keys, ps);
      var k := LastInBounds(ps, rows, cols);
      if k >= 0 {
        assert ps[k] in ps;
      }
    }
  }
}
