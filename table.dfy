/**
 * The `Table` widget as a grid engine: every Tk `Text` widget is reduced to
 * the string it holds, so the table is its dimensions, its cells, its merged
 * blocks, its selection, its undo and redo stacks and its formula state, and
 * each method updates those fields in place as the widget does.
 */
module Table {
  import opened Wrappers
  import opened Dict
  import opened Geometry
  import opened References
  import opened Shift
  import opened Selection
  import opened Formula
  import opened Undo
  import opened Edits

  /** An exception a table method lets escape. */
  datatype Exception =
    | IndexError
    | ValueError(message: string)
    | NameError(name: string)
    | Raised(raised: Formula.Raised)

  /** The dictionary `get_cell` returns, without its colour. */
  datatype CellData = CellData(value: string, isMerged: bool, mergeSpan: Option<Span>, isSelected: bool)

  /**
   * What `get_cell` reports for the coordinate `q` it settled on: its text
   * ("" without a cell), whether it is a stored origin with a cell, its span
   * then, and whether it is selected.
   */
  function CellInfo(cells: map<Coord, string>, merged: Merges, selected: set<Coord>, q: Coord): (d: CellData)
    ensures d.value == (if q in cells then cells[q] else "")
    ensures d.isMerged <==> q in cells && q in Keys(merged)
    ensures d.mergeSpan.Some? <==> d.isMerged
    ensures d.isMerged ==> d.mergeSpan == Some(Get(merged, q))
    ensures d.isSelected <==> q in selected
  {
    var origin := q in cells && q in Keys(merged);
    CellData(
      if q in cells then cells[q] else "",
      origin,
      if origin then Some(Get(merged, q)) else None,
      q in selected)
  }

  /** The exception `_evaluate_cell` raised, as a table exception. */
  function Lift(e: Option<Formula.Raised>): (r: Option<Exception>)
    ensures r.None? <==> e.None?
  {
    if e.Some? then Some(Raised(e.value)) else None
  }

  /* ---------------- point access ---------------- */

  /**
   * The coordinates `set_cell(p, value, expand)` writes to before it checks
   * which have a cell: the covering origin for a merge member, every
   * coordinate of an origin's block that has a cell when expanding, `p`
   * itself otherwise.
   */
  function WriteTargets(cells: map<Coord, string>, merged: Merges, p: Coord, expand: bool): (ts: seq<Coord>)
    ensures !expand ==> ts == [Redirect(merged, p)]
    ensures expand && p in Keys(merged) ==>
      forall q :: q in ts <==> q in cells && Covers(p, Get(merged, p), q)
    ensures expand && p !in Keys(merged) ==> ts == [p]
  {
    if !expand && IsMergedCell(merged, p) then [Redirect(merged, p)]
    else if expand && p in Keys(merged) then
      var span := Get(merged, p);
      RangeCoordsMembers(p.0, p.1, p.0 + span.0 - 1, p.1 + span.1 - 1);
      Present(RangeCoords(p.0, p.1, p.0 + span.0 - 1, p.1 + span.1 - 1), cells.Keys)
    else [p]
  }

  /**
   * The write loop of `set_cell`: each target that has a cell takes the
   * text; in spreadsheet mode a target holding a formula is then evaluated,
   * which shows the formula's value instead, and an exception stops the loop.
   */
  function WriteAll(ctx: Ctx, s: Sheet, ts: seq<Coord>, value: string): (o: Outcome)
    ensures o.0.cells.Keys == s.cells.Keys
    ensures o.1.Some? ==> ctx.spreadsheet
    decreases |ts|
  {
    if ts == [] then (s, None)
    else
      var t := ts[0];
      if t in s.cells then
        var s1 := s.(cells := s.cells[t := value]);
        if ctx.spreadsheet && t in Keys(ctx.formulas) then
          var o := EvalCell(ctx, s1, t, ctx.rt.maxDepth);
          EvalCellKeeps(ctx, s1, t, ctx.rt.maxDepth);
          if o.1.Some? then o else WriteAll(ctx, o.0, ts[1..], value)
        else WriteAll(ctx, s1, ts[1..], value)
      else WriteAll(ctx, s, ts[1..], value)
  }

  /** One target of the write loop: its text, then its formula's value in spreadsheet mode. */
  function WriteStep(ctx: Ctx, s: Sheet, t: Coord, value: string): Outcome {
    if t in s.cells then
      var s1 := s.(cells := s.cells[t := value]);
      if ctx.spreadsheet && t in Keys(ctx.formulas) then EvalCell(ctx, s1, t, ctx.rt.maxDepth)
      else (s1, None)
    else (s, None)
  }

  /** The write loop is its first step followed, unless that raised, by the rest. */
  lemma WriteAllStep(ctx: Ctx, s: Sheet, ts: seq<Coord>, value: string)
    requires ts != []
    ensures var o := WriteStep(ctx, s, ts[0], value);
      WriteAll(ctx, s, ts, value) == if o.1.Some? then o else WriteAll(ctx, o.0, ts[1..], value)
  {
  }

  /** Every target that has a cell holds `value`; every other cell keeps its text. */
  function Written(cells: map<Coord, string>, ts: seq<Coord>, value: string): (r: map<Coord, string>)
    ensures r.Keys == cells.Keys
  {
    map k | k in cells :: if k in ts then value else cells[k]
  }

  /** No target holds a formula that the write loop would evaluate. */
  predicate NoFormulaTargets(ctx: Ctx, ts: seq<Coord>) {
    forall i | 0 <= i < |ts| :: !(ctx.spreadsheet && ts[i] in Keys(ctx.formulas))
  }

  /**
   * Outside spreadsheet mode, or when no target holds a formula, the write
   * loop only writes: it raises nothing, leaves the computed values alone,
   * and the cells are exactly `Written`.
   */
  lemma {:induction false} WriteAllPlain(ctx: Ctx, s: Sheet, ts: seq<Coord>, value: string)
    requires NoFormulaTargets(ctx, ts)
    ensures WriteAll(ctx, s, ts, value) == (s.(cells := Written(s.cells, ts, value)), None)
    decreases |ts|
  {
    if ts != [] {
      var t := ts[0];
      assert NoFormulaTargets(ctx, ts[1..]) by {
        forall i | 0 <= i < |ts[1..]| ensures !(ctx.spreadsheet && ts[1..][i] in Keys(ctx.formulas)) {
          assert ts[1..][i] == ts[i + 1];
        }
      }
      var s1 := if t in s.cells then s.(cells := s.cells[t := value]) else s;
      WriteAllPlainStep(ctx, s, ts, value);
      WriteAllPlain(ctx, s1, ts[1..], value);
      WrittenStep(s.cells, ts, value);
    } else {
      assert Written(s.cells, ts, value) == s.cells;
    }
  }

  /** A first target without a formula is only written. */
  lemma WriteAllPlainStep(ctx: Ctx, s: Sheet, ts: seq<Coord>, value: string)
    requires ts != [] && !(ctx.spreadsheet && ts[0] in Keys(ctx.formulas))
    ensures WriteAll(ctx, s, ts, value) ==
      WriteAll(ctx, if ts[0] in s.cells then s.(cells := s.cells[ts[0] := value]) else s, ts[1..], value)
  {
  }

  /** Writing the first target, then the rest, writes them all. */
  lemma WrittenStep(cells: map<Coord, string>, ts: seq<Coord>, value: string)
    requires ts != []
    ensures Written(if ts[0] in cells then cells[ts[0] := value] else cells, ts[1..], value) == Written(cells, ts, value)
  {
    var c1 := if ts[0] in cells then cells[ts[0] := value] else cells;
    forall k | k in cells ensures Written(c1, ts[1..], value)[k] == Written(cells, ts, value)[k] {
      assert k in ts <==> k == ts[0] || k in ts[1..];
    }
  }

  /**
   * Reading back what `set_cell` wrote: a write to an in-bounds coordinate
   * whose cell, or whose covering origin's cell, exists is what `get_cell`
   * then reports for it, and every other cell keeps its text.
   */
  lemma ReadAfterWrite(cells: map<Coord, string>, merged: Merges, selected: set<Coord>, p: Coord, value: string)
    requires Redirect(merged, p) in cells
    ensures var w := Written(cells, WriteTargets(cells, merged, p, false), value);
      CellInfo(w, merged, selected, Redirect(merged, p)).value == value &&
      forall k | k in cells && k != Redirect(merged, p) :: w[k] == cells[k]
  {
  }

  /** `set_cell` reports a change exactly when some target has a cell. */
  predicate AnyPresent(ts: seq<Coord>, keys: set<Coord>) {
    exists i | 0 <= i < |ts| :: ts[i] in keys
  }

  /** A prefix with one more target has a present target when the shorter one does or the new one is. */
  lemma AnyPresentSnoc(ts: seq<Coord>, i: int, keys: set<Coord>)
    requires 0 <= i < |ts|
    ensures AnyPresent(ts[..i + 1], keys) <==> AnyPresent(ts[..i], keys) || ts[i] in keys
  {
    assert ts[..i + 1] == ts[..i] + [ts[i]];
  }

  /**
   * `get_values`: the table as rows of texts, row-major, "" for a coordinate
   * without a cell.
   */
  function ValuesOf(cells: map<Coord, string>, rows: int, cols: int): (data: seq<seq<string>>)
    ensures |data| == Max(rows, 0)
    ensures forall i | 0 <= i < |data| :: |data[i]| == Max(cols, 0)
    ensures forall i, j | 0 <= i < |data| && 0 <= j < |data[i]| ::
      data[i][j] == if (i, j) in cells then cells[(i, j)] else ""
  {
    seq(Max(rows, 0), i => seq(Max(cols, 0), j => if (i, j) in cells then cells[(i, j)] else ""))
  }

  /** `data[r][c]` when the table and the data both have that position. */
  predicate InData(data: seq<seq<string>>, rows: int, cols: int, p: Coord) {
    0 <= p.0 < Min(rows, |data|) && 0 <= p.1 < Min(cols, |data[p.0]|)
  }

  /** `set_values(data)`: every cell inside both the table and the data takes the data's text. */
  function Populated(cells: map<Coord, string>, rows: int, cols: int, data: seq<seq<string>>): (r: map<Coord, string>)
    ensures r.Keys == cells.Keys
  {
    map k | k in cells :: if InData(data, rows, cols, k) then data[k.0][k.1] else cells[k]
  }

  /**
   * `get_values` after `set_values(data)` gives back the data wherever the
   * table has a cell at a position the data covers, and what it gave before
   * everywhere else.
   */
  lemma ValuesRoundTrip(cells: map<Coord, string>, rows: int, cols: int, data: seq<seq<string>>, i: int, j: int)
    requires 0 <= i < rows && 0 <= j < cols
    ensures InData(data, rows, cols, (i, j)) && (i, j) in cells ==>
      ValuesOf(Populated(cells, rows, cols, data), rows, cols)[i][j] == data[i][j]
    ensures !InData(data, rows, cols, (i, j)) ==>
      ValuesOf(Populated(cells, rows, cols, data), rows, cols)[i][j] == ValuesOf(cells, rows, cols)[i][j]
  {
  }

  /** The nested loop of `set_values`, over the positions both the table and the data have. */
  method WriteData(cells0: map<Coord, string>, rows: int, cols: int, data: seq<seq<string>>) returns (result: map<Coord, string>)
    ensures result == Populated(cells0, rows, cols, data)
  {
    result := cells0;
    PopulatedStart(cells0, rows, cols, data);
    var r := 0;
    while r < Min(rows, |data|)
      invariant 0 <= r <= Max(Min(rows, |data|), 0)
      invariant result == PopulatedUpTo(cells0, rows, cols, data, r)
      decreases Min(rows, |data|) - r
    {
      var n := Min(cols, |data[r]|);
      result := WriteRow(result, r, data[r], n);
      PopulatedRow(cells0, rows, cols, data, r);
      r := r + 1;
    }
    PopulatedEnd(cells0, rows, cols, data, r);
  }

  /** The cells once the loop of `set_values` has written every row before `r`. */
  function PopulatedUpTo(cells: map<Coord, string>, rows: int, cols: int, data: seq<seq<string>>, r: int): map<Coord, string> {
    map k | k in cells :: if k.0 < r && InData(data, rows, cols, k) then data[k.0][k.1] else cells[k]
  }

  /** `cells` with the first `n` texts of `row` written into row `r`, where it has cells. */
  function RowWritten(cells: map<Coord, string>, r: int, row: seq<string>, n: int): map<Coord, string>
    requires n <= |row|
  {
    map k | k in cells :: if k.0 == r && 0 <= k.1 < n then row[k.1] else cells[k]
  }

  lemma PopulatedStart(cells: map<Coord, string>, rows: int, cols: int, data: seq<seq<string>>)
    ensures PopulatedUpTo(cells, rows, cols, data, 0) == cells
  {
  }

  /** Writing row `r` as far as the table and the data reach extends the written rows by one. */
  lemma PopulatedRow(cells: map<Coord, string>, rows: int, cols: int, data: seq<seq<string>>, r: int)
    requires 0 <= r < Min(rows, |data|)
    ensures RowWritten(PopulatedUpTo(cells, rows, cols, data, r), r, data[r], Min(cols, |data[r]|)) ==
      PopulatedUpTo(cells, rows, cols, data, r + 1)
  {
  }

  /** Past the last row both the table and the data have, everything is written. */
  lemma PopulatedEnd(cells: map<Coord, string>, rows: int, cols: int, data: seq<seq<string>>, r: int)
    requires r >= 0 && r >= Min(rows, |data|)
    ensures PopulatedUpTo(cells, rows, cols, data, r) == Populated(cells, rows, cols, data)
  {
  }

  /** The inner loop of `set_values`: the first `n` texts of `row` into row `r`, where it has cells. */
  method WriteRow(before: map<Coord, string>, r: int, row: seq<string>, n: int) returns (result: map<Coord, string>)
    requires n <= |row|
    ensures result == RowWritten(before, r, row, n)
  {
    result := before;
    var c := 0;
    while c < n
      invariant 0 <= c && (c <= n || c == 0)
      invariant result == RowWritten(before, r, row, c)
    {
      RowWrittenStep(before, r, row, c);
      if (r, c) in result {
        result := result[(r, c) := row[c]];
      }
      c := c + 1;
    }
    RowWrittenDone(before, r, row, c, n);
  }

  /** One more position of the row written. */
  lemma RowWrittenStep(cells: map<Coord, string>, r: int, row: seq<string>, c: int)
    requires 0 <= c < |row|
    ensures var m := RowWritten(cells, r, row, c);
      RowWritten(cells, r, row, c + 1) == if (r, c) in m then m[(r, c) := row[c]] else m
  {
  }

  /** Writing up to a non-positive count writes nothing more. */
  lemma RowWrittenDone(cells: map<Coord, string>, r: int, row: seq<string>, c: int, n: int)
    requires n <= |row| && 0 <= c && (c == n || (c == 0 && n < 0))
    ensures RowWritten(cells, r, row, c) == RowWritten(cells, r, row, n)
  {
  }

  /** "(row,col)", as the undo descriptions write a coordinate. */
  function CoordText(p: Coord): string {
    "(" + IntToString(p.0) + "," + IntToString(p.1) + ")"
  }

  /** The coordinates of `ps` that are origins of `m`, in the order `ps` lists them. */
  function OriginsIn(m: Merges, ps: seq<Coord>): seq<Coord>
    decreases |ps|
  {
    if ps == [] then [] else (if ps[0] in Keys(m) then [ps[0]] else []) + OriginsIn(m, ps[1..])
  }

  /** The picked coordinates are those of `ps` that are origins, in `ps`'s order. */
  lemma {:induction false} OriginsInMembers(m: Merges, ps: seq<Coord>)
    ensures forall q :: q in OriginsIn(m, ps) <==> q in ps && q in Keys(m)
    ensures SortedStrict(ps) ==> SortedStrict(OriginsIn(m, ps))
    decreases |ps|
  {
    if ps != [] {
      OriginsInMembers(m, ps[1..]);
      assert forall q | q in ps[1..] :: q in ps;
      assert ps == [ps[0]] + ps[1..];
      if SortedStrict(ps) {
        assert forall y | y in ps[1..] :: Before(ps[0], y);
        ConcatSorted(if ps[0] in Keys(m) then [ps[0]] else [], OriginsIn(m, ps[1..]));
      }
    }
  }

  /** Picking from a sorted listing keeps it sorted. */
  lemma OriginsSorted(m: Merges, ps: seq<Coord>)
    requires SortedStrict(ps)
    ensures SortedStrict(OriginsIn(m, ps))
  {
    OriginsInMembers(m, ps);
  }

  /**
   * Picking from a sorted listing the coordinates that are origins of `m`
   * unmerges, once each, the origins of `m0` inside `region`.
   */
  lemma OriginsUnmerged(m: Merges, ps: seq<Coord>, m0: Merges, region: set<Coord>)
    requires SortedStrict(ps)
    requires forall q :: (q in ps && q in Keys(m)) <==> (q in Keys(m0) && q in region)
    ensures Unmerged(OriginsIn(m, ps), m0, region)
  {
    OriginsInMembers(m, ps);
    var u := OriginsIn(m, ps);
    forall i, j | 0 <= i < j < |u| ensures u[i] != u[j] {
      assert Before(u[i], u[j]);
    }
  }

  /** The undo entries `unmerge_cells` pushes for the origins of `unmerged`, in order. */
  ghost predicate UnmergeEntries(entries: seq<Snapshot>, unmerged: seq<Coord>) {
    |entries| == |unmerged| &&
    forall j | 0 <= j < |entries| :: entries[j].description == "Unmerge cells at " + CoordText(unmerged[j])
  }

  lemma UnmergeEntriesAppend(e1: seq<Snapshot>, u1: seq<Coord>, e2: seq<Snapshot>, u2: seq<Coord>)
    requires UnmergeEntries(e1, u1) && UnmergeEntries(e2, u2)
    ensures UnmergeEntries(e1 + e2, u1 + u2)
  {
    forall j | 0 <= j < |e1 + e2|
      ensures (e1 + e2)[j].description == "Unmerge cells at " + CoordText((u1 + u2)[j])
    {
      if j < |e1| {
        assert (e1 + e2)[j] == e1[j] && (u1 + u2)[j] == u1[j];
      } else {
        assert (e1 + e2)[j] == e2[j - |e1|] && (u1 + u2)[j] == u2[j - |e1|];
      }
    }
  }

  /** `unmerged` lists, once each, exactly the origins of `m0` that lie in `region`. */
  ghost predicate Unmerged(unmerged: seq<Coord>, m0: Merges, region: set<Coord>) {
    NoDuplicates(unmerged) && forall q :: q in unmerged <==> q in Keys(m0) && q in region
  }

  /**
   * `stack` is `before` with one `unmerge_cells` entry pushed per origin of
   * `unmerged`, in order, starting from the merges `m0`.
   */
  ghost predicate PushedUnmerges(stack: seq<Snapshot>, before: seq<Snapshot>, entries: seq<Snapshot>, unmerged: seq<Coord>) {
    stack == PushAll(before, entries) && UnmergeEntries(entries, unmerged)
  }

  lemma PushedUnmergesAppend(before: seq<Snapshot>, mid: seq<Snapshot>, after: seq<Snapshot>,
                             e1: seq<Snapshot>, u1: seq<Coord>, e2: seq<Snapshot>, u2: seq<Coord>)
    requires PushedUnmerges(mid, before, e1, u1) && PushedUnmerges(after, mid, e2, u2)
    ensures PushedUnmerges(after, before, e1 + e2, u1 + u2)
  {
    PushAllAppend(before, e1, e2);
    UnmergeEntriesAppend(e1, u1, e2, u2);
  }

  /** Unmerging two disjoint regions one after the other unmerges, once each, the origins of their union. */
  lemma UnmergedAppend(u1: seq<Coord>, u2: seq<Coord>, m0: Merges, region1: set<Coord>, region2: set<Coord>)
    requires Unmerged(u1, m0, region1) && Unmerged(u2, m0, region2) && region1 !! region2
    ensures Unmerged(u1 + u2, m0, region1 + region2)
  {
    var u := u1 + u2;
    forall i, j | 0 <= i < j < |u| ensures u[i] != u[j] {
      if j < |u1| {
        assert u[i] == u1[i] && u[j] == u1[j];
      } else if i >= |u1| {
        assert u[i] == u2[i - |u1|] && u[j] == u2[j - |u1|];
      } else {
        assert u[i] == u1[i] && u[j] == u2[j - |u1|];
        assert u1[i] in u1 && u2[j - |u1|] in u2;
      }
    }
  }

  /** The row part of the rectangle grows by one column. */
  lemma RowRegionStep(r: int, sc: int, c: int, done: set<Coord>)
    requires sc <= c
    ensures done + Block((r, sc), (1, c - sc)) + {(r, c)} == done + Block((r, sc), (1, c + 1 - sc))
    ensures (Block((r, sc), (1, c - sc)) - done) !! ({(r, c)} - (done + Block((r, sc), (1, c - sc))))
    ensures (Block((r, sc), (1, c - sc)) - done) + ({(r, c)} - (done + Block((r, sc), (1, c - sc)))) ==
      Block((r, sc), (1, c + 1 - sc)) - done
  {
  }

  /** The rectangle grows by one row. */
  lemma BlockRegionStep(sr: int, sc: int, r: int, spanC: int)
    requires sr <= r
    ensures Block((sr, sc), (r - sr, spanC)) + Block((r, sc), (1, spanC)) == Block((sr, sc), (r + 1 - sr, spanC))
    ensures Block((sr, sc), (r - sr, spanC)) !! (Block((r, sc), (1, spanC)) - Block((sr, sc), (r - sr, spanC)))
    ensures Block((sr, sc), (r - sr, spanC)) + (Block((r, sc), (1, spanC)) - Block((sr, sc), (r - sr, spanC))) ==
      Block((sr, sc), (r + 1 - sr, spanC))
  {
  }

  /** Before the rectangle loop nothing is cleared, unmerged or pushed. */
  lemma BlockEntry(m0: Merges, u0: seq<Snapshot>, sr: int, sc: int, spanC: int)
    ensures m0 == Without(m0, Block((sr, sc), (0, spanC)))
    ensures Unmerged([], m0, Block((sr, sc), (0, spanC)))
    ensures PushedUnmerges(u0, u0, [], [])
  {
    WithoutNothing(m0);
    assert Block((sr, sc), (0, spanC)) == {};
  }

  /** Before the row loop nothing more is cleared, unmerged or pushed. */
  lemma RowEntry(m0: Merges, u0: seq<Snapshot>, done: set<Coord>, r: int, sc: int)
    ensures done + Block((r, sc), (1, 0)) == done
    ensures Unmerged([], m0, Block((r, sc), (1, 0)) - done)
    ensures PushedUnmerges(u0, u0, [], [])
  {
    assert Block((r, sc), (1, 0)) == {};
  }

  /** The rectangle loop ends at `Max(sr + spanR, sr)`, having covered every row. */
  lemma BlockExit(sr: int, sc: int, r: int, spanR: int, spanC: int)
    requires r == Max(sr + spanR, sr)
    ensures Block((sr, sc), (r - sr, spanC)) == Block((sr, sc), (spanR, spanC))
  {
  }

  /** The row loop ends at `Max(sc + spanC, sc)`, having covered every column. */
  lemma RowExit(r: int, sc: int, c: int, spanC: int)
    requires c == Max(sc + spanC, sc)
    ensures Block((r, sc), (1, c - sc)) == Block((r, sc), (1, spanC))
  {
  }

  /** A sorted list of the origins inside the rectangle is their row-major filter. */
  lemma BlockUnmergedInOrder(u: seq<Coord>, m0: Merges, sr: int, sc: int, spanR: int, spanC: int)
    requires Unmerged(u, m0, Block((sr, sc), (spanR, spanC))) && SortedStrict(u)
    ensures u == OriginsIn(m0, RangeCoords(sr, sc, sr + spanR - 1, sc + spanC - 1))
  {
    var listing := OriginsIn(m0, RangeCoords(sr, sc, sr + spanR - 1, sc + spanC - 1));
    var region := Block((sr, sc), (spanR, spanC));
    BlockOriginsUnmerged(m0, sr, sc, spanR, spanC);
    RangeCoordsSorted(sr, sc, sr + spanR - 1, sc + spanC - 1);
    OriginsSorted(m0, RangeCoords(sr, sc, sr + spanR - 1, sc + spanC - 1));
    forall x ensures x in u <==> x in listing {
      assert x in u <==> x in Keys(m0) && x in region;
      assert x in listing <==> x in Keys(m0) && x in region;
    }
    SortedUnique(u, listing);
  }

  /** The rectangle loop unmerges, once each, the origins inside the rectangle. */
  lemma BlockOriginsUnmerged(m0: Merges, sr: int, sc: int, spanR: int, spanC: int)
    ensures Unmerged(OriginsIn(m0, RangeCoords(sr, sc, sr + spanR - 1, sc + spanC - 1)), m0, Block((sr, sc), (spanR, spanC)))
  {
    RangeCoordsMembers(sr, sc, sr + spanR - 1, sc + spanC - 1);
    RangeCoordsSorted(sr, sc, sr + spanR - 1, sc + spanC - 1);
    OriginsUnmerged(m0, RangeCoords(sr, sc, sr + spanR - 1, sc + spanC - 1), m0, Block((sr, sc), (spanR, spanC)));
  }

  /** One column of the row loop keeps its invariants. */
  lemma ClearRowStep(m0: Merges, done: set<Coord>, u0: seq<Snapshot>, mid: seq<Snapshot>, stack: seq<Snapshot>,
                     m1: Merges, r: int, sc: int, c: int,
                     unmerged: seq<Coord>, entries: seq<Snapshot>, u: seq<Coord>, e: seq<Snapshot>)
    requires sc <= c
    requires Unmerged(unmerged, m0, Block((r, sc), (1, c - sc)) - done) && SortedStrict(unmerged)
    requires PushedUnmerges(mid, u0, entries, unmerged)
    requires m1 == Without(m0, done + Block((r, sc), (1, c - sc)) + {(r, c)})
    requires |u| <= 1 && Unmerged(u, m0, {(r, c)} - (done + Block((r, sc), (1, c - sc))))
    requires PushedUnmerges(stack, mid, e, u)
    ensures m1 == Without(m0, done + Block((r, sc), (1, c + 1 - sc)))
    ensures Unmerged(unmerged + u, m0, Block((r, sc), (1, c + 1 - sc)) - done) && SortedStrict(unmerged + u)
    ensures PushedUnmerges(stack, u0, entries + e, unmerged + u)
  {
    PushedUnmergesAppend(u0, mid, stack, entries, unmerged, e, u);
    RowRegionStep(r, sc, c, done);
    UnmergedAppend(unmerged, u, m0, Block((r, sc), (1, c - sc)) - done, {(r, c)} - (done + Block((r, sc), (1, c - sc))));
    forall x, y | x in unmerged && y in u ensures Before(x, y) {
      assert x in Block((r, sc), (1, c - sc)) && y == (r, c);
    }
    ConcatSorted(unmerged, u);
  }

  /** One row of the rectangle loop keeps its invariants. */
  lemma ClearBlockStep(m0: Merges, u0: seq<Snapshot>, mid: seq<Snapshot>, stack: seq<Snapshot>, m1: Merges,
                       sr: int, sc: int, r: int, spanC: int,
                       unmerged: seq<Coord>, entries: seq<Snapshot>, u: seq<Coord>, e: seq<Snapshot>)
    requires sr <= r
    requires Unmerged(unmerged, m0, Block((sr, sc), (r - sr, spanC))) && SortedStrict(unmerged)
    requires PushedUnmerges(mid, u0, entries, unmerged)
    requires m1 == Without(m0, Block((sr, sc), (r - sr, spanC)) + Block((r, sc), (1, spanC)))
    requires Unmerged(u, m0, Block((r, sc), (1, spanC)) - Block((sr, sc), (r - sr, spanC))) && SortedStrict(u)
    requires PushedUnmerges(stack, mid, e, u)
    ensures m1 == Without(m0, Block((sr, sc), (r + 1 - sr, spanC)))
    ensures Unmerged(unmerged + u, m0, Block((sr, sc), (r + 1 - sr, spanC))) && SortedStrict(unmerged + u)
    ensures PushedUnmerges(stack, u0, entries + e, unmerged + u)
  {
    PushedUnmergesAppend(u0, mid, stack, entries, unmerged, e, u);
    BlockRegionStep(sr, sc, r, spanC);
    UnmergedAppend(unmerged, u, m0, Block((sr, sc), (r - sr, spanC)), Block((r, sc), (1, spanC)) - Block((sr, sc), (r - sr, spanC)));
    forall x, y | x in unmerged && y in u ensures Before(x, y) {
      assert x in Block((sr, sc), (r - sr, spanC)) && y in Block((r, sc), (1, spanC));
    }
    ConcatSorted(unmerged, u);
  }

  /* ---------------- structural edits ---------------- */

  /** The undo description of `insert_row` / `insert_column`. */
  function InsertDescription(axis: Axis, position: string): string {
    (if axis == Rows then "Insert row " else "Insert column ") + position
  }

  /** "below" a row, "right" of a column: the new line comes after the reference line. */
  predicate InsertsAfter(axis: Axis, position: string) {
    if axis == Rows then position == "below" else position == "right"
  }

  /** `insert_at`: the least selected line, or the one after it. */
  function InsertAt(sel: set<Coord>, axis: Axis, position: string): (at: int)
    requires sel != {}
    ensures exists p | p in sel :: at == Line(p, axis) + (if InsertsAfter(axis, position) then 1 else 0)
    ensures forall p | p in sel :: at <= Line(p, axis) + (if InsertsAfter(axis, position) then 1 else 0)
  {
    Smallest(LinesOf(sel, axis)) + (if InsertsAfter(axis, position) then 1 else 0)
  }

  /** The selection after an insert: every coordinate at or past `at` moves one line on. */
  function ShiftedSelection(sel: set<Coord>, axis: Axis, at: int): set<Coord> {
    set p | p in sel :: Shifted(p, axis, at)
  }

  /**
   * A coordinate is selected after the insert exactly when its pre-insert
   * position was, and the selection keeps its size: no two selected
   * coordinates land on the same one.
   */
  lemma {:induction false} ShiftedSelectionExact(sel: set<Coord>, axis: Axis, at: int)
    ensures forall p :: p in sel <==> Shifted(p, axis, at) in ShiftedSelection(sel, axis, at)
    ensures forall q | q in ShiftedSelection(sel, axis, at) :: exists p | p in sel :: q == Shifted(p, axis, at)
    ensures |ShiftedSelection(sel, axis, at)| == |sel|
    decreases |sel|
  {
    var moved := ShiftedSelection(sel, axis, at);
    forall p | Shifted(p, axis, at) in moved ensures p in sel {
      var q :| q in sel && Shifted(q, axis, at) == Shifted(p, axis, at);
      ShiftedInjective(p, q, axis, at);
    }
    if sel != {} {
      var x :| x in sel;
      var rest := ShiftedSelection(sel - {x}, axis, at);
      ShiftedSelectionExact(sel - {x}, axis, at);
      assert moved == rest + {Shifted(x, axis, at)};
      assert Shifted(x, axis, at) !in rest;
    }
  }

  /** The number of lines across the grid: columns for a row, rows for a column. */
  function Breadth(axis: Axis, rows: int, cols: int): int {
    if axis == Rows then cols else rows
  }

  /** The number of lines along `axis`. */
  function Extent(axis: Axis, rows: int, cols: int): int {
    if axis == Rows then rows else cols
  }

  /** The undo description of `move_row` / `move_column`. */
  function MoveDescription(axis: Axis, direction: string): string {
    (if axis == Rows then "Move row " else "Move column ") + direction
  }

  /** "down" for a row, "right" for a column: the line moves to the next index. */
  predicate MovesForward(axis: Axis, direction: string) {
    if axis == Rows then direction == "down" else direction == "right"
  }

  /** Where a move takes `line`. */
  function MoveTarget(line: int, axis: Axis, direction: string): int {
    if MovesForward(axis, direction) then line + 1 else line - 1
  }

  /**
   * A move goes ahead when the selection touches exactly one line and its
   * neighbour in the requested direction is inside the grid.
   */
  predicate MovePossible(sel: set<Coord>, axis: Axis, direction: string, rows: int, cols: int) {
    sel != {} && |LinesOf(sel, axis)| == 1 &&
    0 <= MoveTarget(Smallest(LinesOf(sel, axis)), axis, direction) < Extent(axis, rows, cols)
  }

  /**
   * The selection a move leaves: the whole target line selected cell by cell
   * from an empty selection, then `update_selection` on its first coordinate.
   */
  function MovedSelection(mode: Mode, rows: int, cols: int, keys: set<Coord>, merged: Merges, axis: Axis, target: int): set<Coord> {
    Selection.UpdateSelection(
      SelectEach({}, mode, rows, cols, keys, LineCoords(axis, target, Breadth(axis, rows, cols))),
      merged, rows, cols, At(axis, target, 0))
  }

  /* ---------------- the table ---------------- */

  class Table {
    var rows: int
    var cols: int
    /** `cells`: one entry per coordinate that has a widget, holding its text. */
    var cells: map<Coord, string>
    /** `merged_cells`. */
    var merged: Merges
    /** `selected_cells`. */
    var selected: set<Coord>
    /** `selection_mode`. */
    var mode: Mode
    var undoStack: seq<Snapshot>
    var redoStack: seq<Snapshot>
    /** `len(row_heights)`; the heights themselves are presentation. */
    var heights: int
    /** `formulas`, in insertion order. */
    var formulas: Dict<Coord, string>
    /** `calculated_values`. */
    var calculated: map<Coord, Value>
    /** `cell_references` (empty until spreadsheet mode builds it). */
    var refs: map<string, Coord>
    /** `spreadsheet_mode`. */
    var spreadsheet: bool
    /** The formula runtime: float parsing and printing, and the general arithmetic branch. */
    const rt: Runtime
    /** The order in which iterating over a set of coordinates visits them. */
    const order: set<Coord> -> seq<Coord>

    ghost predicate Valid()
      reads this
    {
      && Distinct(merged)
      && Distinct(formulas)
      && |undoStack| + |redoStack| <= MaxUndoSteps
      && (forall i | 0 <= i < |undoStack| :: Distinct(undoStack[i].merged))
      && (forall i | 0 <= i < |redoStack| :: Distinct(redoStack[i].merged))
      && (forall s :: IsListing(order(s), s))
    }

    /** The formula engine's view of the table. */
    function Context(): Ctx
      reads this
    {
      Ctx(formulas, refs, rt, spreadsheet)
    }

    /** The cells and computed values the formula engine updates. */
    function Contents(): Sheet
      reads this
    {
      Sheet(cells, calculated)
    }

    /** The snapshot `save_state`, `undo` and `redo` take of the table. */
    function Capture(description: string): Snapshot
      reads this
    {
      Snapshot(cells, merged, (rows, cols), order(selected), description)
    }

    /**
     * `__init__` (and the `resize_grid(rows, cols)` it ends with): an empty
     * grid of the requested size, no merges, no selection, single mode, empty
     * histories and formulas, and the reference table in spreadsheet mode.
     */
    constructor(rows0: int, cols0: int, spreadsheet0: bool, rt0: Runtime, order0: set<Coord> -> seq<Coord>)
      requires forall s :: IsListing(order0(s), s)
      ensures Valid()
      ensures rows == rows0 && cols == cols0
      ensures cells == EmptyGrid(rows0, cols0, []) && merged == []
      ensures selected == {} && mode == Single
      ensures undoStack == [] && redoStack == []
      ensures formulas == [] && calculated == map[] && spreadsheet == spreadsheet0
      ensures spreadsheet0 ==> IsReferenceTable(refs, rows0, cols0)
      ensures !spreadsheet0 ==> refs == map[]
      ensures heights == Max(rows0, 0)
      ensures rt == rt0 && order == order0
    {
      rows := rows0;
      cols := cols0;
      mode := Single;
      heights := Max(rows0, 0);
      spreadsheet := spreadsheet0;
      cells := map[];
      merged := [];
      selected := {};
      undoStack := [];
      redoStack := [];
      formulas := [];
      calculated := map[];
      refs := map[];
      rt := rt0;
      order := order0;
      new;
      if spreadsheet {
        refs := BuildReferences(rows, cols);
      }
      CreateGrid();
      ResizeGrid(rows, cols);
    }

    /**
     * `resize_grid`: a zero argument keeps the current size; the grid is then
     * rebuilt empty.
     */
    method ResizeGrid(newRows: int, newCols: int)
      requires Valid()
      modifies this
      ensures Valid()
      ensures rows == (if newRows != 0 then newRows else old(rows))
      ensures cols == (if newCols != 0 then newCols else old(cols))
      ensures cells == EmptyGrid(rows, cols, merged) && heights == Max(rows, 0)
      ensures merged == old(merged) && selected == old(selected) && mode == old(mode)
      ensures undoStack == old(undoStack) && redoStack == old(redoStack)
      ensures Context() == old(Context()) && calculated == old(calculated)
    {
      rows := if newRows != 0 then newRows else rows;
      cols := if newCols != 0 then newCols else cols;
      CreateGrid();
    }

    /**
     * `create_grid`: a fresh, empty cell for every in-bounds coordinate that
     * is not a merge member, and one row height per row.
     */
    method CreateGrid()
      modifies this
      ensures cells == EmptyGrid(rows, cols, merged)
      ensures heights == Max(rows, 0)
      ensures rows == old(rows) && cols == old(cols) && merged == old(merged)
      ensures selected == old(selected) && mode == old(mode)
      ensures undoStack == old(undoStack) && redoStack == old(redoStack)
      ensures Context() == old(Context()) && calculated == old(calculated)
    {
      var grid: map<Coord, string> := map[];
      var r := 0;
      while r < rows
        invariant 0 <= r <= Max(rows, 0)
        invariant forall p :: p in grid <==> p.0 < r && InBounds(p, rows, cols) && !IsMergedCell(merged, p)
        invariant forall p | p in grid :: grid[p] == ""
        decreases rows - r
      {
        var c := 0;
        while c < cols
          invariant 0 <= c <= Max(cols, 0)
          invariant forall p :: p in grid <==>
            (p.0 < r || (p.0 == r && p.1 < c)) && InBounds(p, rows, cols) && !IsMergedCell(merged, p)
          invariant forall p | p in grid :: grid[p] == ""
          decreases cols - c
        {
          if !IsMergedCell(merged, (r, c)) {
            grid := grid[(r, c) := ""];
          }
          c := c + 1;
        }
        r := r + 1;
      }
      cells := grid;
      heights := Max(rows, 0);
      assert cells.Keys == GridKeys(rows, cols, merged);
    }

    /* ---------------- selection ---------------- */

    /** `set_selection_mode`: only "single" and "multiple" are accepted. */
    method SetSelectionMode(name: string) returns (err: Option<Exception>)
      modifies this
      ensures name == "single" ==> err == None && mode == Single
      ensures name == "multiple" ==> err == None && mode == Multiple
      ensures name != "single" && name != "multiple" ==>
        err == Some(ValueError("Selection mode must be 'single' or 'multiple'")) && mode == old(mode)
      ensures rows == old(rows) && cols == old(cols) && cells == old(cells) && merged == old(merged)
      ensures selected == old(selected) && heights == old(heights)
      ensures undoStack == old(undoStack) && redoStack == old(redoStack)
      ensures Context() == old(Context()) && calculated == old(calculated)
    {
      if name == "single" {
        mode := Single;
        err := None;
      } else if name == "multiple" {
        mode := Multiple;
        err := None;
      } else {
        err := Some(ValueError("Selection mode must be 'single' or 'multiple'"));
      }
    }

    /** `deselect_cell`: a selected coordinate that has a cell leaves the selection. */
    method DeselectCell(p: Coord)
      modifies this
      ensures selected == if p in cells then old(selected) - {p} else old(selected)
      ensures rows == old(rows) && cols == old(cols) && cells == old(cells) && merged == old(merged)
      ensures mode == old(mode) && heights == old(heights)
      ensures undoStack == old(undoStack) && redoStack == old(redoStack)
      ensures Context() == old(Context()) && calculated == old(calculated)
    {
      if p in cells && p in selected {
        selected := selected - {p};
      }
    }

    /** `clear_selection`: deselect each selected cell, then empty the set. */
    method ClearSelection()
      modifies this
      ensures selected == {}
      ensures rows == old(rows) && cols == old(cols) && cells == old(cells) && merged == old(merged)
      ensures mode == old(mode) && heights == old(heights)
      ensures undoStack == old(undoStack) && redoStack == old(redoStack)
      ensures Context() == old(Context()) && calculated == old(calculated)
    {
      var listing := order(selected);
      var i := 0;
      while i < |listing|
        invariant 0 <= i <= |listing|
        invariant selected <= old(selected)
        invariant rows == old(rows) && cols == old(cols) && cells == old(cells) && merged == old(merged)
        invariant mode == old(mode) && heights == old(heights)
        invariant undoStack == old(undoStack) && redoStack == old(redoStack)
        invariant Context() == old(Context()) && calculated == old(calculated)
      {
        DeselectCell(listing[i]);
        i := i + 1;
      }
      selected := {};
    }

    /** `select_cell`, as `Selection.SelectCell` states it. */
    method SelectCell(p: Coord)
      modifies this
      ensures selected == Selection.SelectCell(old(selected), mode, rows, cols, cells.Keys, p)
      ensures rows == old(rows) && cols == old(cols) && cells == old(cells) && merged == old(merged)
      ensures mode == old(mode) && heights == old(heights)
      ensures undoStack == old(undoStack) && redoStack == old(redoStack)
      ensures Context() == old(Context()) && calculated == old(calculated)
    {
      if !InBounds(p, rows, cols) {
        return;
      }
      if mode == Single {
        ClearSelection();
      }
      if p !in selected && p in cells {
        selected := selected + {p};
      }
    }

    /** `select_range`: clear, then select each coordinate of the rectangle, row by row. */
    method SelectRange(sr: int, sc: int, er: int, ec: int)
      modifies this
      ensures selected == Selection.SelectRange(mode, rows, cols, cells.Keys, sr, sc, er, ec)
      ensures rows == old(rows) && cols == old(cols) && cells == old(cells) && merged == old(merged)
      ensures mode == old(mode) && heights == old(heights)
      ensures undoStack == old(undoStack) && redoStack == old(redoStack)
      ensures Context() == old(Context()) && calculated == old(calculated)
    {
      ClearSelection();
      var lr, lc, hr, hc := Min(sr, er), Min(sc, ec), Max(sr, er), Max(sc, ec);
      var r := lr;
      while r <= hr
        invariant lr <= r <= hr + 1
        invariant selected == SelectEach({}, mode, rows, cols, cells.Keys, RangeCoords(lr, lc, r - 1, hc))
        invariant rows == old(rows) && cols == old(cols) && cells == old(cells) && merged == old(merged)
        invariant mode == old(mode) && heights == old(heights)
        invariant undoStack == old(undoStack) && redoStack == old(redoStack)
        invariant Context() == old(Context()) && calculated == old(calculated)
      {
        SelectNextRow(lr, lc, r, hc);
        r := r + 1;
      }
    }

    /** One pass of the outer loop of `select_range`: row `r` joins the rows already selected. */
    method SelectNextRow(lr: int, lc: int, r: int, hc: int)
      requires lr <= r
      requires selected == SelectEach({}, mode, rows, cols, cells.Keys, RangeCoords(lr, lc, r - 1, hc))
      modifies this
      ensures selected == SelectEach({}, mode, rows, cols, cells.Keys, RangeCoords(lr, lc, r, hc))
      ensures rows == old(rows) && cols == old(cols) && cells == old(cells) && merged == old(merged)
      ensures mode == old(mode) && heights == old(heights)
      ensures undoStack == old(undoStack) && redoStack == old(redoStack)
      ensures Context() == old(Context()) && calculated == old(calculated)
    {
      RangeCoordsSnoc(lr, lc, r - 1, hc);
      SelectEachAppend({}, mode, rows, cols, cells.Keys, RangeCoords(lr, lc, r - 1, hc), RowCoords(r, lc, hc));
      SelectRow(r, lc, hc);
    }

    /** The inner loop of `select_range`: select each coordinate of row `r` from column `lc` to `hc`. */
    method SelectRow(r: int, lc: int, hc: int)
      modifies this
      ensures selected == SelectEach(old(selected), mode, rows, cols, cells.Keys, RowCoords(r, lc, hc))
      ensures rows == old(rows) && cols == old(cols) && cells == old(cells) && merged == old(merged)
      ensures mode == old(mode) && heights == old(heights)
      ensures undoStack == old(undoStack) && redoStack == old(redoStack)
      ensures Context() == old(Context()) && calculated == old(calculated)
    {
      var c := lc;
      assert RowCoords(r, lc, lc - 1) == [];
      while c <= hc
        invariant lc <= c <= Max(hc + 1, lc)
        invariant selected == SelectEach(old(selected), mode, rows, cols, cells.Keys, RowCoords(r, lc, c - 1))
        invariant rows == old(rows) && cols == old(cols) && cells == old(cells) && merged == old(merged)
        invariant mode == old(mode) && heights == old(heights)
        invariant undoStack == old(undoStack) && redoStack == old(redoStack)
        invariant Context() == old(Context()) && calculated == old(calculated)
      {
        RowCoordsSnoc(r, lc, c - 1);
        SelectEachAppend(old(selected), mode, rows, cols, cells.Keys, RowCoords(r, lc, c - 1), [(r, c)]);
        SelectCell((r, c));
        c := c + 1;
      }
      assert RowCoords(r, lc, c - 1) == RowCoords(r, lc, hc) by {
        if hc < lc { assert RowCoords(r, lc, hc) == []; }
      }
    }

    /**
     * The loop of `update_selection` that finds the origin of the first block,
     * in dictionary order, covering a merge member.
     */
    method FindOrigin(p: Coord) returns (q: Coord)
      requires IsMergedCell(merged, p)
      ensures q == Redirect(merged, p)
    {
      var i := 0;
      assert exists k | 0 <= k < |merged| :: Covers(merged[k].0, merged[k].1, p);
      while !Covers(merged[i].0, merged[i].1, p)
        invariant 0 <= i < |merged|
        invariant exists k | i <= k < |merged| :: Covers(merged[k].0, merged[k].1, p)
        invariant forall j | 0 <= j < i :: !Covers(merged[j].0, merged[j].1, p)
        decreases |merged| - i
      {
        i := i + 1;
      }
      q := merged[i].0;
      assert FirstCovering(merged, p) == Some(i);
    }

    /**
     * `update_selection`: a merge member stands for its origin; an in-bounds
     * target becomes the only selected cell, whatever the mode.
     */
    method UpdateSelection(p: Coord)
      modifies this
      ensures selected == Selection.UpdateSelection(old(selected), merged, rows, cols, p)
      ensures rows == old(rows) && cols == old(cols) && cells == old(cells) && merged == old(merged)
      ensures mode == old(mode) && heights == old(heights)
      ensures undoStack == old(undoStack) && redoStack == old(redoStack)
      ensures Context() == old(Context()) && calculated == old(calculated)
    {
      var q := p;
      if IsMergedCell(merged, p) {
        q := FindOrigin(p);
      }
      if InBounds(q, rows, cols) {
        selected := {q};
      }
    }

    /**
     * The re-selection step of `refresh_grid` and `_restore_state`: clear,
     * then select each listed coordinate that has a cell.
     */
    method Reselect(listing: seq<Coord>)
      modifies this
      ensures selected == Selection.Reselect(mode, rows, cols, cells.Keys, listing)
      ensures rows == old(rows) && cols == old(cols) && cells == old(cells) && merged == old(merged)
      ensures mode == old(mode) && heights == old(heights)
      ensures undoStack == old(undoStack) && redoStack == old(redoStack)
      ensures Context() == old(Context()) && calculated == old(calculated)
    {
      ClearSelection();
      var i := 0;
      while i < |listing|
        invariant 0 <= i <= |listing|
        invariant selected == SelectEach({}, mode, rows, cols, cells.Keys, Present(listing[..i], cells.Keys))
        invariant rows == old(rows) && cols == old(cols) && cells == old(cells) && merged == old(merged)
        invariant mode == old(mode) && heights == old(heights)
        invariant undoStack == old(undoStack) && redoStack == old(redoStack)
        invariant Context() == old(Context()) && calculated == old(calculated)
      {
        var p := listing[i];
        Selection.ReselectStep(mode, rows, cols, cells.Keys, listing, i);
        if p in cells {
          SelectCell(p);
        }
        i := i + 1;
      }
      assert listing[..i] == listing;
    }

    /**
     * The content loop of `refresh_grid` and `_restore_state`: every cell that
     * exists takes the text `source` holds for it.
     */
    method PutBack(source: map<Coord, string>)
      modifies this
      ensures cells == RestoreContent(old(cells), source)
      ensures rows == old(rows) && cols == old(cols) && merged == old(merged) && selected == old(selected)
      ensures mode == old(mode) && heights == old(heights)
      ensures undoStack == old(undoStack) && redoStack == old(redoStack)
      ensures Context() == old(Context()) && calculated == old(calculated)
    {
      var result := cells;
      var pending := source.Keys;
      while pending != {}
        invariant pending <= source.Keys
        invariant result.Keys == cells.Keys
        invariant forall k | k in result ::
          result[k] == if k in source && k !in pending then source[k] else cells[k]
        decreases |pending|
      {
        var k :| k in pending;
        if k in result {
          result := result[k := source[k]];
        }
        pending := pending - {k};
      }
      cells := result;
    }

    /**
     * `refresh_grid`: the grid is rebuilt, each surviving cell gets its text
     * back, and the selection is re-selected from its listing.
     */
    method RefreshGrid()
      requires Valid()
      modifies this
      ensures Valid()
      ensures cells == RestoreContent(EmptyGrid(rows, cols, merged), old(cells))
      ensures selected == Selection.Reselect(mode, rows, cols, cells.Keys, order(old(selected)))
      ensures heights == Max(rows, 0)
      ensures rows == old(rows) && cols == old(cols) && merged == old(merged) && mode == old(mode)
      ensures undoStack == old(undoStack) && redoStack == old(redoStack)
      ensures Context() == old(Context()) && calculated == old(calculated)
    {
      var content := cells;
      var listing := order(selected);
      CreateGrid();
      PutBack(content);
      Reselect(listing);
    }
  
    /** The fields a cell-content or formula operation leaves alone. */
    function Layout(): (int, int, Merges, set<Coord>, Mode, int)
      reads this
    {
      (rows, cols, merged, selected, mode, heights)
    }

    /** `undo_stack` and `redo_stack`. */
    function History(): (seq<Snapshot>, seq<Snapshot>)
      reads this
    {
      (undoStack, redoStack)
    }

    /* ---------------- point access ---------------- */

    /**
     * `get_cell`: IndexError outside the grid; otherwise what the table holds
     * at `p`, or at its covering origin unless `raw` is set.
     */
    method GetCell(p: Coord, raw: bool) returns (r: Result<CellData, Exception>)
      ensures !InBounds(p, rows, cols) ==> r == Failure(IndexError)
      ensures InBounds(p, rows, cols) ==>
        r == Success(CellInfo(cells, merged, selected, if raw then p else Redirect(merged, p)))
    {
      if !InBounds(p, rows, cols) {
        return Failure(IndexError);
      }
      var q := p;
      if !raw && IsMergedCell(merged, p) {
        q := FindOrigin(p);
      }
      return Success(CellInfo(cells, merged, selected, q));
    }

    /**
     * `set_cell`: False outside the grid with nothing changed; otherwise the
     * write loop over the targets, reporting whether any target had a cell.
     */
    method SetCell(p: Coord, value: string, expand: bool) returns (modified: bool, err: Option<Exception>)
      requires Valid()
      modifies this
      ensures Valid()
      ensures !InBounds(p, rows, cols) ==> !modified && err == None && Contents() == old(Contents())
      ensures InBounds(p, rows, cols) ==>
        var ts := WriteTargets(old(cells), merged, p, expand);
        var o := WriteAll(Context(), old(Contents()), ts, value);
        Contents() == o.0 && err == Lift(o.1) && (err.None? ==> (modified <==> AnyPresent(ts, old(cells).Keys)))
      ensures Layout() == old(Layout()) && History() == old(History()) && Context() == old(Context())
    {
      if !InBounds(p, rows, cols) {
        return false, None;
      }
      var ts := ResolveTargets(p, expand);
      modified, err := WriteLoop(ts, value);
    }

    /** The target list `set_cell` builds. */
    method ResolveTargets(p: Coord, expand: bool) returns (ts: seq<Coord>)
      ensures ts == WriteTargets(cells, merged, p, expand)
    {
      ts := [p];
      if !expand && IsMergedCell(merged, p) {
        var q := FindOrigin(p);
        ts := [q];
      } else if expand && p in Keys(merged) {
        var span := Get(merged, p);
        ts := Present(RangeCoords(p.0, p.1, p.0 + span.0 - 1, p.1 + span.1 - 1), cells.Keys);
      }
    }

    /** The write loop of `set_cell` over its targets. */
    method WriteLoop(ts: seq<Coord>, value: string) returns (modified: bool, err: Option<Exception>)
      requires Valid()
      modifies this
      ensures Valid()
      ensures var o := WriteAll(old(Context()), old(Contents()), ts, value);
        Contents() == o.0 && err == Lift(o.1) && (err.None? ==> (modified <==> AnyPresent(ts, old(cells).Keys)))
      ensures Layout() == old(Layout()) && History() == old(History()) && Context() == old(Context())
    {
      ghost var ctx, s0 := Context(), Contents();
      modified, err := false, None;
      var i := 0;
      while i < |ts|
        invariant 0 <= i <= |ts|
        invariant WriteAll(ctx, s0, ts, value) == WriteAll(ctx, Contents(), ts[i..], value)
        invariant modified <==> AnyPresent(ts[..i], s0.cells.Keys)
        invariant cells.Keys == s0.cells.Keys
        invariant Valid() && Layout() == old(Layout()) && History() == old(History()) && Context() == ctx
      {
        var t := ts[i];
        assert ts[i..] == [t] + ts[i + 1..];
        AnyPresentSnoc(ts, i, s0.cells.Keys);
        var hit, e := WriteOne(t, value, ts[i + 1..]);
        modified := modified || hit;
        if e.Some? {
          err := Lift(e);
          return;
        }
        i := i + 1;
      }
      assert ts[..i] == ts;
    }

    /** One pass of the write loop of `set_cell`. */
    method WriteOne(t: Coord, value: string, ghost rest: seq<Coord>) returns (hit: bool, e: Option<Formula.Raised>)
      requires Valid()
      modifies this
      ensures Valid()
      ensures (Contents(), e) == WriteStep(old(Context()), old(Contents()), t, value)
      ensures WriteAll(old(Context()), old(Contents()), [t] + rest, value) ==
        if e.Some? then (Contents(), e) else WriteAll(Context(), Contents(), rest, value)
      ensures hit <==> t in old(cells)
      ensures cells.Keys == old(cells).Keys
      ensures Layout() == old(Layout()) && History() == old(History()) && Context() == old(Context())
    {
      WriteAllStep(Context(), Contents(), [t] + rest, value);
      assert ([t] + rest)[1..] == rest;
      hit, e := false, None;
      if t in cells {
        cells := cells[t := value];
        hit := true;
        if spreadsheet && t in Keys(formulas) {
          e := EvaluateCell(t, rt.maxDepth);
        }
      }
    }

    /** `get_values` (the row-major list of lists). */
    method GetValues() returns (data: seq<seq<string>>)
      ensures data == ValuesOf(cells, rows, cols)
    {
      data := [];
      var r := 0;
      while r < rows
        invariant 0 <= r <= Max(rows, 0)
        invariant data == ValuesOf(cells, rows, cols)[..r]
        decreases rows - r
      {
        var line: seq<string> := [];
        var c := 0;
        while c < cols
          invariant 0 <= c <= Max(cols, 0)
          invariant line == ValuesOf(cells, rows, cols)[r][..c]
          decreases cols - c
        {
          line := line + [if (r, c) in cells then cells[(r, c)] else ""];
          c := c + 1;
        }
        assert line == ValuesOf(cells, rows, cols)[r];
        assert ValuesOf(cells, rows, cols)[..r + 1] == ValuesOf(cells, rows, cols)[..r] + [line];
        data := data + [line];
        r := r + 1;
      }
    }

    /** `set_values(data)`: an undo entry, then the data written into the cells it covers. */
    method SetValues(data: seq<seq<string>>)
      requires Valid()
      modifies this
      ensures Valid()
      ensures undoStack == Push(old(undoStack), old(Capture("Set table values"))) && redoStack == []
      ensures cells == Populated(old(cells), rows, cols, data)
      ensures Layout() == old(Layout()) && Context() == old(Context()) && calculated == old(calculated)
    {
      SaveState("Set table values");
      cells := WriteData(cells, rows, cols, data);
    }

    /* ---------------- undo and redo ---------------- */

    /**
     * `save_state`: the oldest entry goes when 100 are stored, a snapshot of
     * the table is pushed, and the redo history is dropped.
     */
    method SaveState(description: string)
      requires Valid()
      modifies this
      ensures Valid()
      ensures undoStack == Push(old(undoStack), old(Capture(description))) && redoStack == []
      ensures Layout() == old(Layout()) && Contents() == old(Contents()) && Context() == old(Context())
    {
      if |undoStack| >= MaxUndoSteps {
        undoStack := undoStack[1..];
      }
      undoStack := undoStack + [Capture(description)];
      redoStack := [];
    }

    /**
     * `_restore_state`: the snapshot's dimensions and merges come back, each
     * existing cell takes the snapshot's text (the grid is not rebuilt, since
     * the dimensions were already assigned when it is checked), and the
     * snapshot's selection is re-selected.
     */
    method RestoreState(s: Snapshot)
      requires Valid() && Distinct(s.merged)
      modifies this
      ensures Valid()
      ensures rows == s.dims.0 && cols == s.dims.1 && merged == s.merged
      ensures cells == RestoreContent(old(cells), s.cells)
      ensures selected == Selection.Reselect(mode, rows, cols, cells.Keys, s.selection)
      ensures mode == old(mode) && heights == old(heights) && History() == old(History())
      ensures Context() == old(Context()) && calculated == old(calculated)
    {
      rows, cols := s.dims.0, s.dims.1;
      PutBack(s.cells);
      merged := s.merged;
      Reselect(s.selection);
    }

    /**
     * `undo`: nothing on an empty history; otherwise the current table goes
     * onto the redo stack and the latest snapshot is restored.
     */
    method Undo()
      requires Valid()
      modifies this
      ensures Valid()
      ensures old(undoStack) == [] ==>
        Layout() == old(Layout()) && Contents() == old(Contents()) && History() == old(History())
      ensures old(undoStack) != [] ==>
        var s := old(undoStack)[|old(undoStack)| - 1];
        undoStack == old(undoStack)[..|old(undoStack)| - 1] &&
        redoStack == old(redoStack) + [old(Capture("Before undo"))] &&
        rows == s.dims.0 && cols == s.dims.1 && merged == s.merged &&
        cells == RestoreContent(old(cells), s.cells) &&
        selected == Selection.Reselect(mode, rows, cols, cells.Keys, s.selection)
      ensures mode == old(mode) && heights == old(heights)
      ensures Context() == old(Context()) && calculated == old(calculated)
    {
      if undoStack == [] {
        return;
      }
      redoStack := redoStack + [Capture("Before undo")];
      var s := undoStack[|undoStack| - 1];
      undoStack := undoStack[..|undoStack| - 1];
      RestoreState(s);
    }

    /**
     * `redo`: nothing on an empty redo history; otherwise the current table
     * goes onto the undo stack (without the bound `save_state` applies) and
     * the latest undone snapshot is restored.
     */
    method Redo()
      requires Valid()
      modifies this
      ensures Valid()
      ensures old(redoStack) == [] ==>
        Layout() == old(Layout()) && Contents() == old(Contents()) && History() == old(History())
      ensures old(redoStack) != [] ==>
        var s := old(redoStack)[|old(redoStack)| - 1];
        redoStack == old(redoStack)[..|old(redoStack)| - 1] &&
        undoStack == old(undoStack) + [old(Capture("Before redo"))] &&
        rows == s.dims.0 && cols == s.dims.1 && merged == s.merged &&
        cells == RestoreContent(old(cells), s.cells) &&
        selected == Selection.Reselect(mode, rows, cols, cells.Keys, s.selection)
      ensures mode == old(mode) && heights == old(heights)
      ensures Context() == old(Context()) && calculated == old(calculated)
    {
      if redoStack == [] {
        return;
      }
      undoStack := undoStack + [Capture("Before redo")];
      var s := redoStack[|redoStack| - 1];
      redoStack := redoStack[..|redoStack| - 1];
      RestoreState(s);
    }

    /* ---------------- formulas ---------------- */

    /**
     * `_evaluate_cell(p)` with room for `fuel` more nested calls, as
     * `Formula.EvalCell` states it.
     */
    method EvaluateCell(p: Coord, fuel: nat) returns (err: Option<Formula.Raised>)
      modifies this
      ensures (Contents(), err) == EvalCell(old(Context()), old(Contents()), p, fuel)
      ensures Layout() == old(Layout()) && History() == old(History()) && Context() == old(Context())
      decreases fuel, 1
    {
      if fuel == 0 {
        return Some(RecursionError);
      }
      if !spreadsheet {
        return None;
      }
      var formula := GetOr(formulas, p, "");
      if formula == "" {
        return None;
      }
      err := ShowFormula(p, formula, fuel - 1);
    }

    /**
     * The body of `_evaluate_cell` for a cell with a formula: compute, store,
     * show (KeyError without a cell), then re-evaluate the dependents.
     */
    method ShowFormula(p: Coord, formula: string, fuel: nat) returns (err: Option<Formula.Raised>)
      requires spreadsheet && formula == GetOr(formulas, p, "") && formula != ""
      modifies this
      ensures (Contents(), err) == EvalCell(old(Context()), old(Contents()), p, fuel + 1)
      ensures Layout() == old(Layout()) && History() == old(History()) && Context() == old(Context())
      decreases fuel + 1, 0
    {
      ghost var ctx, s0 := Context(), Contents();
      var v := Calculate(Context(), Contents(), formula);
      calculated := calculated[p := v];
      if p !in cells {
        return Some(KeyError(p));
      }
      cells := cells[p := Show(rt, v)];
      err := UpdateDependencies(p, fuel);
    }

    /** `_update_dependencies(changed)`, as `Formula.UpdateDeps` states it. */
    method UpdateDependencies(changed: Coord, fuel: nat) returns (err: Option<Formula.Raised>)
      modifies this
      ensures (Contents(), err) == UpdateDeps(old(Context()), old(Contents()), changed, 0, fuel)
      ensures Layout() == old(Layout()) && History() == old(History()) && Context() == old(Context())
      decreases fuel, 2
    {
      ghost var ctx := Context();
      var i := 0;
      while i < |formulas|
        invariant Layout() == old(Layout()) && History() == old(History()) && Context() == ctx
        invariant 0 <= i <= |formulas|
        invariant UpdateDeps(ctx, old(Contents()), changed, 0, fuel) == UpdateDeps(ctx, Contents(), changed, i, fuel)
      {
        if Contains(formulas[i].1, Ref(changed.0, changed.1)) {
          err := EvaluateCell(formulas[i].0, fuel);
          if err.Some? {
            return;
          }
        }
        i := i + 1;
      }
      err := None;
    }

    /** `recalculate_all`: every formula evaluated in order; the first exception stops the loop. */
    method RecalculateAll() returns (err: Option<Formula.Raised>)
      modifies this
      ensures (Contents(), err) == Formula.RecalculateAll(old(Context()), old(Contents()))
      ensures Layout() == old(Layout()) && History() == old(History()) && Context() == old(Context())
    {
      ghost var ctx := Context();
      var i := 0;
      while i < |formulas|
        invariant Layout() == old(Layout()) && History() == old(History()) && Context() == ctx
        invariant 0 <= i <= |formulas|
        invariant RecalcAll(ctx, old(Contents()), 0) == RecalcAll(ctx, Contents(), i)
      {
        err := EvaluateCell(formulas[i].0, rt.maxDepth);
        if err.Some? {
          return;
        }
        i := i + 1;
      }
      err := None;
    }

    /** `process_cell_edit(p)`, as `Formula.ProcessEdit` states it. */
    method ProcessCellEdit(p: Coord) returns (err: Option<Exception>)
      requires Valid()
      modifies this
      ensures Valid()
      ensures var r := ProcessEdit(old(Context()), old(Contents()), p);
        formulas == r.0 && Contents() == r.1.0 && err == Lift(r.1.1)
      ensures Layout() == old(Layout()) && History() == old(History())
      ensures refs == old(refs) && spreadsheet == old(spreadsheet)
    {
      if p !in cells {
        return Some(Raised(KeyError(p)));
      }
      var content := cells[p];
      if spreadsheet && StartsWith(content, "=") {
        err := EditFormula(p, content);
      } else {
        err := EditText(p);
      }
    }

    /** `process_cell_edit` for text starting with '=' in spreadsheet mode: store the formula, evaluate it. */
    method EditFormula(p: Coord, content: string) returns (err: Option<Exception>)
      requires Valid() && spreadsheet && p in cells && content == cells[p] && StartsWith(content, "=")
      modifies this
      ensures Valid()
      ensures var r := ProcessEdit(old(Context()), old(Contents()), p);
        formulas == r.0 && Contents() == r.1.0 && err == Lift(r.1.1)
      ensures Layout() == old(Layout()) && History() == old(History())
      ensures refs == old(refs) && spreadsheet == old(spreadsheet)
    {
      formulas := Set(formulas, p, content);
      var e := EvaluateCell(p, rt.maxDepth);
      err := Lift(e);
    }

    /** `process_cell_edit` for any other text: drop the cell's formula and value, update its dependents. */
    method EditText(p: Coord) returns (err: Option<Exception>)
      requires Valid() && p in cells && !(spreadsheet && StartsWith(cells[p], "="))
      modifies this
      ensures Valid()
      ensures var r := ProcessEdit(old(Context()), old(Contents()), p);
        formulas == r.0 && Contents() == r.1.0 && err == Lift(r.1.1)
      ensures Layout() == old(Layout()) && History() == old(History())
      ensures refs == old(refs) && spreadsheet == old(spreadsheet)
    {
      ProcessEditText(Context(), Contents(), p);
      DropFormula(p);
      var e := UpdateDependencies(p, rt.maxDepth);
      err := Lift(e);
    }

    /** The cell at `p` loses its formula and its computed value. */
    method DropFormula(p: Coord)
      requires Valid()
      modifies this
      ensures Valid()
      ensures formulas == Remove(old(formulas), p) && calculated == old(calculated) - {p}
      ensures cells == old(cells) && refs == old(refs) && spreadsheet == old(spreadsheet)
      ensures Layout() == old(Layout()) && History() == old(History())
    {
      if p in Keys(formulas) {
        formulas := Remove(formulas, p);
      } else {
        RemoveAbsent(formulas, p);
      }
      if p in calculated {
        calculated := calculated - {p};
      } else {
        assert calculated == calculated - {p};
      }
    }

    /** `_init_cell_references`: the reference table of the current size. */
    method InitCellReferences()
      modifies this
      ensures IsReferenceTable(refs, rows, cols)
      ensures Layout() == old(Layout()) && History() == old(History()) && Contents() == old(Contents())
      ensures formulas == old(formulas) && spreadsheet == old(spreadsheet)
    {
      refs := BuildReferences(rows, cols);
    }

    /**
     * `enable_spreadsheet_mode(enable)`: switching on builds the reference
     * table and recalculates every formula; switching off forgets the
     * formulas and their values; then the grid is refreshed (unless the
     * recalculation raised).
     */
    method EnableSpreadsheetMode(enable: bool) returns (err: Option<Exception>)
      requires Valid()
      modifies this
      ensures Valid()
      ensures spreadsheet == enable
      ensures enable ==> IsReferenceTable(refs, rows, cols) && formulas == old(formulas)
      ensures !enable ==> formulas == [] && calculated == map[] && refs == old(refs) && err == None
      ensures !enable ==> cells == RestoreContent(EmptyGrid(rows, cols, merged), old(cells))
      ensures enable ==>
        var R := Formula.RecalculateAll(Ctx(old(formulas), refs, rt, true), old(Contents()));
        err == Lift(R.1) &&
        (err.None? ==> calculated == R.0.calculated && cells == RestoreContent(EmptyGrid(rows, cols, merged), R.0.cells)) &&
        (err.Some? ==> Contents() == R.0)
      ensures err.None? ==> selected == Selection.Reselect(mode, rows, cols, cells.Keys, order(old(selected)))
      ensures err.None? ==> heights == Max(rows, 0)
      ensures err.Some? ==> selected == old(selected) && heights == old(heights)
      ensures forall q | q in cells && q in old(cells) && q !in Keys(old(formulas)) :: cells[q] == old(cells)[q]
      ensures rows == old(rows) && cols == old(cols) && merged == old(merged) && mode == old(mode)
      ensures History() == old(History())
    {
      spreadsheet := enable;
      if enable {
        InitCellReferences();
        var e := RecalculateAll();
        if e.Some? {
          return Lift(e);
        }
      } else {
        formulas := [];
        calculated := map[];
      }
      RefreshGrid();
      err := None;
    }

    /* ---------------- merging and splitting ---------------- */

    /**
     * `unmerge_cells(p)`: an origin loses its block, the grid is rebuilt
     * empty and the origin is selected; in every case the grid is then
     * refreshed.
     */
    method UnmergeCells(p: Coord)
      requires Valid()
      modifies this
      ensures Valid()
      ensures undoStack == Push(old(undoStack), old(Capture("Unmerge cells at " + CoordText(p)))) && redoStack == []
      ensures merged == Remove(old(merged), p)
      ensures p in Keys(old(merged)) ==>
        cells == EmptyGrid(rows, cols, merged) &&
        selected == Selection.Reselect(mode, rows, cols, cells.Keys,
          order(Selection.UpdateSelection(old(selected), merged, rows, cols, p)))
      ensures p !in Keys(old(merged)) ==>
        cells == RestoreContent(EmptyGrid(rows, cols, merged), old(cells)) &&
        selected == Selection.Reselect(mode, rows, cols, cells.Keys, order(old(selected)))
      ensures rows == old(rows) && cols == old(cols) && mode == old(mode) && heights == Max(rows, 0)
      ensures Context() == old(Context()) && calculated == old(calculated)
    {
      SaveState("Unmerge cells at " + CoordText(p));
      if p in Keys(merged) {
        merged := Remove(merged, p);
        CreateGrid();
        UpdateSelection(p);
        RestoreContentSameKeys(EmptyGrid(rows, cols, merged), EmptyGrid(rows, cols, merged));
      } else {
        RemoveAbsent(merged, p);
      }
      RefreshGrid();
    }

    /**
     * `merge_cells`: after the undo entry, a block reaching past the grid
     * raises ValueError; otherwise every origin inside the rectangle is
     * unmerged, each unmerge pushing its own undo entry, the block is stored,
     * the grid is rebuilt empty and the selection moves towards the block's
     * corner.
     */
    method MergeCells(sr: int, sc: int, spanR: int, spanC: int)
      returns (err: Option<Exception>, ghost unmerged: seq<Coord>, ghost entries: seq<Snapshot>)
      requires Valid()
      modifies this
      ensures Valid()
      ensures rows == old(rows) && cols == old(cols) && mode == old(mode) && redoStack == []
      ensures Context() == old(Context()) && calculated == old(calculated)
      ensures sr + spanR > rows || sc + spanC > cols ==>
        err == Some(ValueError("Merge area exceeds grid dimensions")) &&
        undoStack == Push(old(undoStack), old(Capture("Merge cells at " + CoordText((sr, sc))))) &&
        Layout() == old(Layout()) && cells == old(cells)
      ensures sr + spanR <= rows && sc + spanC <= cols ==>
        PushedUnmerges(undoStack, Push(old(undoStack), old(Capture("Merge cells at " + CoordText((sr, sc))))), entries, unmerged) &&
        Unmerged(unmerged, old(merged), Block((sr, sc), (spanR, spanC))) && SortedStrict(unmerged) &&
        |undoStack| == (if |old(undoStack)| + 1 + |entries| <= MaxUndoSteps then |old(undoStack)| + 1 + |entries| else MaxUndoSteps)
      ensures sr + spanR <= rows && sc + spanC <= cols ==>
        err == None &&
        merged == Set(Without(old(merged), Block((sr, sc), (spanR, spanC))), (sr, sc), (spanR, spanC)) &&
        cells == EmptyGrid(rows, cols, merged) && heights == Max(rows, 0) &&
        (forall q | q in selected :: q in cells)
    {
      unmerged, entries := [], [];
      SaveState("Merge cells at " + CoordText((sr, sc)));
      if sr + spanR > rows || sc + spanC > cols {
        return Some(ValueError("Merge area exceeds grid dimensions")), unmerged, entries;
      }
      ghost var pushed := undoStack;
      unmerged, entries := ClearBlock(sr, sc, spanR, spanC);
      PushAllSize(pushed, entries);
      merged := Set(merged, (sr, sc), (spanR, spanC));
      CreateGrid();
      SettleMerge(sr, sc);
      err := None;
    }

    /**
     * The end of `merge_cells` on the freshly rebuilt grid: the selection moves
     * to the merge's top-left corner and the grid is refreshed, which keeps it
     * empty and leaves only cells with a widget selected.
     */
    method SettleMerge(sr: int, sc: int)
      requires Valid() && cells == EmptyGrid(rows, cols, merged)
      modifies this
      ensures Valid()
      ensures cells == EmptyGrid(rows, cols, merged) && heights == Max(rows, 0)
      ensures forall q | q in selected :: q in cells
      ensures rows == old(rows) && cols == old(cols) && merged == old(merged) && mode == old(mode)
      ensures History() == old(History()) && Context() == old(Context()) && calculated == old(calculated)
    {
      if selected != {} {
        ghost var q :| q in selected;
        assert q in order(selected);
        var first := order(selected)[0];
        UpdateSelection((Min(sr, first.0), Min(sc, first.1)));
      }
      ghost var listing := order(selected);
      RestoreContentSameKeys(EmptyGrid(rows, cols, merged), EmptyGrid(rows, cols, merged));
      RefreshGrid();
      Reselected(mode, rows, cols, cells.Keys, listing);
    }

    /**
     * The loops of `merge_cells` that unmerge every origin inside the
     * rectangle, row by row, each unmerge pushing an undo entry.
     */
    method ClearBlock(sr: int, sc: int, spanR: int, spanC: int) returns (ghost unmerged: seq<Coord>, ghost entries: seq<Snapshot>)
      requires Valid() && redoStack == []
      modifies this
      ensures Valid() && redoStack == []
      ensures merged == Without(old(merged), Block((sr, sc), (spanR, spanC)))
      ensures Unmerged(unmerged, old(merged), Block((sr, sc), (spanR, spanC))) && SortedStrict(unmerged)
      ensures PushedUnmerges(undoStack, old(undoStack), entries, unmerged)
      ensures rows == old(rows) && cols == old(cols) && mode == old(mode)
      ensures Context() == old(Context()) && calculated == old(calculated)
    {
      ghost var m0, u0 := merged, undoStack;
      unmerged, entries := [], [];
      BlockEntry(merged, undoStack, sr, sc, spanC);
      var r := sr;
      while r < sr + spanR
        invariant r <= Max(sr + spanR, sr)
        invariant BlockCleared(sr, sc, r, spanC, m0, u0, unmerged, entries)
        invariant rows == old(rows) && cols == old(cols) && mode == old(mode)
        invariant Context() == old(Context()) && calculated == old(calculated)
        decreases sr + spanR - r
      {
        unmerged, entries := ClearNextRow(sr, sc, r, spanC, m0, u0, unmerged, entries);
        r := r + 1;
      }
      BlockExit(sr, sc, r, spanR, spanC);
    }

    /**
     * The outer loop of `merge_cells` has cleared rows `sr` to `r - 1` of the
     * rectangle, starting from the merges `m0` and the undo stack `u0`.
     */
    ghost predicate BlockCleared(sr: int, sc: int, r: int, spanC: int, m0: Merges,
                                 u0: seq<Snapshot>, unmerged: seq<Coord>, entries: seq<Snapshot>)
      reads this
    {
      && Valid() && redoStack == [] && sr <= r
      && merged == Without(m0, Block((sr, sc), (r - sr, spanC)))
      && Unmerged(unmerged, m0, Block((sr, sc), (r - sr, spanC))) && SortedStrict(unmerged)
      && PushedUnmerges(undoStack, u0, entries, unmerged)
    }

    /** One step of the outer loop: row `r` joins the cleared rows. */
    method ClearNextRow(sr: int, sc: int, r: int, spanC: int, ghost m0: Merges,
                        ghost u0: seq<Snapshot>, ghost unmerged0: seq<Coord>, ghost entries0: seq<Snapshot>)
      returns (ghost unmerged: seq<Coord>, ghost entries: seq<Snapshot>)
      requires BlockCleared(sr, sc, r, spanC, m0, u0, unmerged0, entries0)
      modifies this
      ensures BlockCleared(sr, sc, r + 1, spanC, m0, u0, unmerged, entries)
      ensures rows == old(rows) && cols == old(cols) && mode == old(mode)
      ensures Context() == old(Context()) && calculated == old(calculated)
    {
      ghost var mid := undoStack;
      var u, e := ClearBlockRow(r, sc, spanC, m0, Block((sr, sc), (r - sr, spanC)));
      ClearBlockStep(m0, u0, mid, undoStack, merged, sr, sc, r, spanC, unmerged0, entries0, u, e);
      unmerged, entries := unmerged0 + u, entries0 + e;
    }

    /** The inner loop of `merge_cells`, over row `r` of the rectangle, column by column. */
    method ClearBlockRow(r: int, sc: int, spanC: int, ghost m0: Merges, ghost done: set<Coord>)
      returns (ghost unmerged: seq<Coord>, ghost entries: seq<Snapshot>)
      requires Valid() && redoStack == []
      requires merged == Without(m0, done)
      modifies this
      ensures Valid() && redoStack == []
      ensures merged == Without(m0, done + Block((r, sc), (1, spanC)))
      ensures Unmerged(unmerged, m0, Block((r, sc), (1, spanC)) - done) && SortedStrict(unmerged)
      ensures PushedUnmerges(undoStack, old(undoStack), entries, unmerged)
      ensures rows == old(rows) && cols == old(cols) && mode == old(mode)
      ensures Context() == old(Context()) && calculated == old(calculated)
    {
      ghost var u0 := undoStack;
      unmerged, entries := [], [];
      RowEntry(m0, undoStack, done, r, sc);
      var c := sc;
      while c < sc + spanC
        invariant c <= Max(sc + spanC, sc)
        invariant RowCleared(r, sc, c, m0, done, u0, unmerged, entries)
        invariant rows == old(rows) && cols == old(cols) && mode == old(mode)
        invariant Context() == old(Context()) && calculated == old(calculated)
        decreases sc + spanC - c
      {
        unmerged, entries := ClearCell(r, sc, c, m0, done, u0, unmerged, entries);
        c := c + 1;
      }
      RowExit(r, sc, c, spanC);
    }

    /**
     * The row loop of `merge_cells` has cleared row `r` from column `sc` up
     * to column `c - 1`, starting from the merges `Without(m0, done)` and the
     * undo stack `u0`.
     */
    ghost predicate RowCleared(r: int, sc: int, c: int, m0: Merges, done: set<Coord>,
                               u0: seq<Snapshot>, unmerged: seq<Coord>, entries: seq<Snapshot>)
      reads this
    {
      && Valid() && redoStack == [] && sc <= c
      && merged == Without(m0, done + Block((r, sc), (1, c - sc)))
      && Unmerged(unmerged, m0, Block((r, sc), (1, c - sc)) - done) && SortedStrict(unmerged)
      && PushedUnmerges(undoStack, u0, entries, unmerged)
    }

    /** One step of the row loop: column `c` joins the cleared part of row `r`. */
    method ClearCell(r: int, sc: int, c: int, ghost m0: Merges, ghost done: set<Coord>,
                     ghost u0: seq<Snapshot>, ghost unmerged0: seq<Coord>, ghost entries0: seq<Snapshot>)
      returns (ghost unmerged: seq<Coord>, ghost entries: seq<Snapshot>)
      requires RowCleared(r, sc, c, m0, done, u0, unmerged0, entries0)
      modifies this
      ensures RowCleared(r, sc, c + 1, m0, done, u0, unmerged, entries)
      ensures rows == old(rows) && cols == old(cols) && mode == old(mode)
      ensures Context() == old(Context()) && calculated == old(calculated)
    {
      ghost var mid := undoStack;
      var u, e := UnmergeIfOrigin((r, c), m0, done + Block((r, sc), (1, c - sc)));
      ClearRowStep(m0, done, u0, mid, undoStack, merged, r, sc, c, unmerged0, entries0, u, e);
      unmerged, entries := unmerged0 + u, entries0 + e;
    }

    /**
     * One coordinate of the rectangle: `if (r, c) in merged_cells:
     * unmerge_cells(r, c)`, which pushes the snapshot taken just before it.
     */
    method UnmergeIfOrigin(p: Coord, ghost m0: Merges, ghost seen: set<Coord>)
      returns (ghost unmerged: seq<Coord>, ghost entries: seq<Snapshot>)
      requires Valid() && redoStack == []
      requires merged == Without(m0, seen)
      modifies this
      ensures entries == (if p in Keys(m0) && p !in seen then [old(Capture("Unmerge cells at " + CoordText(p)))] else [])
      ensures Valid() && redoStack == []
      ensures merged == Without(m0, seen + {p})
      ensures unmerged == (if p in Keys(m0) && p !in seen then [p] else [])
      ensures PushedUnmerges(undoStack, old(undoStack), entries, unmerged)
      ensures Unmerged(unmerged, m0, {p} - seen)
      ensures rows == old(rows) && cols == old(cols) && mode == old(mode)
      ensures Context() == old(Context()) && calculated == old(calculated)
    {
      RemoveFromWithout(m0, seen, p);
      WithoutKeys(m0, seen);
      if p in Keys(merged) {
        ghost var snapshot := Capture("Unmerge cells at " + CoordText(p));
        UnmergeCells(p);
        unmerged, entries := [p], [snapshot];
        assert unmerged[..0] == [];
      } else {
        RemoveAbsent(merged, p);
        unmerged, entries := [], [];
      }
    }

    /**
     * `split_cell(p, horizontal, vertical)`: False when `p` is no origin, is
     * 1x1, or keeps its span; otherwise the requested axes shrink to one line
     * (the entry goes when both do, and comes back last otherwise), the grid
     * is rebuilt empty with the origin's text put back, and the origin is
     * selected. The refresh written after the return never runs.
     */
    method SplitCell(p: Coord, horizontal: bool, vertical: bool) returns (ok: bool)
      requires Valid()
      modifies this
      ensures Valid()
      ensures undoStack == Push(old(undoStack), old(Capture("Split grid"))) && redoStack == []
      ensures ok <==> (p in Keys(old(merged)) && Get(old(merged), p) != (1, 1) &&
        SplitSpan(Get(old(merged), p), horizontal, vertical) != Get(old(merged), p))
      ensures !ok ==> Layout() == old(Layout()) && cells == old(cells)
      ensures ok ==>
        var span := SplitSpan(Get(old(merged), p), horizontal, vertical);
        var grid := EmptyGrid(rows, cols, merged);
        && merged == (if span == (1, 1) then Remove(old(merged), p) else Set(Remove(old(merged), p), p, span))
        && cells == (if p in grid then grid[p := if p in old(cells) then old(cells)[p] else ""] else grid)
        && selected == Selection.UpdateSelection(old(selected), merged, rows, cols, p)
        && heights == Max(rows, 0)
      ensures ok && p in cells && p in old(cells) ==> cells[p] == old(cells)[p]
      ensures rows == old(rows) && cols == old(cols) && mode == old(mode)
      ensures Context() == old(Context()) && calculated == old(calculated)
    {
      SaveState("Split grid");
      if p !in Keys(merged) {
        return false;
      }
      var span := Get(merged, p);
      if span.0 == 1 && span.1 == 1 {
        return false;
      }
      var newRows, newCols := span.0, span.1;
      if horizontal && span.0 > 1 {
        newRows := 1;
      }
      if vertical && span.1 > 1 {
        newCols := 1;
      }
      if newRows == span.0 && newCols == span.1 {
        return false;
      }
      Reshape(p, (newRows, newCols));
      ok := true;
    }

    /**
     * The second half of `split_cell`: the origin's entry is dropped or given
     * its new span, the grid is rebuilt with the origin's text kept, and the
     * origin is selected.
     */
    method Reshape(p: Coord, span: Span)
      requires Valid() && p in Keys(merged)
      modifies this
      ensures Valid()
      ensures merged == (if span == (1, 1) then Remove(old(merged), p) else Set(Remove(old(merged), p), p, span))
      ensures var grid := EmptyGrid(rows, cols, merged);
        cells == (if p in grid then grid[p := if p in old(cells) then old(cells)[p] else ""] else grid)
      ensures selected == Selection.UpdateSelection(old(selected), merged, rows, cols, p)
      ensures heights == Max(rows, 0)
      ensures rows == old(rows) && cols == old(cols) && mode == old(mode) && History() == old(History())
      ensures Context() == old(Context()) && calculated == old(calculated)
    {
      var content := "";
      if p in cells {
        content := cells[p];
      }
      Respan(p, span);
      if p in cells {
        cells := cells[p := content];
      }
      UpdateSelection(p);
    }

    /** The block at `p` takes the new span (none at all for (1, 1)) and the grid is rebuilt empty. */
    method Respan(p: Coord, span: Span)
      requires Valid()
      modifies this
      ensures Valid()
      ensures merged == (if span == (1, 1) then Remove(old(merged), p) else Set(Remove(old(merged), p), p, span))
      ensures cells == EmptyGrid(rows, cols, merged) && heights == Max(rows, 0)
      ensures rows == old(rows) && cols == old(cols) && mode == old(mode) && selected == old(selected)
      ensures History() == old(History()) && Context() == old(Context()) && calculated == old(calculated)
    {
      merged := Remove(merged, p);
      if span != (1, 1) {
        merged := Set(merged, p, span);
      }
      CreateGrid();
    }

    /* ---------------- inserting, deleting and moving lines ---------------- */

    /**
     * `insert_row(position)` (`axis == Rows`) and `insert_column(position)`
     * (`axis == Cols`): after the undo entry, nothing more without a
     * selection; otherwise the origins at or past `insert_at` are re-keyed by
     * the sorted pass, the grid grows by one line and is rebuilt empty, the
     * shifted selection collapses to its first coordinate, and the grid is
     * refreshed (which also resets the row heights).
     */
    method InsertLine(axis: Axis, position: string)
      requires Valid()
      modifies this
      ensures Valid()
      ensures undoStack == Push(old(undoStack), old(Capture(InsertDescription(axis, position)))) && redoStack == []
      ensures mode == old(mode) && Context() == old(Context()) && calculated == old(calculated)
      ensures old(selected) == {} ==> Layout() == old(Layout()) && cells == old(cells)
      ensures old(selected) != {} ==>
        var at := InsertAt(old(selected), axis, position);
        var moved := ShiftedSelection(old(selected), axis, at);
        && merged == InsertPass(old(merged), SortedCoords(old(cells).Keys), axis, at)
        && rows == old(rows) + (if axis == Rows then 1 else 0)
        && cols == old(cols) + (if axis == Cols then 1 else 0)
        && cells == EmptyGrid(rows, cols, merged)
        && heights == Max(rows, 0)
        && moved != {}
        && selected == Selection.Reselect(mode, rows, cols, cells.Keys,
             order(Selection.UpdateSelection(moved, merged, rows, cols, order(moved)[0])))
    {
      SaveState(InsertDescription(axis, position));
      if selected == {} {
        return;
      }
      InsertSelected(axis, position);
    }

    /** An insert once a selection is known to exist. */
    method InsertSelected(axis: Axis, position: string)
      requires Valid() && selected != {}
      modifies this
      ensures Valid()
      ensures History() == old(History())
      ensures mode == old(mode) && Context() == old(Context()) && calculated == old(calculated)
      ensures var at := InsertAt(old(selected), axis, position);
        var moved := ShiftedSelection(old(selected), axis, at);
        && merged == InsertPass(old(merged), SortedCoords(old(cells).Keys), axis, at)
        && rows == old(rows) + (if axis == Rows then 1 else 0)
        && cols == old(cols) + (if axis == Cols then 1 else 0)
        && cells == EmptyGrid(rows, cols, merged)
        && heights == Max(rows, 0)
        && moved != {}
        && selected == Selection.Reselect(mode, rows, cols, cells.Keys,
             order(Selection.UpdateSelection(moved, merged, rows, cols, order(moved)[0])))
    {
      var at := InsertAt(selected, axis, position);
      GrowAt(axis, at);
      FinishInsert(axis, at);
    }

    /**
     * The tail of an insert on the rebuilt empty grid: the selection moves,
     * one more row height, and the grid is refreshed (which keeps it empty).
     */
    method FinishInsert(axis: Axis, at: int)
      requires Valid() && selected != {} && cells == EmptyGrid(rows, cols, merged)
      modifies this
      ensures Valid()
      ensures var moved := ShiftedSelection(old(selected), axis, at);
        && moved != {}
        && selected == Selection.Reselect(mode, rows, cols, cells.Keys,
             order(Selection.UpdateSelection(moved, merged, rows, cols, order(moved)[0])))
      ensures cells == old(cells) && heights == Max(rows, 0)
      ensures rows == old(rows) && cols == old(cols) && merged == old(merged) && mode == old(mode)
      ensures History() == old(History()) && Context() == old(Context()) && calculated == old(calculated)
    {
      SelectShifted(axis, at);
      InsertHeight();
      RestoreContentSameKeys(EmptyGrid(rows, cols, merged), EmptyGrid(rows, cols, merged));
      RefreshGrid();
    }

    /**
     * The re-keying half of an insert: the sorted pass over the cell keys,
     * one more line, and the grid rebuilt empty.
     */
    method GrowAt(axis: Axis, at: int)
      requires Valid()
      modifies this
      ensures Valid()
      ensures merged == InsertPass(old(merged), SortedCoords(old(cells).Keys), axis, at)
      ensures rows == old(rows) + (if axis == Rows then 1 else 0)
      ensures cols == old(cols) + (if axis == Cols then 1 else 0)
      ensures cells == EmptyGrid(rows, cols, merged) && heights == Max(rows, 0)
      ensures selected == old(selected) && mode == old(mode) && History() == old(History())
      ensures Context() == old(Context()) && calculated == old(calculated)
    {
      InsertPassPreserves(merged, SortedCoords(cells.Keys), axis, at);
      merged := ShiftForInsert(merged, SortedCoords(cells.Keys), axis, at);
      if axis == Rows {
        rows := rows + 1;
      } else {
        cols := cols + 1;
      }
      CreateGrid();
    }

    /** `row_heights.insert(insert_at, default_cell_height)`: one more height. */
    method InsertHeight()
      requires Valid()
      modifies this
      ensures Valid()
      ensures heights == old(heights) + 1
      ensures rows == old(rows) && cols == old(cols) && cells == old(cells) && merged == old(merged)
      ensures selected == old(selected) && mode == old(mode) && History() == old(History())
      ensures Context() == old(Context()) && calculated == old(calculated)
    {
      heights := heights + 1;
    }

    /**
     * The selection half of an insert: every selected coordinate at or past
     * `at` moves one line on, then the first of them in iteration order is
     * passed to `update_selection`.
     */
    method SelectShifted(axis: Axis, at: int)
      requires Valid() && selected != {}
      modifies this
      ensures Valid()
      ensures var moved := ShiftedSelection(old(selected), axis, at);
        moved != {} &&
        selected == Selection.UpdateSelection(moved, merged, rows, cols, order(moved)[0])
      ensures rows == old(rows) && cols == old(cols) && cells == old(cells) && merged == old(merged)
      ensures mode == old(mode) && heights == old(heights) && History() == old(History())
      ensures Context() == old(Context()) && calculated == old(calculated)
    {
      var moved := ShiftedSelection(selected, axis, at);
      ghost var q :| q in selected;
      assert Shifted(q, axis, at) in order(moved);
      selected := moved;
      UpdateSelection(order(moved)[0]);
    }

    /**
     * The part `delete_row` and `delete_column` share: after the undo entry,
     * nothing more without a selection; otherwise the selected lines `del`
     * are dropped from the count, the surviving origins are re-keyed by the
     * sorted pass (origins on a deleted line stay where they are), the grid
     * is rebuilt empty and the selection cleared.
     */
    method DeleteLine(axis: Axis, description: string) returns (go: bool, del: set<int>)
      requires Valid()
      modifies this
      ensures Valid()
      ensures undoStack == Push(old(undoStack), old(Capture(description))) && redoStack == []
      ensures mode == old(mode) && Context() == old(Context()) && calculated == old(calculated)
      ensures go <==> old(selected) != {}
      ensures !go ==> Layout() == old(Layout()) && cells == old(cells)
      ensures go ==>
        && del == LinesOf(old(selected), axis)
        && merged == DeletePass(old(merged), SortedCoords(old(cells).Keys), axis, del, 0)
        && rows == old(rows) - (if axis == Rows then |del| else 0)
        && cols == old(cols) - (if axis == Cols then |del| else 0)
        && cells == EmptyGrid(rows, cols, merged) && selected == {} && heights == Max(rows, 0)
    {
      SaveState(description);
      if selected == {} {
        return false, {};
      }
      del := DropLines(axis);
      go := true;
    }

    /**
     * The deletion proper: the lines holding a selected cell go, the merges
     * shift, the grid is rebuilt and the selection is cleared.
     */
    method DropLines(axis: Axis) returns (del: set<int>)
      requires Valid()
      modifies this
      ensures Valid()
      ensures del == LinesOf(old(selected), axis)
      ensures merged == DeletePass(old(merged), SortedCoords(old(cells).Keys), axis, del, 0)
      ensures rows == old(rows) - (if axis == Rows then |del| else 0)
      ensures cols == old(cols) - (if axis == Cols then |del| else 0)
      ensures cells == EmptyGrid(rows, cols, merged) && selected == {} && heights == Max(rows, 0)
      ensures mode == old(mode) && History() == old(History())
      ensures Context() == old(Context()) && calculated == old(calculated)
    {
      del := LinesOf(selected, axis);
      DeletePassPreserves(merged, SortedCoords(cells.Keys), axis, del, 0);
      merged := ShiftForDelete(merged, SortedCoords(cells.Keys), axis, del);
      if axis == Rows {
        rows := rows - |del|;
      } else {
        cols := cols - |del|;
      }
      CreateGrid();
      ClearSelection();
    }

    /**
     * `delete_row`: the shared deletion, then `del row_heights[row]` for the
     * deleted rows from the largest down on the list `create_grid` just
     * rebuilt, which raises IndexError as soon as an index falls outside it;
     * then the grid is refreshed.
     */
    method DeleteRow() returns (err: Option<Exception>)
      requires Valid()
      modifies this
      ensures Valid()
      ensures undoStack == Push(old(undoStack), old(Capture("Delete row"))) && redoStack == []
      ensures mode == old(mode) && Context() == old(Context()) && calculated == old(calculated)
      ensures old(selected) == {} ==> err == None && Layout() == old(Layout()) && cells == old(cells)
      ensures old(selected) != {} ==>
        var del := LinesOf(old(selected), Rows);
        var h := DeleteHeights(Max(rows, 0), Descending(del));
        && merged == DeletePass(old(merged), SortedCoords(old(cells).Keys), Rows, del, 0)
        && rows == old(rows) - |del| && cols == old(cols)
        && cells == EmptyGrid(rows, cols, merged) && selected == {}
        && (h.1 ==> err == Some(IndexError) && heights == h.0)
        && (!h.1 ==> err == None && heights == Max(rows, 0))
    {
      var go, del := DeleteLine(Rows, "Delete row");
      if !go {
        return None;
      }
      err := DropRowHeights(Descending(del));
    }

    /**
     * The row-height loop of `delete_row` on the rebuilt empty grid with no
     * selection, and the refresh that follows it when no index fails.
     */
    method DropRowHeights(lines: seq<int>) returns (err: Option<Exception>)
      requires Valid() && selected == {} && cells == EmptyGrid(rows, cols, merged)
      modifies this
      ensures Valid()
      ensures var h := DeleteHeights(old(heights), lines);
        && (h.1 ==> err == Some(IndexError) && heights == h.0)
        && (!h.1 ==> err == None && heights == Max(rows, 0))
      ensures cells == old(cells) && selected == {}
      ensures rows == old(rows) && cols == old(cols) && merged == old(merged) && mode == old(mode)
      ensures History() == old(History()) && Context() == old(Context()) && calculated == old(calculated)
    {
      var h, failed := DropHeights(heights, lines);
      heights := h;
      if failed {
        return Some(IndexError);
      }
      ListingOfEmpty(order(selected));
      RestoreContentSameKeys(EmptyGrid(rows, cols, merged), EmptyGrid(rows, cols, merged));
      RefreshGrid();
      err := None;
    }

    /**
     * `delete_column`: the shared deletion, then the row-height loop names
     * `rows_to_delete`, which `delete_column` never defines: NameError, with
     * the deletion already done.
     */
    method DeleteColumn() returns (err: Option<Exception>)
      requires Valid()
      modifies this
      ensures Valid()
      ensures undoStack == Push(old(undoStack), old(Capture("Delete column"))) && redoStack == []
      ensures mode == old(mode) && Context() == old(Context()) && calculated == old(calculated)
      ensures old(selected) == {} ==> err == None && Layout() == old(Layout()) && cells == old(cells)
      ensures old(selected) != {} ==>
        var del := LinesOf(old(selected), Cols);
        && err == Some(NameError("rows_to_delete"))
        && merged == DeletePass(old(merged), SortedCoords(old(cells).Keys), Cols, del, 0)
        && rows == old(rows) && cols == old(cols) - |del|
        && cells == EmptyGrid(rows, cols, merged) && selected == {} && heights == Max(rows, 0)
    {
      var go, del := DeleteLine(Cols, "Delete column");
      if go {
        err := Some(NameError("rows_to_delete"));
      } else {
        err := None;
      }
    }

    /** `select_cell` on each coordinate of line `line`, positions `0 .. n - 1` across it. */
    method SelectLine(axis: Axis, line: int, n: int)
      modifies this
      ensures selected == SelectEach(old(selected), mode, rows, cols, cells.Keys, LineCoords(axis, line, n))
      ensures rows == old(rows) && cols == old(cols) && cells == old(cells) && merged == old(merged)
      ensures mode == old(mode) && heights == old(heights)
      ensures undoStack == old(undoStack) && redoStack == old(redoStack)
      ensures Context() == old(Context()) && calculated == old(calculated)
    {
      var j := 0;
      while j < n
        invariant 0 <= j <= Max(n, 0)
        invariant selected == SelectEach(old(selected), mode, rows, cols, cells.Keys, LineCoords(axis, line, j))
        invariant rows == old(rows) && cols == old(cols) && cells == old(cells) && merged == old(merged)
        invariant mode == old(mode) && heights == old(heights)
        invariant undoStack == old(undoStack) && redoStack == old(redoStack)
        invariant Context() == old(Context()) && calculated == old(calculated)
        decreases n - j
      {
        assert LineCoords(axis, line, j + 1) == LineCoords(axis, line, j) + [At(axis, line, j)];
        SelectEachAppend(old(selected), mode, rows, cols, cells.Keys, LineCoords(axis, line, j), [At(axis, line, j)]);
        SelectCell(At(axis, line, j));
        j := j + 1;
      }
    }

    /**
     * The part `move_row` and `move_column` share: after the undo entry,
     * nothing more unless the selection touches exactly one line whose
     * neighbour in `direction` is inside the grid (with several lines the
     * source shows a warning and stops); otherwise the swap loop exchanges
     * the two lines cell by cell, and the target line is selected.
     */
    method MoveLine(axis: Axis, direction: string) returns (go: bool, line: int, target: int)
      requires Valid()
      modifies this
      ensures Valid()
      ensures undoStack == Push(old(undoStack), old(Capture(MoveDescription(axis, direction)))) && redoStack == []
      ensures rows == old(rows) && cols == old(cols) && mode == old(mode) && heights == old(heights)
      ensures Context() == old(Context()) && calculated == old(calculated)
      ensures go <==> MovePossible(old(selected), axis, direction, rows, cols)
      ensures !go ==> Layout() == old(Layout()) && cells == old(cells)
      ensures go ==>
        && line == Smallest(LinesOf(old(selected), axis))
        && target == MoveTarget(line, axis, direction)
        && (cells, merged) == SwapPass(old(cells), old(merged), axis, line, target, 0, Breadth(axis, rows, cols))
        && selected == MovedSelection(mode, rows, cols, cells.Keys, merged, axis, target)
    {
      SaveState(MoveDescription(axis, direction));
      go, line, target := false, 0, 0;
      if selected == {} {
        return;
      }
      var lines := LinesOf(selected, axis);
      if |lines| != 1 {
        return;
      }
      line := Smallest(lines);
      target := MoveTarget(line, axis, direction);
      if target < 0 || target >= Extent(axis, rows, cols) {
        return;
      }
      SwapLines(axis, line, target);
      go := true;
    }

    /** The second half of a move: the swap loop over the two lines, then the target line selected. */
    method SwapLines(axis: Axis, line: int, target: int)
      requires Valid()
      modifies this
      ensures Valid()
      ensures (cells, merged) == SwapPass(old(cells), old(merged), axis, line, target, 0, Breadth(axis, rows, cols))
      ensures selected == MovedSelection(mode, rows, cols, cells.Keys, merged, axis, target)
      ensures rows == old(rows) && cols == old(cols) && mode == old(mode) && heights == old(heights)
      ensures History() == old(History()) && Context() == old(Context()) && calculated == old(calculated)
    {
      cells, merged := SwapLoop(cells, merged, axis, line, target, Breadth(axis, rows, cols));
      ClearSelection();
      SelectLine(axis, target, Breadth(axis, rows, cols));
      UpdateSelection(At(axis, target, 0));
    }

    /**
     * `move_row(direction)`: the shared move, then the swap of the two row
     * heights, which raises IndexError when either index falls outside the
     * list; then the grid is refreshed.
     */
    method MoveRow(direction: string) returns (err: Option<Exception>)
      requires Valid()
      modifies this
      ensures Valid()
      ensures undoStack == Push(old(undoStack), old(Capture("Move row " + direction))) && redoStack == []
      ensures rows == old(rows) && cols == old(cols) && mode == old(mode)
      ensures Context() == old(Context()) && calculated == old(calculated)
      ensures !MovePossible(old(selected), Rows, direction, rows, cols) ==>
        err == None && Layout() == old(Layout()) && cells == old(cells)
      ensures MovePossible(old(selected), Rows, direction, rows, cols) ==>
        var line := Smallest(LinesOf(old(selected), Rows));
        var target := MoveTarget(line, Rows, direction);
        var s := SwapPass(old(cells), old(merged), Rows, line, target, 0, cols);
        var moved := MovedSelection(mode, rows, cols, s.0.Keys, s.1, Rows, target);
        && merged == s.1
        && (SwapHeightsOk(old(heights), line, target) ==>
              err == None && cells == RestoreContent(EmptyGrid(rows, cols, merged), s.0) &&
              selected == Selection.Reselect(mode, rows, cols, cells.Keys, order(moved)) && heights == Max(rows, 0))
        && (!SwapHeightsOk(old(heights), line, target) ==>
              err == Some(IndexError) && cells == s.0 && selected == moved && heights == old(heights))
    {
      var go, line, target := MoveLine(Rows, direction);
      if !go {
        return None;
      }
      if !SwapHeightsOk(heights, line, target) {
        return Some(IndexError);
      }
      RefreshGrid();
      err := None;
    }

    /** `move_column(direction)`: the shared move, then the grid is refreshed. */
    method MoveColumn(direction: string)
      requires Valid()
      modifies this
      ensures Valid()
      ensures undoStack == Push(old(undoStack), old(Capture("Move column " + direction))) && redoStack == []
      ensures rows == old(rows) && cols == old(cols) && mode == old(mode)
      ensures Context() == old(Context()) && calculated == old(calculated)
      ensures !MovePossible(old(selected), Cols, direction, rows, cols) ==>
        Layout() == old(Layout()) && cells == old(cells)
      ensures MovePossible(old(selected), Cols, direction, rows, cols) ==>
        var line := Smallest(LinesOf(old(selected), Cols));
        var target := MoveTarget(line, Cols, direction);
        var s := SwapPass(old(cells), old(merged), Cols, line, target, 0, rows);
        && merged == s.1
        && cells == RestoreContent(EmptyGrid(rows, cols, merged), s.0)
        && selected == Selection.Reselect(mode, rows, cols, cells.Keys,
             order(MovedSelection(mode, rows, cols, s.0.Keys, s.1, Cols, target)))
        && heights == Max(rows, 0)
    {
      var go, line, target := MoveLine(Cols, direction);
      if go {
        RefreshGrid();
      }
    }
  }
}
