/**
 * A1-style cell references: column letter `chr(65 + col)` followed by the
 * 1-based row number in decimal, and the reference table built from them.
 */
module References {
  import opened Geometry

  /**
   * Columns whose letter `chr(65 + col)` is a Unicode scalar value below the
   * surrogate block; the model covers references for these columns.
   */
  const MaxColumns: nat := 0xD800 - 65

  /**
   * `chr(65 + col)`; code points from the surrogate block on are not
   * modelled and give '?'.
   */
  function ColumnLetter(col: int): (ch: char)
    ensures -65 <= col < MaxColumns ==> ch as int == 65 + col
  {
    if -65 <= col < MaxColumns then (65 + col) as char else '?'
  }

  predicate IsDigit(ch: char) {
    '0' <= ch <= '9'
  }

  function DigitChar(d: nat): (ch: char)
    requires d < 10
    ensures IsDigit(ch) && ch as int - '0' as int == d
  {
    ('0' as int + d) as char
  }

  /** `str(n)` for a natural number: its decimal digits, most significant first. */
  function NatToString(n: nat): (s: string)
    ensures |s| >= 1
  {
    if n < 10 then [DigitChar(n)] else NatToString(n / 10) + [DigitChar(n % 10)]
  }

  /** `str(n)` of a natural number is made of digits only. */
  lemma {:induction false} NatToStringDigits(n: nat)
    ensures forall i | 0 <= i < |NatToString(n)| :: IsDigit(NatToString(n)[i])
  {
    if n >= 10 {
      NatToStringDigits(n / 10);
      var s := NatToString(n);
      assert forall i | 0 <= i < |s| - 1 :: s[i] == NatToString(n / 10)[i];
    }
  }

  /** `str(n)` for any integer. */
  function IntToString(n: int): (s: string)
    ensures n >= 0 ==> s == NatToString(n)
  {
    if n < 0 then "-" + NatToString(-n) else NatToString(n)
  }

  /** The value of a string of decimal digits. */
  function DigitsValue(s: string): nat
    requires forall i | 0 <= i < |s| :: IsDigit(s[i])
  {
    if s == [] then 0
    else
      assert IsDigit(s[|s| - 1]);
      DigitsValue(s[..|s| - 1]) * 10 + (s[|s| - 1] as int - '0' as int)
  }

  lemma {:induction false} DigitsValueOfNatToString(n: nat)
    ensures (NatToStringDigits(n); DigitsValue(NatToString(n)) == n)
  {
    NatToStringDigits(n);
    if n >= 10 {
      NatToStringDigits(n / 10);
      DigitsValueOfNatToString(n / 10);
      var s := NatToString(n);
      assert s[..|s| - 1] == NatToString(n / 10);
    }
  }

  lemma NatToStringInjective(m: nat, n: nat)
    requires NatToString(m) == NatToString(n)
    ensures m == n
  {
    DigitsValueOfNatToString(m);
    DigitsValueOfNatToString(n);
  }

  /** `f"{chr(65 + col)}{row + 1}"`. */
  function Ref(row: int, col: int): (s: string)
    ensures |s| >= 2
  {
    [ColumnLetter(col)] + IntToString(row + 1)
  }

  /** A reference is its column letter followed by `str(row + 1)`. */
  lemma RefShape(row: int, col: int)
    ensures Ref(row, col)[0] == ColumnLetter(col)
    ensures Ref(row, col)[1..] == IntToString(row + 1)
  {
    assert Ref(row, col)[1..] == IntToString(row + 1);
  }

  /** Distinct cells within the modelled columns have distinct references. */
  lemma RefInjective(r1: nat, c1: nat, r2: nat, c2: nat)
    requires c1 < MaxColumns && c2 < MaxColumns
    requires Ref(r1, c1) == Ref(r2, c2)
    ensures r1 == r2 && c1 == c2
  {
    RefShape(r1, c1);
    RefShape(r2, c2);
    NatToStringInjective(r1 + 1, r2 + 1);
  }

  /** `get_cell_reference`: the reference of an in-bounds cell, "" for any other coordinate. */
  function GetCellReference(rows: int, cols: int, row: int, col: int): (s: string)
    ensures s != "" <==> InBounds((row, col), rows, cols)
    ensures s != "" ==> s == Ref(row, col)
  {
    if 0 <= row < rows && 0 <= col < cols then Ref(row, col) else ""
  }

  /** The references of the cells in rows `0 .. rows - 1` and columns `0 .. cols - 1`. */
  function RefsOf(rows: int, cols: int): set<string> {
    set r: int, c: int | 0 <= r < rows && 0 <= c < cols :: Ref(r, c)
  }

  /** The references of the cells in columns `0 .. cols - 1` of one row. */
  function RowRefs(row: int, cols: int): set<string> {
    set c: int | 0 <= c < cols :: Ref(row, c)
  }

  lemma RefsOfNextRow(row: int, cols: int)
    requires row >= 0
    ensures RefsOf(row + 1, cols) == RefsOf(row, cols) + RowRefs(row, cols)
  {
    forall s | s in RefsOf(row + 1, cols) ensures s in RefsOf(row, cols) + RowRefs(row, cols) {
      var r: int, c: int :| 0 <= r < row + 1 && 0 <= c < cols && s == Ref(r, c);
      if r < row {
        assert s in RefsOf(row, cols);
      } else {
        assert s in RowRefs(row, cols);
      }
    }
  }

  lemma RowRefsNext(row: int, col: int)
    requires col >= 0
    ensures RowRefs(row, col + 1) == RowRefs(row, col) + {Ref(row, col)}
  {
  }

  /**
   * What `_init_cell_references` leaves in `cell_references`: one key per
   * in-bounds cell, its reference, mapped back to a cell with that reference.
   */
  predicate IsReferenceTable(refs: map<string, Coord>, rows: int, cols: int) {
    && (forall k | k in refs :: InBounds(refs[k], rows, cols) && Ref(refs[k].0, refs[k].1) == k)
    && refs.Keys == RefsOf(rows, cols)
  }

  /** `_init_cell_references`: the row-major loop that fills the reference table. */
  method BuildReferences(rows: int, cols: int) returns (refs: map<string, Coord>)
    ensures IsReferenceTable(refs, rows, cols)
  {
    refs := map[];
    var row := 0;
    while row < rows
      invariant row >= 0 && (row <= rows || row == 0)
      invariant MapsBack(refs, rows, cols)
      invariant refs.Keys == RefsOf(row, cols)
    {
      refs := FillRow(refs, rows, cols, row);
      RefsOfNextRow(row, cols);
      row := row + 1;
    }
    assert RefsOf(row, cols) == RefsOf(rows, cols);
  }

  /** Every key of `refs` is the reference of the in-bounds cell it maps to. */
  predicate MapsBack(refs: map<string, Coord>, rows: int, cols: int) {
    forall k | k in refs :: InBounds(refs[k], rows, cols) && Ref(refs[k].0, refs[k].1) == k
  }

  /** The inner loop of `_init_cell_references`: the references of one row join the table. */
  method FillRow(before: map<string, Coord>, rows: int, cols: int, row: int) returns (refs: map<string, Coord>)
    requires 0 <= row < rows && MapsBack(before, rows, cols)
    ensures MapsBack(refs, rows, cols)
    ensures refs.Keys == before.Keys + RowRefs(row, cols)
  {
    refs := before;
    var col := 0;
    while col < cols
      invariant col >= 0 && (col <= cols || col == 0)
      invariant MapsBack(refs, rows, cols)
      invariant refs.Keys == before.Keys + RowRefs(row, col)
    {
      FillStep(before, refs, rows, cols, row, col);
      refs := refs[Ref(row, col) := (row, col)];
      col := col + 1;
    }
    assert RowRefs(row, col) == RowRefs(row, cols);
  }

  /** One pass of the inner loop keeps the table mapping back and adds the next reference of the row. */
  lemma FillStep(before: map<string, Coord>, refs: map<string, Coord>, rows: int, cols: int, row: int, col: int)
    requires 0 <= row < rows && 0 <= col < cols
    requires MapsBack(refs, rows, cols) && refs.Keys == before.Keys + RowRefs(row, col)
    ensures var next := refs[Ref(row, col) := (row, col)];
      MapsBack(next, rows, cols) && next.Keys == before.Keys + RowRefs(row, col + 1)
  {
    RowRefsNext(row, col);
  }

  /** For an in-bounds cell, looking up its reference in the table gives the cell back. */
  lemma ReferenceRoundTrip(refs: map<string, Coord>, rows: int, cols: int, row: int, col: int)
    requires IsReferenceTable(refs, rows, cols) && cols <= MaxColumns
    requires InBounds((row, col), rows, cols)
    ensures GetCellReference(rows, cols, row, col) in refs
    ensures refs[GetCellReference(rows, cols, row, col)] == (row, col)
  {
    var s := Ref(row, col);
    assert s in refs;
    var q := refs[s];
    RefInjective(q.0, q.1, row, col);
  }
}
