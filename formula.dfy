/**
 * Spreadsheet formulas: values, the text operations the evaluator uses,
 * `_parse_range`, `_get_cell_value`, the SUM and AVG branches of
 * `_calculate_formula`, and the evaluation cascade of `_evaluate_cell` and
 * `_update_dependencies` as functions of the sheet they start from.
 */
module Formula {
  import opened Wrappers
  import opened Dict
  import opened Geometry
  import opened References

  /* ---------------- values ---------------- */

  /**
   * A Python value a cell evaluates to: an int, a float (modelled as an exact
   * real), a string, a bool, or any other object, known by its `str()`.
   */
  datatype Value = Int(i: int) | Float(x: real) | Str(s: string) | Bool(b: bool) | Other(text: string)

  /** `isinstance(v, (int, float))`; a bool is an int in Python. */
  predicate IsNumber(v: Value) {
    v.Int? || v.Float? || v.Bool?
  }

  /** Python's integer view of an int or bool. */
  function AsInt(v: Value): int
    requires v.Int? || v.Bool?
  {
    if v.Int? then v.i else if v.b then 1 else 0
  }

  function AsReal(v: Value): real
    requires IsNumber(v)
  {
    if v.Float? then v.x else AsInt(v) as real
  }

  /** `a + b` on numbers: int (or bool) plus int (or bool) is an int, anything with a float is a float. */
  function Add(a: Value, b: Value): (r: Value)
    requires IsNumber(a) && IsNumber(b)
    ensures IsNumber(r) && AsReal(r) == AsReal(a) + AsReal(b)
    ensures r.Int? <==> !a.Float? && !b.Float?
  {
    if !a.Float? && !b.Float? then Int(AsInt(a) + AsInt(b)) else Float(AsReal(a) + AsReal(b))
  }

  /** `sum(values)`: start from the int 0 and add left to right. */
  function PySum(values: seq<Value>): (r: Value)
    requires forall i | 0 <= i < |values| :: IsNumber(values[i])
    ensures IsNumber(r)
  {
    if values == [] then Int(0) else Add(PySum(values[..|values| - 1]), values[|values| - 1])
  }

  /** The exact total of a sequence of numbers. */
  function Total(values: seq<Value>): real
    requires forall i | 0 <= i < |values| :: IsNumber(values[i])
  {
    if values == [] then 0.0 else AsReal(values[0]) + Total(values[1..])
  }

  lemma {:induction false} TotalSnoc(values: seq<Value>, v: Value)
    requires forall i | 0 <= i < |values| :: IsNumber(values[i])
    requires IsNumber(v)
    ensures Total(values + [v]) == Total(values) + AsReal(v)
  {
    if values != [] {
      assert (values + [v])[1..] == values[1..] + [v];
      TotalSnoc(values[1..], v);
    }
  }

  /**
   * `sum` adds up exactly (floats taken as exact reals), and its result is an
   * int precisely when no float takes part.
   */
  lemma {:induction false} PySumIsTotal(values: seq<Value>)
    requires forall i | 0 <= i < |values| :: IsNumber(values[i])
    ensures AsReal(PySum(values)) == Total(values)
    ensures PySum(values).Int? <==> forall i | 0 <= i < |values| :: !values[i].Float?
  {
    if values != [] {
      var init := values[..|values| - 1];
      var last := values[|values| - 1];
      PySumIsTotal(init);
      TotalSnoc(init, last);
      assert init + [last] == values;
      assert forall i | 0 <= i < |init| :: init[i] == values[i];
    }
  }

  /* ---------------- host behaviour the model takes as given ---------------- */

  /**
   * What the model leaves to the Python runtime: `float(text)` where it
   * succeeds, `str()` of a float, the eval-based general arithmetic branch
   * (given the expression and the value of every reference of the grid, it
   * performs the substitution, longest reference first with strings quoted,
   * and the evaluation, and yields the result or the "#ERROR: ..." string
   * the `except` produces),
   * the text of the ValueError raised when a range holds more than one ':',
   * and how many nested `_evaluate_cell` calls fit in the recursion limit.
   */
  datatype Runtime = Runtime(
    parseFloat: string -> Option<real>,
    showFloat: real -> string,
    arith: (string, map<string, Value>) -> Value,
    unpackError: string,
    maxDepth: nat)

  /** `str(v)`. */
  function Show(rt: Runtime, v: Value): string {
    match v
    case Int(i) => IntToString(i)
    case Float(x) => rt.showFloat(x)
    case Str(s) => s
    case Bool(b) => if b then "True" else "False"
    case Other(text) => text
  }

  /* ---------------- text operations ---------------- */

  /** The characters Python's `str.strip()` removes. */
  predicate IsPySpace(ch: char) {
    var n := ch as int;
    (9 <= n <= 13) || (28 <= n <= 32) || n == 0x85 || n == 0xA0 || n == 0x1680 ||
    (0x2000 <= n <= 0x200A) || n == 0x2028 || n == 0x2029 || n == 0x202F || n == 0x205F || n == 0x3000
  }

  function StripLeft(s: string): string {
    if s != [] && IsPySpace(s[0]) then StripLeft(s[1..]) else s
  }

  function StripRight(s: string): string {
    if s != [] && IsPySpace(s[|s| - 1]) then StripRight(s[..|s| - 1]) else s
  }

  /** `s.lstrip()` is a suffix of `s` that starts with no white space. */
  lemma {:induction false} StripLeftSuffix(s: string)
    ensures |StripLeft(s)| <= |s| && StripLeft(s) == s[|s| - |StripLeft(s)|..]
    ensures StripLeft(s) == [] || !IsPySpace(StripLeft(s)[0])
  {
    if s != [] && IsPySpace(s[0]) {
      StripLeftSuffix(s[1..]);
      assert s[1..][|s| - 1 - |StripLeft(s)|..] == s[|s| - |StripLeft(s)|..];
    }
  }

  /** `s.rstrip()` is a prefix of `s` that ends with no white space. */
  lemma {:induction false} StripRightPrefix(s: string)
    ensures |StripRight(s)| <= |s| && StripRight(s) == s[..|StripRight(s)|]
    ensures StripRight(s) == [] || !IsPySpace(StripRight(s)[|StripRight(s)| - 1])
  {
    if s != [] && IsPySpace(s[|s| - 1]) {
      StripRightPrefix(s[..|s| - 1]);
      assert s[..|s| - 1][..|StripRight(s)|] == s[..|StripRight(s)|];
    }
  }

  /** `s.strip()`. */
  function Strip(s: string): string {
    StripLeft(StripRight(s))
  }

  /** `s.upper()` on ASCII letters. */
  function Upper(s: string): string {
    if s == [] then [] else [UpperChar(s[0])] + Upper(s[1..])
  }

  function UpperChar(ch: char): char {
    if 'a' <= ch <= 'z' then (ch as int - 32) as char else ch
  }

  /** The ASCII upper-casing changes each character on its own and keeps the length. */
  lemma {:induction false} UpperChars(s: string)
    ensures |Upper(s)| == |s|
    ensures forall i | 0 <= i < |s| :: Upper(s)[i] == UpperChar(s[i])
  {
    if s != [] {
      UpperChars(s[1..]);
      assert forall i | 1 <= i < |s| :: Upper(s)[i] == Upper(s[1..])[i - 1];
    }
  }

  predicate StartsWith(s: string, prefix: string) {
    |prefix| <= |s| && s[..|prefix|] == prefix
  }

  predicate EndsWith(s: string, suffix: string) {
    |suffix| <= |s| && s[|s| - |suffix|..] == suffix
  }

  /** `sub` occurs in `s` starting at index `i`. */
  predicate OccursAt(s: string, sub: string, i: int) {
    0 <= i <= |s| - |sub| && s[i..i + |sub|] == sub
  }

  /** `sub in s`. */
  predicate Contains(s: string, sub: string) {
    exists i | 0 <= i <= |s| - |sub| :: OccursAt(s, sub, i)
  }

  /** The pieces `s.split(sep)` returns. */
  function Split(s: string, sep: char): (parts: seq<string>)
    ensures |parts| >= 1
    ensures |parts| == 1 <==> sep !in s
  {
    if s == [] then [""]
    else
      var rest := Split(s[1..], sep);
      assert sep in s <==> s[0] == sep || sep in s[1..];
      if s[0] == sep then [""] + rest else [[s[0]] + rest[0]] + rest[1..]
  }

  /** Text without the separator splits into itself. */
  lemma {:induction false} SplitWithout(s: string, sep: char)
    requires sep !in s
    ensures Split(s, sep) == [s]
  {
    if s != [] {
      SplitWithout(s[1..], sep);
      assert [s[0]] + s[1..] == s;
    }
  }

  /** Splitting stops at the first separator. */
  lemma {:induction false} SplitFirst(a: string, b: string, sep: char)
    requires sep !in a
    ensures Split(a + [sep] + b, sep) == [a] + Split(b, sep)
  {
    if a == [] {
      assert a + [sep] + b == [sep] + b;
      assert ([sep] + b)[1..] == b;
    } else {
      var s := a + [sep] + b;
      SplitFirst(a[1..], b, sep);
      assert s[0] == a[0] && s[0] != sep;
      assert s[1..] == a[1..] + [sep] + b;
      var rest := Split(s[1..], sep);
      assert rest[0] == a[1..] && rest[1..] == Split(b, sep);
      assert [a[0]] + a[1..] == a;
      assert Split(s, sep) == [[a[0]] + rest[0]] + rest[1..];
    }
  }

  /* ---------------- _parse_range ---------------- */

  /** `cell_references.get(ref, (0, 0))`. */
  function Corner(refs: map<string, Coord>, ref: string): Coord {
    if ref in refs then refs[ref] else (0, 0)
  }

  /**
   * `_parse_range`: `None` is the ValueError from unpacking a split with more
   * than two pieces; a corner that is not a known reference reads as (0, 0).
   */
  function ParseRange(refs: map<string, Coord>, s: string): (r: Option<seq<Coord>>)
    ensures ':' !in s ==> r == Some([Corner(refs, s)])
    ensures r.None? <==> |Split(s, ':')| > 2
    ensures r.Some? && ':' in s ==> forall p :: p in r.value <==>
      Corner(refs, Split(s, ':')[0]).0 <= p.0 <= Corner(refs, Split(s, ':')[1]).0 &&
      Corner(refs, Split(s, ':')[0]).1 <= p.1 <= Corner(refs, Split(s, ':')[1]).1
  {
    if ':' in s then
      var parts := Split(s, ':');
      if |parts| != 2 then None
      else
        var start := Corner(refs, parts[0]);
        var end := Corner(refs, parts[1]);
        RangeCoordsMembers(start.0, start.1, end.0, end.1);
        Some(RangeCoords(start.0, start.1, end.0, end.1))
    else Some([Corner(refs, s)])
  }

  /* ---------------- the sheet a formula reads ---------------- */

  /** The widget text of every cell and the `calculated_values`. */
  datatype Sheet = Sheet(cells: map<Coord, string>, calculated: map<Coord, Value>)

  /** What evaluation reads but never changes: the formulas, the reference table, the runtime and the mode. */
  datatype Ctx = Ctx(formulas: Dict<Coord, string>, refs: map<string, Coord>, rt: Runtime, spreadsheet: bool)

  /** The value of a cell's text: 0 when empty, a float when `float()` accepts it, the text itself otherwise. */
  function TextValue(rt: Runtime, text: string): (v: Value)
    ensures text == "" ==> v == Int(0)
    ensures text != "" && rt.parseFloat(text).None? ==> v == Str(text)
    ensures text != "" && rt.parseFloat(text).Some? ==> v == Float(rt.parseFloat(text).value)
  {
    if text == "" then Int(0)
    else match rt.parseFloat(text)
      case Some(x) => Float(x)
      case None => Str(text)
  }

  /**
   * `_get_cell_value`: a computed value wins over the cell's text; an unknown
   * reference, or a known one whose cell is gone, reads as 0.
   */
  function GetCellValue(ctx: Ctx, s: Sheet, ref: string): (v: Value)
    ensures ref !in ctx.refs ==> v == Int(0)
    ensures ref in ctx.refs && ctx.refs[ref] in s.calculated ==> v == s.calculated[ctx.refs[ref]]
    ensures ref in ctx.refs && ctx.refs[ref] !in s.calculated && ctx.refs[ref] in s.cells ==>
      v == TextValue(ctx.rt, s.cells[ctx.refs[ref]])
    ensures ref in ctx.refs && ctx.refs[ref] !in s.calculated && ctx.refs[ref] !in s.cells ==> v == Int(0)
  {
    if ref in ctx.refs then
      var p := ctx.refs[ref];
      if p in s.calculated then s.calculated[p]
      else if p in s.cells then TextValue(ctx.rt, s.cells[p])
      else Int(0)
    else Int(0)
  }

  /** The numbers among the values of the given cells, read through their references, in order. */
  function NumbersIn(ctx: Ctx, s: Sheet, cs: seq<Coord>): (vs: seq<Value>)
    ensures forall i | 0 <= i < |vs| :: IsNumber(vs[i])
    ensures |vs| <= |cs|
  {
    if cs == [] then []
    else
      var v := GetCellValue(ctx, s, Ref(cs[0].0, cs[0].1));
      (if IsNumber(v) then [v] else []) + NumbersIn(ctx, s, cs[1..])
  }

  /** The SUM branch over the given cells: `sum(values) if values else 0`. */
  function SumOf(ctx: Ctx, s: Sheet, cs: seq<Coord>): Value {
    var vs := NumbersIn(ctx, s, cs);
    if vs == [] then Int(0) else PySum(vs)
  }

  /** The AVG branch over the given cells: `sum(values) / len(values) if values else 0`. */
  function AvgOf(ctx: Ctx, s: Sheet, cs: seq<Coord>): Value {
    var vs := NumbersIn(ctx, s, cs);
    if vs == [] then Int(0) else Float(AsReal(PySum(vs)) / |vs| as real)
  }

  /**
   * The value of every reference of the grid. The general branch tests each
   * reference against the expression as substituted so far, so a quoted
   * string value can bring in a reference the original text did not hold;
   * `arith` is given them all and does the substitution itself.
   */
  function Env(ctx: Ctx, s: Sheet): map<string, Value> {
    map ref | ref in ctx.refs :: GetCellValue(ctx, s, ref)
  }

  /** The argument text of `NAME(...)`: `expr[4:-1].strip()`. */
  function Argument(expr: string): string
    requires |expr| >= 5
  {
    Strip(expr[4..|expr| - 1])
  }

  /** `_calculate_formula`. */
  function Calculate(ctx: Ctx, s: Sheet, formula: string): (v: Value)
    ensures !StartsWith(formula, "=") ==> v == Str(formula)
  {
    if !StartsWith(formula, "=") then Str(formula)
    else
      Expression(ctx, s, Upper(Strip(formula[1..])))
  }

  /** `_calculate_formula` once the '=' is dropped and the rest stripped and upper-cased. */
  function Expression(ctx: Ctx, s: Sheet, expr: string): Value {
    if IsCall(expr, "SUM(") then
      match ParseRange(ctx.refs, Argument(expr))
      case None => Str("#ERROR: " + ctx.rt.unpackError)
      case Some(cs) => SumOf(ctx, s, cs)
    else if IsCall(expr, "AVG(") then
      match ParseRange(ctx.refs, Argument(expr))
      case None => Str("#ERROR: " + ctx.rt.unpackError)
      case Some(cs) => AvgOf(ctx, s, cs)
    else ctx.rt.arith(expr, Env(ctx, s))
  }

  /** `expr.startswith(name) and expr.endswith(")")` for a four-character `name`. */
  predicate IsCall(expr: string, name: string)
    requires |name| == 4 && name[3] == '('
    ensures IsCall(expr, name) ==> |expr| >= 5
  {
    StartsWith(expr, name) && EndsWith(expr, ")")
  }

  /* ---------------- the evaluation cascade ---------------- */

  /** An exception that escapes `_evaluate_cell`: a formula cell without a widget, or the recursion limit. */
  datatype Raised = KeyError(key: Coord) | RecursionError

  /** The sheet an evaluation leaves behind and the exception it raised, if any. */
  type Outcome = (Sheet, Option<Raised>)

  /** Every displayed computed value is `str()` of that value. */
  predicate Consistent(rt: Runtime, s: Sheet) {
    forall q | q in s.calculated && q in s.cells :: s.cells[q] == Show(rt, s.calculated[q])
  }

  /**
   * What any evaluation keeps: the same cells exist, only cells holding a
   * formula get new text or a new computed value, displayed values stay
   * consistent, and a KeyError names a formula cell that has no widget.
   */
  ghost predicate Keeps(ctx: Ctx, s: Sheet, o: Outcome) {
    var t := o.0;
    t.cells.Keys == s.cells.Keys &&
    (forall q | q in s.cells && q !in Keys(ctx.formulas) :: t.cells[q] == s.cells[q]) &&
    (forall q | q !in Keys(ctx.formulas) :: q in t.calculated <==> q in s.calculated) &&
    (forall q | q in s.calculated && q !in Keys(ctx.formulas) :: t.calculated[q] == s.calculated[q]) &&
    (Consistent(ctx.rt, s) ==> Consistent(ctx.rt, t)) &&
    (o.1.Some? && o.1.value.KeyError? ==> o.1.value.key in Keys(ctx.formulas) && o.1.value.key !in s.cells)
  }

  /**
   * `_evaluate_cell(row, col)` with room for `fuel` more nested calls: outside
   * spreadsheet mode, or for a cell without a formula, nothing happens;
   * otherwise the computed value is stored, shown in the cell (a KeyError when
   * the cell has no widget) and every dependent formula is re-evaluated.
   */
  function EvalCell(ctx: Ctx, s: Sheet, p: Coord, fuel: nat): (o: Outcome)
    ensures fuel > 0 && !ctx.spreadsheet ==> o == (s, None)
    decreases fuel, 0
  {
    if fuel == 0 then (s, Some(RecursionError))
    else if !ctx.spreadsheet then (s, None)
    else
      var formula := GetOr(ctx.formulas, p, "");
      if formula == "" then (s, None)
      else
        var v := Calculate(ctx, s, formula);
        var s1 := s.(calculated := s.calculated[p := v]);
        if p !in s.cells then (s1, Some(KeyError(p)))
        else UpdateDeps(ctx, s1.(cells := s.cells[p := Show(ctx.rt, v)]), p, 0, fuel - 1)
  }

  /**
   * `_update_dependencies(changed)` from the `i`-th formula on: every formula
   * whose text contains the changed cell's reference is re-evaluated, in
   * dictionary order, and the first exception stops the loop.
   */
  function UpdateDeps(ctx: Ctx, s: Sheet, changed: Coord, i: nat, fuel: nat): Outcome
    requires i <= |ctx.formulas|
    decreases fuel, 1, |ctx.formulas| - i
  {
    if i == |ctx.formulas| then (s, None)
    else if Contains(ctx.formulas[i].1, Ref(changed.0, changed.1)) then
      var o1 := EvalCell(ctx, s, ctx.formulas[i].0, fuel);
      if o1.1.Some? then o1 else UpdateDeps(ctx, o1.0, changed, i + 1, fuel)
    else UpdateDeps(ctx, s, changed, i + 1, fuel)
  }

  /** `recalculate_all` from the `i`-th formula on. */
  function RecalcAll(ctx: Ctx, s: Sheet, i: nat): Outcome
    requires i <= |ctx.formulas|
    decreases |ctx.formulas| - i
  {
    if i == |ctx.formulas| then (s, None)
    else
      var o1 := EvalCell(ctx, s, ctx.formulas[i].0, ctx.rt.maxDepth);
      if o1.1.Some? then o1 else RecalcAll(ctx, o1.0, i + 1)
  }

  /** What one evaluation keeps, and what the next keeps after it, the two keep together. */
  lemma KeepsThen(ctx: Ctx, s: Sheet, s1: Sheet, o: Outcome)
    requires Keeps(ctx, s, (s1, None)) && Keeps(ctx, s1, o)
    ensures Keeps(ctx, s, o)
  {
  }

  /** `_evaluate_cell` keeps the cells, the other cells' texts and values, and consistency. */
  lemma {:induction false} EvalCellKeeps(ctx: Ctx, s: Sheet, p: Coord, fuel: nat)
    ensures Keeps(ctx, s, EvalCell(ctx, s, p, fuel))
    decreases fuel, 1
  {
    if fuel > 0 && ctx.spreadsheet && GetOr(ctx.formulas, p, "") != "" && p in s.cells {
      EvalCellKeepsWidget(ctx, s, p, fuel);
    } else {
      EvalCellKeepsOther(ctx, s, p, fuel);
    }
  }

  /** A formula cell with a widget: storing its value, then the update loop. */
  lemma {:induction false} EvalCellKeepsWidget(ctx: Ctx, s: Sheet, p: Coord, fuel: nat)
    requires fuel > 0 && ctx.spreadsheet && GetOr(ctx.formulas, p, "") != "" && p in s.cells
    ensures Keeps(ctx, s, EvalCell(ctx, s, p, fuel))
    decreases fuel, 0
  {
    var o := UpdateDeps(ctx, Evaluated(ctx, s, p), p, 0, fuel - 1);
    UpdateDepsKeeps(ctx, Evaluated(ctx, s, p), p, 0, fuel - 1);
    EvaluatedThenKeeps(ctx, s, p, o);
    EvalCellSteps(ctx, s, p, fuel);
  }

  /** What an evaluation after storing `p`'s value keeps, the whole `_evaluate_cell` keeps. */
  lemma EvaluatedThenKeeps(ctx: Ctx, s: Sheet, p: Coord, o: Outcome)
    requires p in Keys(ctx.formulas) && p in s.cells
    requires Keeps(ctx, Evaluated(ctx, s, p), o)
    ensures Keeps(ctx, s, o)
  {
    EvaluatedKeeps(ctx, s, p);
    KeepsThen(ctx, s, Evaluated(ctx, s, p), o);
  }

  /** Storing and showing one formula cell's value keeps what every evaluation keeps. */
  lemma EvaluatedKeeps(ctx: Ctx, s: Sheet, p: Coord)
    requires p in Keys(ctx.formulas) && p in s.cells
    ensures Keeps(ctx, s, (Evaluated(ctx, s, p), None))
  {
  }

  /** No fuel, no spreadsheet mode, no formula, or no widget: nothing or only the value changes. */
  lemma EvalCellKeepsOther(ctx: Ctx, s: Sheet, p: Coord, fuel: nat)
    requires !(fuel > 0 && ctx.spreadsheet && GetOr(ctx.formulas, p, "") != "" && p in s.cells)
    ensures Keeps(ctx, s, EvalCell(ctx, s, p, fuel))
  {
  }

  /** `_update_dependencies` keeps what every evaluation it makes keeps. */
  lemma {:induction false} UpdateDepsKeeps(ctx: Ctx, s: Sheet, changed: Coord, i: nat, fuel: nat)
    requires i <= |ctx.formulas|
    ensures Keeps(ctx, s, UpdateDeps(ctx, s, changed, i, fuel))
    decreases fuel, 2, |ctx.formulas| - i
  {
    if i < |ctx.formulas| {
      if Contains(ctx.formulas[i].1, Ref(changed.0, changed.1)) {
        var o1 := EvalCell(ctx, s, ctx.formulas[i].0, fuel);
        EvalCellKeeps(ctx, s, ctx.formulas[i].0, fuel);
        if o1.1.None? {
          UpdateDepsKeeps(ctx, o1.0, changed, i + 1, fuel);
          KeepsThen(ctx, s, o1.0, UpdateDeps(ctx, o1.0, changed, i + 1, fuel));
        }
      } else {
        UpdateDepsKeeps(ctx, s, changed, i + 1, fuel);
      }
    }
  }

  /** `recalculate_all` keeps what every evaluation it makes keeps. */
  lemma {:induction false} RecalcAllKeeps(ctx: Ctx, s: Sheet, i: nat)
    requires i <= |ctx.formulas|
    ensures Keeps(ctx, s, RecalcAll(ctx, s, i))
    decreases |ctx.formulas| - i
  {
    if i < |ctx.formulas| {
      var o1 := EvalCell(ctx, s, ctx.formulas[i].0, ctx.rt.maxDepth);
      EvalCellKeeps(ctx, s, ctx.formulas[i].0, ctx.rt.maxDepth);
      if o1.1.None? {
        RecalcAllKeeps(ctx, o1.0, i + 1);
        KeepsThen(ctx, s, o1.0, RecalcAll(ctx, o1.0, i + 1));
      }
    }
  }

  /** A cell none of whose dependents come at or after position `i` leaves the sheet alone. */
  lemma {:induction false} NoDependentsNoUpdate(ctx: Ctx, s: Sheet, changed: Coord, i: nat, fuel: nat)
    requires i <= |ctx.formulas|
    requires forall j | i <= j < |ctx.formulas| :: !Contains(ctx.formulas[j].1, Ref(changed.0, changed.1))
    ensures UpdateDeps(ctx, s, changed, i, fuel) == (s, None)
    decreases |ctx.formulas| - i
  {
    if i < |ctx.formulas| {
      NoDependentsNoUpdate(ctx, s, changed, i + 1, fuel);
    }
  }

  /**
   * Evaluating a formula cell that no formula refers to stores the value its
   * formula computes and shows `str()` of it, and nothing else.
   */
  lemma EvaluateIsolated(ctx: Ctx, s: Sheet, p: Coord, fuel: nat)
    requires ctx.spreadsheet && fuel > 0
    requires p in Keys(ctx.formulas) && Get(ctx.formulas, p) != "" && p in s.cells
    requires forall j | 0 <= j < |ctx.formulas| :: !Contains(ctx.formulas[j].1, Ref(p.0, p.1))
    ensures var v := Calculate(ctx, s, Get(ctx.formulas, p));
      EvalCell(ctx, s, p, fuel) ==
      (Sheet(s.cells[p := Show(ctx.rt, v)], s.calculated[p := v]), None)
  {
    var v := Calculate(ctx, s, Get(ctx.formulas, p));
    NoDependentsNoUpdate(ctx, Sheet(s.cells[p := Show(ctx.rt, v)], s.calculated[p := v]), p, 0, fuel - 1);
  }

  /**
   * A formula that refers to its own cell never finishes: whatever the fuel,
   * evaluating it ends in an exception (the recursion limit, or a KeyError).
   */
  lemma {:induction false} SelfReferenceFails(ctx: Ctx, s: Sheet, p: Coord, fuel: nat)
    requires ctx.spreadsheet
    requires p in Keys(ctx.formulas) && Contains(Get(ctx.formulas, p), Ref(p.0, p.1))
    ensures EvalCell(ctx, s, p, fuel).1.Some?
    decreases fuel, 0, 0
  {
    ContainsLonger(Get(ctx.formulas, p), Ref(p.0, p.1));
    if fuel > 0 {
      if p in s.cells {
        UpdateReachesSelf(ctx, p, 0, fuel - 1);
        EvalCellRaisesWith(ctx, s, p, fuel - 1);
      } else {
        EvalCellNoWidget(ctx, s, p, fuel);
      }
    }
  }

  /** A text that contains `sub` is at least as long as `sub`. */
  lemma ContainsLonger(s: string, sub: string)
    requires Contains(s, sub)
    ensures |s| >= |sub|
  {
    var i :| 0 <= i <= |s| - |sub| && OccursAt(s, sub, i);
  }

  /** A formula cell without a widget: its value is stored, then KeyError. */
  lemma EvalCellNoWidget(ctx: Ctx, s: Sheet, p: Coord, fuel: nat)
    requires ctx.spreadsheet && fuel > 0 && p !in s.cells
    requires p in Keys(ctx.formulas) && Get(ctx.formulas, p) != ""
    ensures EvalCell(ctx, s, p, fuel).1 == Some(KeyError(p))
  {
  }

  /** One step of `_evaluate_cell` on a formula cell that has a widget. */
  lemma EvalCellSteps(ctx: Ctx, s: Sheet, p: Coord, fuel: nat)
    requires ctx.spreadsheet && fuel > 0 && p in s.cells
    requires p in Keys(ctx.formulas) && Get(ctx.formulas, p) != ""
    ensures EvalCell(ctx, s, p, fuel) == UpdateDeps(ctx, Evaluated(ctx, s, p), p, 0, fuel - 1)
  {
  }

  /** The update loop for `changed`, from the `i`-th formula on, raises. */
  predicate UpdateRaises(ctx: Ctx, s: Sheet, changed: Coord, i: nat, fuel: nat)
    requires i <= |ctx.formulas|
  {
    UpdateDeps(ctx, s, changed, i, fuel).1.Some?
  }

  /** The update loop passes over a formula that does not mention the changed cell. */
  lemma UpdateRaisesSkip(ctx: Ctx, s: Sheet, changed: Coord, i: nat, fuel: nat)
    requires i < |ctx.formulas| && !Contains(ctx.formulas[i].1, Ref(changed.0, changed.1))
    requires UpdateRaises(ctx, s, changed, i + 1, fuel)
    ensures UpdateRaises(ctx, s, changed, i, fuel)
  {
  }

  /**
   * The update loop re-evaluates the formula before position `next` when it
   * mentions the changed cell: if the loop raises from `next` on whatever
   * the sheet, it raises from the position before.
   */
  lemma UpdateRaisesVisit(ctx: Ctx, s: Sheet, changed: Coord, next: nat, fuel: nat)
    requires 0 < next <= |ctx.formulas| && Contains(ctx.formulas[next - 1].1, Ref(changed.0, changed.1))
    requires forall s2 :: UpdateRaises(ctx, s2, changed, next, fuel)
    ensures UpdateRaises(ctx, s, changed, next - 1, fuel)
  {
    assert UpdateRaises(ctx, EvalCell(ctx, s, ctx.formulas[next - 1].0, fuel).0, changed, next, fuel);
  }

  /** The update loop stops when re-evaluating a formula that mentions the changed cell raises. */
  lemma UpdateRaisesHit(ctx: Ctx, s: Sheet, changed: Coord, i: nat, fuel: nat)
    requires i < |ctx.formulas| && Contains(ctx.formulas[i].1, Ref(changed.0, changed.1))
    requires EvalCell(ctx, s, ctx.formulas[i].0, fuel).1.Some?
    ensures UpdateRaises(ctx, s, changed, i, fuel)
  {
  }

  /** The sheet once a formula cell with a widget has stored and shown its value. */
  function Evaluated(ctx: Ctx, s: Sheet, p: Coord): Sheet {
    var v := Calculate(ctx, s, GetOr(ctx.formulas, p, ""));
    Sheet(s.cells[p := Show(ctx.rt, v)], s.calculated[p := v])
  }

  /** When the update loop after a widget cell's evaluation raises, so does the evaluation. */
  lemma EvalCellRaisesWith(ctx: Ctx, s: Sheet, p: Coord, fuel: nat)
    requires ctx.spreadsheet && p in s.cells
    requires p in Keys(ctx.formulas) && Get(ctx.formulas, p) != ""
    requires forall s2 :: UpdateRaises(ctx, s2, p, 0, fuel)
    ensures EvalCell(ctx, s, p, fuel + 1).1.Some?
  {
    EvalCellSteps(ctx, s, p, fuel + 1);
    assert UpdateRaises(ctx, Evaluated(ctx, s, p), p, 0, fuel);
  }

  /**
   * The update loop for a self-referencing cell, started at or before that
   * cell's own formula, fails from any sheet: it either fails earlier or
   * re-evaluates the cell.
   */
  lemma {:induction false} UpdateReachesSelf(ctx: Ctx, p: Coord, i: nat, fuel: nat)
    requires ctx.spreadsheet
    requires p in Keys(ctx.formulas) && Contains(Get(ctx.formulas, p), Ref(p.0, p.1))
    requires i <= IndexOf(ctx.formulas, p)
    ensures forall s :: UpdateRaises(ctx, s, p, i, fuel)
    decreases fuel, 1, IndexOf(ctx.formulas, p) - i
  {
    if i < IndexOf(ctx.formulas, p) {
      UpdateReachesSelf(ctx, p, i + 1, fuel);
      forall s ensures UpdateRaises(ctx, s, p, i, fuel) {
        if Contains(ctx.formulas[i].1, Ref(p.0, p.1)) {
          UpdateRaisesVisit(ctx, s, p, i + 1, fuel);
        } else {
          UpdateRaisesSkip(ctx, s, p, i, fuel);
        }
      }
    } else {
      forall s ensures UpdateRaises(ctx, s, p, i, fuel) {
        SelfReferenceFails(ctx, s, p, fuel);
        UpdateRaisesHit(ctx, s, p, i, fuel);
      }
    }
  }

  /** `recalculate_all` from the start, with the runtime's depth for each top-level evaluation. */
  function RecalculateAll(ctx: Ctx, s: Sheet): (o: Outcome)
    ensures Keeps(ctx, s, o)
  {
    RecalcAllKeeps(ctx, s, 0);
    RecalcAll(ctx, s, 0)
  }

  /**
   * `process_cell_edit(row, col)`: the formulas afterwards and the outcome. In
   * spreadsheet mode, text starting with '=' becomes the cell's formula and is
   * evaluated; any other text drops the cell's formula and computed value and
   * re-evaluates its dependents. A cell without a widget raises KeyError first.
   */
  function ProcessEdit(ctx: Ctx, s: Sheet, p: Coord): (r: (Dict<Coord, string>, Outcome))
    requires Distinct(ctx.formulas)
    ensures Distinct(r.0)
    ensures p !in s.cells ==> r == (ctx.formulas, (s, Some(KeyError(p))))
    ensures p in s.cells && ctx.spreadsheet && StartsWith(s.cells[p], "=") ==>
      Keys(r.0) == Keys(ctx.formulas) + {p} && Get(r.0, p) == s.cells[p]
    ensures p in s.cells && !(ctx.spreadsheet && StartsWith(s.cells[p], "=")) ==>
      Keys(r.0) == Keys(ctx.formulas) - {p} && p !in r.1.0.calculated
    ensures forall q | q in Keys(r.0) && q != p :: q in Keys(ctx.formulas) && Get(r.0, q) == Get(ctx.formulas, q)
    ensures r.1.0.cells.Keys == s.cells.Keys
  {
    if p !in s.cells then (ctx.formulas, (s, Some(KeyError(p))))
    else
      var content := s.cells[p];
      if ctx.spreadsheet && StartsWith(content, "=") then
        var fs := Set(ctx.formulas, p, content);
        EvalCellKeeps(ctx.(formulas := fs), s, p, ctx.rt.maxDepth);
        (fs, EvalCell(ctx.(formulas := fs), s, p, ctx.rt.maxDepth))
      else
        var fs := Remove(ctx.formulas, p);
        UpdateDepsKeeps(ctx.(formulas := fs), s.(calculated := s.calculated - {p}), p, 0, ctx.rt.maxDepth);
        (fs, UpdateDeps(ctx.(formulas := fs), s.(calculated := s.calculated - {p}), p, 0, ctx.rt.maxDepth))
  }

  /** Text that is not a formula drops the cell's formula and value, then updates its dependents. */
  lemma ProcessEditText(ctx: Ctx, s: Sheet, p: Coord)
    requires Distinct(ctx.formulas) && p in s.cells && !(ctx.spreadsheet && StartsWith(s.cells[p], "="))
    ensures var fs := Remove(ctx.formulas, p);
      ProcessEdit(ctx, s, p) == (fs, UpdateDeps(ctx.(formulas := fs), s.(calculated := s.calculated - {p}), p, 0, ctx.rt.maxDepth))
  {
  }

  /**
   * Typing a formula into a cell nothing refers to stores the formula, and
   * the cell then holds and shows the value the formula computes.
   */
  lemma EditFormulaShowsValue(ctx: Ctx, s: Sheet, p: Coord)
    requires Distinct(ctx.formulas) && ctx.spreadsheet && ctx.rt.maxDepth > 0
    requires p in s.cells && StartsWith(s.cells[p], "=")
    requires forall j | 0 <= j < |ctx.formulas| :: !Contains(ctx.formulas[j].1, Ref(p.0, p.1))
    requires !Contains(s.cells[p], Ref(p.0, p.1))
    ensures var r := ProcessEdit(ctx, s, p);
      var v := Calculate(ctx.(formulas := r.0), s, s.cells[p]);
      r.1 == (Sheet(s.cells[p := Show(ctx.rt, v)], s.calculated[p := v]), None)
  {
    var content := s.cells[p];
    var fs := Set(ctx.formulas, p, content);
    var ctx' := ctx.(formulas := fs);
    forall j | 0 <= j < |fs| ensures !Contains(fs[j].1, Ref(p.0, p.1)) {
      if fs[j].0 == p {
        IndexOfUnique(fs, p, j);
      } else {
        assert fs[j].0 in Keys(ctx.formulas) - {p};
        IndexOfUnique(fs, fs[j].0, j);
        assert fs[j].1 == Get(ctx.formulas, fs[j].0);
      }
    }
    assert content != "";
    EvaluateIsolated(ctx', s, p, ctx.rt.maxDepth);
  }

  /* ---------------- SUM and AVG ---------------- */

  /** The value the range functions read for a coordinate: through its A1 reference. */
  function ValueAt(ctx: Ctx, s: Sheet, p: Coord): Value {
    GetCellValue(ctx, s, Ref(p.0, p.1))
  }

  /** The numbers SUM and AVG work on are exactly the numeric values of the range's cells. */
  lemma {:induction false} NumbersInMembers(ctx: Ctx, s: Sheet, cs: seq<Coord>)
    ensures forall i | 0 <= i < |cs| && IsNumber(ValueAt(ctx, s, cs[i])) :: ValueAt(ctx, s, cs[i]) in NumbersIn(ctx, s, cs)
    ensures forall v | v in NumbersIn(ctx, s, cs) :: exists i | 0 <= i < |cs| :: ValueAt(ctx, s, cs[i]) == v
  {
    if cs != [] {
      var head := ValueAt(ctx, s, cs[0]);
      var rest := NumbersIn(ctx, s, cs[1..]);
      NumbersInMembers(ctx, s, cs[1..]);
      assert NumbersIn(ctx, s, cs) == (if IsNumber(head) then [head] else []) + rest;
      forall i | 0 <= i < |cs| && IsNumber(ValueAt(ctx, s, cs[i])) ensures ValueAt(ctx, s, cs[i]) in NumbersIn(ctx, s, cs) {
        if i > 0 { assert cs[1..][i - 1] == cs[i]; }
      }
      forall v | v in NumbersIn(ctx, s, cs) ensures exists i | 0 <= i < |cs| :: ValueAt(ctx, s, cs[i]) == v {
        if v != head || !IsNumber(head) {
          assert v in rest;
          var j :| 0 <= j < |cs[1..]| && ValueAt(ctx, s, cs[1..][j]) == v;
          assert cs[j + 1] == cs[1..][j];
        } else {
          assert ValueAt(ctx, s, cs[0]) == v;
        }
      }
    }
  }

  /** No numeric value in the range: SUM and AVG are both the int 0, and AVG divides by nothing. */
  lemma {:induction false} EmptyAggregates(ctx: Ctx, s: Sheet, cs: seq<Coord>)
    requires forall i | 0 <= i < |cs| :: !IsNumber(ValueAt(ctx, s, cs[i]))
    ensures NumbersIn(ctx, s, cs) == []
    ensures SumOf(ctx, s, cs) == Int(0) && AvgOf(ctx, s, cs) == Int(0)
  {
    if cs != [] {
      assert forall i | 0 <= i < |cs[1..]| :: cs[1..][i] == cs[i + 1];
      EmptyAggregates(ctx, s, cs[1..]);
    }
  }

  /**
   * SUM is the exact total of the range's numbers, an int exactly when none
   * of them is a float; AVG of a non-empty selection is that total over their count.
   */
  lemma Aggregates(ctx: Ctx, s: Sheet, cs: seq<Coord>)
    ensures var vs := NumbersIn(ctx, s, cs);
      IsNumber(SumOf(ctx, s, cs)) && AsReal(SumOf(ctx, s, cs)) == Total(vs) &&
      (SumOf(ctx, s, cs).Int? <==> forall i | 0 <= i < |vs| :: !vs[i].Float?) &&
      (vs != [] ==> AvgOf(ctx, s, cs) == Float(Total(vs) / |vs| as real))
  {
    PySumIsTotal(NumbersIn(ctx, s, cs));
  }

  /** A column of three cells A1..A3 holding "2", "x" and nothing, with their references. */
  function ExampleSheet(): Sheet {
    Sheet(map[(0, 0) := "2", (1, 0) := "x", (2, 0) := ""], map[])
  }

  function ExampleRefs(): map<string, Coord> {
    map["A1" := (0, 0), "A2" := (1, 0), "A3" := (2, 0)]
  }

  lemma ExampleArgument(name: string)
    requires |name| == 4
    ensures Argument(name + "A1:A3)") == "A1:A3"
  {
    var expr := name + "A1:A3)";
    assert expr[4..|expr| - 1] == "A1:A3";
    assert !IsPySpace('3') && !IsPySpace('A');
    assert StripRight("A1:A3") == "A1:A3";
    assert StripLeft("A1:A3") == "A1:A3";
  }

  lemma ExampleSplit()
    ensures Split("A1:A3", ':') == ["A1", "A3"]
  {
    assert "A1:A3" == "A1" + [':'] + "A3";
    SplitFirst("A1", "A3", ':');
    SplitWithout("A3", ':');
  }

  lemma ExampleRange()
    ensures RangeCoords(0, 0, 2, 0) == [(0, 0), (1, 0), (2, 0)]
  {
    assert RowCoords(0, 0, 0) == [(0, 0)];
    assert RowCoords(1, 0, 0) == [(1, 0)];
    assert RowCoords(2, 0, 0) == [(2, 0)];
    assert RangeCoords(3, 0, 2, 0) == [];
  }

  lemma ExampleRangeParsed()
    ensures ParseRange(ExampleRefs(), "A1:A3") == Some([(0, 0), (1, 0), (2, 0)])
  {
    ExampleSplit();
    ExampleRange();
    assert ':' in "A1:A3" by { assert "A1:A3"[2] == ':'; }
  }

  lemma ExampleNumbers(rt: Runtime)
    requires rt.parseFloat("2") == Some(2.0) && rt.parseFloat("x") == None
    ensures NumbersIn(Ctx([], ExampleRefs(), rt, true), ExampleSheet(), [(0, 0), (1, 0), (2, 0)]) == [Float(2.0), Int(0)]
  {
    var ctx := Ctx([], ExampleRefs(), rt, true);
    var s := ExampleSheet();
    var cs: seq<Coord> := [(0, 0), (1, 0), (2, 0)];
    assert Ref(0, 0) == "A1" && Ref(1, 0) == "A2" && Ref(2, 0) == "A3";
    assert ValueAt(ctx, s, (0, 0)) == Float(2.0);
    assert ValueAt(ctx, s, (1, 0)) == Str("x");
    assert ValueAt(ctx, s, (2, 0)) == Int(0);
    var c2: seq<Coord> := [(2, 0)];
    var c1: seq<Coord> := [(1, 0), (2, 0)];
    assert NumbersIn(ctx, s, c2[1..]) == [];
    assert NumbersIn(ctx, s, c2) == [Int(0)];
    assert c1[1..] == c2;
    assert NumbersIn(ctx, s, c1) == [Int(0)];
    assert cs[1..] == c1;
  }

  /** A call of SUM over a range that parses evaluates to SumOf over its cells. */
  lemma ExpressionSum(ctx: Ctx, s: Sheet, expr: string, cs: seq<Coord>)
    requires IsCall(expr, "SUM(") && ParseRange(ctx.refs, Argument(expr)) == Some(cs)
    ensures Expression(ctx, s, expr) == SumOf(ctx, s, cs)
  {
  }

  /** A call of AVG over a range that parses evaluates to AvgOf over its cells. */
  lemma ExpressionAvg(ctx: Ctx, s: Sheet, expr: string, cs: seq<Coord>)
    requires IsCall(expr, "AVG(") && ParseRange(ctx.refs, Argument(expr)) == Some(cs)
    ensures Expression(ctx, s, expr) == AvgOf(ctx, s, cs)
  {
    assert !StartsWith(expr, "SUM(") by { assert expr[0] == 'A'; }
  }

  /** Text with no surrounding white space and no lower-case letter is its own normal form. */
  lemma NormalFormula(body: string)
    requires body != [] && !IsPySpace(body[0]) && !IsPySpace(body[|body| - 1])
    requires forall i | 0 <= i < |body| :: !('a' <= body[i] <= 'z')
    ensures Upper(Strip(body)) == body
  {
    assert StripRight(body) == body;
    assert StripLeft(body) == body;
    UpperChars(body);
  }

  lemma ExampleNormal1()
    ensures Upper(Strip("SUM(A1:A3)")) == "SUM(A1:A3)"
  {
    NormalFormula("SUM(A1:A3)");
  }

  lemma ExampleCall1()
    ensures IsCall("SUM(A1:A3)", "SUM(")
  {
  }

  lemma ExampleArg1()
    ensures Argument("SUM(A1:A3)") == "A1:A3"
  {
    ExampleArgument("SUM(");
    assert "SUM(" + "A1:A3)" == "SUM(A1:A3)";
  }

  lemma ExampleNormal2()
    ensures Upper(Strip("AVG(A1:A3)")) == "AVG(A1:A3)"
  {
    NormalFormula("AVG(A1:A3)");
  }

  lemma ExampleCall2()
    ensures IsCall("AVG(A1:A3)", "AVG(")
  {
  }

  lemma ExampleArg2()
    ensures Argument("AVG(A1:A3)") == "A1:A3"
  {
    ExampleArgument("AVG(");
    assert "AVG(" + "A1:A3)" == "AVG(A1:A3)";
  }

  lemma CalculateFormula(ctx: Ctx, s: Sheet, formula: string)
    requires StartsWith(formula, "=")
    ensures Calculate(ctx, s, formula) == Expression(ctx, s, Upper(Strip(formula[1..])))
  {
  }

  lemma ExampleTotal()
    ensures PySum([Float(2.0), Int(0)]) == Float(2.0)
  {
    var vs := [Float(2.0), Int(0)];
    assert vs[..1] == [Float(2.0)];
    assert vs[..1][..0] == [];
  }

  /**
   * Over "2", "x" and an empty cell, SUM is 2.0: the text is skipped and the
   * empty cell counts as the int 0, which turns nothing into a float.
   */
  lemma ExampleSum(rt: Runtime)
    requires rt.parseFloat("2") == Some(2.0) && rt.parseFloat("x") == None
    ensures Calculate(Ctx([], ExampleRefs(), rt, true), ExampleSheet(), "=SUM(A1:A3)") == Float(2.0)
  {
    var ctx := Ctx([], ExampleRefs(), rt, true);
    var cs: seq<Coord> := [(0, 0), (1, 0), (2, 0)];
    assert "=SUM(A1:A3)"[1..] == "SUM(A1:A3)";
    CalculateFormula(ctx, ExampleSheet(), "=SUM(A1:A3)");
    ExampleNormal1();
    ExampleCall1();
    ExampleArg1();
    ExampleRangeParsed();
    ExpressionSum(ctx, ExampleSheet(), "SUM(A1:A3)", cs);
    ExampleNumbers(rt);
    ExampleTotal();
  }

  /** Over the same cells AVG is 1.0, not 2.0: the empty cell is averaged in as 0. */
  lemma ExampleAvg(rt: Runtime)
    requires rt.parseFloat("2") == Some(2.0) && rt.parseFloat("x") == None
    ensures Calculate(Ctx([], ExampleRefs(), rt, true), ExampleSheet(), "=AVG(A1:A3)") == Float(1.0)
  {
    var ctx := Ctx([], ExampleRefs(), rt, true);
    var cs: seq<Coord> := [(0, 0), (1, 0), (2, 0)];
    ExampleAvgExpression(rt);
    assert "=AVG(A1:A3)"[1..] == "AVG(A1:A3)";
    CalculateFormula(ctx, ExampleSheet(), "=AVG(A1:A3)");
    ExampleNormal2();
  }

  lemma ExampleAvgExpression(rt: Runtime)
    requires rt.parseFloat("2") == Some(2.0) && rt.parseFloat("x") == None
    ensures Expression(Ctx([], ExampleRefs(), rt, true), ExampleSheet(), "AVG(A1:A3)") == Float(1.0)
  {
    var ctx := Ctx([], ExampleRefs(), rt, true);
    var cs: seq<Coord> := [(0, 0), (1, 0), (2, 0)];
    ExampleCall2();
    ExampleArg2();
    ExampleRangeParsed();
    ExpressionAvg(ctx, ExampleSheet(), "AVG(A1:A3)", cs);
    ExampleMean(rt);
  }

  lemma ExampleMean(rt: Runtime)
    requires rt.parseFloat("2") == Some(2.0) && rt.parseFloat("x") == None
    ensures AvgOf(Ctx([], ExampleRefs(), rt, true), ExampleSheet(), [(0, 0), (1, 0), (2, 0)]) == Float(1.0)
  {
    ExampleNumbers(rt);
    ExampleTotal();
    var vs := [Float(2.0), Int(0)];
    assert AsReal(PySum(vs)) / |vs| as real == 2.0 / 2.0 == 1.0;
  }

  /* ---------------- which formulas depend on a cell ---------------- */

  /** Formula text "=A10+1" as `_update_dependencies` tests it for cell A1. */
  lemma SubstringDependency()
    ensures Ref(0, 0) == "A1" && Ref(9, 0) == "A10"
    ensures Contains("=A10+1", Ref(0, 0))
  {
    assert NatToString(10) == "10";
    assert OccursAt("=A10+1", "A1", 1);
  }

  /**
   * The substring test at its worst: A1 holding "=A10+1" reads only A10,
   * yet "A1" occurs in its own formula, so evaluating A1 re-enters A1 until
   * an exception ends it.
   */
  lemma SubstringSelfReference(ctx: Ctx, s: Sheet, fuel: nat)
    requires ctx.spreadsheet
    requires (0, 0) in Keys(ctx.formulas) && Get(ctx.formulas, (0, 0)) == "=A10+1"
    ensures EvalCell(ctx, s, (0, 0), fuel).1.Some?
  {
    SubstringDependency();
    SelfReferenceFails(ctx, s, (0, 0), fuel);
  }

  /**
   * A reference occurring in a formula as a whole token: the occurrence is
   * not continued by a further digit, so "A1" does not occur in "A10".
   */
  predicate OccursAsToken(s: string, ref: string) {
    exists i | 0 <= i <= |s| - |ref| :: TokenAt(s, ref, i)
  }

  /** `ref` occurs in `s` at position `i`, and no digit follows it there. */
  predicate TokenAt(s: string, ref: string, i: int) {
    0 <= i <= |s| - |ref| && OccursAt(s, ref, i) && (i + |ref| == |s| || !IsDigit(s[i + |ref|]))
  }

  /** Whole-token occurrence is a special case of the substring test. */
  lemma TokenIsSubstring(s: string, ref: string)
    requires OccursAsToken(s, ref)
    ensures Contains(s, ref)
  {
  }

  /** Under the token test the text of one reference mentions exactly one cell: itself. */
  lemma {:induction false} TokenReferenceExact(p: Coord, q: Coord)
    requires p.0 >= 0 && q.0 >= 0 && 0 <= p.1 < MaxColumns && 0 <= q.1 < MaxColumns
    ensures OccursAsToken(Ref(q.0, q.1), Ref(p.0, p.1)) <==> p == q
  {
    var a := Ref(p.0, p.1);
    var b := Ref(q.0, q.1);
    if OccursAsToken(b, a) {
      var i :| TokenAt(b, a, i);
      assert TokenAt(b, a, i);
      RefShape(p.0, p.1);
      RefShape(q.0, q.1);
      NatToStringDigits(q.0 + 1);
      forall j | 1 <= j < |b| ensures IsDigit(b[j]) {
        assert b[j] == b[1..][j - 1];
      }
      assert b[i] == a[0] && !IsDigit(a[0]);
      assert i == 0;
      assert |a| == |b|;
      assert b == a;
      RefInjective(p.0, p.1, q.0, q.1);
    }
    if p == q {
      assert TokenAt(b, a, 0);
    }
  }

  /** The token test no longer ties "=A10+1" to A1, and still ties it to A10. */
  lemma TokenDependency()
    ensures !OccursAsToken("=A10+1", Ref(0, 0))
    ensures OccursAsToken("=A10+1", Ref(9, 0))
  {
    var s := "=A10+1";
    assert NatToString(10) == "10";
    assert Ref(0, 0) == "A1";
    assert Ref(9, 0) == "A10";
    assert TokenAt(s, "A10", 1);
    forall i | 0 <= i <= |s| - 2 ensures !TokenAt(s, "A1", i) {
      if OccursAt(s, "A1", i) {
        assert s[i..i + 2][0] == s[i] == 'A';
        assert i == 1;
      }
    }
  }
}
