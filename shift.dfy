/**
 * The passes the structural edits make over `merged_cells`: the insert and
 * delete loops that walk the sorted cell keys and re-key merge origins in
 * place (pop, then store under the new coordinate), and the swap loop of a
 * row or column move.
 */
module Shift {
  import opened Dict
  import opened Geometry

  /* ---------------- insert_row / insert_column ---------------- */

  /** `p` pushed one line further along `axis`. */
  function Bump(p: Coord, axis: Axis): (q: Coord)
    ensures Line(q, axis) == Line(p, axis) + 1
  {
    WithLine(p, axis, Line(p, axis) + 1)
  }

  lemma BumpInjective(p: Coord, q: Coord, axis: Axis)
    requires Bump(p, axis) == Bump(q, axis)
    ensures p == q
  {
  }

  /** The spans stored in a merge dictionary. */
  function Spans(merged: Merges): set<Span> {
    set k | k in Keys(merged) :: Get(merged, k)
  }

  /** Re-keying one entry never invents a span and never adds an entry. */
  lemma MoveKeepsSpans(merged: Merges, from: Coord, to: Coord)
    requires from in Keys(merged)
    ensures Spans(Move(merged, from, to)) <= Spans(merged)
    ensures |Keys(Move(merged, from, to))| <= |Keys(merged)|
  {
    var m := Move(merged, from, to);
    forall s | s in Spans(m) ensures s in Spans(merged) {
      var k :| k in Keys(m) && Get(m, k) == s;
      if k == to {
        assert Get(merged, from) == s;
      } else {
        assert k in Keys(merged) && Get(merged, k) == s;
      }
    }
    assert |(Keys(merged) - {from}) + {to}| <= |Keys(merged) - {from}| + 1;
  }

  /**
   * The insert loop over the cell keys in sorted order: every key at or past
   * `at` that is an origin *at the moment it is visited* is re-keyed one line on.
   */
  function InsertPass(merged: Merges, keys: seq<Coord>, axis: Axis, at: int): Merges
    decreases |keys|
  {
    if keys == [] then merged
    else
      var k := keys[0];
      if Line(k, axis) >= at && k in Keys(merged) then
        InsertPass(Move(merged, k, Bump(k, axis)), keys[1..], axis, at)
      else
        InsertPass(merged, keys[1..], axis, at)
  }

  /** The insert loop keeps the dictionary's keys distinct, invents no span and adds no entry. */
  lemma {:induction false} InsertPassPreserves(merged: Merges, keys: seq<Coord>, axis: Axis, at: int)
    ensures var r := InsertPass(merged, keys, axis, at);
      (Distinct(merged) ==> Distinct(r)) && Spans(r) <= Spans(merged) && |Keys(r)| <= |Keys(merged)|
    decreases |keys|
  {
    if keys != [] {
      var k := keys[0];
      if Line(k, axis) >= at && k in Keys(merged) {
        MoveKeepsSpans(merged, k, Bump(k, axis));
        InsertPassPreserves(Move(merged, k, Bump(k, axis)), keys[1..], axis, at);
      } else {
        InsertPassPreserves(merged, keys[1..], axis, at);
      }
    }
  }

  /**
   * What the insert loop is evidently meant to do: every origin at or past
   * line `at` moves one line on, keeping its span; nothing else changes.
   */
  function Shifted(p: Coord, axis: Axis, at: int): Coord {
    if Line(p, axis) >= at then Bump(p, axis) else p
  }

  lemma ShiftedInjective(p: Coord, q: Coord, axis: Axis, at: int)
    requires Shifted(p, axis, at) == Shifted(q, axis, at)
    ensures p == q
  {
  }

  function ShiftedInsert(merged: Merges, axis: Axis, at: int): (r: Merges)
    ensures |r| == |merged|
    ensures forall i | 0 <= i < |r| :: r[i] == (Shifted(merged[i].0, axis, at), merged[i].1)
  {
    if merged == [] then []
    else [(Shifted(merged[0].0, axis, at), merged[0].1)] + ShiftedInsert(merged[1..], axis, at)
  }

  /** The corrected insert keeps every origin, moves exactly those at or past `at`, and keeps every span. */
  lemma ShiftedInsertCorrect(merged: Merges, axis: Axis, at: int)
    requires Distinct(merged)
    ensures Distinct(ShiftedInsert(merged, axis, at))
    ensures Keys(ShiftedInsert(merged, axis, at)) == set k | k in Keys(merged) :: Shifted(k, axis, at)
    ensures forall k | k in Keys(merged) ::
      Get(ShiftedInsert(merged, axis, at), Shifted(k, axis, at)) == Get(merged, k)
  {
    ShiftedInsertDistinct(merged, axis, at);
    ShiftedInsertKeys(merged, axis, at);
    ShiftedInsertSpans(merged, axis, at);
  }

  /** Distinct origins stay distinct under the corrected insert. */
  lemma ShiftedInsertDistinct(merged: Merges, axis: Axis, at: int)
    requires Distinct(merged)
    ensures Distinct(ShiftedInsert(merged, axis, at))
  {
    var r := ShiftedInsert(merged, axis, at);
    forall i, j | 0 <= i < j < |r| ensures r[i].0 != r[j].0 {
      if r[i].0 == r[j].0 { ShiftedInjective(merged[i].0, merged[j].0, axis, at); }
    }
  }

  /** The corrected insert's origins are the shifted old origins. */
  lemma ShiftedInsertKeys(merged: Merges, axis: Axis, at: int)
    ensures Keys(ShiftedInsert(merged, axis, at)) == set k | k in Keys(merged) :: Shifted(k, axis, at)
  {
    var r := ShiftedInsert(merged, axis, at);
    forall x | x in Keys(r) ensures x in set k | k in Keys(merged) :: Shifted(k, axis, at) {
      var i :| 0 <= i < |r| && r[i].0 == x;
      assert merged[i].0 in Keys(merged);
    }
    forall k | k in Keys(merged) ensures Shifted(k, axis, at) in Keys(r) {
      var i :| 0 <= i < |merged| && merged[i].0 == k;
      assert r[i].0 == Shifted(k, axis, at);
    }
  }

  /** Each block keeps its span at its shifted origin. */
  lemma ShiftedInsertSpans(merged: Merges, axis: Axis, at: int)
    requires Distinct(merged)
    ensures forall k | k in Keys(merged) ::
      Get(ShiftedInsert(merged, axis, at), Shifted(k, axis, at)) == Get(merged, k)
  {
    var r := ShiftedInsert(merged, axis, at);
    ShiftedInsertDistinct(merged, axis, at);
    forall k | k in Keys(merged) ensures Get(r, Shifted(k, axis, at)) == Get(merged, k) {
      var i := IndexOf(merged, k);
      IndexOfUnique(r, Shifted(k, axis, at), i);
      IndexOfUnique(merged, k, i);
    }
  }

  /** Each key occurs once, as in the keys of a dictionary. */
  predicate NoDuplicates(keys: seq<Coord>) {
    forall i, j | 0 <= i < j < |keys| :: keys[i] != keys[j]
  }

  /** No origin the insert loop moves lands on a key still to be visited or on another origin. */
  predicate NoCascade(merged: Merges, keys: seq<Coord>, axis: Axis, at: int) {
    forall k | k in keys && k in Keys(merged) && Line(k, axis) >= at ::
      Bump(k, axis) !in keys && Bump(k, axis) !in Keys(merged)
  }

  /** Where the corrected insert sends an origin that the loop visits; unvisited origins stay. */
  function Target(k: Coord, keys: seq<Coord>, axis: Axis, at: int): Coord {
    if k in keys then Shifted(k, axis, at) else k
  }

  /** Moving the first visited origin keeps the no-cascade condition for the keys still to visit. */
  lemma NoCascadeAfterMove(merged: Merges, keys: seq<Coord>, axis: Axis, at: int)
    requires keys != [] && NoDuplicates(keys) && NoCascade(merged, keys, axis, at)
    requires Line(keys[0], axis) >= at && keys[0] in Keys(merged)
    ensures NoDuplicates(keys[1..])
    ensures NoCascade(Move(merged, keys[0], Bump(keys[0], axis)), keys[1..], axis, at)
  {
    var k0 := keys[0];
    var m := Move(merged, k0, Bump(k0, axis));
    forall k | k in keys[1..] && k in Keys(m) && Line(k, axis) >= at
      ensures Bump(k, axis) !in keys[1..] && Bump(k, axis) !in Keys(m)
    {
      assert k != Bump(k0, axis);
      assert k in Keys(merged);
      assert k != k0;
      if Bump(k, axis) == Bump(k0, axis) { BumpInjective(k, k0, axis); }
    }
  }

  /**
   * Bookkeeping for a pass that re-keys origins one at a time: if the rest of
   * the pass sends each origin `k` of `Move(m, a, b)` to `after(k)`, then the
   * whole pass sends each origin `k` of `m` to `before(k)`, provided
   * `before(a) == after(b)` and the two agree on the other origins.
   */
  lemma RekeyedByMove(m: Merges, a: Coord, b: Coord, before: Coord -> Coord, after: Coord -> Coord, r: Merges)
    requires a in Keys(m) && b !in Keys(m)
    requires before(a) == after(b)
    requires forall k | k in Keys(m) && k != a :: before(k) == after(k)
    requires Keys(r) == set k | k in Keys(Move(m, a, b)) :: after(k)
    requires forall k | k in Keys(Move(m, a, b)) :: Get(r, after(k)) == Get(Move(m, a, b), k)
    ensures Keys(r) == set k | k in Keys(m) :: before(k)
    ensures forall k | k in Keys(m) :: Get(r, before(k)) == Get(m, k)
  {
    var m' := Move(m, a, b);
    forall x | x in Keys(r) ensures x in set k | k in Keys(m) :: before(k) {
      var k :| k in Keys(m') && after(k) == x;
      if k == b {
        assert before(a) == x;
      } else {
        assert k in Keys(m) && k != a;
      }
    }
    forall k | k in Keys(m) ensures before(k) in Keys(r) {
      if k == a {
        assert b in Keys(m');
      } else {
        assert k in Keys(m');
      }
    }
    forall k | k in Keys(m) ensures Get(r, before(k)) == Get(m, k) {
      if k == a {
        assert Get(r, after(b)) == Get(m', b);
      } else {
        assert k in Keys(m') && k != b;
        assert Get(r, after(k)) == Get(m', k);
      }
    }
  }

  /** The step of the agreement proof where the first visited key is an origin that moves. */
  lemma InsertMovedCase(merged: Merges, keys: seq<Coord>, axis: Axis, at: int, r: Merges)
    requires keys != [] && NoDuplicates(keys) && NoCascade(merged, keys, axis, at)
    requires Line(keys[0], axis) >= at && keys[0] in Keys(merged)
    requires var m := Move(merged, keys[0], Bump(keys[0], axis));
      Keys(r) == (set k | k in Keys(m) :: Target(k, keys[1..], axis, at)) &&
      forall k | k in Keys(m) :: Get(r, Target(k, keys[1..], axis, at)) == Get(m, k)
    ensures Keys(r) == set k | k in Keys(merged) :: Target(k, keys, axis, at)
    ensures forall k | k in Keys(merged) :: Get(r, Target(k, keys, axis, at)) == Get(merged, k)
  {
    var k0 := keys[0];
    var rest := keys[1..];
    var b0 := Bump(k0, axis);
    assert k0 !in rest;
    assert b0 !in keys && b0 !in Keys(merged);
    forall k | k in Keys(merged) && k != k0 ensures Target(k, keys, axis, at) == Target(k, rest, axis, at) {
      assert k in keys <==> k in rest;
    }
    RekeyedByMove(merged, k0, b0, k => Target(k, keys, axis, at), k => Target(k, rest, axis, at), r);
  }

  /**
   * Without a cascade, the insert loop does what the corrected insert does:
   * each visited origin at or past `at` moves one line on with its span.
   */
  lemma {:induction false} InsertPassWithoutCascade(merged: Merges, keys: seq<Coord>, axis: Axis, at: int)
    requires Distinct(merged) && NoDuplicates(keys) && NoCascade(merged, keys, axis, at)
    ensures Keys(InsertPass(merged, keys, axis, at)) == set k | k in Keys(merged) :: Target(k, keys, axis, at)
    ensures forall k | k in Keys(merged) ::
      Get(InsertPass(merged, keys, axis, at), Target(k, keys, axis, at)) == Get(merged, k)
    decreases |keys|
  {
    if keys != [] {
      var k0 := keys[0];
      var rest := keys[1..];
      var r := InsertPass(merged, keys, axis, at);
      if Line(k0, axis) >= at && k0 in Keys(merged) {
        NoCascadeAfterMove(merged, keys, axis, at);
        var m := Move(merged, k0, Bump(k0, axis));
        assert r == InsertPass(m, rest, axis, at);
        InsertPassWithoutCascade(m, rest, axis, at);
        InsertMovedCase(merged, keys, axis, at, r);
      } else {
        assert NoDuplicates(rest);
        assert forall k | k in rest :: k in keys;
        assert NoCascade(merged, rest, axis, at);
        assert r == InsertPass(merged, rest, axis, at);
        InsertPassWithoutCascade(merged, rest, axis, at);
        forall k | k in Keys(merged) ensures Target(k, rest, axis, at) == Target(k, keys, axis, at) {
          assert k in keys <==> k == k0 || k in rest;
        }
        forall x | x in Keys(r) ensures x in set k | k in Keys(merged) :: Target(k, keys, axis, at) {
          var k :| k in Keys(merged) && Target(k, rest, axis, at) == x;
        }
      }
    }
  }

  /** The sorted cell keys of a 3 x 2 table whose row 1 is one block spanning both columns. */
  lemma ExampleKeys()
    ensures SortedCoords(GridKeys(3, 2, [((1, 0), (1, 2))])) == [(0, 0), (0, 1), (1, 0), (2, 0), (2, 1)]
  {
    var merged: Merges := [((1, 0), (1, 2))];
    var listing := [(0, 0), (0, 1), (1, 0), (2, 0), (2, 1)];
    forall p ensures p in GridKeys(3, 2, merged) <==> p in listing {
      RowBlockMembers(p);
    }
    assert SortedStrict(listing);
    SortedListing(GridKeys(3, 2, merged), listing);
  }

  /** A strictly sorted listing of a set's elements is its sorted order. */
  lemma SortedListing(keys: set<Coord>, listing: seq<Coord>)
    requires SortedStrict(listing) && forall p :: p in keys <==> p in listing
    ensures SortedCoords(keys) == listing
  {
    SortedUnique(SortedCoords(keys), listing);
  }

  /** The only member of a block spanning both columns of row 1 is (1, 1). */
  lemma RowBlockMembers(p: Coord)
    ensures IsMergedCell([((1, 0), (1, 2))], p) <==> p == (1, 1)
  {
    var merged: Merges := [((1, 0), (1, 2))];
    assert merged[1..] == [];
    assert IsMergedCell(merged, p) == IsMember((1, 0), (1, 2), p);
  }

  lemma ExampleFirstMove()
    ensures (1, 0) in Keys([((1, 0), (1, 2))])
    ensures Move([((1, 0), (1, 2))], (1, 0), (2, 0)) == [((2, 0), (1, 2))]
  {
    var merged: Merges := [((1, 0), (1, 2))];
    assert merged[0].0 == (1, 0);
    assert Remove(merged, (1, 0)) == [];
  }

  lemma ExampleSecondMove()
    ensures (2, 0) in Keys([((2, 0), (1, 2))])
    ensures Move([((2, 0), (1, 2))], (2, 0), (3, 0)) == [((3, 0), (1, 2))]
  {
    var merged: Merges := [((2, 0), (1, 2))];
    assert merged[0].0 == (2, 0);
    assert Remove(merged, (2, 0)) == [];
  }

  lemma ExampleTail()
    ensures InsertPass([((2, 0), (1, 2))], [(2, 0), (2, 1)], Rows, 1) == [((3, 0), (1, 2))]
  {
    var m2: Merges := [((3, 0), (1, 2))];
    ExampleSecondMove();
    assert InsertPass(m2, [(2, 1)], Rows, 1) == m2 by {
      assert (2, 1) !in Keys(m2);
    }
    assert [(2, 0), (2, 1)][1..] == [(2, 1)];
  }

  lemma ExampleFromRowOne()
    ensures InsertPass([((1, 0), (1, 2))], [(1, 0), (2, 0), (2, 1)], Rows, 1) == [((3, 0), (1, 2))]
  {
    ExampleFirstMove();
    ExampleTail();
    assert [(1, 0), (2, 0), (2, 1)][1..] == [(2, 0), (2, 1)];
  }

  lemma ExampleInsertPass()
    ensures InsertPass([((1, 0), (1, 2))], [(0, 0), (0, 1), (1, 0), (2, 0), (2, 1)], Rows, 1) == [((3, 0), (1, 2))]
  {
    ExampleFromRowOne();
    assert [(0, 0), (0, 1), (1, 0), (2, 0), (2, 1)][1..] == [(0, 1), (1, 0), (2, 0), (2, 1)];
    assert [(0, 1), (1, 0), (2, 0), (2, 1)][1..] == [(1, 0), (2, 0), (2, 1)];
  }

  /**
   * The cascade, on a 3 x 2 table whose row 1 is one block spanning both
   * columns: inserting a row at line 1 moves that block to row 3, not row 2,
   * because its origin is visited again at (2, 0) after the first move.
   */
  lemma InsertCascadeExample()
    ensures var merged: Merges := [((1, 0), (1, 2))];
      InsertPass(merged, SortedCoords(GridKeys(3, 2, merged)), Rows, 1) == [((3, 0), (1, 2))] &&
      ShiftedInsert(merged, Rows, 1) == [((2, 0), (1, 2))]
  {
    ExampleKeys();
    ExampleInsertPass();
  }

  /* ---------------- delete_row / delete_column ---------------- */

  /** The deleted lines met among the first `i` sorted keys: the loop's `deleted_indices`. */
  function SeenBefore(keys: seq<Coord>, i: int, axis: Axis, del: set<int>): set<int>
    requires 0 <= i <= |keys|
  {
    set j | 0 <= j < i && Line(keys[j], axis) in del :: Line(keys[j], axis)
  }

  /** How many of the lines in `seen` come before `line`. */
  function DeletedBelow(seen: set<int>, line: int): nat {
    |set d | d in seen && d < line|
  }

  /** Where the delete loop re-keys the `i`-th sorted key when its line survives. */
  function DeleteTarget(keys: seq<Coord>, i: int, axis: Axis, del: set<int>): Coord
    requires 0 <= i < |keys|
  {
    var line := Line(keys[i], axis);
    WithLine(keys[i], axis, line - DeletedBelow(SeenBefore(keys, i, axis, del), line))
  }

  /**
   * The delete loop from the `i`-th sorted key on: keys on a deleted line are
   * skipped (their origins stay where they are); a surviving key that is an
   * origin when visited is re-keyed to its target.
   */
  function DeletePass(merged: Merges, keys: seq<Coord>, axis: Axis, del: set<int>, i: int): Merges
    requires 0 <= i <= |keys|
    decreases |keys| - i
  {
    if i == |keys| then merged
    else if Line(keys[i], axis) !in del && keys[i] in Keys(merged) then
      DeletePass(Move(merged, keys[i], DeleteTarget(keys, i, axis, del)), keys, axis, del, i + 1)
    else
      DeletePass(merged, keys, axis, del, i + 1)
  }

  /** The delete loop keeps the dictionary's keys distinct, invents no span and adds no entry. */
  lemma {:induction false} DeletePassPreserves(merged: Merges, keys: seq<Coord>, axis: Axis, del: set<int>, i: int)
    requires 0 <= i <= |keys|
    ensures var r := DeletePass(merged, keys, axis, del, i);
      (Distinct(merged) ==> Distinct(r)) && Spans(r) <= Spans(merged) && |Keys(r)| <= |Keys(merged)|
    decreases |keys| - i
  {
    if i < |keys| {
      if Line(keys[i], axis) !in del && keys[i] in Keys(merged) {
        MoveKeepsSpans(merged, keys[i], DeleteTarget(keys, i, axis, del));
        DeletePassPreserves(Move(merged, keys[i], DeleteTarget(keys, i, axis, del)), keys, axis, del, i + 1);
      } else {
        DeletePassPreserves(merged, keys, axis, del, i + 1);
      }
    }
  }

  /**
   * Where the delete loop from the `i`-th sorted key on sends the origin `k`:
   * its target when the loop visits it on a surviving line, `k` itself when
   * it lies on a deleted line or is not a key still to be visited.
   */
  function DeleteDest(k: Coord, keys: seq<Coord>, axis: Axis, del: set<int>, i: int): Coord
    requires 0 <= i <= |keys|
    decreases |keys| - i
  {
    if i == |keys| then k
    else if keys[i] == k && Line(k, axis) !in del then DeleteTarget(keys, i, axis, del)
    else DeleteDest(k, keys, axis, del, i + 1)
  }

  /** A coordinate the loop does not visit from the `i`-th key on stays where it is. */
  lemma {:induction false} DeleteDestStays(k: Coord, keys: seq<Coord>, axis: Axis, del: set<int>, i: int)
    requires 0 <= i <= |keys|
    requires forall j | i <= j < |keys| :: keys[j] != k
    ensures DeleteDest(k, keys, axis, del, i) == k
    decreases |keys| - i
  {
    if i < |keys| {
      DeleteDestStays(k, keys, axis, del, i + 1);
    }
  }

  /** The visited key on a surviving line goes to its target; a key on a deleted line stays. */
  lemma {:induction false} DeleteDestAt(keys: seq<Coord>, axis: Axis, del: set<int>, i: int, j: int)
    requires NoDuplicates(keys) && 0 <= i <= j < |keys|
    ensures DeleteDest(keys[j], keys, axis, del, i) ==
      if Line(keys[j], axis) in del then keys[j] else DeleteTarget(keys, j, axis, del)
    decreases j - i
  {
    if i < j {
      assert keys[i] != keys[j];
      DeleteDestAt(keys, axis, del, i + 1, j);
    } else if Line(keys[j], axis) in del {
      DeleteDestStays(keys[j], keys, axis, del, j + 1);
    }
  }

  /** A delete target never lies after the key it comes from: the loop only moves origins back. */
  lemma DeleteTargetNotAfter(keys: seq<Coord>, i: int, axis: Axis, del: set<int>)
    requires 0 <= i < |keys|
    ensures DeleteTarget(keys, i, axis, del) == keys[i] || Before(DeleteTarget(keys, i, axis, del), keys[i])
  {
  }

  /** No two origins are sent to the same coordinate by the loop from the `i`-th key on. */
  predicate DeleteInjective(merged: Merges, keys: seq<Coord>, axis: Axis, del: set<int>, i: int)
    requires 0 <= i <= |keys|
  {
    forall a, b | a in Keys(merged) && b in Keys(merged) && a != b ::
      DeleteDest(a, keys, axis, del, i) != DeleteDest(b, keys, axis, del, i)
  }

  /**
   * Where the loop sends things once it has visited the `i`-th key, which
   * lies on a surviving line: that key goes to its target, the target is not
   * visited again, and every other coordinate is sent where the rest of the
   * loop sends it.
   */
  lemma DeleteMovedDests(keys: seq<Coord>, axis: Axis, del: set<int>, i: int)
    requires SortedStrict(keys) && 0 <= i < |keys| && Line(keys[i], axis) !in del
    ensures DeleteDest(keys[i], keys, axis, del, i) == DeleteTarget(keys, i, axis, del)
    ensures DeleteDest(DeleteTarget(keys, i, axis, del), keys, axis, del, i + 1) == DeleteTarget(keys, i, axis, del)
    ensures forall k | k != keys[i] :: DeleteDest(k, keys, axis, del, i) == DeleteDest(k, keys, axis, del, i + 1)
    ensures forall j | i < j < |keys| :: keys[j] != DeleteTarget(keys, i, axis, del) && keys[j] != keys[i]
  {
    var t := DeleteTarget(keys, i, axis, del);
    DeleteTargetNotAfter(keys, i, axis, del);
    forall j | i < j < |keys| ensures keys[j] != t && keys[j] != keys[i] {
      assert Before(keys[i], keys[j]);
    }
    DeleteDestStays(t, keys, axis, del, i + 1);
  }

  /** Moving the visited origin to its target keeps the remaining loop free of collisions. */
  lemma DeleteMovedInjective(merged: Merges, keys: seq<Coord>, axis: Axis, del: set<int>, i: int)
    requires SortedStrict(keys) && 0 <= i < |keys|
    requires Line(keys[i], axis) !in del && keys[i] in Keys(merged)
    requires DeleteInjective(merged, keys, axis, del, i)
    ensures DeleteInjective(Move(merged, keys[i], DeleteTarget(keys, i, axis, del)), keys, axis, del, i + 1)
  {
    var a, t := keys[i], DeleteTarget(keys, i, axis, del);
    var m := Move(merged, a, t);
    DeleteMovedDests(keys, axis, del, i);
    forall x, y | x in Keys(m) && y in Keys(m) && x != y
      ensures DeleteDest(x, keys, axis, del, i + 1) != DeleteDest(y, keys, axis, del, i + 1)
    {
      var gx, gy := if x == t then a else x, if y == t then a else y;
      assert DeleteDest(x, keys, axis, del, i + 1) == DeleteDest(gx, keys, axis, del, i);
      assert DeleteDest(y, keys, axis, del, i + 1) == DeleteDest(gy, keys, axis, del, i);
    }
  }

  /** The step of the proof below where the visited key is an origin on a surviving line. */
  lemma DeleteMovedCase(merged: Merges, keys: seq<Coord>, axis: Axis, del: set<int>, i: int, r: Merges)
    requires SortedStrict(keys) && 0 <= i < |keys|
    requires Line(keys[i], axis) !in del && keys[i] in Keys(merged)
    requires DeleteInjective(merged, keys, axis, del, i)
    requires var m := Move(merged, keys[i], DeleteTarget(keys, i, axis, del));
      DeleteInjective(m, keys, axis, del, i + 1) ==>
        Keys(r) == (set k | k in Keys(m) :: DeleteDest(k, keys, axis, del, i + 1)) &&
        forall k | k in Keys(m) :: Get(r, DeleteDest(k, keys, axis, del, i + 1)) == Get(m, k)
    ensures Keys(r) == set k | k in Keys(merged) :: DeleteDest(k, keys, axis, del, i)
    ensures forall k | k in Keys(merged) :: Get(r, DeleteDest(k, keys, axis, del, i)) == Get(merged, k)
  {
    var a, t := keys[i], DeleteTarget(keys, i, axis, del);
    var m := Move(merged, a, t);
    DeleteMovedDests(keys, axis, del, i);
    DeleteMovedInjective(merged, keys, axis, del, i);
    if t == a {
      assert Keys(m) == Keys(merged);
    } else {
      forall b | b in Keys(merged) && b != a ensures b != t {
        if forall j | i <= j < |keys| :: keys[j] != b {
          DeleteDestStays(b, keys, axis, del, i);
        }
      }
      RekeyedByMove(merged, a, t, k => DeleteDest(k, keys, axis, del, i), k => DeleteDest(k, keys, axis, del, i + 1), r);
    }
  }

  /**
   * When no two origins are sent to the same coordinate, the delete loop
   * moves exactly the origins it visits on surviving lines to their targets,
   * keeps the others (on deleted lines or not visited) where they are, and
   * every block keeps its span.
   */
  lemma {:induction false} DeletePassWithoutCollision(merged: Merges, keys: seq<Coord>, axis: Axis, del: set<int>, i: int)
    requires SortedStrict(keys) && 0 <= i <= |keys|
    requires DeleteInjective(merged, keys, axis, del, i)
    ensures Keys(DeletePass(merged, keys, axis, del, i)) == set k | k in Keys(merged) :: DeleteDest(k, keys, axis, del, i)
    ensures forall k | k in Keys(merged) ::
      Get(DeletePass(merged, keys, axis, del, i), DeleteDest(k, keys, axis, del, i)) == Get(merged, k)
    decreases |keys| - i
  {
    if i < |keys| {
      var r := DeletePass(merged, keys, axis, del, i);
      if Line(keys[i], axis) !in del && keys[i] in Keys(merged) {
        var m := Move(merged, keys[i], DeleteTarget(keys, i, axis, del));
        if DeleteInjective(m, keys, axis, del, i + 1) {
          DeletePassWithoutCollision(m, keys, axis, del, i + 1);
        }
        DeleteMovedCase(merged, keys, axis, del, i, r);
      } else {
        forall k | k in Keys(merged) ensures DeleteDest(k, keys, axis, del, i) == DeleteDest(k, keys, axis, del, i + 1) {
        }
        DeletePassWithoutCollision(merged, keys, axis, del, i + 1);
      }
    }
  }

  lemma {:induction false} SortedRowsMonotone(keys: seq<Coord>, i: int, j: int)
    requires SortedStrict(keys) && 0 <= i <= j < |keys|
    ensures keys[i].0 <= keys[j].0
  {
    if i < j { assert Before(keys[i], keys[j]); }
  }

  /** The rows that hold at least one key. */
  function RowsOf(keys: seq<Coord>): set<int> {
    set j | 0 <= j < |keys| :: keys[j].0
  }

  /**
   * delete_row: a surviving key in row r goes to row r minus the number of
   * deleted rows above it, counting only deleted rows that hold some key.
   */
  lemma DeleteRowTarget(keys: seq<Coord>, i: int, del: set<int>)
    requires SortedStrict(keys) && 0 <= i < |keys| && keys[i].0 !in del
    ensures DeleteTarget(keys, i, Rows, del) ==
      (keys[i].0 - |set d | d in del && d < keys[i].0 && d in RowsOf(keys)|, keys[i].1)
  {
    var r := keys[i].0;
    var seen := SeenBefore(keys, i, Rows, del);
    forall j | 0 <= j < |keys| && keys[j].0 < r ensures j < i {
      if i <= j { SortedRowsMonotone(keys, i, j); }
    }
    assert (set d | d in seen && d < r) == (set d | d in del && d < r && d in RowsOf(keys)) by {
      forall d | d in del && d < r && d in RowsOf(keys) ensures d in seen {
        var j :| 0 <= j < |keys| && keys[j].0 == d;
        assert j < i;
      }
    }
  }

  /** When every deleted row above r holds a key, the loop's remap is the usual one. */
  lemma DeleteRowRemap(keys: seq<Coord>, i: int, del: set<int>)
    requires SortedStrict(keys) && 0 <= i < |keys| && keys[i].0 !in del
    requires forall d | d in del && d < keys[i].0 :: d in RowsOf(keys)
    ensures DeleteTarget(keys, i, Rows, del) == (keys[i].0 - |set d | d in del && d < keys[i].0|, keys[i].1)
  {
    DeleteRowTarget(keys, i, del);
    assert (set d | d in del && d < keys[i].0 && d in RowsOf(keys)) == (set d | d in del && d < keys[i].0);
  }

  /** The keys in rows up to and including row r, as (row, col) pairs of the sorted listing. */
  function ColsUpTo(keys: seq<Coord>, r: int): set<int> {
    set j | 0 <= j < |keys| && keys[j].0 <= r :: keys[j].1
  }

  /**
   * delete_column: the keys are sorted by row first, so a surviving key in
   * column c of row r goes to c minus the number of deleted columns left of c
   * that hold a key in row r or in an earlier row.
   */
  lemma DeleteColTarget(keys: seq<Coord>, i: int, del: set<int>)
    requires SortedStrict(keys) && 0 <= i < |keys| && keys[i].1 !in del
    ensures DeleteTarget(keys, i, Cols, del) ==
      (keys[i].0, keys[i].1 - |set d | d in del && d < keys[i].1 && d in ColsUpTo(keys, keys[i].0)|)
  {
    var c := keys[i].1;
    var seen := SeenBefore(keys, i, Cols, del);
    forall j | 0 <= j < |keys| && keys[j].0 <= keys[i].0 && keys[j].1 < c ensures j < i {
    }
    assert (set d | d in seen && d < c) == (set d | d in del && d < c && d in ColsUpTo(keys, keys[i].0)) by {
      forall d | d in seen && d < c ensures d in ColsUpTo(keys, keys[i].0) {
        var j :| 0 <= j < i && Line(keys[j], Cols) in del && Line(keys[j], Cols) == d;
        SortedRowsMonotone(keys, j, i);
      }
      forall d | d in del && d < c && d in ColsUpTo(keys, keys[i].0) ensures d in seen {
        var j :| 0 <= j < |keys| && keys[j].0 <= keys[i].0 && keys[j].1 == d;
        assert j < i;
      }
    }
  }

  /* ---------------- move_row / move_column ---------------- */

  /** The coordinate on `line` along `axis`, at `other` across it. */
  function At(axis: Axis, line: int, other: int): (p: Coord)
    ensures Line(p, axis) == line
  {
    if axis == Rows then (line, other) else (other, line)
  }

  /**
   * One iteration of the swap loop: when both coordinates hold a cell, their
   * contents are exchanged, and an origin at `a` (or else at `b`) is re-keyed
   * to the other coordinate.
   */
  function SwapStep(cells: map<Coord, string>, merged: Merges, a: Coord, b: Coord): (r: (map<Coord, string>, Merges))
    ensures r.0.Keys == cells.Keys
    ensures Distinct(merged) ==> Distinct(r.1)
  {
    if a in cells && b in cells then
      var swapped := cells[a := cells[b]][b := cells[a]];
      if a in Keys(merged) then (swapped, Move(merged, a, b))
      else if b in Keys(merged) then (swapped, Move(merged, b, a))
      else (swapped, merged)
    else (cells, merged)
  }

  /** The swap loop of a move, over the positions `j` .. `n - 1` across the moved line. */
  function SwapPass(cells: map<Coord, string>, merged: Merges, axis: Axis, from: int, to: int, j: int, n: int)
    : (r: (map<Coord, string>, Merges))
    ensures r.0.Keys == cells.Keys
    ensures Distinct(merged) ==> Distinct(r.1)
    decreases n - j
  {
    if j >= n then (cells, merged)
    else
      var s := SwapStep(cells, merged, At(axis, from, j), At(axis, to, j));
      SwapPass(s.0, s.1, axis, from, to, j + 1, n)
  }

  /** The content a cell holds after the swap loop, as the move promises it. */
  function SwappedContent(cells: map<Coord, string>, axis: Axis, from: int, to: int, j: int, n: int, p: Coord): string
    requires p in cells
  {
    var o := if axis == Rows then p.1 else p.0;
    var a := At(axis, from, o);
    var b := At(axis, to, o);
    if j <= o < n && a in cells && b in cells then
      if p == a then cells[b] else if p == b then cells[a] else cells[p]
    else cells[p]
  }

  /** One step of the swap loop settles position `j` and leaves the promise for the other positions intact. */
  lemma SwapStepAgrees(cells: map<Coord, string>, merged: Merges, axis: Axis, from: int, to: int, j: int, n: int, p: Coord)
    requires from != to && j < n && p in cells
    ensures var s := SwapStep(cells, merged, At(axis, from, j), At(axis, to, j));
      SwappedContent(s.0, axis, from, to, j + 1, n, p) == SwappedContent(cells, axis, from, to, j, n, p)
  {
    if Across(p, axis) != j {
      SwapStepElsewhere(cells, merged, axis, from, to, j, n, p);
    }
  }

  /** The first step of the swap loop leaves the positions after it as they were. */
  lemma SwapStepElsewhere(cells: map<Coord, string>, merged: Merges, axis: Axis, from: int, to: int, j: int, n: int, p: Coord)
    requires from != to && j < n && p in cells && Across(p, axis) != j
    ensures var s := SwapStep(cells, merged, At(axis, from, j), At(axis, to, j));
      SwappedContent(s.0, axis, from, to, j + 1, n, p) == SwappedContent(cells, axis, from, to, j, n, p)
  {
    var a := At(axis, from, j);
    var b := At(axis, to, j);
    var c := SwapStep(cells, merged, a, b).0;
    var o := Across(p, axis);
    var a' := At(axis, from, o);
    var b' := At(axis, to, o);
    assert a' != a && a' != b && b' != a && b' != b && p != a && p != b;
    assert forall q | q != a && q != b :: (q in c <==> q in cells) && (q in cells ==> c[q] == cells[q]);
  }

  /**
   * Moving a line exchanges, position by position, the contents of the two
   * lines wherever both hold a cell, and leaves every other cell alone.
   */
  lemma {:induction false} SwapPassContents(cells: map<Coord, string>, merged: Merges, axis: Axis, from: int, to: int, j: int, n: int)
    requires from != to
    ensures forall p | p in cells :: SwapPass(cells, merged, axis, from, to, j, n).0[p] == SwappedContent(cells, axis, from, to, j, n, p)
    decreases n - j
  {
    if j < n {
      var s := SwapStep(cells, merged, At(axis, from, j), At(axis, to, j));
      SwapPassContents(s.0, s.1, axis, from, to, j + 1, n);
      forall p | p in cells
        ensures SwapPass(cells, merged, axis, from, to, j, n).0[p] == SwappedContent(cells, axis, from, to, j, n, p)
      {
        SwapStepAgrees(cells, merged, axis, from, to, j, n, p);
      }
    }
  }

  /** The position of `p` across `axis`: its column for a row move, its row for a column move. */
  function Across(p: Coord, axis: Axis): int {
    if axis == Rows then p.1 else p.0
  }

  /** Position `o` takes part in the swap: it lies in the loop's range and both lines hold a cell there. */
  predicate Active(cells: map<Coord, string>, axis: Axis, from: int, to: int, j: int, n: int, o: int) {
    j <= o < n && At(axis, from, o) in cells && At(axis, to, o) in cells
  }

  /** Where a move promises an origin goes: to the other line when its position takes part in the swap. */
  function SwapTarget(cells: map<Coord, string>, axis: Axis, from: int, to: int, j: int, n: int, k: Coord): Coord {
    if Active(cells, axis, from, to, j, n, Across(k, axis)) then
      if Line(k, axis) == from then At(axis, to, Across(k, axis))
      else if Line(k, axis) == to then At(axis, from, Across(k, axis))
      else k
    else k
  }

  /** No position of the swap holds an origin on both lines. */
  predicate NoDoubleOrigin(cells: map<Coord, string>, merged: Merges, axis: Axis, from: int, to: int, j: int, n: int) {
    forall o | j <= o < n && Active(cells, axis, from, to, j, n, o) ::
      !(At(axis, from, o) in Keys(merged) && At(axis, to, o) in Keys(merged))
  }

  /** The counterpart of `RekeyedByMove` for a step that re-keys nothing. */
  lemma RekeyedUnchanged(m: Merges, before: Coord -> Coord, after: Coord -> Coord, r: Merges)
    requires forall k | k in Keys(m) :: before(k) == after(k)
    requires Keys(r) == set k | k in Keys(m) :: after(k)
    requires forall k | k in Keys(m) :: Get(r, after(k)) == Get(m, k)
    ensures Keys(r) == set k | k in Keys(m) :: before(k)
    ensures forall k | k in Keys(m) :: Get(r, before(k)) == Get(m, k)
  {
    forall x | x in Keys(r) ensures x in set k | k in Keys(m) :: before(k) {
      var k :| k in Keys(m) && after(k) == x;
    }
  }

  /** The first step of the swap loop keeps the no-double-origin condition for the positions after it. */
  lemma NoDoubleOriginAfterStep(cells: map<Coord, string>, merged: Merges, axis: Axis, from: int, to: int, j: int, n: int)
    requires from != to && j < n && NoDoubleOrigin(cells, merged, axis, from, to, j, n)
    ensures var s := SwapStep(cells, merged, At(axis, from, j), At(axis, to, j));
      NoDoubleOrigin(s.0, s.1, axis, from, to, j + 1, n)
  {
    var a := At(axis, from, j);
    var b := At(axis, to, j);
    var s := SwapStep(cells, merged, a, b);
    forall o | j + 1 <= o < n && Active(s.0, axis, from, to, j + 1, n, o)
      ensures !(At(axis, from, o) in Keys(s.1) && At(axis, to, o) in Keys(s.1))
    {
      var a' := At(axis, from, o);
      var b' := At(axis, to, o);
      assert a' != a && a' != b && b' != a && b' != b;
      assert Active(cells, axis, from, to, j, n, o);
      assert a' in Keys(s.1) <==> a' in Keys(merged);
      assert b' in Keys(s.1) <==> b' in Keys(merged);
    }
  }

  /** Past the first position, the first step leaves every coordinate's promised target as it was. */
  lemma SwapTargetAfterStep(cells: map<Coord, string>, merged: Merges, axis: Axis, from: int, to: int, j: int, n: int, k: Coord)
    requires k != At(axis, from, j) && k != At(axis, to, j)
    ensures var s := SwapStep(cells, merged, At(axis, from, j), At(axis, to, j));
      SwapTarget(cells, axis, from, to, j, n, k) == SwapTarget(s.0, axis, from, to, j + 1, n, k)
  {
    var s := SwapStep(cells, merged, At(axis, from, j), At(axis, to, j));
    if Across(k, axis) == j {
      assert k == At(axis, Line(k, axis), j);
    } else {
      assert Active(cells, axis, from, to, j, n, Across(k, axis)) <==> Active(s.0, axis, from, to, j + 1, n, Across(k, axis));
    }
  }

  /** The step of the swap agreement proof: from what the rest of the loop does to what the whole loop does. */
  lemma SwapOriginsStep(cells: map<Coord, string>, merged: Merges, axis: Axis, from: int, to: int, j: int, n: int, r: Merges)
    requires from != to && j < n && NoDoubleOrigin(cells, merged, axis, from, to, j, n)
    requires StepRekeyed(cells, merged, axis, from, to, j, n, r)
    ensures Keys(r) == set k | k in Keys(merged) :: SwapTarget(cells, axis, from, to, j, n, k)
    ensures forall k | k in Keys(merged) :: Get(r, SwapTarget(cells, axis, from, to, j, n, k)) == Get(merged, k)
  {
    var a := At(axis, from, j);
    var b := At(axis, to, j);
    if a in cells && b in cells && (a in Keys(merged) || b in Keys(merged)) {
      SwapOriginsMoved(cells, merged, axis, from, to, j, n, r);
    } else {
      SwapOriginsIdle(cells, merged, axis, from, to, j, n, r);
    }
  }

  /** `r` holds the origins after the first swap step, each where the remaining steps promise to put it. */
  ghost predicate StepRekeyed(cells: map<Coord, string>, merged: Merges, axis: Axis, from: int, to: int, j: int, n: int, r: Merges) {
    var s := SwapStep(cells, merged, At(axis, from, j), At(axis, to, j));
    Keys(r) == (set k | k in Keys(s.1) :: SwapTarget(s.0, axis, from, to, j + 1, n, k)) &&
    forall k | k in Keys(s.1) :: Get(r, SwapTarget(s.0, axis, from, to, j + 1, n, k)) == Get(s.1, k)
  }

  /** `SwapOriginsStep` when the first step moves an origin to the other line. */
  lemma SwapOriginsMoved(cells: map<Coord, string>, merged: Merges, axis: Axis, from: int, to: int, j: int, n: int, r: Merges)
    requires from != to && j < n && NoDoubleOrigin(cells, merged, axis, from, to, j, n)
    requires StepRekeyed(cells, merged, axis, from, to, j, n, r)
    requires At(axis, from, j) in cells && At(axis, to, j) in cells
    requires At(axis, from, j) in Keys(merged) || At(axis, to, j) in Keys(merged)
    ensures Keys(r) == set k | k in Keys(merged) :: SwapTarget(cells, axis, from, to, j, n, k)
    ensures forall k | k in Keys(merged) :: Get(r, SwapTarget(cells, axis, from, to, j, n, k)) == Get(merged, k)
  {
    var a := At(axis, from, j);
    var b := At(axis, to, j);
    var s := SwapStep(cells, merged, a, b);
    var before := k => SwapTarget(cells, axis, from, to, j, n, k);
    var after := k => SwapTarget(s.0, axis, from, to, j + 1, n, k);
    forall k | k != a && k != b ensures before(k) == after(k) {
      SwapTargetAfterStep(cells, merged, axis, from, to, j, n, k);
    }
    assert Active(cells, axis, from, to, j, n, j);
    if a in Keys(merged) {
      RekeyedByMove(merged, a, b, before, after, r);
    } else {
      RekeyedByMove(merged, b, a, before, after, r);
    }
  }

  /** `SwapOriginsStep` when the first step moves no origin. */
  lemma SwapOriginsIdle(cells: map<Coord, string>, merged: Merges, axis: Axis, from: int, to: int, j: int, n: int, r: Merges)
    requires from != to && j < n
    requires StepRekeyed(cells, merged, axis, from, to, j, n, r)
    requires !(At(axis, from, j) in cells && At(axis, to, j) in cells) ||
      (At(axis, from, j) !in Keys(merged) && At(axis, to, j) !in Keys(merged))
    ensures Keys(r) == set k | k in Keys(merged) :: SwapTarget(cells, axis, from, to, j, n, k)
    ensures forall k | k in Keys(merged) :: Get(r, SwapTarget(cells, axis, from, to, j, n, k)) == Get(merged, k)
  {
    var a := At(axis, from, j);
    var b := At(axis, to, j);
    var s := SwapStep(cells, merged, a, b);
    var before := k => SwapTarget(cells, axis, from, to, j, n, k);
    var after := k => SwapTarget(s.0, axis, from, to, j + 1, n, k);
    assert s.1 == merged;
    forall k | k in Keys(merged) ensures before(k) == after(k) {
      if k == a || k == b {
        assert !Active(cells, axis, from, to, j, n, j) || k !in Keys(merged);
      } else {
        SwapTargetAfterStep(cells, merged, axis, from, to, j, n, k);
      }
    }
    RekeyedUnchanged(merged, before, after, r);
  }

  /**
   * When no position holds an origin on both lines, the swap loop exchanges
   * the origins between the two lines wherever both hold a cell, each keeping
   * its span, and leaves every other origin alone.
   */
  lemma {:induction false} SwapPassOrigins(cells: map<Coord, string>, merged: Merges, axis: Axis, from: int, to: int, j: int, n: int)
    requires from != to && Distinct(merged) && NoDoubleOrigin(cells, merged, axis, from, to, j, n)
    ensures Keys(SwapPass(cells, merged, axis, from, to, j, n).1) ==
      set k | k in Keys(merged) :: SwapTarget(cells, axis, from, to, j, n, k)
    ensures forall k | k in Keys(merged) ::
      Get(SwapPass(cells, merged, axis, from, to, j, n).1, SwapTarget(cells, axis, from, to, j, n, k)) == Get(merged, k)
    decreases n - j
  {
    if j < n {
      var s := SwapStep(cells, merged, At(axis, from, j), At(axis, to, j));
      NoDoubleOriginAfterStep(cells, merged, axis, from, to, j, n);
      SwapPassOrigins(s.0, s.1, axis, from, to, j + 1, n);
      var r := SwapPass(s.0, s.1, axis, from, to, j + 1, n).1;
      assert SwapPass(cells, merged, axis, from, to, j, n).1 == r;
      SwapOriginsStep(cells, merged, axis, from, to, j, n, r);
    } else {
      assert SwapPass(cells, merged, axis, from, to, j, n).1 == merged;
      forall k ensures SwapTarget(cells, axis, from, to, j, n, k) == k {
        assert !Active(cells, axis, from, to, j, n, Across(k, axis));
      }
      assert Keys(merged) == set k | k in Keys(merged) :: SwapTarget(cells, axis, from, to, j, n, k);
    }
  }

  lemma SwapTargetInjective(cells: map<Coord, string>, axis: Axis, from: int, to: int, j: int, n: int, p: Coord, q: Coord)
    requires from != to
    requires SwapTarget(cells, axis, from, to, j, n, p) == SwapTarget(cells, axis, from, to, j, n, q)
    ensures p == q
  {
    assert p == At(axis, Line(p, axis), Across(p, axis));
    assert q == At(axis, Line(q, axis), Across(q, axis));
  }

  /**
   * What the swap loop is evidently meant to do with the origins: re-key every
   * origin through `SwapTarget`, so that two origins at the same position are
   * exchanged rather than one overwriting the other.
   */
  function SwappedOrigins(cells: map<Coord, string>, merged: Merges, axis: Axis, from: int, to: int, n: int): (r: Merges)
    ensures |r| == |merged|
    ensures forall i | 0 <= i < |r| :: r[i] == (SwapTarget(cells, axis, from, to, 0, n, merged[i].0), merged[i].1)
  {
    if merged == [] then []
    else [(SwapTarget(cells, axis, from, to, 0, n, merged[0].0), merged[0].1)] + SwappedOrigins(cells, merged[1..], axis, from, to, n)
  }

  /** The corrected move keeps every origin and every span, exchanging the origins of the two lines. */
  lemma SwappedOriginsCorrect(cells: map<Coord, string>, merged: Merges, axis: Axis, from: int, to: int, n: int)
    requires from != to && Distinct(merged)
    ensures Distinct(SwappedOrigins(cells, merged, axis, from, to, n))
    ensures Keys(SwappedOrigins(cells, merged, axis, from, to, n)) ==
      set k | k in Keys(merged) :: SwapTarget(cells, axis, from, to, 0, n, k)
    ensures forall k | k in Keys(merged) ::
      Get(SwappedOrigins(cells, merged, axis, from, to, n), SwapTarget(cells, axis, from, to, 0, n, k)) == Get(merged, k)
  {
    SwappedOriginsDistinct(cells, merged, axis, from, to, n);
    SwappedOriginsKeys(cells, merged, axis, from, to, n);
    SwappedOriginsSpans(cells, merged, axis, from, to, n);
  }

  /** Distinct origins stay distinct under the corrected move. */
  lemma SwappedOriginsDistinct(cells: map<Coord, string>, merged: Merges, axis: Axis, from: int, to: int, n: int)
    requires from != to && Distinct(merged)
    ensures Distinct(SwappedOrigins(cells, merged, axis, from, to, n))
  {
    var r := SwappedOrigins(cells, merged, axis, from, to, n);
    forall i, j | 0 <= i < j < |r| ensures r[i].0 != r[j].0 {
      if r[i].0 == r[j].0 { SwapTargetInjective(cells, axis, from, to, 0, n, merged[i].0, merged[j].0); }
    }
  }

  /** The corrected move's origins are the moved old origins. */
  lemma SwappedOriginsKeys(cells: map<Coord, string>, merged: Merges, axis: Axis, from: int, to: int, n: int)
    ensures Keys(SwappedOrigins(cells, merged, axis, from, to, n)) ==
      set k | k in Keys(merged) :: SwapTarget(cells, axis, from, to, 0, n, k)
  {
    var r := SwappedOrigins(cells, merged, axis, from, to, n);
    forall x | x in Keys(r) ensures x in set k | k in Keys(merged) :: SwapTarget(cells, axis, from, to, 0, n, k) {
      var i :| 0 <= i < |r| && r[i].0 == x;
      assert merged[i].0 in Keys(merged);
    }
    forall k | k in Keys(merged) ensures SwapTarget(cells, axis, from, to, 0, n, k) in Keys(r) {
      var i :| 0 <= i < |merged| && merged[i].0 == k;
      assert r[i].0 == SwapTarget(cells, axis, from, to, 0, n, k);
    }
  }

  /** Each block keeps its span at its moved origin. */
  lemma SwappedOriginsSpans(cells: map<Coord, string>, merged: Merges, axis: Axis, from: int, to: int, n: int)
    requires from != to && Distinct(merged)
    ensures forall k | k in Keys(merged) ::
      Get(SwappedOrigins(cells, merged, axis, from, to, n), SwapTarget(cells, axis, from, to, 0, n, k)) == Get(merged, k)
  {
    var r := SwappedOrigins(cells, merged, axis, from, to, n);
    SwappedOriginsDistinct(cells, merged, axis, from, to, n);
    forall k | k in Keys(merged) ensures Get(r, SwapTarget(cells, axis, from, to, 0, n, k)) == Get(merged, k) {
      var i := IndexOf(merged, k);
      IndexOfUnique(r, SwapTarget(cells, axis, from, to, 0, n, k), i);
      IndexOfUnique(merged, k, i);
    }
  }

  lemma ExampleSwapFirstColumn()
    ensures var cells := map[(0, 0) := "", (1, 0) := ""];
      SwapStep(cells, [((0, 0), (1, 2)), ((1, 0), (1, 2))], (0, 0), (1, 0)) == (cells, [((1, 0), (1, 2))])
  {
    var merged: Merges := [((0, 0), (1, 2)), ((1, 0), (1, 2))];
    assert merged[0].0 == (0, 0);
    assert Remove(merged, (0, 0)) == [((1, 0), (1, 2))] by {
      assert Remove(merged[1..], (0, 0)) == [((1, 0), (1, 2))];
    }
    var m: Merges := [((1, 0), (1, 2))];
    assert m[0].0 == (1, 0);
    assert Set(m, (1, 0), (1, 2)) == m;
    assert Get(merged, (0, 0)) == (1, 2);
    assert Move(merged, (0, 0), (1, 0)) == m;
    var cells := map[(0, 0) := "", (1, 0) := ""];
    assert cells[(0, 0) := cells[(1, 0)]][(1, 0) := cells[(0, 0)]] == cells;
  }

  /**
   * Moving row 0 of a 2 x 2 table whose two rows are each one block spanning
   * both columns: the swap loop keeps only one of the two blocks, where the
   * corrected move keeps both.
   */
  lemma SwapLosesBlockExample()
    ensures var cells := map[(0, 0) := "", (1, 0) := ""];
      var merged: Merges := [((0, 0), (1, 2)), ((1, 0), (1, 2))];
      SwapPass(cells, merged, Rows, 0, 1, 0, 2).1 == [((1, 0), (1, 2))] &&
      SwappedOrigins(cells, merged, Rows, 0, 1, 2) == [((1, 0), (1, 2)), ((0, 0), (1, 2))]
  {
    SwapPassExample();
    SwappedOriginsExample();
  }

  /** On that table the swap loop ends with one block. */
  lemma SwapPassExample()
    ensures var cells := map[(0, 0) := "", (1, 0) := ""];
      SwapPass(cells, [((0, 0), (1, 2)), ((1, 0), (1, 2))], Rows, 0, 1, 0, 2).1 == [((1, 0), (1, 2))]
  {
    var cells := map[(0, 0) := "", (1, 0) := ""];
    ExampleSwapFirstColumn();
    var m: Merges := [((1, 0), (1, 2))];
    assert SwapPass(cells, m, Rows, 0, 1, 1, 2) == (cells, m) by {
      assert (0, 1) !in cells;
    }
  }

  /** On that table the corrected move exchanges the two blocks. */
  lemma SwappedOriginsExample()
    ensures var cells := map[(0, 0) := "", (1, 0) := ""];
      SwappedOrigins(cells, [((0, 0), (1, 2)), ((1, 0), (1, 2))], Rows, 0, 1, 2) == [((1, 0), (1, 2)), ((0, 0), (1, 2))]
  {
    var cells := map[(0, 0) := "", (1, 0) := ""];
    var merged: Merges := [((0, 0), (1, 2)), ((1, 0), (1, 2))];
    assert Active(cells, Rows, 0, 1, 0, 2, 0);
    assert SwappedOrigins(cells, merged, Rows, 0, 1, 2)[0] == ((1, 0), (1, 2));
    assert SwappedOrigins(cells, merged, Rows, 0, 1, 2)[1] == ((0, 0), (1, 2));
  }
}
