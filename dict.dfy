/**
 * A Python `dict`: a finite mapping that remembers insertion order.
 *
 * The table iterates `merged_cells` and `formulas` in that order and the
 * outcome depends on it, so a dictionary is a sequence of (key, value)
 * entries.  Assigning to a present key keeps its position, assigning to a
 * new key appends, and `pop` removes the entry.
 */
module Dict {

  type Dict<K(==), V> = seq<(K, V)>

  function Keys<K(==), V>(d: Dict<K, V>): set<K> {
    set i | 0 <= i < |d| :: d[i].0
  }

  /** A Python dictionary never holds a key twice. */
  predicate Distinct<K(==), V>(d: Dict<K, V>) {
    forall i, j | 0 <= i < j < |d| :: d[i].0 != d[j].0
  }

  /** Position of the entry for `k`. */
  function IndexOf<K(==), V>(d: Dict<K, V>, k: K): (i: nat)
    requires k in Keys(d)
    ensures i < |d| && d[i].0 == k
  {
    if d[0].0 == k then 0
    else
      assert k in Keys(d[1..]) by {
        var i :| 0 <= i < |d| && d[i].0 == k;
        assert d[1..][i - 1].0 == k;
      }
      IndexOf(d[1..], k) + 1
  }

  /** The entry `IndexOf` finds is the first one for its key. */
  lemma {:induction false} IndexOfFirst<K, V>(d: Dict<K, V>, k: K)
    requires k in Keys(d)
    ensures forall j | 0 <= j < IndexOf(d, k) :: d[j].0 != k
  {
    if d[0].0 != k {
      assert k in Keys(d[1..]) by {
        var i :| 0 <= i < |d| && d[i].0 == k;
        assert d[1..][i - 1].0 == k;
      }
      IndexOfFirst(d[1..], k);
      forall j | 0 <= j < IndexOf(d, k) ensures d[j].0 != k {
        if j > 0 { assert d[j] == d[1..][j - 1]; }
      }
    }
  }

  /** `d[k]` */
  function Get<K(==), V>(d: Dict<K, V>, k: K): V
    requires k in Keys(d)
  {
    d[IndexOf(d, k)].1
  }

  /** `d.get(k, default)` */
  function GetOr<K(==), V>(d: Dict<K, V>, k: K, default: V): (v: V)
    ensures k in Keys(d) ==> v == Get(d, k)
    ensures k !in Keys(d) ==> v == default
  {
    if k in Keys(d) then Get(d, k) else default
  }

  lemma {:induction false} IndexOfUnique<K, V>(d: Dict<K, V>, k: K, i: int)
    requires Distinct(d) && 0 <= i < |d| && d[i].0 == k
    ensures k in Keys(d) && IndexOf(d, k) == i
  {
    assert k in Keys(d);
    var j := IndexOf(d, k);
    assert d[j].0 == k;
  }

  /** `d[k] = v` */
  function Set<K(==), V>(d: Dict<K, V>, k: K, v: V): (r: Dict<K, V>)
    ensures Keys(r) == Keys(d) + {k}
    ensures Get(r, k) == v
    ensures forall k' | k' in Keys(d) && k' != k :: Get(r, k') == Get(d, k')
    ensures Distinct(d) ==> Distinct(r)
    ensures k in Keys(d) ==> |r| == |d|
    ensures k !in Keys(d) ==> r == d + [(k, v)]
  {
    if k in Keys(d) then
      SetPresent(d, k, v);
      d[IndexOf(d, k) := (k, v)]
    else
      SetAbsent(d, k, v);
      d + [(k, v)]
  }

  /** Assigning to a present key replaces its entry in place. */
  lemma SetPresent<K, V>(d: Dict<K, V>, k: K, v: V)
    requires k in Keys(d)
    ensures var r := d[IndexOf(d, k) := (k, v)];
      Keys(r) == Keys(d) && k in Keys(r) && Get(r, k) == v &&
      (forall k' | k' in Keys(d) && k' != k :: Get(r, k') == Get(d, k')) &&
      (Distinct(d) ==> Distinct(r))
  {
    var i := IndexOf(d, k);
    var r := d[i := (k, v)];
    assert forall j | 0 <= j < |d| :: r[j].0 == d[j].0;
    assert Keys(r) == Keys(d);
    assert IndexOf(r, k) == i by {
      var j := IndexOf(r, k);
      IndexOfFirst(r, k);
      IndexOfFirst(d, k);
      assert d[j].0 == k;
    }
    forall k' | k' in Keys(d) && k' != k
      ensures Get(r, k') == Get(d, k')
    {
      var a, b := IndexOf(r, k'), IndexOf(d, k');
      IndexOfFirst(r, k');
      IndexOfFirst(d, k');
      assert r[b].0 == k';
      assert d[a].0 == k';
    }
  }

  /** Assigning to a new key appends an entry. */
  lemma SetAbsent<K, V>(d: Dict<K, V>, k: K, v: V)
    requires k !in Keys(d)
    ensures var r := d + [(k, v)];
      Keys(r) == Keys(d) + {k} && Get(r, k) == v &&
      (forall k' | k' in Keys(d) && k' != k :: Get(r, k') == Get(d, k')) &&
      (Distinct(d) ==> Distinct(r))
  {
    var r := d + [(k, v)];
    assert r[|d|].0 == k;
    assert Keys(r) == Keys(d) + {k} by {
      forall x | x in Keys(r) ensures x in Keys(d) + {k} {
        var i :| 0 <= i < |r| && r[i].0 == x;
        if i < |d| { assert d[i].0 == x; }
      }
      forall x | x in Keys(d) ensures x in Keys(r) {
        var i :| 0 <= i < |d| && d[i].0 == x;
        assert r[i].0 == x;
      }
    }
    assert IndexOf(r, k) == |d| by {
      IndexOfFirst(r, k);
      assert forall i | 0 <= i < |d| :: d[i].0 in Keys(d);
      assert forall i | 0 <= i < |d| :: r[i] == d[i];
    }
    forall k' | k' in Keys(d) && k' != k
      ensures Get(r, k') == Get(d, k')
    {
      var a, b := IndexOf(r, k'), IndexOf(d, k');
      IndexOfFirst(r, k');
      IndexOfFirst(d, k');
      assert r[b].0 == k';
      assert a <= b;
      assert d[a].0 == k';
    }
    if Distinct(d) {
      forall i, j | 0 <= i < j < |r| ensures r[i].0 != r[j].0 {
        if j == |d| { assert r[i] == d[i]; assert d[i].0 in Keys(d); }
        else { assert r[i] == d[i] && r[j] == d[j]; }
      }
    }
  }

  /** The keys of a non-empty dictionary: the first entry's, then the rest's. */
  lemma KeysSplit<K, V>(d: Dict<K, V>)
    requires d != []
    ensures Keys(d) == {d[0].0} + Keys(d[1..])
  {
    forall x | x in Keys(d) ensures x in {d[0].0} + Keys(d[1..]) {
      var i :| 0 <= i < |d| && d[i].0 == x;
      if i > 0 { assert d[1..][i - 1].0 == x; }
    }
    forall x | x in Keys(d[1..]) ensures x in Keys(d) {
      var i :| 0 <= i < |d[1..]| && d[1..][i].0 == x;
      assert d[i + 1].0 == x;
    }
  }

  /** A key other than the first entry's is found one place further than in the rest. */
  lemma IndexOfSplit<K, V>(d: Dict<K, V>, k: K)
    requires d != [] && k in Keys(d) && d[0].0 != k
    ensures k in Keys(d[1..]) && IndexOf(d, k) == IndexOf(d[1..], k) + 1
  {
  }

  /** A lookup in a non-empty dictionary finds the first entry or looks in the rest. */
  lemma GetSplit<K, V>(d: Dict<K, V>, k: K)
    requires d != [] && k in Keys(d)
    ensures d[0].0 != k ==> k in Keys(d[1..]) && Get(d, k) == Get(d[1..], k)
    ensures d[0].0 == k ==> Get(d, k) == d[0].1
  {
    if d[0].0 != k {
      IndexOfSplit(d, k);
    }
  }

  /** A non-empty dictionary has distinct keys when its rest does and the first key is new. */
  lemma DistinctSplit<K, V>(d: Dict<K, V>)
    requires d != []
    ensures Distinct(d) <==> Distinct(d[1..]) && d[0].0 !in Keys(d[1..])
  {
    if Distinct(d) {
      forall i, j | 0 <= i < j < |d[1..]| ensures d[1..][i].0 != d[1..][j].0 {
        assert d[1..][i] == d[i + 1] && d[1..][j] == d[j + 1];
      }
      forall i | 0 <= i < |d[1..]| ensures d[1..][i].0 != d[0].0 {
        assert d[1..][i] == d[i + 1];
      }
    }
    if Distinct(d[1..]) && d[0].0 !in Keys(d[1..]) {
      forall i, j | 0 <= i < j < |d| ensures d[i].0 != d[j].0 {
        assert d[j] == d[1..][j - 1];
        if i > 0 { assert d[i] == d[1..][i - 1]; }
      }
    }
  }

  /** `del d[k]`, or `d.pop(k)` with the value dropped. */
  function Remove<K(==), V>(d: Dict<K, V>, k: K): (r: Dict<K, V>)
    ensures Keys(r) == Keys(d) - {k}
    ensures forall k' | k' in Keys(r) :: Get(r, k') == Get(d, k')
    ensures Distinct(d) ==> Distinct(r)
    ensures |r| <= |d|
  {
    if |d| == 0 then []
    else
      var rest := Remove(d[1..], k);
      KeysSplit(d);
      DistinctSplit(d);
      if d[0].0 == k then
        forall k' | k' in Keys(rest) ensures Get(rest, k') == Get(d, k') {
          GetSplit(d, k');
        }
        rest
      else
        var r := [d[0]] + rest;
        assert r[0] == d[0] && r[1..] == rest;
        KeysSplit(r);
        DistinctSplit(r);
        forall k' | k' in Keys(r) ensures Get(r, k') == Get(d, k') {
          GetSplit(r, k');
          GetSplit(d, k');
        }
        r
  }

  /** Deleting a key the dictionary does not hold leaves it as it is. */
  lemma {:induction false} RemoveAbsent<K, V>(d: Dict<K, V>, k: K)
    requires k !in Keys(d)
    ensures Remove(d, k) == d
  {
    if d != [] {
      assert d[0].0 != k;
      assert k !in Keys(d[1..]) by {
        forall i | 0 <= i < |d[1..]| ensures d[1..][i].0 != k {
          assert d[1..][i] == d[i + 1];
        }
      }
      RemoveAbsent(d[1..], k);
      assert d == [d[0]] + d[1..];
    }
  }

  /** `d[to] = d.pop(from)`: the value leaves `from` and is stored under `to`. */
  function Move<K(==), V>(d: Dict<K, V>, from: K, to: K): (r: Dict<K, V>)
    requires from in Keys(d)
    ensures Keys(r) == (Keys(d) - {from}) + {to}
    ensures Get(r, to) == Get(d, from)
    ensures forall k | k in Keys(d) && k != from && k != to :: Get(r, k) == Get(d, k)
    ensures Distinct(d) ==> Distinct(r)
  {
    Set(Remove(d, from), to, Get(d, from))
  }

  /** The entries whose keys are not in `s`, in their order: what deleting each key of `s` leaves. */
  function Without<K(==), V>(d: Dict<K, V>, s: set<K>): (r: Dict<K, V>)
    ensures forall i | 0 <= i < |r| :: r[i].0 !in s
  {
    if d == [] then [] else (if d[0].0 in s then [] else [d[0]]) + Without(d[1..], s)
  }

  /** Deleting one more key from what is left is deleting it along with the others. */
  lemma {:induction false} RemoveFromWithout<K, V>(d: Dict<K, V>, s: set<K>, k: K)
    ensures Remove(Without(d, s), k) == Without(d, s + {k})
  {
    if d != [] {
      RemoveFromWithout(d[1..], s, k);
      var rest := Without(d[1..], s);
      var w := Without(d, s);
      if d[0].0 !in s {
        assert w == [d[0]] + rest;
        assert w[1..] == rest && w[0] == d[0];
        if d[0].0 == k {
          assert Remove(w, k) == Remove(rest, k);
        } else {
          assert Remove(w, k) == [d[0]] + Remove(rest, k);
        }
      } else {
        assert w == rest;
      }
    }
  }

  /** Deleting nothing leaves the dictionary as it was. */
  lemma {:induction false} WithoutNothing<K, V>(d: Dict<K, V>)
    ensures Without(d, {}) == d
  {
    if d != [] {
      WithoutNothing(d[1..]);
      assert [d[0]] + d[1..] == d;
    }
  }

  /** Keys and values of the entries left after deleting the keys of `s`. */
  lemma {:induction false} WithoutKeys<K, V>(d: Dict<K, V>, s: set<K>)
    ensures Keys(Without(d, s)) == Keys(d) - s
  {
    if d != [] {
      WithoutKeys(d[1..], s);
      KeysSplit(d);
      var rest := Without(d[1..], s);
      var r := Without(d, s);
      if d[0].0 !in s {
        assert r == [d[0]] + rest;
        assert r[0] == d[0] && r[1..] == rest;
        KeysSplit(r);
      } else {
        assert r == rest;
      }
    }
  }
}
