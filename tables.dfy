/** Queries over a table held as a sequence of rows, each with an auto-increment key:
    `... ORDER BY id DESC LIMIT 1`, `Model::find($id)` and the auto-increment invariant. */
module Tables {
  import opened Common

  /** The auto-increment invariant: each row's key is below the next key to be handed
      out and above the keys of every row inserted before it. Stated on the last row,
      so that a method holding it only unfolds it on demand; `KeysOrdered` gives the
      pairwise form. */
  ghost predicate KeysAscending<T>(rows: seq<T>, key: T -> int, next: int)
    decreases |rows|
  {
    rows == [] ||
    var last := key(rows[|rows| - 1]);
    last < next && KeysAscending(rows[..|rows| - 1], key, last)
  }

  /** Under the auto-increment invariant keys grow with insertion order and all lie
      below the next key. */
  lemma {:induction false} KeysOrdered<T>(rows: seq<T>, key: T -> int, next: int)
    requires KeysAscending(rows, key, next)
    ensures forall i, j :: 0 <= i < j < |rows| ==> key(rows[i]) < key(rows[j])
    ensures forall i :: 0 <= i < |rows| ==> key(rows[i]) < next
    decreases |rows|
  {
    if rows != [] {
      var n := |rows| - 1;
      var prefix := rows[..n];
      KeysOrdered(prefix, key, key(rows[n]));
      assert forall i :: 0 <= i < n ==> rows[i] == prefix[i];
    }
  }

  /** The invariant depends only on the keys of the rows. */
  lemma {:induction false} SameKeysAscending<T>(rows: seq<T>, other: seq<T>, key: T -> int, next: int)
    requires KeysAscending(rows, key, next)
    requires |other| == |rows| && forall i :: 0 <= i < |rows| ==> key(other[i]) == key(rows[i])
    ensures KeysAscending(other, key, next)
    decreases |rows|
  {
    if rows != [] {
      var n := |rows| - 1;
      SameKeysAscending(rows[..n], other[..n], key, key(rows[n]));
    }
  }

  /** The position of the row with the highest key among those satisfying `keep`
      (`WHERE keep ORDER BY id DESC LIMIT 1`), or None when no row qualifies. */
  function LatestIndex<T>(rows: seq<T>, key: T -> int, keep: T -> bool): (r: Option<nat>)
    ensures r.None? <==> forall i :: 0 <= i < |rows| ==> !keep(rows[i])
    ensures r.Some? ==> r.value < |rows| && keep(rows[r.value])
    ensures r.Some? ==> forall i :: 0 <= i < |rows| && keep(rows[i]) ==> key(rows[i]) <= key(rows[r.value])
    decreases |rows|
  {
    if rows == [] then None
    else
      var n := |rows| - 1;
      var prefix := LatestIndex(rows[..n], key, keep);
      if !keep(rows[n]) then prefix
      else if prefix.Some? && key(rows[n]) < key(rows[prefix.value]) then prefix
      else Some(n)
  }

  /** The highest-key row of the whole table (`ORDER BY id DESC LIMIT 1`). */
  function Latest<T>(rows: seq<T>, key: T -> int): (r: Option<nat>)
    ensures r.None? <==> rows == []
    ensures r.Some? ==> r.value < |rows| && forall i :: 0 <= i < |rows| ==> key(rows[i]) <= key(rows[r.value])
  {
    LatestIndex(rows, key, (x: T) => true)
  }

  /** The position of a row whose key is `k` (`Model::find(k)`), or None. */
  function FindKey<T>(rows: seq<T>, key: T -> int, k: int): (r: Option<nat>)
    ensures r.None? <==> forall i :: 0 <= i < |rows| ==> key(rows[i]) != k
    ensures r.Some? ==> r.value < |rows| && key(rows[r.value]) == k
    decreases |rows|
  {
    if rows == [] then None
    else if key(rows[0]) == k then Some(0)
    else
      var rest := FindKey(rows[1..], key, k);
      if rest.Some? then Some(rest.value + 1) else None
  }

  /** Under the auto-increment invariant a key names at most one row, so the row
      `find` returns is the only one with that key. */
  lemma FindKeyUnique<T>(rows: seq<T>, key: T -> int, next: int, k: int, i: nat)
    requires KeysAscending(rows, key, next)
    requires i < |rows| && key(rows[i]) == k
    ensures FindKey(rows, key, k) == Some(i)
  {
    KeysOrdered(rows, key, next);
    forall j | 0 <= j < |rows| && j != i
      ensures key(rows[j]) != k
    {
      if j < i {
        assert key(rows[j]) < key(rows[i]);
      } else {
        assert key(rows[i]) < key(rows[j]);
      }
    }
  }

  /** Under the auto-increment invariant the highest-key qualifying row is the
      last qualifying row in insertion order. */
  lemma LatestIndexIsLast<T>(rows: seq<T>, key: T -> int, keep: T -> bool, next: int)
    requires KeysAscending(rows, key, next)
    requires LatestIndex(rows, key, keep).Some?
    ensures var k := LatestIndex(rows, key, keep).value;
      forall i :: k < i < |rows| ==> !keep(rows[i])
  {
    var k := LatestIndex(rows, key, keep).value;
    KeysOrdered(rows, key, next);
    forall i | k < i < |rows|
      ensures !keep(rows[i])
    {
      assert key(rows[k]) < key(rows[i]);
    }
  }

  /** Appending a row whose key is the next key keeps the invariant. */
  lemma AppendKeepsAscending<T>(rows: seq<T>, key: T -> int, next: int, row: T)
    requires KeysAscending(rows, key, next)
    requires key(row) == next
    ensures KeysAscending(rows + [row], key, next + 1)
  {
    assert (rows + [row])[..|rows|] == rows;
  }

  /** Replacing a row by one with the same key keeps the invariant. */
  lemma UpdateKeepsAscending<T>(rows: seq<T>, key: T -> int, next: int, i: nat, row: T)
    requires KeysAscending(rows, key, next)
    requires i < |rows| && key(row) == key(rows[i])
    ensures KeysAscending(rows[i := row], key, next)
  {
    SameKeysAscending(rows, rows[i := row], key, next);
  }
}
