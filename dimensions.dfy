/**
 * The dimension load: `drop_duplicates()` on the natural-key columns, then
 * `INSERT OR IGNORE` of the remaining rows into a table whose natural key is
 * UNIQUE and whose surrogate key is handed out in insertion order.
 *
 * `FirstByKey` is the functional reference: the first row for each key not
 * yet present, in input order. `Table` is the table itself, updated in place.
 */
module Dimensions {
  import opened Picks

  /** The keys of a sequence of rows. */
  ghost function KeysOf<R, K>(keyOf: R -> K, rs: seq<R>): set<K> {
    set i | 0 <= i < |rs| :: keyOf(rs[i])
  }

  lemma KeysOfCons<R, K>(keyOf: R -> K, rs: seq<R>)
    requires rs != []
    ensures KeysOf(keyOf, rs) == {keyOf(rs[0])} + KeysOf(keyOf, rs[1..])
  {
    forall k | k in KeysOf(keyOf, rs)
      ensures k in {keyOf(rs[0])} + KeysOf(keyOf, rs[1..])
    {
      var i :| 0 <= i < |rs| && keyOf(rs[i]) == k;
      if i > 0 {
        assert rs[1..][i - 1] == rs[i];
      }
    }
    forall k | k in KeysOf(keyOf, rs[1..])
      ensures k in KeysOf(keyOf, rs)
    {
      var i :| 0 <= i < |rs| - 1 && keyOf(rs[1..][i]) == k;
      assert rs[i + 1] == rs[1..][i];
    }
  }

  lemma KeysOfSnoc<R, K>(keyOf: R -> K, rs: seq<R>, x: R)
    ensures KeysOf(keyOf, rs + [x]) == KeysOf(keyOf, rs) + {keyOf(x)}
  {
    var s := rs + [x];
    forall k | k in KeysOf(keyOf, s)
      ensures k in KeysOf(keyOf, rs) + {keyOf(x)}
    {
      var i :| 0 <= i < |s| && keyOf(s[i]) == k;
      if i < |rs| {
        assert s[i] == rs[i];
      }
    }
    forall k | k in KeysOf(keyOf, rs)
      ensures k in KeysOf(keyOf, s)
    {
      var i :| 0 <= i < |rs| && keyOf(rs[i]) == k;
      assert s[i] == rs[i];
    }
    assert s[|rs|] == x;
  }

  lemma KeysOfPrefix<R, K>(keyOf: R -> K, rs: seq<R>, i: nat)
    requires i < |rs|
    ensures KeysOf(keyOf, rs[..i + 1]) == KeysOf(keyOf, rs[..i]) + {keyOf(rs[i])}
  {
    assert rs[..i + 1] == rs[..i] + [rs[i]];
    KeysOfSnoc(keyOf, rs[..i], rs[i]);
  }

  /** No two rows share a key. */
  ghost predicate UniqueKeys<R, K>(keyOf: R -> K, rs: seq<R>) {
    forall i, j :: 0 <= i < j < |rs| ==> keyOf(rs[i]) != keyOf(rs[j])
  }

  /** The first row for each key outside `seen`, in input order: what
      inserting `rs` one by one with "insert or ignore" adds to a table that
      already holds the keys `seen`. */
  function FirstByKey<R, K(==)>(keyOf: R -> K, seen: set<K>, rs: seq<R>): (r: seq<R>)
    decreases |rs|
    ensures |r| <= |rs|
    ensures forall i :: 0 <= i < |r| ==> r[i] in rs && keyOf(r[i]) !in seen
    ensures UniqueKeys(keyOf, r)
    ensures KeysOf(keyOf, r) == KeysOf(keyOf, rs) - seen
  {
    if rs == [] then []
    else
      var k := keyOf(rs[0]);
      var rest := FirstByKey(keyOf, if k in seen then seen else seen + {k}, rs[1..]);
      KeysOfCons(keyOf, rs);
      if k in seen then rest
      else
        assert ([rs[0]] + rest)[1..] == rest;
        KeysOfCons(keyOf, [rs[0]] + rest);
        [rs[0]] + rest
  }

  /** One step of `FirstByKey`: the first row is kept exactly when its key
      is new. */
  lemma FirstByKeyCons<R, K>(keyOf: R -> K, seen: set<K>, rs: seq<R>)
    requires rs != []
    ensures FirstByKey(keyOf, seen, rs) ==
      if keyOf(rs[0]) in seen then FirstByKey(keyOf, seen, rs[1..])
      else [rs[0]] + FirstByKey(keyOf, seen + {keyOf(rs[0])}, rs[1..])
  {
  }

  /** A row at position `i` is the first of its key and its key is not in
      `seen`: the rows "insert or ignore" adds. */
  ghost predicate FirstNew<R, K>(keyOf: R -> K, seen: set<K>, rs: seq<R>, i: nat)
    requires i < |rs|
  {
    keyOf(rs[i]) !in seen && forall j :: 0 <= j < i ==> keyOf(rs[j]) != keyOf(rs[i])
  }

  /** `r` is the rows of `rs` at the positions `idx`, in order, and those
      positions are exactly the rows that are the first of a key not in
      `seen`. */
  ghost predicate FirstNewPicks<R, K>(keyOf: R -> K, seen: set<K>, rs: seq<R>, r: seq<R>, idx: seq<nat>) {
    && Increasing(idx, |rs|) && |idx| == |r|
    && (forall k :: 0 <= k < |idx| ==> r[k] == rs[idx[k]] && FirstNew(keyOf, seen, rs, idx[k]))
    && (forall i :: 0 <= i < |rs| && FirstNew(keyOf, seen, rs, i) ==> i in idx)
  }

  /** `FirstByKey` keeps exactly the rows that are the first of a key not in
      `seen`, each once and in input order. */
  lemma {:induction false} FirstByKeyPicks<R, K>(keyOf: R -> K, seen: set<K>, rs: seq<R>) returns (idx: seq<nat>)
    decreases |rs|
    ensures FirstNewPicks(keyOf, seen, rs, FirstByKey(keyOf, seen, rs), idx)
  {
    if rs == [] {
      return [];
    }
    var seen' := seen + {keyOf(rs[0])};
    var rest := FirstByKeyPicks(keyOf, seen', rs[1..]);
    FirstByKeyCons(keyOf, seen, rs);
    if keyOf(rs[0]) in seen {
      assert seen' == seen;
    }
    idx := FirstNewStep(keyOf, seen, rs, FirstByKey(keyOf, seen', rs[1..]), rest);
  }

  /** One step of `FirstByKeyPicks`: from the picks of the tail, with the
      first key now seen, to the picks of the whole sequence. */
  lemma FirstNewStep<R, K>(keyOf: R -> K, seen: set<K>, rs: seq<R>, kept: seq<R>, rest: seq<nat>) returns (idx: seq<nat>)
    requires rs != []
    requires FirstNewPicks(keyOf, seen + {keyOf(rs[0])}, rs[1..], kept, rest)
    ensures FirstNewPicks(keyOf, seen, rs, if keyOf(rs[0]) in seen then kept else [rs[0]] + kept, idx)
  {
    var tail := Shift(rest);
    PicksOfTail(keyOf, seen, seen + {keyOf(rs[0])}, rs, kept, rest);
    ShiftIncreasing(rest, |rs| - 1);
    if keyOf(rs[0]) in seen {
      idx := tail;
      forall i | 0 <= i < |rs| && FirstNew(keyOf, seen, rs, i)
        ensures i in idx
      {
        assert i != 0;
      }
    } else {
      idx := [0] + tail;
      FirstNewHead(keyOf, seen, rs, kept, tail);
    }
  }

  /** The first row's key is new: its position goes in front of the
      tail's. */
  lemma FirstNewHead<R, K>(keyOf: R -> K, seen: set<K>, rs: seq<R>, kept: seq<R>, tail: seq<nat>)
    requires rs != [] && keyOf(rs[0]) !in seen
    requires Increasing([0] + tail, |rs|) && |tail| == |kept|
    requires forall m :: 0 <= m < |tail| ==> tail[m] < |rs| && kept[m] == rs[tail[m]] && FirstNew(keyOf, seen, rs, tail[m])
    requires forall i :: 1 <= i < |rs| && FirstNew(keyOf, seen, rs, i) ==> i in tail
    ensures FirstNewPicks(keyOf, seen, rs, [rs[0]] + kept, [0] + tail)
  {
    var idx, r := [0] + tail, [rs[0]] + kept;
    forall k | 0 <= k < |r|
      ensures r[k] == rs[idx[k]] && FirstNew(keyOf, seen, rs, idx[k])
    {
      if k > 0 {
        assert idx[k] == tail[k - 1] && r[k] == kept[k - 1];
      }
    }
  }

  /** The rows picked from the tail of `rs`, once the first key is in
      `seen'`, are picked from `rs` one position further on. */
  lemma PicksOfTail<R, K>(keyOf: R -> K, seen: set<K>, seen': set<K>, rs: seq<R>, kept: seq<R>, rest: seq<nat>)
    requires rs != [] && seen' == seen + {keyOf(rs[0])}
    requires Increasing(rest, |rs| - 1) && |rest| == |kept|
    requires forall k :: 0 <= k < |rest| ==> kept[k] == rs[1..][rest[k]] && FirstNew(keyOf, seen', rs[1..], rest[k])
    requires forall i :: 0 <= i < |rs| - 1 && FirstNew(keyOf, seen', rs[1..], i) ==> i in rest
    ensures forall m :: 0 <= m < |rest| ==> kept[m] == rs[Shift(rest)[m]] && FirstNew(keyOf, seen, rs, Shift(rest)[m])
    ensures forall i :: 1 <= i < |rs| && FirstNew(keyOf, seen, rs, i) ==> i in Shift(rest)
  {
    var tl := rs[1..];
    var tail := Shift(rest);
    forall m | 0 <= m < |rest|
      ensures kept[m] == rs[tail[m]] && FirstNew(keyOf, seen, rs, tail[m])
    {
      assert tl[rest[m]] == rs[tail[m]];
      forall j | 0 <= j < tail[m]
        ensures keyOf(rs[j]) != keyOf(rs[tail[m]])
      {
        if j > 0 {
          assert tl[j - 1] == rs[j];
        }
      }
    }
    forall i | 1 <= i < |rs| && FirstNew(keyOf, seen, rs, i)
      ensures i in tail
    {
      assert tl[i - 1] == rs[i];
      assert FirstNew(keyOf, seen', tl, i - 1) by {
        forall j | 0 <= j < i - 1
          ensures keyOf(tl[j]) != keyOf(tl[i - 1])
        {
          assert tl[j] == rs[j + 1];
        }
      }
      var m :| 0 <= m < |rest| && rest[m] == i - 1;
      assert tail[m] == i;
    }
  }

  /** One row of an "insert or ignore" pass, as the loop in
      `Table.InsertAll` sees it. */
  lemma InsertStep<R, K>(keyOf: R -> K, rows: seq<R>, keys: set<K>, tmp: seq<R>, i: nat)
    requires i < |tmp|
    ensures rows + FirstByKey(keyOf, keys, tmp[i..]) ==
      (if keyOf(tmp[i]) in keys then rows else rows + [tmp[i]]) + FirstByKey(keyOf, keys + {keyOf(tmp[i])}, tmp[i + 1..])
  {
    var t := tmp[i..];
    assert t[0] == tmp[i] && t[1..] == tmp[i + 1..];
    FirstByKeyCons(keyOf, keys, t);
    if keyOf(tmp[i]) in keys {
      assert keys + {keyOf(tmp[i])} == keys;
    } else {
      var x := FirstByKey(keyOf, keys + {keyOf(tmp[i])}, tmp[i + 1..]);
      assert rows + ([tmp[i]] + x) == rows + [tmp[i]] + x;
    }
  }

  /** A row as its own key: `drop_duplicates()` compares whole rows, and a
      table whose UNIQUE constraint spans every column it loads is keyed by
      the whole row. */
  function WholeRow<R>(x: R): R {
    x
  }

  /** `drop_duplicates()`: the first occurrence of each distinct row. */
  function Distinct<R(==)>(rs: seq<R>): (r: seq<R>)
    ensures forall i, j :: 0 <= i < j < |r| ==> r[i] != r[j]
    ensures forall i :: 0 <= i < |r| ==> r[i] in rs
    ensures forall i :: 0 <= i < |rs| ==> rs[i] in r
  {
    var d := FirstByKey(WholeRow, {}, rs);
    forall i | 0 <= i < |rs|
      ensures rs[i] in d
    {
      assert WholeRow(rs[i]) in KeysOf(WholeRow, rs);
      assert rs[i] in KeysOf(WholeRow, d);
    }
    d
  }

  /** Deduplicating first is redundant: inserting the distinct rows with
      "insert or ignore" keeps exactly the rows that inserting all of them
      would, whenever every row already dropped has its key in the table. */
  lemma {:induction false} DedupThenInsert<R, K>(keyOf: R -> K, seen: set<K>, dropped: set<R>, rs: seq<R>)
    requires forall t :: t in dropped ==> keyOf(t) in seen
    decreases |rs|
    ensures FirstByKey(keyOf, seen, FirstByKey(WholeRow, dropped, rs)) == FirstByKey(keyOf, seen, rs)
  {
    if rs != [] {
      var r := rs[0];
      var k := keyOf(r);
      if r in dropped {
        DedupThenInsert(keyOf, seen, dropped, rs[1..]);
      } else {
        var inner := FirstByKey(WholeRow, dropped + {r}, rs[1..]);
        assert FirstByKey(WholeRow, dropped, rs) == [r] + inner;
        assert ([r] + inner)[1..] == inner;
        if k in seen {
          DedupThenInsert(keyOf, seen, dropped + {r}, rs[1..]);
        } else {
          DedupThenInsert(keyOf, seen + {k}, dropped + {r}, rs[1..]);
        }
      }
    }
  }

  /** Loading the deduplicated rows loads what loading all rows would. */
  lemma DistinctThenLoad<R, K>(keyOf: R -> K, rs: seq<R>)
    ensures FirstByKey(keyOf, {}, Distinct(rs)) == FirstByKey(keyOf, {}, rs)
  {
    DedupThenInsert(keyOf, {}, {}, rs);
  }

  /** Rows whose keys are pairwise different and none of them held already
      are all inserted: "insert or ignore" ignores none of them. */
  lemma {:induction false} NoneIgnored<R, K>(keyOf: R -> K, seen: set<K>, rs: seq<R>)
    requires UniqueKeys(keyOf, rs)
    requires forall i :: 0 <= i < |rs| ==> keyOf(rs[i]) !in seen
    decreases |rs|
    ensures FirstByKey(keyOf, seen, rs) == rs
  {
    if rs != [] {
      var rest := rs[1..];
      var seen' := seen + {keyOf(rs[0])};
      forall i | 0 <= i < |rest|
        ensures keyOf(rest[i]) !in seen'
      {
        assert rest[i] == rs[i + 1];
      }
      assert UniqueKeys(keyOf, rest) by {
        forall i, j | 0 <= i < j < |rest|
          ensures keyOf(rest[i]) != keyOf(rest[j])
        {
          assert rest[i] == rs[i + 1] && rest[j] == rs[j + 1];
        }
      }
      NoneIgnored(keyOf, seen', rest);
      FirstByKeyCons(keyOf, seen, rs);
      assert [rs[0]] + rest == rs;
    }
  }

  /** Rows with pairwise different keys have as many keys as rows. */
  lemma {:induction false} UniqueKeysCount<R, K>(keyOf: R -> K, rs: seq<R>)
    requires UniqueKeys(keyOf, rs)
    ensures |KeysOf(keyOf, rs)| == |rs|
  {
    if rs != [] {
      var rest := rs[1..];
      assert UniqueKeys(keyOf, rest) by {
        forall i, j | 0 <= i < j < |rest|
          ensures keyOf(rest[i]) != keyOf(rest[j])
        {
          assert rest[i] == rs[i + 1] && rest[j] == rs[j + 1];
        }
      }
      UniqueKeysCount(keyOf, rest);
      assert KeysOf(keyOf, rs) == {keyOf(rs[0])} + KeysOf(keyOf, rest);
      assert keyOf(rs[0]) !in KeysOf(keyOf, rest);
    }
  }

  /** A dimension loaded into an empty table holds one row per distinct
      natural key of its input: no key twice, none missing, none invented. */
  lemma OnePerKey<R, K>(keyOf: R -> K, rs: seq<R>)
    ensures var d := FirstByKey(keyOf, {}, rs);
      UniqueKeys(keyOf, d) && KeysOf(keyOf, d) == KeysOf(keyOf, rs) && |d| == |KeysOf(keyOf, rs)|
  {
    UniqueKeysCount(keyOf, FirstByKey(keyOf, {}, rs));
  }

  /** The rows of a table as a frame, each with its surrogate key: the
      rows in insertion order under positive, strictly increasing surrogate
      keys that never exceed the number of rows, as `AUTOINCREMENT` numbers
      the rows of a table created empty. */
  function Enumerate<R>(rs: seq<R>): (r: seq<(R, nat)>)
    ensures |r| == |rs|
    ensures forall i :: 0 <= i < |r| ==> r[i].0 == rs[i] && 1 <= r[i].1 <= |r|
    ensures forall i, j :: 0 <= i < j < |r| ==> r[i].1 < r[j].1
  {
    seq(|rs|, i requires 0 <= i < |rs| => (rs[i], i + 1))
  }

  /** `index` maps the key of row `i` to the surrogate key `i + 1`, and
      holds no key that is not a row's. */
  ghost predicate Indexed<R, K>(keyOf: R -> K, rows: seq<R>, index: map<K, nat>) {
    && (forall i :: 0 <= i < |rows| ==> keyOf(rows[i]) in index && index[keyOf(rows[i])] == i + 1)
    && (forall k :: k in index ==> exists i :: 0 <= i < |rows| && keyOf(rows[i]) == k)
  }

  /** Appending a row with a new key under the next surrogate key keeps the
      index exact. */
  lemma AppendIndexed<R, K>(keyOf: R -> K, rows: seq<R>, index: map<K, nat>, row: R)
    requires Indexed(keyOf, rows, index) && keyOf(row) !in index
    ensures Indexed(keyOf, rows + [row], index[keyOf(row) := |rows| + 1])
  {
    var k := keyOf(row);
    var rows', index' := rows + [row], index[k := |rows| + 1];
    forall i | 0 <= i < |rows'|
      ensures keyOf(rows'[i]) in index' && index'[keyOf(rows'[i])] == i + 1
    {
      if i < |rows| {
        assert rows'[i] == rows[i];
      }
    }
    forall k' | k' in index'
      ensures exists i :: 0 <= i < |rows'| && keyOf(rows'[i]) == k'
    {
      if k' == k {
        assert rows'[|rows|] == row;
      } else {
        var i :| 0 <= i < |rows| && keyOf(rows[i]) == k';
        assert rows'[i] == rows[i];
      }
    }
  }

  /** A dimension table: rows in insertion order, the `AUTOINCREMENT`
      surrogate key of row `i` being `i + 1` (the table is created empty at
      the start of each run), and the UNIQUE index from natural key to
      surrogate key. */
  class Table<R, K(==)> {
    const keyOf: R -> K
    var rows: seq<R>
    var index: map<K, nat>

    ghost predicate Valid()
      reads this
    {
      Indexed(keyOf, rows, index)
    }

    /** `CREATE TABLE`: an empty table. */
    constructor (keyOf: R -> K)
      ensures Valid()
      ensures this.keyOf == keyOf && rows == [] && index == map[]
    {
      this.keyOf := keyOf;
      rows := [];
      index := map[];
    }

    /** `INSERT OR IGNORE` of one row: a row whose natural key is present is
        ignored, so that key keeps its surrogate; otherwise the row is
        appended under the next surrogate key. */
    method InsertOrIgnore(row: R)
      requires Valid()
      modifies this
      ensures Valid()
      ensures index.Keys == old(index).Keys + {keyOf(row)}
      ensures keyOf(row) in old(index) ==> rows == old(rows) && index == old(index)
      ensures keyOf(row) !in old(index) ==>
        rows == old(rows) + [row] && index == old(index)[keyOf(row) := |old(rows)| + 1]
    {
      var k := keyOf(row);
      if k !in index {
        AppendIndexed(keyOf, rows, index, row);
        index := index[k := |rows| + 1];
        rows := rows + [row];
      }
    }

    /** `INSERT OR IGNORE INTO dim SELECT … FROM tmp`: the rows of `tmp` in
        order. The table gains exactly the first row for each key it did not
        hold, and every key it held keeps its surrogate. */
    method InsertAll(tmp: seq<R>)
      requires Valid()
      modifies this
      ensures Valid()
      ensures rows == old(rows) + FirstByKey(keyOf, old(index).Keys, tmp)
      ensures index.Keys == old(index).Keys + KeysOf(keyOf, tmp)
      ensures forall k :: k in old(index) ==> index[k] == old(index)[k]
    {
      var i := 0;
      assert KeysOf(keyOf, tmp[..0]) == {};
      while i < |tmp|
        invariant 0 <= i <= |tmp|
        invariant Valid()
        invariant old(rows) + FirstByKey(keyOf, old(index).Keys, tmp) == rows + FirstByKey(keyOf, index.Keys, tmp[i..])
        invariant index.Keys == old(index).Keys + KeysOf(keyOf, tmp[..i])
        invariant forall k :: k in old(index) ==> k in index && index[k] == old(index)[k]
      {
        InsertStep(keyOf, rows, index.Keys, tmp, i);
        KeysOfPrefix(keyOf, tmp, i);
        InsertOrIgnore(tmp[i]);
        i := i + 1;
      }
      assert tmp[..i] == tmp;
      assert tmp[i..] == [];
    }

    /** `SELECT key, natural key FROM dim`: the table as it is read back,
        each row with the surrogate key its UNIQUE index holds. */
    function Published(): (r: seq<(R, nat)>)
      requires Valid()
      reads this
      ensures |r| == |rows|
      ensures forall i :: 0 <= i < |rows| ==> r[i] == (rows[i], index[keyOf(rows[i])])
    {
      Enumerate(rows)
    }
  }

  /** A valid table holds one row per natural key and one natural key per
      surrogate key: the UNIQUE constraint and the primary key both hold, and
      the surrogate keys are exactly 1 up to the number of rows. */
  lemma ValidTableKeys<R, K>(t: Table<R, K>)
    requires t.Valid()
    ensures UniqueKeys(t.keyOf, t.rows)
    ensures t.index.Keys == KeysOf(t.keyOf, t.rows)
    ensures forall n :: n in t.index.Values <==> 1 <= n <= |t.rows|
    ensures forall a, b :: a in t.index && b in t.index && t.index[a] == t.index[b] ==> a == b
  {
    forall n | 1 <= n <= |t.rows|
      ensures n in t.index.Values
    {
      assert t.index[t.keyOf(t.rows[n - 1])] == n;
    }
    forall a, b | a in t.index && b in t.index && t.index[a] == t.index[b]
      ensures a == b
    {
      var i :| 0 <= i < |t.rows| && t.keyOf(t.rows[i]) == a;
      var j :| 0 <= j < |t.rows| && t.keyOf(t.rows[j]) == b;
    }
  }
}
