/** Append-only tables whose rows carry a key and a timestamp, and the one query the code runs
    on them: the newest `limit` rows of a key. */
module Tables {

  datatype Row<V> = Row(key: string, at: int, value: V)

  /** The values stored under a key, in insertion order. */
  function Values<V>(table: seq<Row<V>>, key: string): seq<V> {
    if table == [] then []
    else
      var rest := Values(table[..|table| - 1], key);
      var last := table[|table| - 1];
      if last.key == key then rest + [last.value] else rest
  }

  function InsertNewest<V>(r: Row<V>, rows: seq<Row<V>>): seq<Row<V>> {
    if rows == [] || r.at > rows[0].at then [r] + rows
    else [rows[0]] + InsertNewest(r, rows[1..])
  }

  /** `WHERE key = ? ORDER BY timestamp DESC`. SQL leaves the order of equal timestamps open;
      here the older row goes first, and no theorem depends on that choice. */
  function NewestFirst<V>(table: seq<Row<V>>, key: string): seq<Row<V>> {
    if table == [] then []
    else
      var rest := NewestFirst(table[..|table| - 1], key);
      var last := table[|table| - 1];
      if last.key == key then InsertNewest(last, rest) else rest
  }

  /** `LIMIT limit` on the query above. */
  function Recent<V>(table: seq<Row<V>>, key: string, limit: nat): seq<Row<V>> {
    var rows := NewestFirst(table, key);
    if |rows| <= limit then rows else rows[..limit]
  }

  /** Rows of one key were appended with strictly increasing timestamps. */
  ghost predicate Chronological<V>(table: seq<Row<V>>) {
    forall i, j | 0 <= i < j < |table| && table[i].key == table[j].key :: table[i].at < table[j].at
  }

  lemma {:induction false} RowsComeFromTable<V>(table: seq<Row<V>>, key: string, r: Row<V>)
    requires r in NewestFirst(table, key)
    ensures r in table && r.key == key
  {
    var n := |table| - 1;
    if table[n].key == key {
      InsertKeeps(table[n], NewestFirst(table[..n], key));
    }
    if r != table[n] || table[n].key != key {
      RowsComeFromTable(table[..n], key, r);
    }
  }

  lemma InsertKeeps<V>(r: Row<V>, rows: seq<Row<V>>)
    ensures forall x :: x in InsertNewest(r, rows) <==> x == r || x in rows
  {
    if rows != [] && !(r.at > rows[0].at) {
      InsertKeeps(r, rows[1..]);
      assert rows == [rows[0]] + rows[1..];
    }
  }

  /** With increasing timestamps the query lists a key's values from last inserted to first. */
  lemma {:induction false} NewestFirstReverses<V>(table: seq<Row<V>>, key: string)
    requires Chronological(table)
    ensures |NewestFirst(table, key)| == |Values(table, key)|
    ensures forall i | 0 <= i < |Values(table, key)| ::
              NewestFirst(table, key)[i].value == Values(table, key)[|Values(table, key)| - 1 - i]
  {
    if table != [] {
      var n := |table| - 1;
      NewestFirstReverses(table[..n], key);
      if table[n].key == key {
        var rest := NewestFirst(table[..n], key);
        if rest != [] {
          RowsComeFromTable(table[..n], key, rest[0]);
          var i :| 0 <= i < n && table[i] == rest[0];
        }
        assert InsertNewest(table[n], rest) == [table[n]] + rest;
      }
    }
  }

  /** The `limit` newest rows hold exactly the last `limit` values inserted, newest first. */
  lemma RecentAreLast<V>(table: seq<Row<V>>, key: string, limit: nat)
    requires Chronological(table)
    ensures var vs := Values(table, key); var rs := Recent(table, key, limit);
            && |rs| == (if |vs| <= limit then |vs| else limit)
            && forall i | 0 <= i < |rs| :: rs[i].value == vs[|vs| - 1 - i]
  {
    NewestFirstReverses(table, key);
  }

  // ---------------------------------------------------------------- all keys together

  /** `ORDER BY timestamp DESC` without a key. */
  function AllNewestFirst<V>(table: seq<Row<V>>): seq<Row<V>> {
    if table == [] then [] else InsertNewest(table[|table| - 1], AllNewestFirst(table[..|table| - 1]))
  }

  function AllRecent<V>(table: seq<Row<V>>, limit: nat): seq<Row<V>> {
    var rows := AllNewestFirst(table);
    if |rows| <= limit then rows else rows[..limit]
  }

  ghost predicate Descending<V>(rows: seq<Row<V>>) {
    forall i, j | 0 <= i < j < |rows| :: rows[i].at >= rows[j].at
  }

  lemma {:induction false} InsertDescending<V>(r: Row<V>, rows: seq<Row<V>>)
    requires Descending(rows)
    ensures Descending(InsertNewest(r, rows))
  {
    if rows != [] && !(r.at > rows[0].at) {
      var tail := rows[1..];
      InsertDescending(r, tail);
      DescendingHead(rows);
      InsertBelow(r, tail, rows[0].at);
      DescendingCons(rows[0], InsertNewest(r, tail));
    }
  }

  lemma {:induction false} InsertBelow<V>(r: Row<V>, rows: seq<Row<V>>, bound: int)
    requires r.at <= bound && forall x | x in rows :: bound >= x.at
    ensures forall x | x in InsertNewest(r, rows) :: bound >= x.at
  {
    if rows != [] && !(r.at > rows[0].at) {
      assert rows == [rows[0]] + rows[1..];
      InsertBelow(r, rows[1..], bound);
    }
  }

  lemma DescendingHead<V>(rows: seq<Row<V>>)
    requires Descending(rows) && rows != []
    ensures forall x | x in rows[1..] :: rows[0].at >= x.at
  {
  }

  lemma DescendingCons<V>(r: Row<V>, rows: seq<Row<V>>)
    requires Descending(rows) && forall x | x in rows :: r.at >= x.at
    ensures Descending([r] + rows)
  {
    forall j | 0 <= j < |rows| ensures r.at >= rows[j].at { assert rows[j] in rows; }
  }

  lemma {:induction false} AllRows<V>(table: seq<Row<V>>)
    ensures Descending(AllNewestFirst(table))
    ensures forall r :: r in AllNewestFirst(table) <==> r in table
  {
    hide Descending;
    if table == [] {
      NothingDescends<V>();
    } else {
      var n := |table| - 1;
      AllRows(table[..n]);
      InsertDescending(table[n], AllNewestFirst(table[..n]));
      InsertKeeps(table[n], AllNewestFirst(table[..n]));
      assert table == table[..n] + [table[n]];
    }
  }

  lemma NothingDescends<V>()
    ensures Descending<V>([])
  {
  }

  /** Among the newest rows of the table, a key's newest row. */
  ghost predicate NewestOf<V>(rows: seq<Row<V>>, key: string, r: Row<V>) {
    r in rows && r.key == key && forall x | x in rows && x.key == key :: x.at <= r.at
  }

  /** The last row of a key, with its place. */
  lemma {:induction false} LastRow<V>(table: seq<Row<V>>, key: string) returns (i: nat)
    requires Values(table, key) != []
    ensures i < |table| && table[i].key == key && table[i].value == Values(table, key)[|Values(table, key)| - 1]
    ensures forall j | i < j < |table| :: table[j].key != key
  {
    i := |table| - 1;
    if table[i].key != key {
      i := LastRow(table[..i], key);
    }
  }

  lemma {:induction false} HasValues<V>(table: seq<Row<V>>, r: Row<V>)
    requires r in table
    ensures Values(table, r.key) != []
  {
    var n := |table| - 1;
    if table[n].key != r.key {
      assert table == table[..n] + [table[n]];
      HasValues(table[..n], r);
    }
  }

  /** The newest rows of the table include all that are newer than one of them. */
  lemma NewerToo<V>(table: seq<Row<V>>, limit: nat, r: Row<V>, x: Row<V>)
    requires r in AllRecent(table, limit) && x in table && x.at > r.at
    ensures x in AllRecent(table, limit)
  {
    hide AllNewestFirst;
    var all, window := AllNewestFirst(table), AllRecent(table, limit);
    AllRows(table);
    var i: nat :| i < |window| && window[i] == r;
    var p: nat :| p < |all| && all[p] == x;
    assert all[i] == r;
    assert window[p] == x;
  }

  lemma RecentInTable<V>(table: seq<Row<V>>, limit: nat, r: Row<V>)
    requires r in AllRecent(table, limit)
    ensures r in table
  {
    hide AllNewestFirst;
    AllRows(table);
    assert r in AllNewestFirst(table);
  }

  /** With increasing timestamps, a key's newest row among the table's newest is the key's last one. */
  lemma NewestIsLast<V>(table: seq<Row<V>>, key: string, limit: nat, r: Row<V>)
    requires Chronological(table) && NewestOf(AllRecent(table, limit), key, r)
    ensures Values(table, key) != [] && r.value == Values(table, key)[|Values(table, key)| - 1]
  {
    hide AllRecent, Values;
    RecentInTable(table, limit, r);
    HasValues(table, r);
    var k := LastRow(table, key);
    var j: nat :| j < |table| && table[j] == r;
    if j < k { NewerToo(table, limit, r, table[k]); }
  }

  // ---------------------------------------------------------------- which rows are among the newest

  /** The number of rows with a later timestamp. */
  function Newer<V>(rows: seq<Row<V>>, at: int): nat {
    if rows == [] then 0 else (if rows[0].at > at then 1 else 0) + Newer(rows[1..], at)
  }

  lemma {:induction false} NewerSnoc<V>(rows: seq<Row<V>>, r: Row<V>, at: int)
    ensures Newer(rows + [r], at) == Newer(rows, at) + if r.at > at then 1 else 0
  {
    if rows == [] {
      assert rows + [r] == [r];
    } else {
      assert (rows + [r])[1..] == rows[1..] + [r];
      NewerSnoc(rows[1..], r, at);
    }
  }

  lemma {:induction false} NewerInsert<V>(r: Row<V>, rows: seq<Row<V>>, at: int)
    ensures Newer(InsertNewest(r, rows), at) == Newer(rows, at) + if r.at > at then 1 else 0
    ensures |InsertNewest(r, rows)| == |rows| + 1
  {
    if rows == [] || r.at > rows[0].at {
      assert ([r] + rows)[1..] == rows;
    } else {
      NewerInsert(r, rows[1..], at);
      assert ([rows[0]] + InsertNewest(r, rows[1..]))[1..] == InsertNewest(r, rows[1..]);
    }
  }

  lemma {:induction false} NewerKept<V>(table: seq<Row<V>>, at: int)
    ensures Newer(AllNewestFirst(table), at) == Newer(table, at)
    ensures |AllNewestFirst(table)| == |table|
  {
    if table != [] {
      var n := |table| - 1;
      NewerKept(table[..n], at);
      NewerInsert(table[n], AllNewestFirst(table[..n]), at);
      NewerSnoc(table[..n], table[n], at);
      assert table == table[..n] + [table[n]];
    }
  }

  /** In descending order the newer rows come first. */
  lemma {:induction false} NewerFirst<V>(rows: seq<Row<V>>, at: int)
    requires Descending(rows)
    ensures Newer(rows, at) <= |rows|
    ensures forall i | 0 <= i < |rows| :: rows[i].at > at <==> i < Newer(rows, at)
  {
    if rows != [] {
      NewerFirst(rows[1..], at);
      forall i | 0 < i < |rows| ensures rows[i] == rows[1..][i - 1] && rows[0].at >= rows[i].at {
      }
    }
  }

  /** The query's rows: as many as there are, up to the limit; newest first; all of the table; none that as many as
      the limit are newer than; and all that at most as many as the limit are as new as. */
  lemma AllRecentAre<V>(table: seq<Row<V>>, limit: nat)
    ensures |AllRecent(table, limit)| == (if |table| <= limit then |table| else limit)
    ensures Descending(AllRecent(table, limit))
    ensures forall r | r in AllRecent(table, limit) :: r in table && Newer(table, r.at) < limit
    ensures forall r | r in table && Newer(table, r.at - 1) <= limit :: r in AllRecent(table, limit)
  {
    hide AllNewestFirst, Newer;
    var all := AllNewestFirst(table);
    AllRows(table);
    NewerKept(table, 0);
    forall r | r in AllRecent(table, limit) ensures r in table && Newer(table, r.at) < limit {
      var i :| 0 <= i < |AllRecent(table, limit)| && AllRecent(table, limit)[i] == r;
      assert all[i] == r;
      RecentInTable(table, limit, r);
      NewerKept(table, r.at);
      NewerFirst(all, r.at);
      assert !(all[i].at > r.at) && i >= Newer(all, r.at);
    }
    forall r | r in table && Newer(table, r.at - 1) <= limit ensures r in AllRecent(table, limit) {
      var i :| 0 <= i < |all| && all[i] == r;
      NewerKept(table, r.at - 1);
      NewerFirst(all, r.at - 1);
      assert AllRecent(table, limit)[i] == r;
    }
  }
}
