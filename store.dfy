/** The incremental store: `concat_and_filter_unique_values` concatenates the persisted
    rows with a page's new rows and drops every row whose key (its cells on the FIRST
    table's columns) equals the key of an earlier row; pandas' `drop_duplicates` keeps
    the first occurrence and counts NaN equal to NaN. */
module Store {

  /** A table cell as pandas holds it: a string or a missing value (NaN). */
  datatype Cell = Str(s: string) | NaN

  /** A row maps column names to cells; a column the row lacks reads as NaN, as it does
      after `pd.concat` aligns tables with different columns. */
  type Row = map<string, Cell>

  datatype Table = Table(columns: seq<string>, rows: seq<Row>)

  /** Some row of `rows` has key `k`. */
  predicate KeySeen<R, K(==)>(rows: seq<R>, key: R -> K, k: K) {
    exists j :: 0 <= j < |rows| && key(rows[j]) == k
  }

  predicate DistinctKeys<R, K(==)>(rows: seq<R>, key: R -> K) {
    forall i, j :: 0 <= i < j < |rows| ==> key(rows[i]) != key(rows[j])
  }

  /** `drop_duplicates(keep="first")`: a row survives iff no earlier row has its key. */
  function Dedup<R, K(==)>(rows: seq<R>, key: R -> K): (r: seq<R>)
    ensures |r| <= |rows|
    ensures forall x :: x in r ==> x in rows
    decreases |rows|
  {
    if rows == [] then []
    else
      var init := rows[..|rows| - 1];
      var last := rows[|rows| - 1];
      if KeySeen(init, key, key(last)) then Dedup(init, key) else Dedup(init, key) + [last]
  }

  predicate NoDuplicates<T(==)>(s: seq<T>) {
    forall i, j :: 0 <= i < j < |s| ==> s[i] != s[j]
  }

  /** Merging persisted rows `stored` with new rows `incoming` when the persisted schema covers the
      whole row, so that the dedup key is the row itself. */
  function MergeRows<R(==)>(stored: seq<R>, incoming: seq<R>): seq<R> {
    Dedup(stored + incoming, (r: R) => r)
  }

  function At(row: Row, c: string): Cell {
    if c in row then row[c] else NaN
  }

  /** The cells of `row` on `cols`: the `subset=` key of `drop_duplicates`. */
  function Project(row: Row, cols: seq<string>): seq<Cell> {
    seq(|cols|, i requires 0 <= i < |cols| => At(row, cols[i]))
  }

  /** Columns of `b` that `a` does not have, in `b`'s order (the outer join of `pd.concat`). */
  function ExtraColumns(a: seq<string>, b: seq<string>): (r: seq<string>)
    ensures forall c :: c in r <==> c in b && c !in a
  {
    if b == [] then []
    else (if b[0] in a || b[0] in b[1..] then [] else [b[0]]) + ExtraColumns(a, b[1..])
  }

  /** `concat_and_filter_unique_values(df1, df2)` */
  function ConcatAndFilterUniqueValues(df1: Table, df2: Table): (r: Table)
    ensures forall c :: c in r.columns <==> c in df1.columns || c in df2.columns
    ensures df1.columns <= r.columns
    ensures forall x :: x in r.rows ==> x in df1.rows || x in df2.rows
  {
    Table(df1.columns + ExtraColumns(df1.columns, df2.columns),
          Dedup(df1.rows + df2.rows, (row: Row) => Project(row, df1.columns)))
  }

  // ---------------------------------------------------------------------------
  // Properties of Dedup

  lemma {:induction false} DedupDistinct<R, K>(rows: seq<R>, key: R -> K)
    ensures DistinctKeys(Dedup(rows, key), key)
    decreases |rows|
  {
    if rows != [] {
      var init := rows[..|rows| - 1];
      var last := rows[|rows| - 1];
      DedupDistinct(init, key);
      if !KeySeen(init, key, key(last)) {
        var d := Dedup(init, key);
        forall i | 0 <= i < |d|
          ensures key(d[i]) != key(last)
        {
          assert d[i] in init;
          var j :| 0 <= j < |init| && init[j] == d[i];
        }
      }
    }
  }

  /** Every input row has a row with the same key in the result. */
  lemma {:induction false} DedupCovers<R, K>(rows: seq<R>, key: R -> K)
    ensures forall x :: x in rows ==> KeySeen(Dedup(rows, key), key, key(x))
    decreases |rows|
  {
    if rows != [] {
      var init := rows[..|rows| - 1];
      var last := rows[|rows| - 1];
      var d := Dedup(rows, key);
      DedupCovers(init, key);
      assert Dedup(init, key) <= d;
      forall x | x in rows
        ensures KeySeen(d, key, key(x))
      {
        if x in init {
          var j :| 0 <= j < |Dedup(init, key)| && key(Dedup(init, key)[j]) == key(x);
          assert d[j] == Dedup(init, key)[j];
        } else {
          assert x == last;
          if KeySeen(init, key, key(last)) {
            var i :| 0 <= i < |init| && key(init[i]) == key(last);
            var j :| 0 <= j < |Dedup(init, key)| && key(Dedup(init, key)[j]) == key(init[i]);
            assert d[j] == Dedup(init, key)[j];
          } else {
            assert d[|d| - 1] == last;
          }
        }
      }
    }
  }

  /** The first row with a given key is the one kept. */
  lemma {:induction false} DedupKeepsFirst<R, K>(rows: seq<R>, key: R -> K, i: nat)
    requires i < |rows|
    requires !KeySeen(rows[..i], key, key(rows[i]))
    ensures rows[i] in Dedup(rows, key)
    decreases |rows|
  {
    var init := rows[..|rows| - 1];
    if i < |rows| - 1 {
      assert init[..i] == rows[..i];
      DedupKeepsFirst(init, key, i);
      assert Dedup(init, key) <= Dedup(rows, key);
    } else {
      assert rows[..i] == init;
    }
  }

  /** Rows whose keys are already distinct come through unchanged. */
  lemma {:induction false} DedupOfDistinct<R, K>(rows: seq<R>, key: R -> K)
    requires DistinctKeys(rows, key)
    ensures Dedup(rows, key) == rows
    decreases |rows|
  {
    if rows != [] {
      var init := rows[..|rows| - 1];
      DedupOfDistinct(init, key);
      assert !KeySeen(init, key, key(rows[|rows| - 1]));
      assert init + [rows[|rows| - 1]] == rows;
    }
  }

  /** Appending rows whose keys all occur in `a` changes nothing. */
  lemma {:induction false} DedupAppendSeen<R, K>(a: seq<R>, b: seq<R>, key: R -> K)
    requires forall x :: x in b ==> KeySeen(a, key, key(x))
    ensures Dedup(a + b, key) == Dedup(a, key)
    decreases |b|
  {
    if b == [] {
      assert a + b == a;
    } else {
      var b' := b[..|b| - 1];
      var last := b[|b| - 1];
      assert (a + b)[..|a + b| - 1] == a + b';
      assert (a + b)[|a + b| - 1] == last;
      DedupAppendSeen(a, b', key);
      var j :| 0 <= j < |a| && key(a[j]) == key(last);
      assert (a + b')[j] == a[j];
    }
  }

  /** The deduplicated old rows are a prefix of the merge: old rows first, then new. */
  lemma {:induction false} DedupPrefix<R, K>(a: seq<R>, b: seq<R>, key: R -> K)
    ensures Dedup(a, key) <= Dedup(a + b, key)
    decreases |b|
  {
    if b == [] {
      assert a + b == a;
    } else {
      var b' := b[..|b| - 1];
      assert (a + b)[..|a + b| - 1] == a + b';
      DedupPrefix(a, b', key);
    }
  }

  lemma DedupIdempotent<R, K>(rows: seq<R>, key: R -> K)
    ensures Dedup(Dedup(rows, key), key) == Dedup(rows, key)
  {
    DedupDistinct(rows, key);
    DedupOfDistinct(Dedup(rows, key), key);
  }

  /** Merging the same new rows a second time leaves the merged rows unchanged. */
  lemma MergeIdempotent<R, K>(a: seq<R>, b: seq<R>, key: R -> K)
    ensures Dedup(Dedup(a + b, key) + b, key) == Dedup(a + b, key)
  {
    var m := Dedup(a + b, key);
    DedupCovers(a + b, key);
    assert forall x :: x in b ==> x in a + b;
    DedupAppendSeen(m, b, key);
    DedupIdempotent(a + b, key);
  }

  lemma {:induction false} NoExtraColumns(a: seq<string>, b: seq<string>)
    requires forall c :: c in b ==> c in a
    ensures ExtraColumns(a, b) == []
  {
    if b != [] {
      NoExtraColumns(a, b[1..]);
    }
  }

  /** Table-level idempotence, when the new rows bring no column the store lacks. */
  lemma TableMergeIdempotent(df1: Table, df2: Table)
    requires forall c :: c in df2.columns ==> c in df1.columns
    ensures ConcatAndFilterUniqueValues(ConcatAndFilterUniqueValues(df1, df2), df2)
            == ConcatAndFilterUniqueValues(df1, df2)
  {
    var m := ConcatAndFilterUniqueValues(df1, df2);
    NoExtraColumns(df1.columns, df2.columns);
    assert m.columns == df1.columns;
    MergeIdempotent(df1.rows, df2.rows, (row: Row) => Project(row, df1.columns));
  }

  /** No two merged rows agree on the first table's columns, and every row of either
      input has a merged row that agrees with it there. */
  lemma TableMergeKeys(df1: Table, df2: Table)
    ensures var m := ConcatAndFilterUniqueValues(df1, df2);
      && (forall i, j :: 0 <= i < j < |m.rows| ==> Project(m.rows[i], df1.columns) != Project(m.rows[j], df1.columns))
      && (forall x :: x in df1.rows + df2.rows ==>
            exists y :: y in m.rows && Project(y, df1.columns) == Project(x, df1.columns))
  {
    var key := (row: Row) => Project(row, df1.columns);
    DedupDistinct(df1.rows + df2.rows, key);
    DedupCovers(df1.rows + df2.rows, key);
    var m := ConcatAndFilterUniqueValues(df1, df2);
    forall x | x in df1.rows + df2.rows
      ensures exists y :: y in m.rows && Project(y, df1.columns) == Project(x, df1.columns)
    {
      var j :| 0 <= j < |m.rows| && key(m.rows[j]) == key(x);
      assert m.rows[j] in m.rows;
    }
  }

  /** A whole-row merge holds no row twice, keeps the persisted rows (when they hold no
      row twice) in front, and loses no row of either input. */
  lemma MergeRowsProperties<R>(stored: seq<R>, incoming: seq<R>)
    ensures NoDuplicates(MergeRows(stored, incoming))
    ensures NoDuplicates(stored) ==> stored <= MergeRows(stored, incoming)
    ensures forall x :: x in MergeRows(stored, incoming) <==> x in stored || x in incoming
  {
    var key := (r: R) => r;
    var m := MergeRows(stored, incoming);
    DedupDistinct(stored + incoming, key);
    DedupCovers(stored + incoming, key);
    DedupPrefix(stored, incoming, key);
    if NoDuplicates(stored) {
      DedupOfDistinct(stored, key);
    }
    forall x | x in stored || x in incoming
      ensures x in m
    {
      assert x in stored + incoming;
      var j :| 0 <= j < |m| && key(m[j]) == key(x);
    }
  }
}
