/**
 * create_correlation_df: turns a dictionary of per-period correlations into
 * a two-column table, one row per entry, in the dictionary's iteration order.
 */
module CorrelationTable {

  /** A Python dict: its keys in insertion (iteration) order, and its entries. */
  datatype Dict<K, V> = Dict(order: seq<K>, entries: map<K, V>)

  ghost predicate Distinct<K>(s: seq<K>)
  {
    forall i, j :: 0 <= i < j < |s| ==> s[i] != s[j]
  }

  /** Every key appears once in the iteration order, and the order lists exactly the keys. */
  ghost predicate ValidDict<K, V>(d: Dict<K, V>)
  {
    Distinct(d.order) && d.entries.Keys == set k | k in d.order
  }

  /** `list(d.items())`. */
  function Items<K, V>(d: Dict<K, V>): (items: seq<(K, V)>)
    requires ValidDict(d)
  {
    seq(|d.order|, i requires 0 <= i < |d.order| => (d.order[i], d.entries[d.order[i]]))
  }

  datatype TableRow<K, V> = TableRow(key: K, value: V)

  /** A table with named columns; a row's index label is its position. */
  datatype Table<K, V> = Table(columns: seq<string>, rows: seq<TableRow<K, V>>)

  /** A sequence without repetitions has as many distinct elements as positions. */
  lemma {:induction false} DistinctCardinality<K>(s: seq<K>)
    requires Distinct(s)
    ensures |set k | k in s| == |s|
  {
    if s != [] {
      var last := s[|s| - 1];
      var pre := s[..|s| - 1];
      assert Distinct(pre);
      DistinctCardinality(pre);
      assert (set k | k in s) == (set k | k in pre) + {last};
      assert last !in (set k | k in pre);
    }
  }

  /** A valid dict has as many entries as iteration positions. */
  lemma DictSize<K, V>(d: Dict<K, V>)
    requires ValidDict(d)
    ensures |d.entries| == |d.order|
  {
    DistinctCardinality(d.order);
    assert d.entries.Keys == set k | k in d.order;
  }

  /**
   * `pd.DataFrame(list(d.items()), columns=[year_col, corr_col])`: one row per
   * entry, in iteration order, key and value copied into the two columns.
   */
  function CreateCorrelationDf<K, V>(d: Dict<K, V>, yearCol: string, corrCol: string): (t: Table<K, V>)
    requires ValidDict(d)
    ensures t.columns == [yearCol, corrCol]
    ensures |t.rows| == |d.order| == |d.entries|
    ensures forall i :: 0 <= i < |t.rows| ==>
      t.rows[i].key == d.order[i] && t.rows[i].key in d.entries && t.rows[i].value == d.entries[t.rows[i].key]
    ensures forall k :: k in d.entries ==> exists i :: 0 <= i < |t.rows| && t.rows[i] == TableRow(k, d.entries[k])
  {
    DictSize(d);
    var items := Items(d);
    var t := Table([yearCol, corrCol], seq(|items|, i requires 0 <= i < |items| => TableRow(items[i].0, items[i].1)));
    assert forall k :: k in d.entries ==> exists i :: 0 <= i < |d.order| && d.order[i] == k;
    t
  }

  /** Reading a table back into a dict, row by row, later rows overwriting earlier ones. */
  function ToDict<K, V>(rows: seq<TableRow<K, V>>): (d: Dict<K, V>)
  {
    if rows == [] then Dict([], map[])
    else
      var d := ToDict(rows[..|rows| - 1]);
      var r := rows[|rows| - 1];
      Dict(d.order + [r.key], d.entries[r.key := r.value])
  }

  /** The first n entries of a dict, as a dict. */
  function Prefix<K, V>(d: Dict<K, V>, n: nat): (p: Dict<K, V>)
    requires ValidDict(d) && n <= |d.order|
  {
    Dict(d.order[..n], map k | k in d.order[..n] :: d.entries[k])
  }

  lemma {:induction false} ToDictPrefix<K, V>(d: Dict<K, V>, rows: seq<TableRow<K, V>>, n: nat)
    requires ValidDict(d) && n <= |d.order| && |rows| == |d.order|
    requires forall i :: 0 <= i < |rows| ==> rows[i] == TableRow(d.order[i], d.entries[d.order[i]])
    ensures ToDict(rows[..n]) == Prefix(d, n)
  {
    if n > 0 {
      ToDictPrefix(d, rows, n - 1);
      var k := d.order[n - 1];
      assert rows[..n][..n - 1] == rows[..n - 1];
      assert rows[..n][n - 1] == TableRow(k, d.entries[k]);
      assert ToDict(rows[..n]) == Dict(d.order[..n - 1] + [k], Prefix(d, n - 1).entries[k := d.entries[k]]);
      assert d.order[..n] == d.order[..n - 1] + [k];
      assert Prefix(d, n - 1).entries[k := d.entries[k]] == Prefix(d, n).entries;
    }
  }

  /** All entries of a dict, as a prefix, are the dict itself. */
  lemma WholePrefix<K, V>(d: Dict<K, V>)
    requires ValidDict(d)
    ensures Prefix(d, |d.order|) == d
  {
    var whole := Prefix(d, |d.order|);
    assert d.order[..|d.order|] == d.order;
    assert whole.entries.Keys == d.entries.Keys;
  }

  /** The table holds the whole dict: reading it back gives the same keys, order and values. */
  lemma RoundTrip<K, V>(d: Dict<K, V>, yearCol: string, corrCol: string)
    requires ValidDict(d)
    ensures ToDict(CreateCorrelationDf(d, yearCol, corrCol).rows) == d
  {
    var rows := CreateCorrelationDf(d, yearCol, corrCol).rows;
    var n := |d.order|;
    assert forall i :: 0 <= i < |rows| ==> rows[i] == TableRow(d.order[i], d.entries[d.order[i]]);
    ToDictPrefix(d, rows, n);
    assert rows[..n] == rows;
    WholePrefix(d);
  }

  /** The docstring example. */
  lemma DocExample()
    ensures var d := Dict(["2000", "2001"], map["2000" := 0.05, "2001" := -0.03]);
      ValidDict(d) &&
      CreateCorrelationDf(d, "Year", "Correlation")
        == Table(["Year", "Correlation"], [TableRow("2000", 0.05), TableRow("2001", -0.03)])
  {
    var d := Dict(["2000", "2001"], map["2000" := 0.05, "2001" := -0.03]);
    assert "2000" != "2001" by {
      assert "2000"[3] != "2001"[3];
    }
    assert ValidDict(d);
  }
}
