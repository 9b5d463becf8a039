/**
 * sort_correlations: ranks correlation rows by absolute value.
 *
 * The source first adds an Abs_Correlation column to the caller's frame, in
 * place, then returns the top `top_n` rows of that frame sorted by the new
 * column, largest first. Rows keep their index labels. The sort is pandas'
 * default one, which does not promise any order among equal keys, so the
 * contracts here leave tie order open.
 */
module CorrelationRanking {
  import opened Wrappers

  function Abs(x: real): (r: real)
  {
    if x < 0.0 then -x else x
  }

  /** A row: its correlation cell, the other cells, and the Abs_Correlation column once added. */
  datatype CorrRow<C> = CorrRow(corr: real, rest: C, absCorr: Option<real>)

  /** A row with its index label. */
  datatype Ranked<C> = Ranked(index: nat, row: CorrRow<C>)

  /** The row after `df['Abs_Correlation'] = df[column].abs()`. */
  function WithAbs<C>(row: CorrRow<C>): (r: CorrRow<C>)
  {
    row.(absCorr := Some(Abs(row.corr)))
  }

  /** The sort key: the absolute correlation. */
  function Key<C>(e: Ranked<C>): (k: real)
  {
    Abs(e.row.corr)
  }

  /** The frame after the Abs_Correlation column is added, with index labels 0, 1, ... */
  function AbsColumn<C>(rows: seq<CorrRow<C>>): (frame: seq<Ranked<C>>)
  {
    seq(|rows|, i requires 0 <= i < |rows| => Ranked(i, WithAbs(rows[i])))
  }

  /** Each row's key is at least the next row's. */
  ghost predicate SortedDesc<C>(s: seq<Ranked<C>>)
  {
    forall i :: 0 < i < |s| ==> Key(s[i - 1]) >= Key(s[i])
  }

  /** Adjacent order extends to any two positions. */
  lemma {:induction false} SortedDescAt<C>(s: seq<Ranked<C>>, i: nat, j: nat)
    requires SortedDesc(s) && i <= j < |s|
    ensures Key(s[i]) >= Key(s[j])
  {
    if i < j {
      SortedDescAt(s, i, j - 1);
    }
  }

  /** Places `e` among the sorted rows `s`. */
  function Insert<C>(e: Ranked<C>, s: seq<Ranked<C>>): (r: seq<Ranked<C>>)
    requires SortedDesc(s)
    ensures SortedDesc(r)
    ensures multiset(r) == multiset(s) + multiset{e}
    ensures |r| == |s| + 1 && (r[0] == e || (s != [] && r[0] == s[0]))
  {
    if s == [] || Key(e) >= Key(s[0]) then [e] + s
    else
      assert s == [s[0]] + s[1..];
      var t := Insert(e, s[1..]);
      assert Key(s[0]) >= Key(t[0]);
      [s[0]] + t
  }

  /** `sort_values(by='Abs_Correlation', ascending=False)`: a descending reordering of the rows. */
  function SortByAbs<C>(s: seq<Ranked<C>>): (r: seq<Ranked<C>>)
    ensures SortedDesc(r)
    ensures multiset(r) == multiset(s)
    ensures |r| == |s|
  {
    if s == [] then []
    else
      assert s == [s[0]] + s[1..];
      Insert(s[0], SortByAbs(s[1..]))
  }

  function Min(a: nat, b: nat): (m: nat)
  {
    if a <= b then a else b
  }

  /** The first `n` rows of `s` are a sub-multiset of `s`. */
  lemma PrefixSubMultiset<T>(s: seq<T>, n: nat)
    requires n <= |s|
    ensures multiset(s[..n]) <= multiset(s)
  {
    assert s == s[..n] + s[n..];
  }

  /** Each of the first n rows of a reordering of the input is an input row with its Abs_Correlation cell. */
  lemma PrefixFromInput<C>(rows: seq<CorrRow<C>>, sorted: seq<Ranked<C>>, n: nat)
    requires multiset(sorted) == multiset(AbsColumn(rows)) && n <= |sorted|
    ensures forall j :: 0 <= j < n ==>
      sorted[j].index < |rows| && sorted[j].row == WithAbs(rows[sorted[j].index]) && sorted[j].row.absCorr == Some(Key(sorted[j]))
  {
    var all := AbsColumn(rows);
    forall j | 0 <= j < n
      ensures sorted[j].index < |rows| && sorted[j].row == WithAbs(rows[sorted[j].index])
    {
      assert sorted[j] in multiset(all);
      var i :| 0 <= i < |all| && all[i] == sorted[j];
    }
  }

  /** In a sorted reordering of the input, no row past its first |top| rows outranks any of them. */
  lemma PrefixDominates<C>(rows: seq<CorrRow<C>>, sorted: seq<Ranked<C>>, top: seq<Ranked<C>>)
    requires SortedDesc(sorted) && multiset(sorted) == multiset(AbsColumn(rows))
    requires |top| <= |sorted| && top == sorted[..|top|]
    ensures forall i :: 0 <= i < |rows| && (forall j :: 0 <= j < |top| ==> top[j].index != i) ==>
      forall j :: 0 <= j < |top| ==> Abs(rows[i].corr) <= Key(top[j])
  {
    var all := AbsColumn(rows);
    forall i, j | 0 <= i < |rows| && (forall j :: 0 <= j < |top| ==> top[j].index != i) && 0 <= j < |top|
      ensures Abs(rows[i].corr) <= Key(top[j])
    {
      assert all[i] in multiset(sorted);
      var p :| 0 <= p < |sorted| && sorted[p] == all[i];
      SortedDescAt(sorted, j, p);
    }
  }

  /** A prefix of a sorted sequence is sorted. */
  lemma PrefixSorted<C>(s: seq<Ranked<C>>, n: nat)
    requires SortedDesc(s) && n <= |s|
    ensures SortedDesc(s[..n])
  {
  }

  /**
   * What sort_correlations returns: `min(top_n, rows)` rows of the input, each
   * with its Abs_Correlation cell, largest absolute value first, and no row
   * left out has a larger absolute value than any row returned.
   */
  function TopCorrelations<C>(rows: seq<CorrRow<C>>, topN: nat): (top: seq<Ranked<C>>)
    ensures |top| == Min(topN, |rows|)
    ensures SortedDesc(top)
    ensures multiset(top) <= multiset(AbsColumn(rows))
    ensures forall j :: 0 <= j < |top| ==>
      top[j].index < |rows| && top[j].row == WithAbs(rows[top[j].index]) && top[j].row.absCorr == Some(Key(top[j]))
    ensures forall i :: 0 <= i < |rows| && (forall j :: 0 <= j < |top| ==> top[j].index != i) ==>
      forall j :: 0 <= j < |top| ==> Abs(rows[i].corr) <= Key(top[j])
  {
    var sorted := SortByAbs(AbsColumn(rows));
    var n := Min(topN, |rows|);
    PrefixSubMultiset(sorted, n);
    PrefixSorted(sorted, n);
    PrefixFromInput(rows, sorted, n);
    PrefixDominates(rows, sorted, sorted[..n]);
    sorted[..n]
  }

  /**
   * sort_correlations on a frame held in an array: adds the Abs_Correlation
   * column to every row of `df`, then returns the top rows.
   */
  method SortCorrelations<C>(df: array<CorrRow<C>>, topN: nat := 5) returns (top: seq<Ranked<C>>)
    modifies df
    ensures forall i :: 0 <= i < df.Length ==> df[i] == WithAbs(old(df[i]))
    ensures top == TopCorrelations(old(df[..]), topN)
  {
    ghost var input := df[..];
    forall i | 0 <= i < df.Length {
      df[i] := WithAbs(df[i]);
    }
    assert AbsColumn(df[..]) == AbsColumn(input);
    top := TopCorrelations(df[..], topN);
  }

  lemma InsertBefore<C>(e: Ranked<C>, s: seq<Ranked<C>>)
    requires SortedDesc(s) && (s == [] || Key(e) >= Key(s[0]))
    ensures Insert(e, s) == [e] + s
  {
  }

  lemma InsertAfter<C>(e: Ranked<C>, s: seq<Ranked<C>>)
    requires SortedDesc(s) && s != [] && Key(e) < Key(s[0])
    ensures Insert(e, s) == [s[0]] + Insert(e, s[1..])
  {
  }

  lemma SortByAbsCons<C>(s: seq<Ranked<C>>)
    requires s != []
    ensures SortByAbs(s) == Insert(s[0], SortByAbs(s[1..]))
  {
  }

  lemma SortTwo<C>(a1: Ranked<C>, a2: Ranked<C>)
    requires Key(a1) < Key(a2)
    ensures SortByAbs([a1, a2]) == [a2, a1]
  {
    SortByAbsCons([a2]);
    assert [a2][1..] == [];
    InsertBefore(a2, []);
    SortByAbsCons([a1, a2]);
    assert [a1, a2][1..] == [a2];
    InsertAfter(a1, [a2]);
    InsertBefore(a1, []);
  }

  /** Three rows with strictly increasing absolute values come out reversed. */
  lemma SortThree<C>(a0: Ranked<C>, a1: Ranked<C>, a2: Ranked<C>)
    requires Key(a0) < Key(a1) < Key(a2)
    ensures SortByAbs([a0, a1, a2]) == [a2, a1, a0]
  {
    SortTwo(a1, a2);
    SortByAbsCons([a0, a1, a2]);
    assert [a0, a1, a2][1..] == [a1, a2];
    var t := [a2, a1];
    assert t[1..] == [a1];
    InsertBefore(a0, []);
    InsertAfter(a0, [a1]);
    InsertAfter(a0, t);
  }

  /** The docstring example: Year is the other column, the top two of three rows. */
  lemma DocExample()
    ensures TopCorrelations([CorrRow(0.1, 2000, None), CorrRow(-0.2, 2001, None), CorrRow(0.3, 2002, None)], 2)
         == [Ranked(2, CorrRow(0.3, 2002, Some(0.3))), Ranked(1, CorrRow(-0.2, 2001, Some(0.2)))]
  {
    var rows := [CorrRow(0.1, 2000, None), CorrRow(-0.2, 2001, None), CorrRow(0.3, 2002, None)];
    var a0, a1, a2 := Ranked(0, WithAbs(rows[0])), Ranked(1, WithAbs(rows[1])), Ranked(2, WithAbs(rows[2]));
    assert AbsColumn(rows) == [a0, a1, a2];
    SortThree(a0, a1, a2);
    assert [a2, a1, a0][..2] == [a2, a1];
  }
}
