/**
 * parse_state_county: splits a column of mixed state and county names.
 *
 * A frame is an array of rows; a row's position is its index label. The scan
 * visits the rows in order, carrying the most recent state name. A row whose
 * location lacks "County" names a state: it becomes the current state and is
 * dropped. A row whose location contains "County" gets State = the current
 * state and County = its own location. The frame is updated in place, then
 * filtered down to the rows whose County is set.
 */
module StateCounty {
  import opened Wrappers
  import opened Strings

  /** The substring that marks a county row. */
  const CountyMarker: string := "County"

  predicate IsCounty(location: string)
  {
    Contains(location, CountyMarker)
  }

  /**
   * A row of the frame: its location cell, the other cells (kept as they are),
   * and the State and County columns the scan writes (`None` is pandas' null).
   */
  datatype Row<C> = Row(location: string, rest: C, state: Option<string>, county: Option<string>)

  /** A row of a filtered frame, with the index label it had in the input. */
  datatype Labeled<C> = Labeled(index: nat, row: Row<C>)

  /** The value of `current_state` once the scan has read `rows`. */
  function CurrentState<C>(rows: seq<Row<C>>): (state: string)
  {
    if rows == [] then ""
    else if !IsCounty(rows[|rows| - 1].location) then rows[|rows| - 1].location
    else CurrentState(rows[..|rows| - 1])
  }

  /** A row as the scan leaves it, given the current state when the scan reaches it. */
  function Mark<C>(row: Row<C>, current: string): (marked: Row<C>)
  {
    if IsCounty(row.location) then row.(state := Some(current), county := Some(row.location))
    else row.(state := None, county := None)
  }

  /** The whole frame after the in-place writes. */
  function Marked<C>(rows: seq<Row<C>>): (frame: seq<Row<C>>)
  {
    seq(|rows|, i requires 0 <= i < |rows| => Mark(rows[i], CurrentState(rows[..i])))
  }

  /** `df[df['County'].notnull()]`: the rows whose County is set, with their index labels. */
  function CountyRows<C>(rows: seq<Row<C>>): (kept: seq<Labeled<C>>)
  {
    if rows == [] then []
    else
      var last := |rows| - 1;
      CountyRows(rows[..last]) + (if rows[last].county.Some? then [Labeled(last, rows[last])] else [])
  }

  /** What parse_state_county returns for a frame. */
  function Parse<C>(rows: seq<Row<C>>): (result: seq<Labeled<C>>)
  {
    CountyRows(Marked(rows))
  }

  /**
   * The imperative scan. Updates `df` in place, as the source does with
   * `df['State'] = None`, `df['County'] = None` and `df.loc[...] = ...`,
   * and returns the filtered frame.
   */
  method ParseStateCounty<C>(df: array<Row<C>>) returns (result: seq<Labeled<C>>)
    modifies df
    ensures df[..] == Marked(old(df[..]))
    ensures result == CountyRows(df[..])
    ensures result == Parse(old(df[..]))
  {
    ghost var input := df[..];
    forall i | 0 <= i < df.Length {
      df[i] := df[i].(state := None, county := None);
    }
    var current := "";
    for i := 0 to df.Length
      invariant current == CurrentState(input[..i])
      invariant forall k :: 0 <= k < i ==> df[k] == Mark(input[k], CurrentState(input[..k]))
      invariant forall k :: i <= k < df.Length ==> df[k] == input[k].(state := None, county := None)
    {
      var location := df[i].location;
      assert input[..i + 1][..i] == input[..i];
      if !IsCounty(location) {
        current := location;
      } else {
        df[i] := df[i].(state := Some(current), county := Some(location));
      }
    }
    result := CountyRows(df[..]);
  }

  /** Independent description of "the nearest preceding state row before position i". */
  ghost predicate IsNearestState<C>(rows: seq<Row<C>>, i: nat, s: string)
    requires i <= |rows|
  {
    || (exists p :: 0 <= p < i && !IsCounty(rows[p].location) && s == rows[p].location &&
                  forall q :: p < q < i ==> IsCounty(rows[q].location))
    || (s == "" && forall p :: 0 <= p < i ==> IsCounty(rows[p].location))
  }

  /** The accumulator always holds the nearest preceding state name, or "" when there is none. */
  lemma {:induction false} CurrentStateIsNearest<C>(rows: seq<Row<C>>, i: nat)
    requires i <= |rows|
    ensures IsNearestState(rows, i, CurrentState(rows[..i]))
  {
    if i > 0 {
      var pre := rows[..i];
      assert pre[..i - 1] == rows[..i - 1];
      if IsCounty(rows[i - 1].location) {
        CurrentStateIsNearest(rows, i - 1);
      }
    }
  }

  /** A filtered frame `r` of `rows`: rows taken from `rows` with County set, in increasing index order. */
  ghost predicate FilteredFrom<C>(rows: seq<Row<C>>, r: seq<Labeled<C>>)
  {
    && (forall j :: 0 <= j < |r| ==> r[j].index < |rows| && r[j].row == rows[r[j].index] && r[j].row.county.Some?)
    && (forall j, k :: 0 <= j < k < |r| ==> r[j].index < r[k].index)
  }

  /** The filter keeps exactly the rows with County set, in order. */
  lemma {:induction false} CountyRowsShape<C>(rows: seq<Row<C>>)
    ensures FilteredFrom(rows, CountyRows(rows))
    ensures forall i :: 0 <= i < |rows| && rows[i].county.Some? ==>
      exists j :: 0 <= j < |CountyRows(rows)| && CountyRows(rows)[j].index == i
  {
    if rows != [] {
      var last := |rows| - 1;
      var pre := rows[..last];
      CountyRowsShape(pre);
      var r := CountyRows(rows);
      var rp := CountyRows(pre);
      assert r[..|rp|] == rp;
      forall j | 0 <= j < |rp|
        ensures r[j] == rp[j] && rp[j].index < last && rp[j].row == rows[rp[j].index]
      {
        assert r[..|rp|][j] == r[j];
      }
      forall i | 0 <= i < |rows| && rows[i].county.Some?
        ensures exists j :: 0 <= j < |r| && r[j].index == i
      {
        if i < last {
          assert pre[i] == rows[i];
          var j :| 0 <= j < |rp| && rp[j].index == i;
          assert r[j].index == i;
        } else {
          assert r[|rp|].index == i;
        }
      }
    }
  }

  /** What the scan writes into row i. */
  lemma MarkedAt<C>(rows: seq<Row<C>>, i: nat)
    requires i < |rows|
    ensures |Marked(rows)| == |rows|
    ensures Marked(rows)[i].location == rows[i].location && Marked(rows)[i].rest == rows[i].rest
    ensures Marked(rows)[i].county.Some? <==> IsCounty(rows[i].location)
    ensures IsCounty(rows[i].location) ==>
      Marked(rows)[i].county == Some(rows[i].location) && Marked(rows)[i].state == Some(CurrentState(rows[..i]))
  {
  }

  /** Every returned row is a county row, and its County cell is its location. */
  lemma ParsedRowsAreCounties<C>(rows: seq<Row<C>>)
    ensures forall j :: 0 <= j < |Parse(rows)| ==>
      IsCounty(Parse(rows)[j].row.location) && Parse(rows)[j].row.county == Some(Parse(rows)[j].row.location)
  {
    var m := Marked(rows);
    CountyRowsShape(m);
    forall j | 0 <= j < |Parse(rows)|
      ensures IsCounty(Parse(rows)[j].row.location) && Parse(rows)[j].row.county == Some(Parse(rows)[j].row.location)
    {
      MarkedAt(rows, Parse(rows)[j].index);
    }
  }

  /**
   * The result is exactly the input's county rows, in input order, each with
   * its other cells unchanged and State set to the nearest preceding state.
   */
  lemma ParseSelectsCountyRows<C>(rows: seq<Row<C>>)
    ensures forall j :: 0 <= j < |Parse(rows)| ==>
      && Parse(rows)[j].index < |rows|
      && Parse(rows)[j].row.location == rows[Parse(rows)[j].index].location
      && Parse(rows)[j].row.rest == rows[Parse(rows)[j].index].rest
      && Parse(rows)[j].row.state.Some?
      && IsNearestState(rows, Parse(rows)[j].index, Parse(rows)[j].row.state.value)
    ensures forall j, k :: 0 <= j < k < |Parse(rows)| ==> Parse(rows)[j].index < Parse(rows)[k].index
    ensures forall i :: 0 <= i < |rows| ==>
      (IsCounty(rows[i].location) <==> exists j :: 0 <= j < |Parse(rows)| && Parse(rows)[j].index == i)
  {
    var m := Marked(rows);
    var r := Parse(rows);
    CountyRowsShape(m);
    forall j | 0 <= j < |r|
      ensures r[j].index < |rows| && r[j].row.location == rows[r[j].index].location && r[j].row.rest == rows[r[j].index].rest
      ensures r[j].row.state.Some? && IsNearestState(rows, r[j].index, r[j].row.state.value)
    {
      MarkedAt(rows, r[j].index);
      CurrentStateIsNearest(rows, r[j].index);
    }
    forall i | 0 <= i < |rows|
      ensures IsCounty(rows[i].location) <==> exists j :: 0 <= j < |r| && r[j].index == i
    {
      MarkedAt(rows, i);
    }
  }

  /** A frame with no county rows yields an empty result. */
  lemma NoCountiesGivesEmpty<C>(rows: seq<Row<C>>)
    requires forall i :: 0 <= i < |rows| ==> !IsCounty(rows[i].location)
    ensures Parse(rows) == []
  {
    CountyRowsShape(Marked(rows));
    if Parse(rows) != [] {
      MarkedAt(rows, Parse(rows)[0].index);
    }
  }

  /** The locations of the docstring example, classified. */
  lemma DocLocations()
    ensures !IsCounty("Texas")
    ensures IsCounty("Travis County, TX")
    ensures IsCounty("Williamson County, TX")
  {
    ShortNotContains("Texas", CountyMarker);
    var travis, williamson := "Travis County, TX", "Williamson County, TX";
    assert CountyMarker <= travis[7..];
    assert CountyMarker <= williamson[11..];
  }

  /** The docstring example: a state row followed by two county rows. */
  lemma DocExample()
    ensures var rows := [Row("Texas", (), None, None),
                         Row("Travis County, TX", (), None, None),
                         Row("Williamson County, TX", (), None, None)];
      Parse(rows) == [Labeled(1, Row("Travis County, TX", (), Some("Texas"), Some("Travis County, TX"))),
                      Labeled(2, Row("Williamson County, TX", (), Some("Texas"), Some("Williamson County, TX")))]
  {
    var r0, r1, r2 := Row("Texas", (), None, None), Row("Travis County, TX", (), None, None),
                      Row("Williamson County, TX", (), None, None);
    var rows := [r0, r1, r2];
    DocLocations();
    assert CurrentState(rows[..1]) == "Texas" by {
      assert rows[..1] == [r0];
    }
    assert CurrentState(rows[..2]) == "Texas" by {
      assert rows[..2] == [r0, r1] && [r0, r1][..1] == rows[..1];
    }
    var m0, m1, m2 := r0, Mark(r1, "Texas"), Mark(r2, "Texas");
    var m := Marked(rows);
    assert m == [m0, m1, m2] by {
      MarkedAt(rows, 0);
      MarkedAt(rows, 1);
      MarkedAt(rows, 2);
    }
    assert [m0, m1, m2][..2] == [m0, m1] && [m0, m1][..1] == [m0] && [m0][..0] == [];
    assert CountyRows([m0]) == [];
  }
}
