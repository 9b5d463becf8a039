/**
 * get_decade: buckets a year into one of the analysis bands, or into none.
 *
 * The source is an if/elif cascade over half-open ranges, except that the
 * 1990 test is inclusive of 2000. The 2000 test, which comes later, also
 * covers 2000, so the earlier test wins and 2000 is labelled "1990". Years in
 * no band fall through to Python's implicit `None`.
 */
module Decade {
  import opened Wrappers

  /** The labels the cascade can return, in the order of its tests. */
  const Labels: seq<string> := ["1970", "1980", "1990", "2000", "2008-12", "2017-21"]

  /** The cascade of get_decade, test for test. */
  function GetDecade(year: int): (r: Option<string>)
    ensures r.None? <==> year < 1970 || 2012 <= year < 2017 || 2021 <= year
    ensures r.Some? ==> r.value in Labels && First(r.value) <= year < End(r.value)
  {
    if 1970 <= year < 1980 then Some("1970")
    else if 1980 <= year < 1990 then Some("1980")
    else if 1990 <= year <= 2000 then Some("1990")
    else if 2000 <= year < 2008 then Some("2000")
    else if 2008 <= year < 2012 then Some("2008-12")
    else if 2017 <= year < 2021 then Some("2017-21")
    else None
  }

  /**
   * The years each label ends up covering once the precedence of the tests
   * is taken into account: [First(l), End(l)). These ranges do not overlap,
   * so they describe the bands independently of test order.
   */
  function First(name: string): (year: int)
  {
    if name == "1970" then 1970
    else if name == "1980" then 1980
    else if name == "1990" then 1990
    else if name == "2000" then 2001
    else if name == "2008-12" then 2008
    else if name == "2017-21" then 2017
    else 0
  }

  function End(name: string): (year: int)
  {
    if name == "1970" then 1980
    else if name == "1980" then 1990
    else if name == "1990" then 2001
    else if name == "2000" then 2008
    else if name == "2008-12" then 2012
    else if name == "2017-21" then 2021
    else 0
  }

  /** The bands as the source writes its tests: [lo, hi) in test order. */
  datatype Band = Band(lo: int, hi: int, name: string)

  const WrittenBands: seq<Band> := [
    Band(1970, 1980, "1970"),
    Band(1980, 1990, "1980"),
    Band(1990, 2001, "1990"),
    Band(2000, 2008, "2000"),
    Band(2008, 2012, "2008-12"),
    Band(2017, 2021, "2017-21")
  ]

  /** Reference reading of an if/elif cascade: the label of the first band that holds the year. */
  function FirstMatch(bands: seq<Band>, year: int): (r: Option<string>)
    ensures r.Some? ==> exists i :: 0 <= i < |bands| && bands[i].name == r.value && bands[i].lo <= year < bands[i].hi &&
                          forall k :: 0 <= k < i ==> !(bands[k].lo <= year < bands[k].hi)
    ensures r.None? ==> forall i :: 0 <= i < |bands| ==> !(bands[i].lo <= year < bands[i].hi)
  {
    if bands == [] then None
    else if bands[0].lo <= year < bands[0].hi then Some(bands[0].name)
    else FirstMatch(bands[1..], year)
  }

  /** get_decade is the first-match reading of its band table. */
  lemma {:induction false} GetDecadeIsFirstMatch(year: int)
    ensures GetDecade(year) == FirstMatch(WrittenBands, year)
  {
    // Walk down the table: each band the year misses passes it on to the rest.
    var b := WrittenBands;
    if !(1970 <= year < 1980) {
      assert FirstMatch(b, year) == FirstMatch(b[1..], year);
      if !(1980 <= year < 1990) {
        assert FirstMatch(b[1..], year) == FirstMatch(b[2..], year);
        if !(1990 <= year < 2001) {
          assert FirstMatch(b[2..], year) == FirstMatch(b[3..], year);
          if !(2000 <= year < 2008) {
            assert FirstMatch(b[3..], year) == FirstMatch(b[4..], year);
            if !(2008 <= year < 2012) {
              assert FirstMatch(b[4..], year) == FirstMatch(b[5..], year);
              if !(2017 <= year < 2021) {
                assert FirstMatch(b[5..], year) == FirstMatch(b[6..], year);
              }
            }
          }
        }
      }
    }
  }

  /** Every label is returned for exactly the years of its effective range. */
  lemma LabelRanges(year: int, name: string)
    requires name in Labels
    ensures GetDecade(year) == Some(name) <==> First(name) <= year < End(name)
  {
  }

  /** Year 2000 passes both the 1990 test and the 2000 test; the earlier one wins. */
  lemma Year2000Overlap()
    ensures WrittenBands[2].lo <= 2000 < WrittenBands[2].hi
    ensures WrittenBands[3].lo <= 2000 < WrittenBands[3].hi
    ensures GetDecade(2000) == Some("1990")
  {
  }

  /** The boundaries on either side of every band. */
  lemma Boundaries()
    ensures GetDecade(1969) == None
    ensures GetDecade(1970) == Some("1970") && GetDecade(1979) == Some("1970")
    ensures GetDecade(1980) == Some("1980") && GetDecade(1989) == Some("1980")
    ensures GetDecade(1990) == Some("1990") && GetDecade(1999) == Some("1990")
    ensures GetDecade(2001) == Some("2000") && GetDecade(2007) == Some("2000")
    ensures GetDecade(2008) == Some("2008-12") && GetDecade(2011) == Some("2008-12")
    ensures GetDecade(2012) == None && GetDecade(2016) == None
    ensures GetDecade(2017) == Some("2017-21") && GetDecade(2020) == Some("2017-21")
    ensures GetDecade(2021) == None
  {
  }

  /** The examples in get_decade's docstring. */
  lemma DocExamples()
    ensures GetDecade(1975) == Some("1970")
    ensures GetDecade(1985) == Some("1980")
    ensures GetDecade(1995) == Some("1990")
    ensures GetDecade(2005) == Some("2000")
    ensures GetDecade(2010) == Some("2008-12")
    ensures GetDecade(2018) == Some("2017-21")
  {
  }

  /** Position of a label in test order. */
  function Rank(name: string): (position: nat)
  {
    if name == "1970" then 0
    else if name == "1980" then 1
    else if name == "1990" then 2
    else if name == "2000" then 3
    else if name == "2008-12" then 4
    else 5
  }

  /** Later years never get an earlier band. */
  lemma Monotone(y1: int, y2: int)
    requires y1 <= y2 && GetDecade(y1).Some? && GetDecade(y2).Some?
    ensures Rank(GetDecade(y1).value) <= Rank(GetDecade(y2).value)
  {
  }
}
