/** The sidebar of dashboard_app.py: the year drop-down's option list and
    default selection, and the population-change threshold read from the
    slider. The widgets themselves (titles, the colour-theme drop-down,
    layout) are not modelled; the user's choices are parameters. */
module Sidebar {
  import opened Dataset

  /** The index of the first occurrence of `x` in `s`. */
  function FirstAt(s: seq<int>, x: int): (i: nat)
    requires x in s
    ensures i < |s| && s[i] == x
    ensures forall j :: 0 <= j < i ==> s[j] != x
  {
    if s[0] == x then 0 else 1 + FirstAt(s[1..], x)
  }

  lemma {:induction false} FirstAtExtend(p: seq<int>, z: int, x: int)
    requires x in p + [z]
    ensures x in p ==> FirstAt(p + [z], x) == FirstAt(p, x)
    ensures x !in p ==> FirstAt(p + [z], x) == |p|
  {
    var i := FirstAt(p + [z], x);
    if x in p {
      var k := FirstAt(p, x);
      assert (p + [z])[k] == x;
    } else {
      assert forall j :: 0 <= j < |p| ==> (p + [z])[j] == p[j];
    }
  }

  /** `Series.unique()`: each distinct value once, in order of first
      appearance. */
  function Unique(s: seq<int>): (u: seq<int>)
    ensures forall x :: x in u <==> x in s
    ensures forall i, j :: 0 <= i < j < |u| ==> u[i] != u[j]
    ensures |s| > 0 ==> |u| > 0 && u[0] == s[0]
  {
    if |s| == 0 then []
    else
      var p, z := s[..|s| - 1], s[|s| - 1];
      assert s == p + [z];
      var before := Unique(p);
      if z in before then before
      else
        var u := before + [z];
        assert forall i :: 0 <= i < |before| ==> u[i] == before[i];
        u
  }

  /** The distinct values come in order of first appearance. */
  lemma {:induction false} UniqueOrder(s: seq<int>)
    ensures forall i, j :: 0 <= i < j < |Unique(s)| ==> FirstAt(s, Unique(s)[i]) < FirstAt(s, Unique(s)[j])
  {
    if |s| > 0 {
      var p, z := s[..|s| - 1], s[|s| - 1];
      assert s == p + [z];
      UniqueOrder(p);
      var before := Unique(p);
      forall x | x in before ensures FirstAt(s, x) == FirstAt(p, x) {
        FirstAtExtend(p, z, x);
      }
      var u := Unique(s);
      if z !in before {
        FirstAtExtend(p, z, z);
        assert u == before + [z];
        forall i, j | 0 <= i < j < |u| ensures FirstAt(s, u[i]) < FirstAt(s, u[j]) {
          assert u[i] == before[i] && u[i] in before;
          if j < |before| {
            assert u[j] == before[j] && u[j] in before;
          }
        }
      } else {
        assert u == before;
      }
    }
  }

  /** `list(s)[::-1]`. */
  function Reverse(s: seq<int>): (r: seq<int>)
    ensures |r| == |s|
    ensures forall i :: 0 <= i < |s| ==> r[i] == s[|s| - 1 - i]
  {
    if |s| == 0 then [] else [s[|s| - 1]] + Reverse(s[..|s| - 1])
  }

  /** The year list the sidebar offers: the distinct years, latest
      appearance first, followed by one synthetic year, one below the last
      of them. Defined for a table with at least one row; on an empty table
      `year_list[-1]` raises. */
  function YearList(t: seq<Row>): seq<int>
    requires |t| > 0
  {
    var years := Reverse(Unique(Years(t)));
    years + [years[|years| - 1] - 1]
  }

  /** What the sidebar hands to the page. */
  datatype Controls = Controls(yearList: seq<int>, selectedYear: int, threshold: int)

  /** Lines 31-49 of the sidebar. `choice` is the option the user picked in
      the year drop-down, `None` while it shows its default; `slider` is the
      slider's value in thousands, a whole number from 25 to 100 (its range
      and step). Fails when the table is empty (`year_list[-1]`) and when the
      default index `len(year_list) - 4` is negative, which the drop-down
      refuses. */
  method ReadSidebar(t: seq<Row>, choice: Option<nat>, slider: int) returns (r: Result<Controls>)
    requires 25 <= slider <= 100
    requires choice.Some? ==> choice.value <= |Unique(Years(t))|
    ensures r.Fail? <==> |Unique(Years(t))| < 3
    ensures r.Fail? ==> (r.error == IndexError <==> |t| == 0)
    ensures r.Fail? ==> (r.error == IndexError || r.error == SelectIndexOutOfRange)
    ensures r.Ok? ==> |t| > 0 && r.value.yearList == YearList(t)
    ensures r.Ok? ==> (r.value.selectedYear ==
                       r.value.yearList[if choice.Some? then choice.value else |r.value.yearList| - 4])
    ensures r.Ok? ==> r.value.threshold == slider * 1000
    ensures r.Ok? ==> 25_000 <= r.value.threshold <= 100_000
  {
    var yearList := Reverse(Unique(Years(t)));
    if |yearList| == 0 {
      return Fail(IndexError);
    }
    // add a year before the first one
    yearList := yearList + [yearList[|yearList| - 1] - 1];
    var index := |yearList| - 4;
    if index < 0 {
      return Fail(SelectIndexOutOfRange);
    }
    var selectedYear := if choice.Some? then yearList[choice.value] else yearList[index];
    var populationChange := slider;
    populationChange := populationChange * 1000;
    return Ok(Controls(yearList, selectedYear, populationChange));
  }

  /** The shape of the year list: one entry per distinct year, then the
      first year of the table minus one. */
  lemma YearListShape(t: seq<Row>)
    requires |t| > 0
    ensures |YearList(t)| == |Unique(Years(t))| + 1
    ensures YearList(t)[|YearList(t)| - 2] == t[0].year
    ensures YearList(t)[|YearList(t)| - 1] == t[0].year - 1
  {
    var u := Unique(Years(t));
    var r := Reverse(u);
    assert u[0] == Years(t)[0] == t[0].year;
    assert r[|r| - 1] == u[0];
    assert YearList(t) == r + [r[|r| - 1] - 1];
  }

  /** Every year of the table is offered, before the synthetic year. */
  lemma TableYearsOffered(t: seq<Row>)
    requires |t| > 0
    ensures forall i :: 0 <= i < |t| ==>
      exists k :: 0 <= k < |YearList(t)| - 1 && YearList(t)[k] == t[i].year
  {
    var ys, u, yl := Years(t), Unique(Years(t)), YearList(t);
    assert forall k :: 0 <= k < |u| ==> yl[|u| - 1 - k] == u[k];
    forall i | 0 <= i < |t| ensures exists k :: 0 <= k < |yl| - 1 && yl[k] == t[i].year {
      assert ys[i] in ys;
      var k :| 0 <= k < |u| && u[k] == ys[i];
      assert yl[|u| - 1 - k] == t[i].year;
    }
  }

  /** Every year offered before the synthetic year is a year of the
      table. */
  lemma OfferedYearsInTable(t: seq<Row>)
    requires |t| > 0
    ensures forall k :: 0 <= k < |YearList(t)| - 1 ==>
      exists i :: 0 <= i < |t| && t[i].year == YearList(t)[k]
  {
    var ys, u, yl := Years(t), Unique(Years(t)), YearList(t);
    assert forall k :: 0 <= k < |yl| - 1 ==> yl[k] == u[|u| - 1 - k];
    forall k | 0 <= k < |yl| - 1 ensures exists i :: 0 <= i < |t| && t[i].year == yl[k] {
      assert u[|u| - 1 - k] in u;
      var i :| 0 <= i < |ys| && ys[i] == yl[k];
    }
  }

  /** Apart from the synthetic year, no year is offered twice, and the years
      come latest first appearance first. */
  lemma YearListOrder(t: seq<Row>)
    requires |t| > 0
    ensures forall i, j :: 0 <= i < j < |YearList(t)| - 1 ==> YearList(t)[i] != YearList(t)[j]
    ensures forall i, j :: 0 <= i < j < |YearList(t)| - 1 ==>
      FirstAt(Years(t), YearList(t)[i]) > FirstAt(Years(t), YearList(t)[j])
  {
    var u, yl := Unique(Years(t)), YearList(t);
    UniqueOrder(Years(t));
    assert forall i :: 0 <= i < |yl| - 1 ==> yl[i] == u[|u| - 1 - i];
  }

  /** The default selection, `len(year_list) - 4`, is the third distinct year
      in table order. */
  lemma DefaultIsThirdYear(t: seq<Row>)
    requires |Unique(Years(t))| >= 3
    ensures |t| > 0 && YearList(t)[|YearList(t)| - 4] == Unique(Years(t))[2]
  {
  }

  /** When the table starts with its earliest year, the synthetic year lies
      below every year of the table, so it selects no rows. */
  lemma SyntheticYearBelowAll(t: seq<Row>)
    requires |t| > 0
    requires forall i :: 0 <= i < |t| ==> t[0].year <= t[i].year
    ensures forall k :: 0 <= k < |YearList(t)| - 1 ==> YearList(t)[k] > YearList(t)[|YearList(t)| - 1]
    ensures forall i :: 0 <= i < |t| ==> t[i].year != YearList(t)[|YearList(t)| - 1]
  {
    YearListShape(t);
    OfferedYearsInTable(t);
  }
}
