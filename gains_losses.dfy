/** The first column of the page in dashboard_app.py: the two metric
    call-outs (the state with the largest and the one with the smallest
    population change) and the two "States Migration" donuts (the share of
    states whose change exceeds the threshold, up and down).

    The call-outs and charts are returned as data; drawing them is not
    modelled. */
module GainsLosses {
  import opened Dataset
  import opened Rounding
  import opened PopulationDifference
  import opened NumberFormat
  import opened Donut
  import opened Sidebar

  /** A metric's value or delta: placeholder text, or a formatted number. */
  datatype Shown = Text(text: string) | Number(number: Formatted)

  /** `st.metric(label=..., value=..., delta=...)`. */
  datatype Metric = Metric(name: string, value: Shown, delta: Shown)

  /** The metric shown for a year outside the data: ('-', '-', ''). */
  const Placeholder: Metric := Metric("-", Text("-"), Text(""))

  /** The metric for one row of the difference table: its state, its
      population and its change, both through `format_number`. */
  function MetricOf(e: DiffRow): Metric
  {
    Metric(e.row.state, Number(FormatNumber(e.row.population)), Number(FormatNumber(e.difference)))
  }

  /** `d[d.Population_difference > threshold]`: the rows that grew by more
      than the threshold, in order. */
  function Growth(d: seq<DiffRow>, threshold: int): (g: seq<DiffRow>)
    ensures |g| <= |d|
    ensures forall e :: e in g <==> e in d && e.difference > threshold
    ensures forall e :: multiset(g)[e] == if e.difference > threshold then multiset(d)[e] else 0
  {
    if |d| == 0 then []
    else
      assert d == [d[0]] + d[1..];
      (if d[0].difference > threshold then [d[0]] else []) + Growth(d[1..], threshold)
  }

  /** `d[d.Population_difference < - threshold]`: the rows that shrank by
      more than the threshold, in order. */
  function Shrinkage(d: seq<DiffRow>, threshold: int): (s: seq<DiffRow>)
    ensures |s| <= |d|
    ensures forall e :: e in s <==> e in d && e.difference < -threshold
    ensures forall e :: multiset(s)[e] == if e.difference < -threshold then multiset(d)[e] else 0
  {
    if |d| == 0 then []
    else
      assert d == [d[0]] + d[1..];
      (if d[0].difference < -threshold then [d[0]] else []) + Shrinkage(d[1..], threshold)
  }

  /** For a non-negative threshold no row both grew and shrank by more than
      it, so the two groups together are no larger than the table. */
  lemma {:induction false} GroupsDisjoint(d: seq<DiffRow>, threshold: int)
    requires threshold >= 0
    ensures |Growth(d, threshold)| + |Shrinkage(d, threshold)| <= |d|
  {
    if |d| > 0 {
      GroupsDisjoint(d[1..], threshold);
    }
  }

  /** `round((count / n) * 100)`: the share of `count` among `n` rows, in
      whole percent. */
  function Percent(count: int, n: int): (p: int)
    requires n > 0 && 0 <= count <= n
    ensures 0 <= p <= 100
  {
    var p := RoundHalfEven(100 * count, n);
    ShareBounds(100 * count, n, p);
    p
  }

  /** The share is the whole percentage nearest to 100 count / n, the even
      one on a tie. */
  lemma PercentNearest(count: int, n: int)
    requires n > 0 && 0 <= count <= n
    ensures Percent(count, n) == RoundHalfEven(100 * count, n)
    ensures -n <= 2 * (100 * count - Percent(count, n) * n) <= n
  {
  }

  /** A whole number within half a step of a / n, for 0 <= a <= 100 n, lies
      in [0, 100]. */
  lemma ShareBounds(a: int, n: int, q: int)
    requires n > 0 && 0 <= a <= 100 * n
    requires -n <= 2 * (a - q * n) <= n
    ensures 0 <= q <= 100
  {
    MulMonotone(q, -1, n);
    MulMonotone(101, q, n);
  }

  /** Two shares of disjoint groups never add up to more than 100 percent:
      on a tie rounding goes to an even number, so two halves never both
      round up past 100. */
  lemma PercentsFit(g: int, s: int, n: int)
    requires n > 0 && 0 <= g && 0 <= s && g + s <= n
    ensures Percent(g, n) + Percent(s, n) <= 100
  {
    var p, q := RoundHalfEven(100 * g, n), RoundHalfEven(100 * s, n);
    SharesFit(100 * g, 100 * s, n, p, q);
  }

  lemma SharesFit(a: int, b: int, n: int, p: int, q: int)
    requires n > 0 && 0 <= a && 0 <= b && a + b <= 100 * n
    requires -n <= 2 * (a - p * n) <= n
    requires 2 * (a - p * n) == -n ==> p % 2 == 0
    requires -n <= 2 * (b - q * n) <= n
    requires 2 * (b - q * n) == -n ==> q % 2 == 0
    ensures p + q <= 100
  {
    assert (p + q) * n == p * n + q * n;
    MulMonotone(102, p + q, n);
    // p + q == 101 would need 2 * (a - pn) == -n and 2 * (b - qn) == -n,
    // two ties rounded up to even numbers, whose sum is not odd
    MulMonotone(101, p + q, n);
  }

  lemma MulMonotone(k: int, m: int, n: int)
    requires n > 0
    ensures k <= m ==> k * n <= m * n
  {
    if k <= m {
      assert m * n - k * n == (m - k) * n;
    }
  }

  /** What the first column shows. */
  datatype Panel = Panel(top: Metric, bottom: Metric,
                         growthPercent: int, shrinkPercent: int,
                         growthDonut: DonutData, shrinkDonut: DonutData)

  /** Lines 62-110: the difference table of the selected year, and from it
      the metrics and the migration donuts, unless the selected year is not
      above the last entry of the year list (the synthetic year), in which
      case placeholders are shown. For a year with no rows `.iloc[0]`
      raises. */
  function FirstColumn(t: seq<Row>, selectedYear: int, yearList: seq<int>, threshold: int): (r: Result<Panel>)
    requires |yearList| > 0
    ensures r.Fail? <==> selectedYear > yearList[|yearList| - 1] &&
                         forall i :: 0 <= i < |t| ==> t[i].year != selectedYear
    ensures r.Fail? ==> r.error == IndexError
    // the year outside the data: ('-', '-', ''), 0% both ways, orange donuts
    ensures selectedYear <= yearList[|yearList| - 1] ==>
      && r.Ok? && r.value.top == Placeholder && r.value.bottom == Placeholder
      && r.value.growthPercent == 0 && r.value.shrinkPercent == 0
      && Some(r.value.growthDonut.palette) == PaletteFor("orange")
      && Some(r.value.shrinkDonut.palette) == PaletteFor("orange")
      && Ok(r.value.growthDonut) == MakeDonut(0, "Population growth", "orange")
      && Ok(r.value.shrinkDonut) == MakeDonut(0, "Population shrinkage", "orange")
    // a year of the data: real metrics, green and red donuts
    ensures selectedYear > yearList[|yearList| - 1] && r.Ok? ==>
      && r.value.top.value.Number? && r.value.bottom.value.Number?
      && Some(r.value.growthDonut.palette) == PaletteFor("green")
      && Some(r.value.shrinkDonut.palette) == PaletteFor("red")
  {
    SelectYearEmpty(t, selectedYear);
    if selectedYear > yearList[|yearList| - 1] then
      var d := CalculatePopulationDifference(t, selectedYear);
      if |d| == 0 then Fail(IndexError) else Ok(DataPanel(d, threshold))
    else
      Ok(OutsidePanel())
  }

  /** The column for a year of the data, from its non-empty difference
      table. */
  function DataPanel(d: seq<DiffRow>, threshold: int): Panel
    requires |d| > 0
  {
    var up := Percent(|Growth(d, threshold)|, |d|);
    var down := Percent(|Shrinkage(d, threshold)|, |d|);
    Panel(MetricOf(d[0]), MetricOf(d[|d| - 1]), up, down,
          MakeDonut(up, "Population growth", "green").value,
          MakeDonut(down, "Population shrinkage", "red").value)
  }

  /** The column for the year outside the data. */
  function OutsidePanel(): Panel
  {
    Panel(Placeholder, Placeholder, 0, 0,
          MakeDonut(0, "Population growth", "orange").value,
          MakeDonut(0, "Population shrinkage", "orange").value)
  }

  /** A year above the synthetic year with rows shows the panel built from
      its difference table. */
  lemma DataYearPanel(t: seq<Row>, selectedYear: int, yearList: seq<int>, threshold: int)
    requires |yearList| > 0 && selectedYear > yearList[|yearList| - 1]
    requires exists i :: 0 <= i < |t| && t[i].year == selectedYear
    ensures var d := CalculatePopulationDifference(t, selectedYear);
      |d| > 0 && FirstColumn(t, selectedYear, yearList, threshold) == Ok(DataPanel(d, threshold))
  {
    SelectYearEmpty(t, selectedYear);
  }

  /** The panel built from a difference table sorted largest first shows,
      on top, the state with the largest change and, below, the one with
      the smallest; the growth and shrinkage shares are the rounded
      percentages of the rows past the threshold either way, each within
      [0, 100], together at most 100 for a non-negative threshold; the green
      and red donuts are drawn from those two shares. */
  lemma DataPanelShows(d: seq<DiffRow>, threshold: int)
    requires |d| > 0 && Descending(d)
    ensures var p := DataPanel(d, threshold);
      && p.top == MetricOf(d[0])
      && (forall e :: e in d ==> e.difference <= d[0].difference)
      && p.bottom == MetricOf(d[|d| - 1])
      && (forall e :: e in d ==> e.difference >= d[|d| - 1].difference)
      && p.growthPercent == Percent(|Growth(d, threshold)|, |d|)
      && p.shrinkPercent == Percent(|Shrinkage(d, threshold)|, |d|)
      && (threshold >= 0 ==> p.growthPercent + p.shrinkPercent <= 100)
      && Ok(p.growthDonut) == MakeDonut(p.growthPercent, "Population growth", "green")
      && Ok(p.shrinkDonut) == MakeDonut(p.shrinkPercent, "Population shrinkage", "red")
  {
    Extremes(d);
    if threshold >= 0 {
      GroupsDisjoint(d, threshold);
      PercentsFit(|Growth(d, threshold)|, |Shrinkage(d, threshold)|, |d|);
    }
  }

  /** The first row of a table sorted largest first has the largest
      difference, the last row the smallest. */
  lemma Extremes(d: seq<DiffRow>)
    requires |d| > 0 && Descending(d)
    ensures forall e :: e in d ==> d[|d| - 1].difference <= e.difference <= d[0].difference
  {
    forall e | e in d ensures d[|d| - 1].difference <= e.difference <= d[0].difference {
      var k :| 0 <= k < |d| && d[k] == e;
    }
  }

  /** For a table that starts with its earliest year, every year the
      drop-down offers before the synthetic one shows real metrics, and the
      synthetic one shows the placeholders. */
  lemma OfferedYearsShown(t: seq<Row>, k: nat, threshold: int)
    requires |t| > 0
    requires forall i :: 0 <= i < |t| ==> t[0].year <= t[i].year
    requires k < |YearList(t)|
    ensures var yl := YearList(t);
      var r := FirstColumn(t, yl[k], yl, threshold);
      && r.Ok?
      && (k < |yl| - 1 <==> r.value.top != Placeholder)
  {
    var yl := YearList(t);
    SyntheticYearBelowAll(t);
    OfferedYearsInTable(t);
    if k < |yl| - 1 {
      DataYearPanel(t, yl[k], yl, threshold);
    }
  }
}
