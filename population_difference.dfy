/** `calculate_population_difference` (dashboard_methods.py): the rows of one
    year, each with its population minus the population of the row at the
    same position in the previous year's slice, sorted by that difference,
    largest first. */
module PopulationDifference {
  import opened Dataset

  /** `input_df[input_df['Year'] == year].reset_index()`: the rows of the
      given year, in table order, each with its position in the table. */
  function SelectYear(t: seq<Row>, year: int): (s: seq<Indexed>)
    ensures |s| <= |t|
    ensures forall k :: 0 <= k < |s| ==>
      s[k].index < |t| && t[s[k].index] == s[k].row && s[k].row.year == year
    ensures forall k, m :: 0 <= k < m < |s| ==> s[k].index < s[m].index
    ensures forall i :: 0 <= i < |t| && t[i].year == year ==>
      exists k :: 0 <= k < |s| && s[k].index == i
  {
    SelectPrefixSound(t, year, |t|);
    SelectPrefixOrdered(t, year, |t|);
    SelectPrefixComplete(t, year, |t|);
    var s := SelectPrefix(t, year, |t|);
    assert forall i :: 0 <= i < |t| && t[i].year == year ==> Selected(s, i);
    s
  }

  /** The rows of the given year among the first `n` rows of the table. */
  function SelectPrefix(t: seq<Row>, year: int, n: nat): (s: seq<Indexed>)
    requires n <= |t|
    ensures |s| <= n
  {
    if n == 0 then []
    else
      var before := SelectPrefix(t, year, n - 1);
      if t[n - 1].year == year then before + [Indexed(n - 1, t[n - 1])] else before
  }

  /** Every selected row is a row of the year, at its own position among
      the first `n` rows. */
  lemma {:induction false} SelectPrefixSound(t: seq<Row>, year: int, n: nat)
    requires n <= |t|
    ensures forall k :: 0 <= k < |SelectPrefix(t, year, n)| ==>
      && SelectPrefix(t, year, n)[k].index < n
      && t[SelectPrefix(t, year, n)[k].index] == SelectPrefix(t, year, n)[k].row
      && SelectPrefix(t, year, n)[k].row.year == year
  {
    if n > 0 {
      SelectPrefixSound(t, year, n - 1);
      var before := SelectPrefix(t, year, n - 1);
      var s := SelectPrefix(t, year, n);
      assert forall k :: 0 <= k < |before| ==> s[k] == before[k];
    }
  }

  /** The selected rows keep table order. */
  lemma {:induction false} SelectPrefixOrdered(t: seq<Row>, year: int, n: nat)
    requires n <= |t|
    ensures forall k, m :: 0 <= k < m < |SelectPrefix(t, year, n)| ==>
      SelectPrefix(t, year, n)[k].index < SelectPrefix(t, year, n)[m].index
  {
    if n > 0 {
      SelectPrefixOrdered(t, year, n - 1);
      SelectPrefixSound(t, year, n - 1);
      var before := SelectPrefix(t, year, n - 1);
      var s := SelectPrefix(t, year, n);
      assert forall k :: 0 <= k < |before| ==> s[k] == before[k];
    }
  }

  /** Row `i` of the table is among the selected rows. */
  predicate Selected(s: seq<Indexed>, i: nat)
  {
    exists k :: 0 <= k < |s| && s[k].index == i
  }

  /** Every row of the year among the first `n` is selected. */
  lemma {:induction false} SelectPrefixComplete(t: seq<Row>, year: int, n: nat)
    requires n <= |t|
    ensures forall i :: 0 <= i < n && t[i].year == year ==> Selected(SelectPrefix(t, year, n), i)
  {
    if n > 0 {
      SelectPrefixComplete(t, year, n - 1);
      var before := SelectPrefix(t, year, n - 1);
      var s := SelectPrefix(t, year, n);
      forall i | 0 <= i < n && t[i].year == year ensures Selected(s, i) {
        if i < n - 1 {
          assert Selected(before, i);
          var k :| 0 <= k < |before| && before[k].index == i;
          assert s[k] == before[k];
        } else {
          assert s[|before|].index == i;
        }
      }
    }
  }

  /** A year slice is empty exactly when no row has that year. */
  lemma SelectYearEmpty(t: seq<Row>, year: int)
    ensures |SelectYear(t, year)| == 0 <==> forall i :: 0 <= i < |t| ==> t[i].year != year
  {
    var s := SelectYear(t, year);
    if |s| > 0 {
      assert t[s[0].index].year == year;
    }
  }

  /** The population the previous-year slice holds at position `i`, or 0
      when it has no such row (`fill_value=0`). */
  function PopulationAt(prev: seq<Indexed>, i: nat): int
  {
    if i < |prev| then prev[i].row.population else 0
  }

  /** `selected.Population.sub(previous.Population, fill_value=0)` assigned
      as a new column of the selected slice: both slices walked in step,
      position by position. When the selected slice has rows, rows of the
      previous slice beyond its length have no row to land in and are
      dropped. (On an empty selected slice pandas would instead adopt the
      whole difference series as new rows; that case is not modelled.) */
  function Subtract(sel: seq<Indexed>, prev: seq<Indexed>): (d: seq<DiffRow>)
    ensures |d| == |sel|
    ensures forall i :: 0 <= i < |sel| ==>
      d[i].index == sel[i].index && d[i].row == sel[i].row &&
      d[i].difference == sel[i].row.population - PopulationAt(prev, i)
  {
    if |sel| == 0 then []
    else
      var head := if |prev| > 0 then prev[0].row.population else 0;
      var rest := if |prev| > 0 then prev[1..] else [];
      var tail := Subtract(sel[1..], rest);
      assert forall i :: 1 <= i < |sel| ==> PopulationAt(prev, i) == PopulationAt(rest, i - 1);
      [DiffRow(sel[0].index, sel[0].row, sel[0].row.population - head)] + tail
  }

  /** Ordered by difference, largest first. */
  predicate Descending(s: seq<DiffRow>)
  {
    forall i, j :: 0 <= i < j < |s| ==> s[i].difference >= s[j].difference
  }

  /** No two rows come from the same table row. */
  predicate DistinctIndices(s: seq<DiffRow>)
  {
    forall i, j :: 0 <= i < j < |s| ==> s[i].index != s[j].index
  }

  /** Inserts `x` in front of the first row whose difference it is not
      below. */
  function Insert(x: DiffRow, s: seq<DiffRow>): (r: seq<DiffRow>)
    requires Descending(s)
    ensures multiset(r) == multiset(s) + multiset{x}
    ensures |r| == |s| + 1 && (r[0] == x || (|s| > 0 && r[0] == s[0]))
    ensures Descending(r)
  {
    if |s| == 0 then [x]
    else if x.difference >= s[0].difference then [x] + s
    else
      var tail := Insert(x, s[1..]);
      assert s == [s[0]] + s[1..];
      ConsDescending(s[0], tail);
      [s[0]] + tail
  }

  /** A row no smaller than the head of a table sorted largest first can
      go in front of it. */
  lemma ConsDescending(h: DiffRow, tail: seq<DiffRow>)
    requires Descending(tail)
    requires |tail| > 0 ==> h.difference >= tail[0].difference
    ensures Descending([h] + tail)
  {
    var r := [h] + tail;
    forall i, j | 0 <= i < j < |r| ensures r[i].difference >= r[j].difference {
      assert r[j] == tail[j - 1];
      if i > 0 { assert r[i] == tail[i - 1]; }
    }
  }

  /** `sort_values(by="Population_difference", ascending=False)`: a
      rearrangement of the rows, in non-increasing order of difference. */
  function SortByDifference(s: seq<DiffRow>): (r: seq<DiffRow>)
    ensures |r| == |s|
    ensures multiset(r) == multiset(s)
    ensures forall e :: e in r ==> e in s
    ensures Descending(r)
  {
    if |s| == 0 then []
    else
      assert s == [s[0]] + s[1..];
      var r := Insert(s[0], SortByDifference(s[1..]));
      SameElements(r, s);
      r
  }

  /** Two rearrangements of each other hold the same rows. */
  lemma SameElements(a: seq<DiffRow>, b: seq<DiffRow>)
    requires multiset(a) == multiset(b)
    ensures forall e :: e in a ==> e in b
  {
    forall e | e in a ensures e in b {
      assert e in multiset(a);
    }
  }

  /** Inserting a row from another table row keeps the rows' origins
      distinct. */
  lemma {:induction false} InsertDistinct(x: DiffRow, s: seq<DiffRow>)
    requires Descending(s) && DistinctIndices(s)
    requires forall e :: e in s ==> e.index != x.index
    ensures DistinctIndices(Insert(x, s))
  {
    if |s| > 0 && x.difference < s[0].difference {
      var rest := s[1..];
      var tail := Insert(x, rest);
      assert forall e :: e in rest ==> e in s;
      InsertDistinct(x, rest);
      forall k | 0 <= k < |tail| ensures tail[k].index != s[0].index {
        assert tail[k] in multiset(rest) + multiset{x};
        if tail[k] != x {
          var m :| 0 <= m < |rest| && rest[m] == tail[k];
          assert s[m + 1] == tail[k];
        }
      }
      ConsDistinct(s[0], tail);
    }
  }

  lemma ConsDistinct(h: DiffRow, tail: seq<DiffRow>)
    requires DistinctIndices(tail)
    requires forall k :: 0 <= k < |tail| ==> tail[k].index != h.index
    ensures DistinctIndices([h] + tail)
  {
    var r := [h] + tail;
    forall i, j | 0 <= i < j < |r| ensures r[i].index != r[j].index {
      assert r[j] == tail[j - 1];
      if i > 0 { assert r[i] == tail[i - 1]; }
    }
  }

  /** Sorting keeps the rows' origins distinct. */
  lemma {:induction false} SortDistinct(s: seq<DiffRow>)
    requires DistinctIndices(s)
    ensures DistinctIndices(SortByDifference(s))
  {
    if |s| > 0 {
      SortDistinct(s[1..]);
      forall e | e in SortByDifference(s[1..]) ensures e.index != s[0].index {
        var m :| 0 <= m < |s[1..]| && s[1..][m] == e;
        assert s[m + 1] == e;
      }
      InsertDistinct(s[0], SortByDifference(s[1..]));
    }
  }

  /** `calculate_population_difference(input_df, year)`. */
  function CalculatePopulationDifference(t: seq<Row>, year: int): (r: seq<DiffRow>)
    ensures |r| == |SelectYear(t, year)|
    ensures Descending(r)
    ensures multiset(r) == multiset(Subtract(SelectYear(t, year), SelectYear(t, year - 1)))
    ensures forall e :: e in r ==> e.index < |t| && t[e.index] == e.row && e.row.year == year
    ensures DistinctIndices(r)
  {
    var d := Subtract(SelectYear(t, year), SelectYear(t, year - 1));
    DifferencesSound(t, year);
    SortDistinct(d);
    SortByDifference(d)
  }

  /** Before sorting, every row is a row of the requested year, tagged
      with its own position, and no table row appears twice. */
  lemma DifferencesSound(t: seq<Row>, year: int)
    ensures var d := Subtract(SelectYear(t, year), SelectYear(t, year - 1));
      && (forall e :: e in d ==> e.index < |t| && t[e.index] == e.row && e.row.year == year)
      && DistinctIndices(d)
  {
    var sel := SelectYear(t, year);
    var d := Subtract(sel, SelectYear(t, year - 1));
    forall e | e in d ensures e.index < |t| && t[e.index] == e.row && e.row.year == year {
      var k :| 0 <= k < |d| && d[k] == e;
      assert e.index == sel[k].index && e.row == sel[k].row;
    }
  }

  /** The difference table holds exactly the rows of the requested year:
      a table row is in it if and only if its year is that year. */
  lemma RowsOfYear(t: seq<Row>, year: int, i: nat)
    requires i < |t|
    ensures t[i].year == year <==>
      exists e :: e in CalculatePopulationDifference(t, year) && e.index == i
  {
    var r := CalculatePopulationDifference(t, year);
    var sel := SelectYear(t, year);
    var d := Subtract(sel, SelectYear(t, year - 1));
    if t[i].year == year {
      var k :| 0 <= k < |sel| && sel[k].index == i;
      assert d[k] in multiset(r);
    }
  }

  /** Every row of the difference table is the selected-year row at some
      position `k` of its slice, with the population of the previous-year
      row at that same position subtracted (none there: nothing
      subtracted). */
  lemma DifferenceByPosition(t: seq<Row>, year: int, e: DiffRow)
    requires e in CalculatePopulationDifference(t, year)
    ensures exists k :: IsPositionOf(t, year, k, e)
  {
    var sel, prev := SelectYear(t, year), SelectYear(t, year - 1);
    var d := Subtract(sel, prev);
    assert e in d;
    var k :| 0 <= k < |d| && d[k] == e;
    assert IsPositionOf(t, year, k, e);
  }

  /** `e` is row `k` of the selected-year slice, with the previous-year
      slice's population at `k` subtracted. */
  predicate IsPositionOf(t: seq<Row>, year: int, k: int, e: DiffRow)
  {
    var sel, prev := SelectYear(t, year), SelectYear(t, year - 1);
    && 0 <= k < |sel|
    && e.index == sel[k].index && e.row == sel[k].row
    && e.difference == sel[k].row.population - PopulationAt(prev, k)
  }

  /** A year with no previous year in the table: every difference is the
      row's own population. */
  lemma NoPreviousYear(t: seq<Row>, year: int)
    requires forall i :: 0 <= i < |t| ==> t[i].year != year - 1
    ensures forall e :: e in CalculatePopulationDifference(t, year) ==> e.difference == e.row.population
  {
    SelectYearEmpty(t, year - 1);
    forall e | e in CalculatePopulationDifference(t, year)
      ensures e.difference == e.row.population
    {
      DifferenceByPosition(t, year, e);
    }
  }

  /** The total population of the rows of a year. */
  function YearTotal(t: seq<Row>, year: int): int
  {
    PrefixTotal(t, year, |t|)
  }

  /** The total population of the given year among the first `n` rows. */
  function PrefixTotal(t: seq<Row>, year: int, n: nat): int
    requires n <= |t|
  {
    if n == 0 then 0
    else PrefixTotal(t, year, n - 1) + (if t[n - 1].year == year then t[n - 1].population else 0)
  }

  function PopulationSum(s: seq<Indexed>): int
  {
    if |s| == 0 then 0 else s[0].row.population + PopulationSum(s[1..])
  }

  function DifferenceSum(s: seq<DiffRow>): int
  {
    if |s| == 0 then 0 else s[0].difference + DifferenceSum(s[1..])
  }

  lemma {:induction false} PopulationSumAppend(s: seq<Indexed>, x: Indexed)
    ensures PopulationSum(s + [x]) == PopulationSum(s) + x.row.population
  {
    if |s| > 0 {
      assert (s + [x])[1..] == s[1..] + [x];
      PopulationSumAppend(s[1..], x);
    }
  }

  lemma {:induction false} SelectYearTotal(t: seq<Row>, year: int, n: nat)
    requires n <= |t|
    ensures PopulationSum(SelectPrefix(t, year, n)) == PrefixTotal(t, year, n)
  {
    if n > 0 {
      var before := SelectPrefix(t, year, n - 1);
      SelectYearTotal(t, year, n - 1);
      PopulationSumAppend(before, Indexed(n - 1, t[n - 1]));
    }
  }

  lemma {:induction false} SubtractSum(sel: seq<Indexed>, prev: seq<Indexed>)
    requires |prev| <= |sel|
    ensures DifferenceSum(Subtract(sel, prev)) == PopulationSum(sel) - PopulationSum(prev)
  {
    if |sel| > 0 {
      var rest := if |prev| > 0 then prev[1..] else [];
      SubtractSum(sel[1..], rest);
      assert Subtract(sel, prev)[1..] == Subtract(sel[1..], rest);
    }
  }

  lemma {:induction false} InsertSum(x: DiffRow, s: seq<DiffRow>)
    requires Descending(s)
    ensures DifferenceSum(Insert(x, s)) == x.difference + DifferenceSum(s)
  {
    if |s| > 0 && x.difference < s[0].difference {
      InsertSum(x, s[1..]);
      assert Insert(x, s)[1..] == Insert(x, s[1..]);
    }
  }

  lemma {:induction false} SortSum(s: seq<DiffRow>)
    ensures DifferenceSum(SortByDifference(s)) == DifferenceSum(s)
  {
    if |s| > 0 {
      SortSum(s[1..]);
      InsertSum(s[0], SortByDifference(s[1..]));
    }
  }

  /** When the previous year has no more rows than the selected one, the
      differences add up to the change in total population. */
  lemma TotalChange(t: seq<Row>, year: int)
    requires |SelectYear(t, year - 1)| <= |SelectYear(t, year)|
    ensures DifferenceSum(CalculatePopulationDifference(t, year)) ==
      YearTotal(t, year) - YearTotal(t, year - 1)
  {
    var sel, prev := SelectYear(t, year), SelectYear(t, year - 1);
    SortSum(Subtract(sel, prev));
    SubtractSum(sel, prev);
    SelectYearTotal(t, year, |t|);
    SelectYearTotal(t, year - 1, |t|);
  }

  /** In a well-formed table no state appears twice in a difference table:
      its row count is the number of states present that year. */
  lemma DistinctStates(t: seq<Row>, year: int)
    requires WellFormed(t)
    ensures forall i, j :: 0 <= i < j < |CalculatePopulationDifference(t, year)| ==>
      CalculatePopulationDifference(t, year)[i].row.state != CalculatePopulationDifference(t, year)[j].row.state
  {
    var r := CalculatePopulationDifference(t, year);
    forall i, j | 0 <= i < j < |r| ensures r[i].row.state != r[j].row.state {
      assert r[i] in r && r[j] in r;
      var p, q := r[i].index, r[j].index;
      if p < q {
        assert t[p].year == t[q].year;
      } else {
        assert t[q].year == t[p].year;
      }
    }
  }

  /** The population of the first row of `s` with the given state, 0 when
      there is none: what a subtraction matched by state would take. */
  function PopulationOfState(s: seq<Indexed>, state: string): int
  {
    if |s| == 0 then 0
    else if s[0].row.state == state then s[0].row.population
    else PopulationOfState(s[1..], state)
  }

  lemma {:induction false} PopulationOfStateAt(s: seq<Indexed>, k: nat)
    requires k < |s|
    requires forall j :: 0 <= j < k ==> s[j].row.state != s[k].row.state
    ensures PopulationOfState(s, s[k].row.state) == s[k].row.population
  {
    if k > 0 {
      PopulationOfStateAt(s[1..], k - 1);
    }
  }

  /** Matching by position agrees with matching by state when both year
      slices list the same states in the same order: then every difference
      is the state's population minus that same state's population a year
      earlier. */
  lemma PositionalIsByStateWhenAligned(t: seq<Row>, year: int, e: DiffRow)
    requires WellFormed(t)
    requires |SelectYear(t, year - 1)| == |SelectYear(t, year)|
    requires forall k :: 0 <= k < |SelectYear(t, year)| ==>
      SelectYear(t, year)[k].row.state == SelectYear(t, year - 1)[k].row.state
    requires e in CalculatePopulationDifference(t, year)
    ensures e.difference == e.row.population - PopulationOfState(SelectYear(t, year - 1), e.row.state)
  {
    var sel, prev := SelectYear(t, year), SelectYear(t, year - 1);
    DifferenceByPosition(t, year, e);
    var k :| IsPositionOf(t, year, k, e);
    forall j | 0 <= j < k ensures prev[j].row.state != prev[k].row.state {
      assert prev[j].index < prev[k].index;
      assert t[prev[j].index].year == t[prev[k].index].year;
    }
    PopulationOfStateAt(prev, k);
  }

  /** A two-year table whose 2011 rows list B before A while its 2010
      rows list A before B. */
  function MisalignedTable(): seq<Row>
  {
    [Row("A", "AA", 2010, 10), Row("B", "BB", 2010, 20),
     Row("B", "BB", 2011, 25), Row("A", "AA", 2011, 12)]
  }

  /** The example table has each state once per year. */
  lemma MisalignedTableWellFormed()
    ensures WellFormed(MisalignedTable())
  {
  }

  /** The example's year slices, positions as in the table. */
  lemma MisalignedSlices()
    ensures SelectYear(MisalignedTable(), 2010) ==
      [Indexed(0, Row("A", "AA", 2010, 10)), Indexed(1, Row("B", "BB", 2010, 20))]
    ensures SelectYear(MisalignedTable(), 2011) ==
      [Indexed(2, Row("B", "BB", 2011, 25)), Indexed(3, Row("A", "AA", 2011, 12))]
  {
    var t := MisalignedTable();
    assert SelectPrefix(t, 2010, 1) == [Indexed(0, t[0])];
    assert SelectPrefix(t, 2010, 2) == [Indexed(0, t[0]), Indexed(1, t[1])];
    assert SelectPrefix(t, 2010, 4) == SelectPrefix(t, 2010, 2);
    assert SelectPrefix(t, 2011, 2) == [];
    assert SelectPrefix(t, 2011, 3) == [Indexed(2, t[2])];
    assert SelectPrefix(t, 2011, 4) == [Indexed(2, t[2]), Indexed(3, t[3])];
  }

  /** When the two slices list their states in different orders, a state's
      difference is taken against another state's population: state B grew
      by 5 (from 20 to 25) but its difference reads 15, its population minus
      state A's. */
  lemma MisalignedSlicesExample()
    ensures var b11 := Row("B", "BB", 2011, 25);
      && WellFormed(MisalignedTable())
      && DiffRow(2, b11, 15) in CalculatePopulationDifference(MisalignedTable(), 2011)
      && b11.population - PopulationOfState(SelectYear(MisalignedTable(), 2010), "B") == 5
  {
    var t := MisalignedTable();
    MisalignedTableWellFormed();
    MisalignedSlices();
    var d := Subtract(SelectYear(t, 2011), SelectYear(t, 2010));
    MisalignedFirstDifference(d, SelectYear(t, 2011), SelectYear(t, 2010));
    assert d[0] in multiset(d);
  }

  /** Subtracting the example's slices position by position. */
  lemma MisalignedFirstDifference(d: seq<DiffRow>, sel: seq<Indexed>, prev: seq<Indexed>)
    requires sel == [Indexed(2, Row("B", "BB", 2011, 25)), Indexed(3, Row("A", "AA", 2011, 12))]
    requires prev == [Indexed(0, Row("A", "AA", 2010, 10)), Indexed(1, Row("B", "BB", 2010, 20))]
    requires d == Subtract(sel, prev)
    ensures d[0] == DiffRow(2, Row("B", "BB", 2011, 25), 15)
    ensures PopulationOfState(prev, "B") == 20
  {
  }
}
