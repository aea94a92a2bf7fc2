/** report.py: the data behind the report, without the rendering: the
    wrapped city labels of the salary chart (`format_cities_labels`), the
    rows of the year and city sheets (`add_years_statistics`,
    `add_cities_statistics`) and the slices of the share pie
    (`plot_vacancies_by_cities_chart`).
 */
module Report {
  import opened Results
  import opened Text
  import opened Seqs
  import opened OrderedMaps
  import opened Statistics

  // ---- format_cities_labels --------------------------------------------------

  /** A character that occurs is counted at least once. */
  lemma {:induction false} CountCharPresent(s: string, c: char)
    requires c in s
    ensures CountChar(s, c) >= 1
    decreases |s|
  {
    if s[0] != c {
      CountCharPresent(s[1..], c);
    }
  }

  /** The hyphen step: a name with `'-'` keeps its first three pieces, each
      hyphen followed by a line break; the pieces after the third are
      dropped. */
  function HyphenStep(city: string): (r: string)
    ensures '-' !in city ==> r == city
    ensures '-' in city ==>
      var parts := SplitOn(city, "-");
      |parts| >= 2 && r == JoinOn(parts[..Kept(|parts|)], "-\n")
  {
    if '-' in city then
      var parts := SplitOn(city, "-");
      CountCharPresent(city, '-');
      SplitCharPieces(city, '-');
      var kept := parts[..Kept(|parts|)];
      var wrapped := parts[0] + "-\n" + parts[1];
      if |parts| > 2 then
        JoinThreePieces(kept, "-\n");
        assert kept[0] == parts[0] && kept[1] == parts[1] && kept[2] == parts[2];
        wrapped + "-\n" + parts[2]
      else
        JoinTwoPieces(kept, "-\n");
        assert kept[0] == parts[0] && kept[1] == parts[1];
        wrapped
    else city
  }

  /** How many hyphen pieces a label keeps: `parts[:3]`. */
  function Kept(n: nat): nat {
    if n < 3 then n else 3
  }

  /** One label: the hyphen step, then every space made a line break. */
  function FormatCityLabel(city: string): (r: string)
    ensures r == ReplaceChar(HyphenStep(city), ' ', '\n')
    ensures '-' in city ==>
      var parts := SplitOn(city, "-");
      r == ReplaceChar(JoinOn(parts[..Kept(|parts|)], "-\n"), ' ', '\n')
    ensures ' ' !in r
    ensures '-' !in city ==> r == ReplaceChar(city, ' ', '\n')
    ensures '-' !in city && ' ' !in city ==> r == city
  {
    var wrapped := HyphenStep(city);
    JoinSplitIsReplace(wrapped, ' ', '\n');
    if ' ' in wrapped then JoinOn(SplitOn(wrapped, " "), "\n") else wrapped
  }

  /** `format_cities_labels`: one label per city, in order. */
  function FormatCitiesLabels(cities: seq<string>): (r: seq<string>)
    ensures |r| == |cities|
    ensures forall i | 0 <= i < |cities| :: r[i] == FormatCityLabel(cities[i])
  {
    seq(|cities|, i requires 0 <= i < |cities| => FormatCityLabel(cities[i]))
  }

  predicate NotNewline(c: char) {
    c != '\n'
  }

  /** A line break after a hyphen disappears once line breaks are removed. */
  lemma DropBreak(a: string, b: string)
    ensures Filter(a + "-\n" + b, NotNewline) == Filter(a + "-" + b, NotNewline)
  {
    assert Filter("-\n", NotNewline) == "-" by {
      assert "-\n"[..1] == "-" && "-"[..0] == [];
    }
    assert Filter("-", NotNewline) == "-" by {
      assert "-"[..0] == [];
    }
    assert a + "-\n" + b == a + ("-\n" + b);
    assert a + "-" + b == a + ("-" + b);
    FilterAppend(a, "-\n" + b, NotNewline);
    FilterAppend("-\n", b, NotNewline);
    FilterAppend(a, "-" + b, NotNewline);
    FilterAppend("-", b, NotNewline);
  }

  /** Two line breaks after hyphens disappear as well. */
  lemma DropBreaks(a: string, b: string, c: string)
    ensures Filter(a + "-\n" + b + "-\n" + c, NotNewline) == Filter(a + "-" + b + "-" + c, NotNewline)
  {
    var x, y := a + "-\n" + b, a + "-" + b;
    DropBreak(a, b);
    DropBreak(x, c);
    assert x + "-" + c == x + ("-" + c);
    assert y + "-" + c == y + ("-" + c);
    FilterAppend(x, "-" + c, NotNewline);
    FilterAppend(y, "-" + c, NotNewline);
  }

  /** Joining two or more pieces puts the first one and a separator in
      front of the join of the rest. */
  lemma JoinStep(parts: seq<string>, sep: string)
    requires |parts| >= 2
    ensures JoinOn(parts, sep) == parts[0] + sep + JoinOn(parts[1..], sep)
  {
  }

  /** Two pieces joined. */
  lemma JoinTwoPieces(parts: seq<string>, sep: string)
    requires |parts| == 2
    ensures JoinOn(parts, sep) == parts[0] + sep + parts[1]
  {
    JoinStep(parts, sep);
    assert JoinOn(parts[1..], sep) == parts[1];
  }

  /** Three pieces joined. */
  lemma JoinThreePieces(parts: seq<string>, sep: string)
    requires |parts| == 3
    ensures JoinOn(parts, sep) == parts[0] + sep + parts[1] + sep + parts[2]
  {
    var tail := parts[1..];
    JoinStep(parts, sep);
    JoinTwoPieces(tail, sep);
    assert tail[0] == parts[1] && tail[1] == parts[2];
    assert parts[0] + sep + (parts[1] + sep + parts[2]) == parts[0] + sep + parts[1] + sep + parts[2];
  }

  /** More than three pieces joined: the first three, each followed by the
      separator, then the join of the rest. */
  lemma JoinMorePieces(parts: seq<string>, sep: string)
    requires |parts| > 3
    ensures JoinOn(parts, sep) == (parts[0] + sep + parts[1] + sep + parts[2] + sep) + JoinOn(parts[3..], sep)
  {
    var t1 := parts[1..];
    var t2 := t1[1..];
    assert t2[1..] == parts[3..];
    JoinStep(parts, sep);
    JoinStep(t1, sep);
    JoinStep(t2, sep);
  }

  /** A name with one or two hyphens loses nothing: without the line breaks
      the label is the name. */
  lemma HyphenStepKeepsName(city: string)
    requires '-' in city && CountChar(city, '-') <= 2
    ensures Filter(HyphenStep(city), NotNewline) == Filter(city, NotNewline)
  {
    var parts := SplitOn(city, "-");
    CountCharPresent(city, '-');
    SplitCharPieces(city, '-');
    JoinSplit(city, "-");
    if |parts| == 2 {
      JoinTwoPieces(parts, "-");
      DropBreak(parts[0], parts[1]);
    } else {
      JoinThreePieces(parts, "-");
      DropBreaks(parts[0], parts[1], parts[2]);
    }
  }

  /** A name with three or more hyphens keeps only its first three pieces:
      they and the hyphen after them start the name. */
  lemma HyphenStepDropsRest(city: string)
    requires CountChar(city, '-') >= 3
    ensures var parts := SplitOn(city, "-");
            |parts| >= 4
            && Filter(HyphenStep(city), NotNewline) == Filter(parts[0] + "-" + parts[1] + "-" + parts[2], NotNewline)
            && parts[0] + "-" + parts[1] + "-" + parts[2] + "-" <= city
  {
    var parts := SplitOn(city, "-");
    SplitCharPieces(city, '-');
    if '-' !in city {
      CountCharAbsent(city, '-');
    }
    JoinSplit(city, "-");
    JoinMorePieces(parts, "-");
    DropBreaks(parts[0], parts[1], parts[2]);
  }

  // ---- add_years_statistics --------------------------------------------------

  /** The rows of the year sheet: for each key of the first series, the key
      and the value at that position in every series, in series order. No
      series is an IndexError (`years[0]`), and so is a series shorter than
      the first. */
  function YearsRows<K, V>(series: seq<Dict<K, V>>): (r: Result<seq<(K, seq<V>)>>)
    ensures r.Ok? <==> |series| > 0 && forall j | 0 <= j < |series| :: |series[j]| >= |series[0]|
    ensures r.Fail? ==> r.error == IndexError
    ensures r.Ok? ==> |r.value| == |series[0]|
    ensures r.Ok? ==> forall i | 0 <= i < |r.value| ::
      r.value[i].0 == Keys(series[0])[i] && |r.value[i].1| == |series|
      && forall j | 0 <= j < |series| :: r.value[i].1[j] == Values(series[j])[i]
  {
    if |series| == 0 then Fail(IndexError)
    else if exists j | 0 <= j < |series| :: |series[j]| < |series[0]| then Fail(IndexError)
    else
      var n := |series[0]|;
      Ok(seq(n, i requires 0 <= i < n =>
        (series[0][i].0, seq(|series|, j requires 0 <= j < |series| => series[j][i].1))))
  }

  /** Column `j` of the rows. */
  function Column<K, V>(rows: seq<(K, seq<V>)>, j: nat): (r: seq<V>)
    requires forall i | 0 <= i < |rows| :: j < |rows[i].1|
    ensures |r| == |rows|
  {
    seq(|rows|, i requires 0 <= i < |rows| => rows[i].1[j])
  }

  /** The sheet is the series turned on its side: its first column is the
      keys of the first series and its value column `j` is the values of
      series `j`, cut to the length of the first series. */
  lemma YearsRowsColumns<K, V>(series: seq<Dict<K, V>>, j: nat)
    requires YearsRows(series).Ok? && j < |series|
    ensures Keys(YearsRows(series).value) == Keys(series[0])
    ensures Column(YearsRows(series).value, j) == Values(series[j])[..|series[0]|]
  {
  }

  /** The four merged year maps in the order `join_statistics_by_years`
      builds them, counts read as integers. */
  function YearSeries(t: YearTables): (r: seq<Dict<string, int>>)
    ensures |r| == 4
    ensures r[0] == t.salaryAll && r[1] == t.numberAll && r[2] == t.salaryJob && r[3] == t.numberJob
  {
    [t.salaryAll, t.numberAll, t.salaryJob, t.numberJob]
  }

  /** Four maps of one length give one row per item of the first, holding
      the item's key and the four values at its position. */
  lemma YearsRowsOfTables(t: YearTables)
    requires |t.numberAll| == |t.salaryAll| && |t.salaryJob| == |t.salaryAll| && |t.numberJob| == |t.salaryAll|
    ensures YearsRows(YearSeries(t)).Ok?
    ensures var rows := YearsRows(YearSeries(t)).value;
            |rows| == |t.salaryAll|
            && forall i | 0 <= i < |rows| ::
                 rows[i] == (t.salaryAll[i].0, [t.salaryAll[i].1, t.numberAll[i].1, t.salaryJob[i].1, t.numberJob[i].1])
  {
    var series := YearSeries(t);
    assert forall j | 0 <= j < 4 :: |series[j]| == |t.salaryAll|;
    var rows := YearsRows(series).value;
    forall i | 0 <= i < |rows|
      ensures rows[i] == (t.salaryAll[i].0, [t.salaryAll[i].1, t.numberAll[i].1, t.salaryJob[i].1, t.numberJob[i].1])
    {
      var row: seq<int> := [t.salaryAll[i].1, t.numberAll[i].1, t.salaryJob[i].1, t.numberJob[i].1];
      assert |rows[i].1| == 4;
      assert forall j | 0 <= j < 4 :: rows[i].1[j] == Values(series[j])[i] == row[j];
      assert rows[i].1 == row;
      assert rows[i].0 == Keys(series[0])[i];
    }
  }

  /** The year sheet of the merged year maps: one row per year in input
      order, holding that year's four statistics in the order of the maps. */
  lemma YearsRowsOfJoin(d: Dict<string, YearStats>)
    requires DistinctKeys(d)
    ensures YearsRows(YearSeries(JoinByYears(d))).Ok?
    ensures var rows := YearsRows(YearSeries(JoinByYears(d))).value;
            |rows| == |d|
            && forall i | 0 <= i < |d| ::
                 rows[i] == (d[i].0, [d[i].1.salaryAll, d[i].1.numberAll, d[i].1.salaryJob, d[i].1.numberJob])
  {
    JoinByYearsFacts(d);
    YearsRowsOfTables(JoinByYears(d));
  }

  // ---- add_cities_statistics -------------------------------------------------

  /** One row of the city sheet: a salary item, then a share item. */
  datatype CityRow = CityRow(city: string, salary: int, shareCity: string, share: real)

  /** The rows of the city sheet: row `i` pairs the `i`-th salary item with
      the `i`-th share item; a share table shorter than the salary table is
      an IndexError. */
  function CitiesRows(salary: Dict<string, int>, share: Dict<string, real>): (r: Result<seq<CityRow>>)
    ensures r.Ok? <==> |share| >= |salary|
    ensures r.Fail? ==> r.error == IndexError
    ensures r.Ok? ==> |r.value| == |salary|
  {
    if |share| < |salary| then Fail(IndexError)
    else Ok(seq(|salary|, i requires 0 <= i < |salary| =>
      CityRow(salary[i].0, salary[i].1, share[i].0, share[i].1)))
  }

  /** `values[0:2]` of each row. */
  function SalaryTable(rows: seq<CityRow>): (r: Dict<string, int>)
    ensures |r| == |rows|
  {
    seq(|rows|, i requires 0 <= i < |rows| => (rows[i].city, rows[i].salary))
  }

  /** `values[2:]` of each row. */
  function ShareTable(rows: seq<CityRow>): (r: Dict<string, real>)
    ensures |r| == |rows|
  {
    seq(|rows|, i requires 0 <= i < |rows| => (rows[i].shareCity, rows[i].share))
  }

  /** Splitting the rows gives back the salary table whole and the share
      table cut to the salary table's length. */
  lemma CitiesTablesSplit(salary: Dict<string, int>, share: Dict<string, real>)
    requires CitiesRows(salary, share).Ok?
    ensures SalaryTable(CitiesRows(salary, share).value) == salary
    ensures ShareTable(CitiesRows(salary, share).value) == share[..|salary|]
  {
  }

  /** Tables of the same length fill the sheet whole. */
  lemma CitiesRowsSameLength(salary: Dict<string, int>, share: Dict<string, real>)
    requires |salary| == |share|
    ensures CitiesRows(salary, share).Ok?
    ensures SalaryTable(CitiesRows(salary, share).value) == salary
    ensures ShareTable(CitiesRows(salary, share).value) == share
  {
    CitiesTablesSplit(salary, share);
    assert share[..|salary|] == share;
  }

  /** The city statistics always fill the sheet: both tables have the same
      length, so the rows hold both of them whole. */
  lemma CitiesRowsOfStatistics(vacs: seq<Vacancy>)
    requires AreasAreText(vacs)
    ensures var t := StatisticsByCities(vacs).value;
            CitiesRows(t.0, t.1).Ok?
            && SalaryTable(CitiesRows(t.0, t.1).value) == t.0
            && ShareTable(CitiesRows(t.0, t.1).value) == t.1
  {
    var t := StatisticsByCities(vacs).value;
    StatisticsByCitiesFacts(vacs);
    CitiesRowsSameLength(t.0, t.1);
  }

  // ---- plot_vacancies_by_cities_chart ----------------------------------------

  /** Adding a first element adds it to the sum. */
  lemma {:induction false} SumCons(x: real, xs: seq<real>)
    ensures Sum([x] + xs) == x + Sum(xs)
    decreases |xs|
  {
    if |xs| > 0 {
      var n := |xs| - 1;
      assert ([x] + xs)[..|xs|] == [x] + xs[..n];
      SumCons(x, xs[..n]);
    }
  }

  /** The pie: an `'Другие'` slice in front holding what the listed cities
      leave of the whole, then the cities and their shares in order. */
  function PieData(share: Dict<string, real>): (r: (seq<string>, seq<real>))
    ensures |r.0| == |r.1| == |share| + 1
    ensures r.0[0] == "Другие" && r.0[1..] == Keys(share) && r.1[1..] == Values(share)
    ensures Sum(r.1) == 1.0
  {
    var shares := Values(share);
    SumCons(1.0 - Sum(shares), shares);
    (["Другие"] + Keys(share), [1.0 - Sum(shares)] + shares)
  }
}
