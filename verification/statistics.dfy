/** statistics.py: building vacancies from row dicts (`create_vacancy`), the
    per-year record (`get_statistics_by_year`, `get_salary_by_age`), merging
    the per-year records (`join_statistics_by_years`) and the city tables
    (`count_vacancies_by_cities`, `get_statistics_by_cities`).
 */
module Statistics {
  import opened Results
  import opened Text
  import opened Numbers
  import opened OrderedMaps
  import opened Seqs
  import opened CsvReader
  import opened Salaries
  import opened Ranking

  /** A vacancy of the statistics pipeline: the salary is already the mean in
      roubles and the publication date is reduced to its year. Name and area
      keep the shape `csv_filer` gave them. */
  datatype Vacancy = Vacancy(name: Field, salary: real, areaName: Field, year: int)

  // ---- create_vacancy -------------------------------------------------------

  /** `int(published_at[0:4])`: the first four characters read as an integer;
      a list of lines cannot be converted (TypeError). */
  function YearOf(published: Field): (r: Result<int>)
    ensures published.Lines? ==> r == Fail(TypeError)
    ensures published.Text? ==> r == ParseInt(Prefix(published.text, 4))
  {
    if published.Lines? then Fail(TypeError) else ParseInt(Prefix(published.text, 4))
  }

  /** An ISO timestamp starting with four digits has those digits as its year. */
  lemma YearOfTimestamp(published: string)
    requires |published| >= 4 && AllDigits(published[..4])
    ensures YearOf(Text(published)) == Ok(DigitsValue(published[..4]))
  {
    assert IsDigit(published[0]);
  }

  /** `create_vacancy`: the salary bounds and currency are looked up and
      converted first, then name, area and publication date; the first
      missing key or failing conversion is the error. */
  function CreateVacancy(d: Dict<string, Field>): (r: Result<Vacancy>)
    ensures "salary_from" !in Keys(d) ==> r == Fail(KeyError)
    ensures r.Ok? ==> Get(d, "name") == Some(r.value.name)
    ensures r.Ok? ==> Get(d, "area_name") == Some(r.value.areaName)
    ensures r.Ok? ==> "published_at" in Keys(d) && YearOf(Lookup(d, "published_at")) == Ok(r.value.year)
    ensures r.Ok? ==> "salary_from" in Keys(d) && "salary_to" in Keys(d) && "salary_currency" in Keys(d)
                      && ConvertToRub(Lookup(d, "salary_from"), Lookup(d, "salary_to"),
                                      Lookup(d, "salary_currency")) == Ok(r.value.salary)
  {
    var from :- At(d, "salary_from");
    var to :- At(d, "salary_to");
    var code :- At(d, "salary_currency");
    var salary :- ConvertToRub(from, to, code);
    var name :- At(d, "name");
    var area :- At(d, "area_name");
    var published :- At(d, "published_at");
    var year :- YearOf(published);
    Ok(Vacancy(name, salary, area, year))
  }

  /** Through `csv_filer`, a vacancy's name and area are the cleaned cells
      under the `name` and `area_name` titles of its row. */
  lemma CreateVacancyFromRow(titles: Row, row: Row, i: nat, j: nat)
    requires Distinct(titles) && i < |titles| && j < |titles| && |row| == |titles|
    requires titles[i] == "name" && titles[j] == "area_name"
    requires CreateVacancy(RowDict(titles, row)).Ok?
    ensures CreateVacancy(RowDict(titles, row)).value.name == CleanField(row[i])
    ensures CreateVacancy(RowDict(titles, row)).value.areaName == CleanField(row[j])
  {
    RowDictLookup(titles, row, i);
    RowDictLookup(titles, row, j);
  }

  // ---- get_salary_by_age ----------------------------------------------------

  function Sum(xs: seq<real>): real {
    if |xs| == 0 then 0.0 else Sum(xs[..|xs| - 1]) + xs[|xs| - 1]
  }

  /** `[float(vac.salary) for vac in vacancies]`. */
  function SalariesOf(vacs: seq<Vacancy>): (r: seq<real>)
    ensures |r| == |vacs|
    ensures forall i | 0 <= i < |vacs| :: r[i] == vacs[i].salary
  {
    seq(|vacs|, i requires 0 <= i < |vacs| => vacs[i].salary)
  }

  /** `get_salary_by_age`: 0 for no vacancies, otherwise the floor of the
      mean salary. */
  function AverageSalary(salaries: seq<real>): (r: int)
    ensures |salaries| == 0 ==> r == 0
    ensures |salaries| > 0 ==> r as real <= Sum(salaries) / |salaries| as real < r as real + 1.0
  {
    if |salaries| == 0 then 0 else (Sum(salaries) / |salaries| as real).Floor
  }

  /** The bounds determine the average: any integer meeting them is it. */
  lemma AverageSalaryUnique(salaries: seq<real>, m: int)
    requires |salaries| > 0
    requires m as real <= Sum(salaries) / |salaries| as real < m as real + 1.0
    ensures AverageSalary(salaries) == m
  {
  }

  /** The unit test: salaries 1000, 1000 and 1200 average to 1066. */
  lemma AverageSalaryExample()
    ensures AverageSalary([1000.0, 1000.0, 1200.0]) == 1066
  {
    var s := [1000.0, 1000.0, 1200.0];
    assert s[..2][..1] == [1000.0] && s[..2] == [1000.0, 1000.0];
    assert [1000.0][..0] == [];
    assert Sum([1000.0]) == 1000.0;
    assert Sum([1000.0, 1000.0]) == 2000.0;
    assert Sum(s) == 3200.0;
    AverageSalaryUnique(s, 1066);
  }

  // ---- count_vacancies_by_cities --------------------------------------------

  /** Every area is a single text, so it can be a dict key. */
  predicate AreasAreText(vacs: seq<Vacancy>) {
    forall i | 0 <= i < |vacs| :: vacs[i].areaName.Text?
  }

  function AreaNames(vacs: seq<Vacancy>): (r: seq<string>)
    requires AreasAreText(vacs)
    ensures |r| == |vacs|
    ensures forall i | 0 <= i < |vacs| :: vacs[i].areaName == Text(r[i])
  {
    seq(|vacs|, i requires 0 <= i < |vacs| => vacs[i].areaName.text)
  }

  /** `count_vacancies_by_cities`: the number of vacancies per area, areas in
      first-occurrence order. An area that is a list of lines is unhashable,
      so the membership test on the dict keys raises TypeError. */
  function CountByCities(vacs: seq<Vacancy>): (r: Result<Dict<string, nat>>)
    ensures r.Ok? <==> AreasAreText(vacs)
    ensures r.Fail? ==> r.error == TypeError
  {
    if AreasAreText(vacs) then Ok(Tally(AreaNames(vacs))) else Fail(TypeError)
  }

  /** The city counts form a dict whose keys are the distinct areas in order
      of first appearance, whose values count each area's vacancies, and
      whose values add up to the number of vacancies; no vacancies give `{}`. */
  lemma CountByCitiesFacts(vacs: seq<Vacancy>, city: string)
    requires AreasAreText(vacs)
    ensures DistinctKeys(CountByCities(vacs).value)
    ensures Keys(CountByCities(vacs).value) == FirstOccurrences(AreaNames(vacs))
    ensures Get(CountByCities(vacs).value, city)
         == if city in AreaNames(vacs) then Some(multiset(AreaNames(vacs))[city]) else None
    ensures SumValues(CountByCities(vacs).value) == |vacs|
    ensures |vacs| == 0 ==> CountByCities(vacs) == Ok([])
  {
    var names := AreaNames(vacs);
    TallyDistinct(names);
    TallyKeys(names);
    TallyCounts(names, city);
    TallySum(names);
  }

  /** The unit test: two vacancies in one city and one in another give
      `{first: 2, second: 1}`. */
  lemma CountByCitiesExample(a: string, b: string, s0: real, s1: real, s2: real)
    requires a != b
    ensures CountByCities([Vacancy(Text("Программист"), s0, Text(a), 2022),
                           Vacancy(Text("Аналитик"), s1, Text(a), 2021),
                           Vacancy(Text("Дизайнер"), s2, Text(b), 2022)]) == Ok([(a, 2), (b, 1)])
  {
    var vacs := [Vacancy(Text("Программист"), s0, Text(a), 2022),
                 Vacancy(Text("Аналитик"), s1, Text(a), 2021),
                 Vacancy(Text("Дизайнер"), s2, Text(b), 2022)];
    assert AreasAreText(vacs);
    var names := AreaNames(vacs);
    assert CountByCities(vacs) == Ok(Tally(names));
    assert names == [a, a, b];
    TallyTwoOne(a, b);
  }

  /** Counting `[a, a, b]`. */
  lemma TallyTwoOne(a: string, b: string)
    requires a != b
    ensures Tally([a, a, b]) == [(a, 2), (b, 1)]
  {
    var names := [a, a, b];
    assert names[..2][..1] == [a] && names[..2] == [a, a];
    var d1: Dict<string, nat> := [(a, 1)];
    var d2: Dict<string, nat> := [(a, 2)];
    assert Tally([a]) == d1 by {
      assert [a][..0] == [];
      assert Tally([a]) == Increment([], a);
    }
    assert Tally([a, a]) == d2 by {
      assert Tally([a, a]) == Increment(d1, a);
      assert Get(d1, a) == Some(1);
      assert Put<string, nat>(d1, a, 2) == d2;
    }
    assert Tally(names) == Increment(d2, b);
    assert Get(d2, b) == None by {
      assert d2[1..] == [];
    }
    assert Put<string, nat>(d2, b, 1) == [(a, 2), (b, 1)] by {
      assert d2[1..] == [];
    }
  }

  // ---- get_statistics_by_cities ----------------------------------------------

  /** Python's `round(y)`: the nearest integer, ties to the even one. */
  function RoundHalfEven(y: real): (r: int)
    ensures r as real - 0.5 <= y <= r as real + 0.5
    ensures 0.0 <= y ==> 0 <= r
    ensures y <= 10000.0 ==> r <= 10000
  {
    var f := y.Floor;
    var frac := y - f as real;
    if frac < 0.5 then f
    else if frac > 0.5 then f + 1
    else if f % 2 == 0 then f else f + 1
  }

  /** `round(x, 4)`, taken on the exact value: a multiple of 1/10000 within
      half a step of `x`; shares in [0, 1] stay in [0, 1]. */
  function Round4(x: real): (r: real)
    ensures x - 0.00005 <= r <= x + 0.00005
    ensures (r * 10000.0).Floor as real == r * 10000.0
    ensures 0.0 <= x <= 1.0 ==> 0.0 <= r <= 1.0
  {
    var n := RoundHalfEven(x * 10000.0);
    Round4Bounds(x, n);
    n as real / 10000.0
  }

  /** The bounds of `Round4`, from those of the rounded integer. */
  lemma Round4Bounds(x: real, n: int)
    requires n as real - 0.5 <= x * 10000.0 <= n as real + 0.5
    requires 0.0 <= x * 10000.0 ==> 0 <= n
    requires x * 10000.0 <= 10000.0 ==> n <= 10000
    ensures x - 0.00005 <= n as real / 10000.0 <= x + 0.00005
    ensures ((n as real / 10000.0) * 10000.0).Floor == n
    ensures 0.0 <= x <= 1.0 ==> 0.0 <= n as real / 10000.0 <= 1.0
  {
    assert (n as real / 10000.0) * 10000.0 == n as real;
  }

  /** A city qualifies with at least `minCount` vacancies. */
  function AtLeast(minCount: int): ((string, nat)) -> bool {
    (c: (string, nat)) => c.1 >= minCount
  }

  /** The vacancies of one city. */
  function InCity(city: string): Vacancy -> bool {
    (v: Vacancy) => v.areaName == Text(city)
  }

  /** `{city: round(n / total, 4) ...}` over the qualifying cities. */
  function Shares(qual: Dict<string, nat>, total: nat): (r: Dict<string, real>)
    requires |qual| > 0 ==> total > 0
    ensures Keys(r) == Keys(qual)
    ensures forall i | 0 <= i < |qual| :: r[i].1 == Round4(qual[i].1 as real / total as real)
    ensures forall i | 0 <= i < |qual| ::
      var share := qual[i].1 as real / total as real;
      share - 0.00005 <= r[i].1 <= share + 0.00005 && (r[i].1 * 10000.0).Floor as real == r[i].1 * 10000.0
  {
    var r := seq(|qual|, i requires 0 <= i < |qual| => (qual[i].0, Round4(qual[i].1 as real / total as real)));
    assert forall i | 0 <= i < |qual| :: r[i].1 == Round4(qual[i].1 as real / total as real);
    r
  }

  /** The salary level of each qualifying city: the floor of its mean salary. */
  function SalaryLevels(qual: Dict<string, nat>, vacs: seq<Vacancy>): (r: Dict<string, int>)
    ensures Keys(r) == Keys(qual)
    ensures forall i | 0 <= i < |qual| ::
      r[i].1 == AverageSalary(SalariesOf(Filter(vacs, InCity(qual[i].0))))
    ensures forall i | 0 <= i < |qual| ::
      var own := SalariesOf(Filter(vacs, InCity(qual[i].0)));
      (|own| == 0 ==> r[i].1 == 0) &&
      (|own| > 0 ==> r[i].1 as real <= Sum(own) / |own| as real < r[i].1 as real + 1.0)
  {
    seq(|qual|, i requires 0 <= i < |qual| =>
      (qual[i].0, AverageSalary(SalariesOf(Filter(vacs, InCity(qual[i].0))))))
  }

  function IntRank(x: int): real {
    x as real
  }

  function RealRank(x: real): real {
    x
  }

  /** The cities holding at least `floor(total * 0.01)` vacancies, in count order. */
  function Qualifying(vacs: seq<Vacancy>): (r: Dict<string, nat>)
    requires AreasAreText(vacs)
    ensures |r| > 0 ==> |vacs| > 0
  {
    var counts := Tally(AreaNames(vacs));
    assert |vacs| == 0 ==> counts == [];
    Filter(counts, AtLeast(|vacs| / 100))
  }

  /** `get_statistics_by_cities`: (salary level by city, share of vacancies by
      city), each the top 10 of a stable descending sort. */
  function StatisticsByCities(vacs: seq<Vacancy>): (r: Result<(Dict<string, int>, Dict<string, real>)>)
    ensures r.Ok? <==> AreasAreText(vacs)
    ensures r.Ok? ==> DistinctKeys(r.value.0) && DistinctKeys(r.value.1)
  {
    if !AreasAreText(vacs) then Fail(TypeError)
    else
      var qual := Qualifying(vacs);
      var proportion := FromPairs(Shares(qual, |vacs|));
      var salaryLevel := FromPairs(SalaryLevels(qual, vacs));
      Ok((SortCities(salaryLevel, 10, IntRank), SortCities(proportion, 10, RealRank)))
  }

  /** Filtering a dict keeps its keys distinct. */
  lemma {:induction false} FilterDistinctKeys<K(!new), V>(d: Dict<K, V>, p: ((K, V)) -> bool)
    requires DistinctKeys(d)
    ensures DistinctKeys(Filter(d, p))
  {
    if |d| > 0 {
      var init := d[..|d| - 1];
      var last := d[|d| - 1];
      LastKeyFresh(d);
      FilterDistinctKeys(init, p);
      if p(last) {
        FilterKeysAmong(init, p, last.0);
        DistinctAppend(Keys(Filter(init, p)), last.0);
        assert Keys(Filter(init, p) + [last]) == Keys(Filter(init, p)) + [last.0];
      }
    }
  }

  /** A key missing from a dict is missing from any filter of it. */
  lemma FilterKeysAmong<K, V>(d: Dict<K, V>, p: ((K, V)) -> bool, k: K)
    requires k !in Keys(d)
    ensures k !in Keys(Filter(d, p))
  {
    var f := Filter(d, p);
    forall i | 0 <= i < |f| ensures Keys(f)[i] != k {
      var j :| 0 <= j < |d| && d[j] == f[i];
      assert Keys(d)[j] == f[i].0;
    }
  }

  /** The qualifying cities are distinct, each holds at least 1% of the
      vacancies (rounded down), and every city that does is among them. */
  lemma QualifyingFacts(vacs: seq<Vacancy>)
    requires AreasAreText(vacs)
    ensures DistinctKeys(Qualifying(vacs))
    ensures forall i | 0 <= i < |Qualifying(vacs)| ::
      Qualifying(vacs)[i].1 >= |vacs| / 100 && Qualifying(vacs)[i] in Tally(AreaNames(vacs))
    ensures forall i | 0 <= i < |Tally(AreaNames(vacs))| :: Tally(AreaNames(vacs))[i].1 >= |vacs| / 100 ==>
      Tally(AreaNames(vacs))[i] in Qualifying(vacs)
  {
    TallyDistinct(AreaNames(vacs));
    FilterDistinctKeys(Tally(AreaNames(vacs)), AtLeast(|vacs| / 100));
  }

  /** The two tables are the sorted salary levels and shares of the
      qualifying cities, both dicts already. */
  lemma StatisticsByCitiesValue(vacs: seq<Vacancy>)
    requires AreasAreText(vacs)
    ensures var qual := Qualifying(vacs);
            var levels := SalaryLevels(qual, vacs);
            var shares := Shares(qual, |vacs|);
            DistinctKeys(levels) && DistinctKeys(shares) &&
            StatisticsByCities(vacs) == Ok((SortCities(levels, 10, IntRank), SortCities(shares, 10, RealRank)))
  {
    var qual := Qualifying(vacs);
    TallyDistinct(AreaNames(vacs));
    FilterDistinctKeys(Tally(AreaNames(vacs)), AtLeast(|vacs| / 100));
    FromDistinctPairs(Shares(qual, |vacs|));
    FromDistinctPairs(SalaryLevels(qual, vacs));
  }

  /** Both city tables hold `min(10, #qualifying)` entries in non-increasing
      order; each salary entry is a qualifying city with the floor of its mean
      salary, and each share entry a qualifying city with its rounded share. */
  lemma StatisticsByCitiesFacts(vacs: seq<Vacancy>)
    requires AreasAreText(vacs)
    ensures var qual := Qualifying(vacs);
            var n := if |qual| <= 10 then |qual| else 10;
            var r := StatisticsByCities(vacs).value;
            |r.0| == n && |r.1| == n &&
            SortedDesc(r.0, IntRank) && SortedDesc(r.1, RealRank) &&
            (forall i | 0 <= i < |r.0| :: r.0[i] in SalaryLevels(qual, vacs)) &&
            (forall i | 0 <= i < |r.1| :: r.1[i] in Shares(qual, |vacs|))
  {
    var qual := Qualifying(vacs);
    StatisticsByCitiesValue(vacs);
    SortCitiesTop(SalaryLevels(qual, vacs), 10, IntRank);
    SortCitiesTop(Shares(qual, |vacs|), 10, RealRank);
  }

  /** No vacancies give two empty tables, without any division. */
  lemma StatisticsByCitiesEmpty()
    ensures StatisticsByCities([]) == Ok(([], []))
  {
    assert Qualifying([]) == [];
  }

  /** The stable descending sort of four cities ranked 10, 30, 10, 20: the
      two tied cities keep their input order. */
  lemma SortDescTieExample(a: (string, int), b: (string, int), c: (string, int), d: (string, int))
    requires a.1 == 10 && b.1 == 30 && c.1 == 10 && d.1 == 20
    ensures SortDesc([a, b, c, d], IntRank) == [b, d, a, c]
  {
    var nil: Dict<string, int> := [];
    SortDescStep([d], nil, [d], IntRank, 0);
    SortDescStep([c, d], [d], [d, c], IntRank, 1);
    SortDescStep([b, c, d], [d, c], [b, d, c], IntRank, 0);
    SortDescStep([a, b, c, d], [b, d, c], [b, d, a, c], IntRank, 2);
  }

  /** The twelve cities of the unit test (Москва 20, Екб 10, Омск 0, Томск 14,
      Вологда 30, Ярославль 34, Питер 8, Березовский 12, Серов 17,
      Челябинск 15, Нижний Тагил 5, Кострома 9), sorted from the back
      of the input one insertion at a time. */
  lemma SortTwelveFirst(s: (string, int), c: (string, int), n: (string, int), k: (string, int))
    requires s.1 == 17 && c.1 == 15 && n.1 == 5 && k.1 == 9
    ensures SortDesc([s, c, n, k], IntRank) == [s, c, k, n]
  {
    var nil: Dict<string, int> := [];
    SortDescStep([k], nil, [k], IntRank, 0);
    SortDescStep([n, k], [k], [k, n], IntRank, 1);
    SortDescStep([c, n, k], [k, n], [c, k, n], IntRank, 0);
    SortDescStep([s, c, n, k], [c, k, n], [s, c, k, n], IntRank, 0);
  }

  lemma SortTwelveSecond(y: (string, int), p: (string, int), b: (string, int), s: (string, int), c: (string, int), n: (string, int), k: (string, int))
    requires y.1 == 34 && p.1 == 8 && b.1 == 12 && s.1 == 17 && c.1 == 15 && n.1 == 5 && k.1 == 9
    ensures SortDesc([y, p, b, s, c, n, k], IntRank) == [y, s, c, b, k, p, n]
  {
    SortTwelveFirst(s, c, n, k);
    SortDescStep([b, s, c, n, k], [s, c, k, n], [s, c, b, k, n], IntRank, 2);
    SortDescStep([p, b, s, c, n, k], [s, c, b, k, n], [s, c, b, k, p, n], IntRank, 4);
    SortDescStep([y, p, b, s, c, n, k], [s, c, b, k, p, n], [y, s, c, b, k, p, n], IntRank, 0);
  }

  lemma SortTwelveVologda(v: (string, int), y: (string, int), p: (string, int), b: (string, int), s: (string, int), c: (string, int), n: (string, int), k: (string, int))
    requires v.1 == 30 && y.1 == 34
    requires p.1 == 8 && b.1 == 12 && s.1 == 17 && c.1 == 15 && n.1 == 5 && k.1 == 9
    ensures SortDesc([v, y, p, b, s, c, n, k], IntRank) == [y, v, s, c, b, k, p, n]
  {
    SortTwelveSecond(y, p, b, s, c, n, k);
    SortDescStep([v, y, p, b, s, c, n, k], [y, s, c, b, k, p, n], [y, v, s, c, b, k, p, n], IntRank, 1);
  }

  lemma SortTwelveThird(t: (string, int), v: (string, int), y: (string, int), p: (string, int), b: (string, int), s: (string, int), c: (string, int), n: (string, int), k: (string, int))
    requires t.1 == 14 && v.1 == 30 && y.1 == 34
    requires p.1 == 8 && b.1 == 12 && s.1 == 17 && c.1 == 15 && n.1 == 5 && k.1 == 9
    ensures SortDesc([t, v, y, p, b, s, c, n, k], IntRank) == [y, v, s, c, t, b, k, p, n]
  {
    SortTwelveVologda(v, y, p, b, s, c, n, k);
    SortDescStep([t, v, y, p, b, s, c, n, k], [y, v, s, c, b, k, p, n], [y, v, s, c, t, b, k, p, n], IntRank, 4);
  }

  lemma SortTwelveOmsk(o: (string, int), t: (string, int), v: (string, int), y: (string, int), p: (string, int), b: (string, int), s: (string, int), c: (string, int), n: (string, int), k: (string, int))
    requires o.1 == 0 && t.1 == 14 && v.1 == 30 && y.1 == 34
    requires p.1 == 8 && b.1 == 12 && s.1 == 17 && c.1 == 15 && n.1 == 5 && k.1 == 9
    ensures SortDesc([o, t, v, y, p, b, s, c, n, k], IntRank) == [y, v, s, c, t, b, k, p, n, o]
  {
    SortTwelveThird(t, v, y, p, b, s, c, n, k);
    SortDescStep([o, t, v, y, p, b, s, c, n, k], [y, v, s, c, t, b, k, p, n], [y, v, s, c, t, b, k, p, n, o], IntRank, 9);
  }

  lemma SortTwelveFourth(e: (string, int), o: (string, int), t: (string, int), v: (string, int), y: (string, int), p: (string, int), b: (string, int), s: (string, int), c: (string, int), n: (string, int), k: (string, int))
    requires e.1 == 10 && o.1 == 0 && t.1 == 14 && v.1 == 30 && y.1 == 34
    requires p.1 == 8 && b.1 == 12 && s.1 == 17 && c.1 == 15 && n.1 == 5 && k.1 == 9
    ensures SortDesc([e, o, t, v, y, p, b, s, c, n, k], IntRank) == [y, v, s, c, t, b, e, k, p, n, o]
  {
    SortTwelveOmsk(o, t, v, y, p, b, s, c, n, k);
    SortDescStep([e, o, t, v, y, p, b, s, c, n, k], [y, v, s, c, t, b, k, p, n, o], [y, v, s, c, t, b, e, k, p, n, o], IntRank, 6);
  }

  lemma SortTwelveExample(m: (string, int), e: (string, int), o: (string, int), t: (string, int), v: (string, int), y: (string, int),
                          p: (string, int), b: (string, int), s: (string, int), c: (string, int), n: (string, int), k: (string, int))
    requires m.1 == 20 && e.1 == 10 && o.1 == 0 && t.1 == 14 && v.1 == 30 && y.1 == 34
    requires p.1 == 8 && b.1 == 12 && s.1 == 17 && c.1 == 15 && n.1 == 5 && k.1 == 9
    ensures SortDesc([m, e, o, t, v, y, p, b, s, c, n, k], IntRank)
         == [y, v, m, s, c, t, b, e, k, p, n, o]
  {
    SortTwelveFourth(e, o, t, v, y, p, b, s, c, n, k);
    SortDescStep([m, e, o, t, v, y, p, b, s, c, n, k], [y, v, s, c, t, b, e, k, p, n, o], [y, v, m, s, c, t, b, e, k, p, n, o], IntRank, 2);
  }

  /** Three cities with different names form a dict. */
  lemma DistinctOfThree(x: (string, int), y: (string, int), z: (string, int))
    requires x.0 != y.0 && x.0 != z.0 && y.0 != z.0
    ensures DistinctKeys([x, y, z])
  {
    var ks := Keys([x, y, z]);
    assert ks[0] == x.0 && ks[1] == y.0 && ks[2] == z.0;
  }

  /** A sequence of at least three items is its first three, then the rest. */
  lemma FirstThree<T>(s: seq<T>)
    requires |s| >= 3
    ensures s == [s[0], s[1], s[2]] + s[3..]
  {
  }

  /** `sort_cities(..., 3)` on the four tied cities drops the later of the tied pair. */
  lemma SortCitiesTieExample(a: (string, int), b: (string, int), c: (string, int), d: (string, int))
    requires a.1 == 10 && b.1 == 30 && c.1 == 10 && d.1 == 20
    requires a.0 != b.0 && a.0 != d.0 && b.0 != d.0
    ensures SortCities([a, b, c, d], 3, IntRank) == [b, d, a]
  {
    SortDescTieExample(a, b, c, d);
    DistinctOfThree(b, d, a);
    FirstThree([b, d, a, c]);
    SortCitiesOfSorted([a, b, c, d], IntRank, [b, d, a], [c]);
  }

  /** `sort_cities(..., 3)` on the reference example: Ярославль 34, Вологда 30,
      Москва 20. */
  lemma SortCitiesTwelveExample(m: (string, int), e: (string, int), o: (string, int), t: (string, int), v: (string, int), y: (string, int),
                                p: (string, int), b: (string, int), s: (string, int), c: (string, int), n: (string, int), k: (string, int))
    requires m.1 == 20 && e.1 == 10 && o.1 == 0 && t.1 == 14 && v.1 == 30 && y.1 == 34
    requires p.1 == 8 && b.1 == 12 && s.1 == 17 && c.1 == 15 && n.1 == 5 && k.1 == 9
    requires y.0 != v.0 && y.0 != m.0 && v.0 != m.0
    ensures SortCities([m, e, o, t, v, y, p, b, s, c, n, k], 3, IntRank) == [y, v, m]
  {
    var sorted := [y, v, m, s, c, t, b, e, k, p, n, o];
    SortTwelveExample(m, e, o, t, v, y, p, b, s, c, n, k);
    DistinctOfThree(y, v, m);
    FirstThree(sorted);
    SortCitiesOfSorted([m, e, o, t, v, y, p, b, s, c, n, k], IntRank, [y, v, m], sorted[3..]);
  }

  // ---- get_statistics_by_year --------------------------------------------------

  /** `self.job in vac.name`: a substring test on a text name, a membership
      test on a list of lines; case-sensitive either way. */
  predicate NameHas(name: Field, job: string) {
    if name.Text? then Contains(name.text, job) else job in name.lines
  }

  function HasJob(job: string): Vacancy -> bool {
    (v: Vacancy) => NameHas(v.name, job)
  }

  /** The per-year record `get_statistics_by_year` returns. */
  datatype YearStats = YearStats(year: string, salaryAll: int, numberAll: nat, salaryJob: int, numberJob: nat)

  /** The pure part of `get_statistics_by_year`, on the vacancies read from
      that year's file. */
  function StatisticsByYear(year: string, vacs: seq<Vacancy>, job: string): (r: YearStats)
    ensures r.year == year && r.numberAll == |vacs|
    ensures r.numberJob <= r.numberAll
  {
    var jobs := Filter(vacs, HasJob(job));
    YearStats(year, AverageSalary(SalariesOf(vacs)), |vacs|,
              AverageSalary(SalariesOf(jobs)), |jobs|)
  }

  /** The job subset is exactly the vacancies whose name contains the job,
      in order; an empty job matches every text name. */
  lemma JobSubset(year: string, vacs: seq<Vacancy>, job: string)
    ensures var jobs := Filter(vacs, HasJob(job));
            StatisticsByYear(year, vacs, job).numberJob == |jobs| &&
            StatisticsByYear(year, vacs, job).salaryJob == AverageSalary(SalariesOf(jobs)) &&
            (forall i | 0 <= i < |jobs| :: jobs[i] in vacs && NameHas(jobs[i].name, job)) &&
            (forall i | 0 <= i < |vacs| :: NameHas(vacs[i].name, job) ==> vacs[i] in jobs)
    ensures job == [] && (forall i | 0 <= i < |vacs| :: vacs[i].name.Text?) ==>
      StatisticsByYear(year, vacs, job).numberJob == |vacs|
  {
    if job == [] && (forall i | 0 <= i < |vacs| :: vacs[i].name.Text?) {
      EmptyJobKeepsAll(vacs);
    }
  }

  lemma EmptyJobKeepsAll(vacs: seq<Vacancy>)
    requires forall i | 0 <= i < |vacs| :: vacs[i].name.Text?
    ensures Filter(vacs, HasJob([])) == vacs
  {
    forall i | 0 <= i < |vacs| ensures HasJob([])(vacs[i]) {
      assert [] <= vacs[i].name.text;
    }
    FilterAll(vacs, HasJob([]));
  }

  // ---- run_multiprocessing / join_statistics_by_years --------------------------

  /** The four maps `join_statistics_by_years` returns. */
  datatype YearTables = YearTables(
    salaryAll: Dict<string, int>, numberAll: Dict<string, nat>,
    salaryJob: Dict<string, int>, numberJob: Dict<string, nat>)

  /** `join_statistics_by_years`: one assignment per item into each map, in
      item order (the `sorted(...)` call's result is discarded). */
  function JoinByYears(d: Dict<string, YearStats>): (r: YearTables)
    ensures DistinctKeys(r.salaryAll) && DistinctKeys(r.numberAll)
    ensures DistinctKeys(r.salaryJob) && DistinctKeys(r.numberJob)
  {
    YearTables(
      FromPairs(Project(d, (s: YearStats) => s.salaryAll)),
      FromPairs(Project(d, (s: YearStats) => s.numberAll)),
      FromPairs(Project(d, (s: YearStats) => s.salaryJob)),
      FromPairs(Project(d, (s: YearStats) => s.numberJob)))
  }

  /** Each merged map has exactly the input's keys, in the input's order,
      carrying the matching field of each record. */
  lemma JoinByYearsFacts(d: Dict<string, YearStats>)
    requires DistinctKeys(d)
    ensures var r := JoinByYears(d);
            |r.salaryAll| == |d| && |r.numberAll| == |d| && |r.salaryJob| == |d| && |r.numberJob| == |d| &&
            forall i | 0 <= i < |d| ::
              r.salaryAll[i] == (d[i].0, d[i].1.salaryAll) && r.numberAll[i] == (d[i].0, d[i].1.numberAll) &&
              r.salaryJob[i] == (d[i].0, d[i].1.salaryJob) && r.numberJob[i] == (d[i].0, d[i].1.numberJob)
  {
    ProjectFromPairs(d, (s: YearStats) => s.salaryAll);
    ProjectFromPairs(d, (s: YearStats) => s.numberAll);
    ProjectFromPairs(d, (s: YearStats) => s.salaryJob);
    ProjectFromPairs(d, (s: YearStats) => s.numberJob);
  }

  /** The years `run_multiprocessing` covers: `'2007'` to `'2022'`. */
  function ReportYears(): (r: seq<string>)
    ensures |r| == 16
    ensures forall i | 0 <= i < 16 :: r[i] == IntToString(2007 + i)
    ensures forall i | 0 <= i < 16 :: ParseInt(r[i]) == Ok(2007 + i)
  {
    YearNamesReadBack();
    seq(16, i => IntToString(2007 + i))
  }

  /** Each year name reads back as its year. */
  lemma YearNamesReadBack()
    ensures forall y | 2007 <= y < 2023 :: ParseInt(IntToString(y)) == Ok(y)
  {
    forall y | 2007 <= y < 2023 ensures ParseInt(IntToString(y)) == Ok(y) {
      ParseIntOfIntToString(y);
    }
  }

  /** `{v['year']: v for v in stats_list}` over the given years, each record
      built from that year's vacancies (the per-year file read is a parameter). */
  function StatisticsByYears(years: seq<string>, vacanciesOf: string -> seq<Vacancy>, job: string): Dict<string, YearStats>
  {
    FromPairs(seq(|years|, i requires 0 <= i < |years| =>
      (years[i], StatisticsByYear(years[i], vacanciesOf(years[i]), job))))
  }

  /** Different years have different names. */
  lemma ReportYearsDistinct()
    ensures Distinct(ReportYears())
  {
    var ys := ReportYears();
    forall i, j | 0 <= i < j < 16 ensures ys[i] != ys[j] {
      ParseIntOfIntToString(2007 + i);
      ParseIntOfIntToString(2007 + j);
    }
  }

  /** Over distinct years, the year dict has one record per year, in order. */
  lemma StatisticsByYearsFacts(years: seq<string>, vacanciesOf: string -> seq<Vacancy>, job: string)
    requires Distinct(years)
    ensures var d := StatisticsByYears(years, vacanciesOf, job);
            |d| == |years| && DistinctKeys(d) &&
            forall i | 0 <= i < |years| :: d[i] == (years[i], StatisticsByYear(years[i], vacanciesOf(years[i]), job))
  {
    var ps := seq(|years|, i requires 0 <= i < |years| =>
      (years[i], StatisticsByYear(years[i], vacanciesOf(years[i]), job)));
    assert Keys(ps) == years;
    FromDistinctPairs(ps);
  }

  /** The year run over distinct years (the report uses 2007 to 2022, see
      `ReportYearsDistinct`): each merged map has one entry per year, in
      order, holding that year's count and floor-mean salary. */
  lemma YearRunFacts(years: seq<string>, vacanciesOf: string -> seq<Vacancy>, job: string)
    requires Distinct(years)
    ensures var t := JoinByYears(StatisticsByYears(years, vacanciesOf, job));
            |t.numberAll| == |years| && |t.salaryAll| == |years| &&
            |t.numberJob| == |years| && |t.salaryJob| == |years| &&
            forall i | 0 <= i < |years| ::
              t.numberAll[i] == (years[i], |vacanciesOf(years[i])|) &&
              t.salaryAll[i] == (years[i], AverageSalary(SalariesOf(vacanciesOf(years[i])))) &&
              t.numberJob[i].0 == years[i] && t.numberJob[i].1 <= |vacanciesOf(years[i])|
  {
    var d := StatisticsByYears(years, vacanciesOf, job);
    StatisticsByYearsFacts(years, vacanciesOf, job);
    JoinByYearsFacts(d);
  }
}
