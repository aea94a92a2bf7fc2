/** currency.py: choosing the currencies worth converting (`Currency`) and
    assembling the monthly rate table (`Uploader`). The bank download, the
    month iteration and the CSV output are outside this model; the table is
    built here one month at a time from the month's code/value pairs.
 */
module Currency {
  import opened Results
  import opened Text
  import opened Numbers
  import opened OrderedMaps
  import opened Seqs
  import opened CsvReader
  import opened Dates

  // ---- Currency ------------------------------------------------------------

  /** Every row has a field at `index`. */
  predicate HasField(rows: seq<Row>, index: nat) {
    forall i | 0 <= i < |rows| :: index < |rows[i]|
  }

  /** `[row[index] for row in rows]`; a short row is an IndexError. */
  function Column(rows: seq<Row>, index: nat): (r: Result<seq<string>>)
    ensures r.Ok? <==> HasField(rows, index)
    ensures r.Fail? ==> r.error == IndexError
    ensures r.Ok? ==> |r.value| == |rows| && forall i | 0 <= i < |rows| :: r.value[i] == rows[i][index]
  {
    if HasField(rows, index) then Ok(seq(|rows|, i requires 0 <= i < |rows| => rows[i][index]))
    else Fail(IndexError)
  }

  function NotRub(code: string): bool {
    code != "RUR"
  }

  /** `get_currency_frequency`: `Counter` of the codes other than `'RUR'`. */
  function CurrencyFrequency(rows: seq<Row>, index: nat): (r: Result<Dict<string, nat>>)
    ensures r.Ok? <==> HasField(rows, index)
    ensures r.Fail? ==> r.error == IndexError
    ensures r.Ok? ==> DistinctKeys(r.value)
    ensures r.Ok? ==> forall code ::
      (code in Keys(r.value) <==> code != "RUR" && code in Column(rows, index).value)
    ensures r.Ok? ==> forall code | code in Keys(r.value) ::
      Lookup(r.value, code) == multiset(Column(rows, index).value)[code]
  {
    var codes :- Column(rows, index);
    var nonRub := Filter(codes, NotRub);
    TallyDistinct(nonRub);
    forall code ensures code in Keys(Tally(nonRub)) <==> code != "RUR" && code in codes {
      TallyKeys(nonRub);
      FilterCount(codes, NotRub, code);
      assert code in nonRub <==> multiset(nonRub)[code] > 0;
      assert code in codes <==> multiset(codes)[code] > 0;
    }
    forall code | code in Keys(Tally(nonRub))
      ensures Lookup(Tally(nonRub), code) == multiset(codes)[code]
    {
      TallyCounts(nonRub, code);
      FilterCount(codes, NotRub, code);
    }
    Ok(Tally(nonRub))
  }

  function MoreThan5000(item: (string, nat)): bool {
    item.1 > 5000
  }

  /** `[cur[0] for cur in currencies.items() if cur[1] > 5000]`. */
  function FrequentCodes(freq: Dict<string, nat>): seq<string> {
    Keys(Filter(freq, MoreThan5000))
  }

  /** `row[index] in codes`. */
  function CodeIn(index: nat, codes: seq<string>): Row -> bool {
    (row: Row) => index < |row| && row[index] in codes
  }

  /** `select_most_frequent_currencies`: the frequent codes, and the rows whose
      code is frequent or `'RUR'`, in input order. */
  function SelectMostFrequent(rows: seq<Row>, index: nat): (r: Result<(seq<string>, seq<Row>)>)
    ensures r.Ok? <==> HasField(rows, index)
    ensures r.Fail? ==> r.error == IndexError
    ensures r.Ok? ==> "RUR" !in r.value.0
    ensures r.Ok? ==> r.value.1 == Filter(rows, CodeIn(index, r.value.0 + ["RUR"]))
  {
    var freq :- CurrencyFrequency(rows, index);
    var frequent := FrequentCodes(freq);
    FrequentCodesIn(Column(rows, index).value, "RUR");
    Ok((frequent, Filter(rows, CodeIn(index, frequent + ["RUR"]))))
  }

  /** A key of the filtered counts is a key of the counts with a count above 5000. */
  lemma FrequentKey(freq: Dict<string, nat>, code: string)
    requires DistinctKeys(freq)
    ensures code in FrequentCodes(freq) <==> code in Keys(freq) && Lookup(freq, code) > 5000
  {
    if code in Keys(Filter(freq, MoreThan5000)) {
      FrequentKeyOnly(freq, code);
    }
    if code in Keys(freq) && Lookup(freq, code) > 5000 {
      FrequentKeyAll(freq, code);
    }
  }

  /** A key kept by the filter has a count above 5000. */
  lemma FrequentKeyOnly(freq: Dict<string, nat>, code: string)
    requires DistinctKeys(freq) && code in Keys(Filter(freq, MoreThan5000))
    ensures code in Keys(freq) && Lookup(freq, code) > 5000
  {
    var f := Filter(freq, MoreThan5000);
    var k :| 0 <= k < |f| && Keys(f)[k] == code;
    assert f[k] in freq && MoreThan5000(f[k]);
    var j :| 0 <= j < |freq| && freq[j] == f[k];
    GetAt(freq, j);
    assert Keys(freq)[j] == code;
  }

  /** A key with a count above 5000 is kept by the filter. */
  lemma FrequentKeyAll(freq: Dict<string, nat>, code: string)
    requires DistinctKeys(freq) && code in Keys(freq) && Lookup(freq, code) > 5000
    ensures code in Keys(Filter(freq, MoreThan5000))
  {
    var f := Filter(freq, MoreThan5000);
    var j := FirstIndex(Keys(freq), code);
    assert freq[j].0 == code;
    GetAt(freq, j);
    assert freq[j].1 == Lookup(freq, code);
    assert MoreThan5000(freq[j]);
    assert freq[j] in f;
    KeyOfItem(f, freq[j]);
  }

  /** Over the counts of the non-`'RUR'` codes, a code is frequent exactly
      when it is not `'RUR'` and occurs more than 5000 times. */
  lemma FrequentCodesIn(codes: seq<string>, code: string)
    ensures code in FrequentCodes(Tally(Filter(codes, NotRub)))
        <==> code != "RUR" && multiset(codes)[code] > 5000
  {
    var nonRub := Filter(codes, NotRub);
    TallyDistinct(nonRub);
    TallyCounts(nonRub, code);
    FilterCount(codes, NotRub, code);
    FrequentKey(Tally(nonRub), code);
    TallyKeys(nonRub);
    if code in nonRub {
      assert multiset(nonRub)[code] > 0;
    }
  }

  /** A code is frequent exactly when it is not `'RUR'` and occurs in more
      than 5000 rows. */
  lemma FrequentMeansCount(rows: seq<Row>, index: nat, code: string)
    requires HasField(rows, index)
    ensures code in SelectMostFrequent(rows, index).value.0
        <==> code != "RUR" && multiset(Column(rows, index).value)[code] > 5000
  {
    FrequentCodesIn(Column(rows, index).value, code);
  }

  /** The selected rows are exactly the input rows, in order, whose code is
      frequent or `'RUR'`: each kept row comes from the input with such a
      code, and each input row with such a code is kept. */
  lemma SelectedRows(rows: seq<Row>, index: nat)
    requires HasField(rows, index)
    ensures var (frequent, res) := SelectMostFrequent(rows, index).value;
            (forall i | 0 <= i < |res| :: res[i] in rows && (res[i][index] in frequent || res[i][index] == "RUR")) &&
            (forall i | 0 <= i < |rows| :: (rows[i][index] in frequent || rows[i][index] == "RUR") ==> rows[i] in res)
  {
    var (frequent, res) := SelectMostFrequent(rows, index).value;
    var p := CodeIn(index, frequent + ["RUR"]);
    forall i | 0 <= i < |rows| && (rows[i][index] in frequent || rows[i][index] == "RUR")
      ensures rows[i] in res
    {
      assert p(rows[i]);
    }
  }

  /** `convert_to_date(row[index])`. */
  function DateOf(row: Row, index: nat): Result<DateTime> {
    if index < |row| then ConvertToDate(row[index]) else Fail(IndexError)
  }

  /** `[convert_to_date(row[index]) for row in rows]`: the rows are converted
      in order, so the first failing row names the error. */
  function ConvertDates(rows: seq<Row>, index: nat): (r: Result<seq<DateTime>>)
    ensures r.Ok? <==> forall i | 0 <= i < |rows| :: DateOf(rows[i], index).Ok?
    ensures r.Ok? ==> |r.value| == |rows|
    ensures r.Ok? ==> forall i | 0 <= i < |rows| :: DateOf(rows[i], index) == Ok(r.value[i])
    ensures r.Fail? ==> exists i | 0 <= i < |rows| ::
      DateOf(rows[i], index) == Fail(r.error) && forall j | 0 <= j < i :: DateOf(rows[j], index).Ok?
  {
    MapOk(rows, (row: Row) => DateOf(row, index))
  }

  /** Seconds since the start of the ordinal calendar: the order of
      `datetime` comparison. */
  function SecondStamp(t: DateTime): int {
    MinuteStamp(t) * 60 + t.second
  }

  /** `min(dates)`: the first of the earliest. */
  function Earliest(ds: seq<DateTime>): (r: DateTime)
    requires |ds| > 0
    ensures r in ds
    ensures forall i | 0 <= i < |ds| :: SecondStamp(r) <= SecondStamp(ds[i])
  {
    if |ds| == 1 then ds[0]
    else
      var m := Earliest(ds[..|ds| - 1]);
      assert forall i | 0 <= i < |ds| - 1 :: ds[..|ds| - 1][i] == ds[i];
      if SecondStamp(ds[|ds| - 1]) < SecondStamp(m) then ds[|ds| - 1] else m
  }

  /** `max(dates)`: the first of the latest. */
  function Latest(ds: seq<DateTime>): (r: DateTime)
    requires |ds| > 0
    ensures r in ds
    ensures forall i | 0 <= i < |ds| :: SecondStamp(ds[i]) <= SecondStamp(r)
  {
    if |ds| == 1 then ds[0]
    else
      var m := Latest(ds[..|ds| - 1]);
      assert forall i | 0 <= i < |ds| - 1 :: ds[..|ds| - 1][i] == ds[i];
      if SecondStamp(ds[|ds| - 1]) > SecondStamp(m) then ds[|ds| - 1] else m
  }

  /** `get_date_range`: the earliest and latest converted date; `min` of no
      dates is a ValueError. */
  function GetDateRange(rows: seq<Row>, index: nat): (r: Result<(DateTime, DateTime)>)
    ensures |rows| == 0 ==> r == Fail(ValueError)
    ensures r.Ok? ==> ConvertDates(rows, index).Ok?
    ensures r.Ok? ==> SecondStamp(r.value.0) <= SecondStamp(r.value.1)
    ensures r.Ok? && ConvertDates(rows, index).Ok? ==>
      (var ds := ConvertDates(rows, index).value;
       r.value.0 in ds && r.value.1 in ds &&
       forall i | 0 <= i < |ds| :: SecondStamp(r.value.0) <= SecondStamp(ds[i]) <= SecondStamp(r.value.1))
  {
    var ds :- ConvertDates(rows, index);
    if |ds| == 0 then Fail(ValueError) else Ok((Earliest(ds), Latest(ds)))
  }

  /** `process_currencies`, return value only: the selected rows, once the
      date range has been computed (the download it feeds is left out). */
  function ProcessCurrencies(rows: seq<Row>, index: nat, dateIndex: nat): (r: Result<seq<Row>>)
    ensures r.Ok? <==> SelectMostFrequent(rows, index).Ok? && GetDateRange(rows, dateIndex).Ok?
    ensures r.Ok? ==> r.value == SelectMostFrequent(rows, index).value.1
    ensures !HasField(rows, index) ==> r == Fail(IndexError)
    ensures SelectMostFrequent(rows, index).Ok? && GetDateRange(rows, dateIndex).Fail? ==>
      r == Fail(GetDateRange(rows, dateIndex).error)
  {
    var (frequent, correct) :- SelectMostFrequent(rows, index);
    var _ :- GetDateRange(rows, dateIndex);
    Ok(correct)
  }

  // ---- Uploader --------------------------------------------------------------

  /** A cell of the rate table: a month label or padding text, or a rate. */
  datatype Cell = Str(text: string) | Num(value: real)

  type Table = Dict<string, seq<Cell>>

  /** `Uploader.__init__`: `{item: [] for item in ['date'] + currencies}`. */
  function NewTable(currencies: seq<string>): (r: Table)
    ensures DistinctKeys(r)
  {
    var names := ["date"] + currencies;
    FromPairs(seq(|names|, i requires 0 <= i < |names| => (names[i], [])))
  }

  /** For distinct currencies other than `'date'`, the new table has the
      columns `'date'` and then the currencies, in order, all empty. */
  lemma NewTableColumns(currencies: seq<string>)
    requires Distinct(["date"] + currencies)
    ensures Keys(NewTable(currencies)) == ["date"] + currencies
    ensures forall i | 0 <= i < |NewTable(currencies)| :: NewTable(currencies)[i].1 == []
  {
    var names := ["date"] + currencies;
    var ps: Table := seq(|names|, i requires 0 <= i < |names| => (names[i], []));
    assert Keys(ps) == names;
    FromDistinctPairs(ps);
  }

  /** The column under `k`. */
  function ColumnOf(t: Table, k: string): seq<Cell>
    requires k in Keys(t)
  {
    t[FirstIndex(Keys(t), k)].1
  }

  /** `t[k].append(c)` for a present key. */
  function AppendCell(t: Table, k: string, c: Cell): (r: Table)
    requires k in Keys(t)
    ensures |r| == |t| && Keys(r) == Keys(t)
    ensures forall i | 0 <= i < |t| ::
      r[i] == if t[i].0 == k && i == FirstIndex(Keys(t), k) then (k, t[i].1 + [c]) else t[i]
  {
    var i := FirstIndex(Keys(t), k);
    var r := t[i := (k, t[i].1 + [c])];
    assert forall j | 0 <= j < |t| :: Keys(r)[j] == Keys(t)[j];
    r
  }

  /** `check_empty_fields`: one `' '` appended to every column shorter than
      `maxLength`. */
  function CheckEmptyFields(t: Table, maxLength: nat): (r: Table)
    ensures |r| == |t| && Keys(r) == Keys(t)
    ensures forall i | 0 <= i < |t| ::
      r[i].1 == if |t[i].1| < maxLength then t[i].1 + [Str(" ")] else t[i].1
  {
    Project(t, (col: seq<Cell>) => if |col| < maxLength then col + [Str(" ")] else col)
  }

  function Max(a: nat, b: nat): nat {
    if a < b then b else a
  }

  /** `float(value.replace(',', '.'))`: the bank writes a decimal comma. */
  function MonthRate(text: string): (r: Result<real>)
    ensures r.Fail? ==> r.error == ValueError
  {
    ParseDecimal(ReplaceChar(text, ',', '.'))
  }

  /** The bank's decimal comma reads as a point: `'<digits>,<digits>'` is
      the number `'<digits>.<digits>'`. */
  lemma MonthRateOfDecimalComma(a: string, b: string)
    requires AllDigits(a) && AllDigits(b) && |a| + |b| > 0
    ensures MonthRate(a + "," + b) == ParseDecimal(a + "." + b)
    ensures MonthRate(a + "," + b) == Ok(DecimalValue(a, b))
  {
    var s := a + "," + b;
    var t := a + "." + b;
    forall i | 0 <= i < |s| ensures ReplaceChar(s, ',', '.')[i] == t[i] {
      if i < |a| {
        assert s[i] == a[i] && IsDigit(a[i]);
      } else if i > |a| {
        assert s[i] == b[i - |a| - 1] && IsDigit(b[i - |a| - 1]);
      }
    }
    assert ReplaceChar(s, ',', '.') == t;
    ParseDecimalOfParts(a, b);
  }

  /** Text without a comma is read as it is. */
  lemma MonthRateWithoutComma(text: string)
    requires ',' !in text
    ensures MonthRate(text) == ParseDecimal(text)
  {
    assert ReplaceChar(text, ',', '.') == text;
  }

  /** A code/value pair the rate loop takes: the code names a column and the
      value reads as a number. */
  predicate RateTaken(columns: seq<string>, item: (string, string)) {
    item.0 in columns && MonthRate(item.1).Ok?
  }

  /** The error of a pair the loop cannot take: the column lookup comes
      first (KeyError), then `float` (ValueError). */
  function RateError(columns: seq<string>, item: (string, string)): Error {
    if item.0 !in columns then KeyError else ValueError
  }

  /** The loop of `add_data_to_dictionary`: for each code/value pair in order,
      look the column up (KeyError), append `float(value.replace(',', '.'))`
      (ValueError), and keep the longest updated column length. The first
      pair the loop cannot take names the error. */
  function AddRates(t: Table, items: Dict<string, string>, maxLength: nat): (r: Result<(Table, nat)>)
    ensures r.Ok? ==> Keys(r.value.0) == Keys(t)
    ensures r.Ok? ==> forall k | k in Keys(items) :: k in Keys(t)
    decreases |items|
  {
    if |items| == 0 then Ok((t, maxLength))
    else
      var (code, text) := items[0];
      if code !in Keys(t) then Fail(KeyError)
      else
        var rate :- MonthRate(text);
        var t2 := AppendCell(t, code, Num(rate));
        var rest :- AddRates(t2, items[1..], Max(maxLength, |ColumnOf(t2, code)|));
        assert Keys(items) == [code] + Keys(items[1..]);
        Ok(rest)
  }

  /** The rate loop succeeds exactly when it can take every pair, and
      otherwise fails with the error of the first pair it cannot take: a
      code that is not a column is a KeyError, a value that does not read
      as a number a ValueError. */
  lemma {:induction false} AddRatesOutcome(t: Table, items: Dict<string, string>, maxLength: nat)
    ensures AddRates(t, items, maxLength).Ok? <==> forall i | 0 <= i < |items| :: RateTaken(Keys(t), items[i])
    ensures AddRates(t, items, maxLength).Fail? ==> exists i | 0 <= i < |items| ::
      !RateTaken(Keys(t), items[i]) && AddRates(t, items, maxLength).error == RateError(Keys(t), items[i])
      && forall j | 0 <= j < i :: RateTaken(Keys(t), items[j])
    decreases |items|
  {
    if |items| > 0 {
      var (code, text) := items[0];
      var columns := Keys(t);
      if code in columns && MonthRate(text).Ok? {
        var t2 := AppendCell(t, code, Num(MonthRate(text).value));
        var m2 := Max(maxLength, |ColumnOf(t2, code)|);
        var tail := items[1..];
        assert AddRates(t, items, maxLength) == AddRates(t2, tail, m2);
        assert Keys(t2) == columns;
        AddRatesOutcome(t2, tail, m2);
        RatesTakenCons(columns, items);
        if AddRates(t2, tail, m2).Fail? {
          var i :| 0 <= i < |tail| && !RateTaken(columns, tail[i]) && AddRates(t2, tail, m2).error == RateError(columns, tail[i])
                   && forall j | 0 <= j < i :: RateTaken(columns, tail[j]);
          assert items[i + 1] == tail[i];
          forall j | 0 <= j < i + 1 ensures RateTaken(columns, items[j]) {
            if j > 0 {
              assert items[j] == tail[j - 1];
            }
          }
        }
      } else {
        assert !RateTaken(columns, items[0]);
      }
    }
  }

  /** A dict's pairs are all taken when its first pair is and all pairs of
      its tail are. */
  lemma RatesTakenCons(columns: seq<string>, items: Dict<string, string>)
    requires |items| > 0 && RateTaken(columns, items[0])
    ensures (forall i | 0 <= i < |items| :: RateTaken(columns, items[i]))
        <==> forall i | 0 <= i < |items| - 1 :: RateTaken(columns, items[1..][i])
  {
    var tail := items[1..];
    assert forall i | 0 <= i < |tail| :: tail[i] == items[i + 1];
    if forall i | 0 <= i < |tail| :: RateTaken(columns, tail[i]) {
      forall i | 0 <= i < |items| ensures RateTaken(columns, items[i]) {
        if i > 0 {
          assert items[i] == tail[i - 1];
        }
      }
    }
  }

  /** `strftime("%Y-%m")`: four-digit year, dash, two-digit month. */
  function MonthLabel(d: Date): (r: string)
    requires 0 <= d.year < 10000 && 0 <= d.month < 100
    ensures |r| == 7 && r[4] == '-'
  {
    Pad4(d.year) + "-" + Pad2(d.month)
  }

  /** The label reads back as the year and the month. */
  lemma MonthLabelRoundTrip(d: Date)
    requires ValidDate(d)
    ensures AllDigits(MonthLabel(d)[..4]) && DigitsValue(MonthLabel(d)[..4]) == d.year
    ensures AllDigits(MonthLabel(d)[5..]) && DigitsValue(MonthLabel(d)[5..]) == d.month
  {
    var r := MonthLabel(d);
    assert r[..4] == Pad4(d.year) && r[5..] == Pad2(d.month);
    Pad4Value(d.year);
    Pad2Value(d.month);
  }

  /** `add_data_to_dictionary`: the month label goes under `'date'`, the
      rates under their codes, then short columns are padded to the longest
      updated rate column. */
  function AddDataToDictionary(t: Table, monthCurrency: Dict<string, string>, month: Date): (r: Result<Table>)
    requires 0 <= month.year < 10000 && 0 <= month.month < 100
    ensures r.Ok? ==> Keys(r.value) == Keys(t)
    ensures "date" !in Keys(t) ==> r == Fail(KeyError)
    ensures r.Ok? ==> forall k | k in Keys(monthCurrency) :: k in Keys(t)
  {
    if "date" !in Keys(t) then Fail(KeyError)
    else
      var t1 := AppendCell(t, "date", Str(MonthLabel(month)));
      var (t2, maxLength) :- AddRates(t1, monthCurrency, 0);
      Ok(CheckEmptyFields(t2, maxLength))
  }

  /** Every column has length `n`, plus one for the keys in `bumped`. */
  predicate Lengths(t: Table, n: nat, bumped: set<string>) {
    forall i | 0 <= i < |t| :: |t[i].1| == if t[i].0 in bumped then n + 1 else n
  }

  lemma AppendCellLengths(t: Table, k: string, c: Cell, n: nat, bumped: set<string>)
    requires DistinctKeys(t) && k in Keys(t) && k !in bumped && Lengths(t, n, bumped)
    ensures Lengths(AppendCell(t, k, c), n, bumped + {k})
    ensures |ColumnOf(AppendCell(t, k, c), k)| == n + 1
  {
    var r := AppendCell(t, k, c);
    var i := FirstIndex(Keys(t), k);
    forall j | 0 <= j < |t| && t[j].0 == k ensures j == i {
      assert Keys(t)[j] == Keys(t)[i];
    }
  }

  /** The codes of a dict, as a set. */
  function KeySet(items: Dict<string, string>): set<string> {
    set k | k in Keys(items)
  }

  /** Dropping the first pair of a dict leaves a dict without its key. */
  lemma DictTail(items: Dict<string, string>)
    requires |items| > 0 && DistinctKeys(items)
    ensures DistinctKeys(items[1..]) && items[0].0 !in Keys(items[1..])
    ensures KeySet(items) == {items[0].0} + KeySet(items[1..])
  {
    assert Keys(items) == [items[0].0] + Keys(items[1..]);
    forall j | 0 <= j < |items| - 1 ensures Keys(items[1..])[j] != items[0].0 {
      assert Keys(items)[j + 1] != Keys(items)[0];
    }
  }

  /** One successful turn of the rate loop: the first code is a column, its
      value parses, and the loop goes on with the extended table. */
  lemma AddRatesUnfold(t: Table, items: Dict<string, string>, maxLength: nat)
    requires |items| > 0 && AddRates(t, items, maxLength).Ok?
    ensures items[0].0 in Keys(t) && MonthRate(items[0].1).Ok?
    ensures var t2 := AppendCell(t, items[0].0, Num(MonthRate(items[0].1).value));
            AddRates(t, items, maxLength) == AddRates(t2, items[1..], Max(maxLength, |ColumnOf(t2, items[0].0)|))
  {
  }

  /** Through the rate loop every code present this month gains one cell,
      the keys stay the same, and the longest updated column is one longer
      than before (unless there were no codes). */
  lemma {:induction false} AddRatesLengths(t: Table, items: Dict<string, string>, maxLength: nat,
                                           n: nat, bumped: set<string>)
    requires DistinctKeys(t) && DistinctKeys(items) && Lengths(t, n, bumped)
    requires bumped !! KeySet(items)
    requires maxLength == 0 || maxLength == n + 1
    requires AddRates(t, items, maxLength).Ok?
    ensures Lengths(AddRates(t, items, maxLength).value.0, n, bumped + KeySet(items))
    ensures AddRates(t, items, maxLength).value.1 == if |items| == 0 then maxLength else n + 1
    decreases |items|
  {
    if |items| > 0 {
      var code := items[0].0;
      AddRatesUnfold(t, items, maxLength);
      var cell := Num(MonthRate(items[0].1).value);
      var t2 := AppendCell(t, code, cell);
      var tail := items[1..];
      DictTail(items);
      AppendCellLengths(t, code, cell, n, bumped);
      assert Keys(t2) == Keys(t);
      assert Max(maxLength, |ColumnOf(t2, code)|) == n + 1;
      assert AddRates(t, items, maxLength) == AddRates(t2, tail, n + 1);
      assert (bumped + {code}) !! KeySet(tail);
      AddRatesLengths(t2, tail, n + 1, n, bumped + {code});
      assert (bumped + {code}) + KeySet(tail) == bumped + KeySet(items);
    }
  }

  /** Appending to one column: that column gains the cell, every other
      column is unchanged. */
  lemma AppendCellColumn(t: Table, k: string, c: Cell, j: string)
    requires k in Keys(t) && j in Keys(t)
    ensures j in Keys(AppendCell(t, k, c))
    ensures ColumnOf(AppendCell(t, k, c), j) == ColumnOf(t, j) + (if j == k then [c] else [])
  {
    var r := AppendCell(t, k, c);
    assert Keys(r) == Keys(t);
    var i := FirstIndex(Keys(t), j);
    assert t[i].0 == j;
  }

  /** Padding: a column shorter than the length gains one `' '` cell, a
      longer one is unchanged. */
  lemma PaddingColumn(t: Table, maxLength: nat, j: string)
    requires j in Keys(t)
    ensures j in Keys(CheckEmptyFields(t, maxLength))
    ensures ColumnOf(CheckEmptyFields(t, maxLength), j)
         == ColumnOf(t, j) + (if |ColumnOf(t, j)| < maxLength then [Str(" ")] else [])
  {
    var r := CheckEmptyFields(t, maxLength);
    var keys := Keys(t);
    assert Keys(r) == keys;
    var i := FirstIndex(keys, j);
    assert ColumnOf(t, j) == t[i].1;
    assert ColumnOf(r, j) == r[i].1;
    assert r[i].1 == if |t[i].1| < maxLength then t[i].1 + [Str(" ")] else t[i].1;
  }

  /** What the rate loop appends: each code of the month gains its rate,
      read with the decimal comma, as its one new cell; every other column
      is unchanged. */
  lemma {:induction false} AddRatesCells(t: Table, items: Dict<string, string>, maxLength: nat, k: string)
    requires DistinctKeys(items) && k in Keys(t)
    requires AddRates(t, items, maxLength).Ok?
    ensures k in Keys(AddRates(t, items, maxLength).value.0)
    ensures k in Keys(items) ==>
      MonthRate(Lookup(items, k)).Ok?
      && ColumnOf(AddRates(t, items, maxLength).value.0, k) == ColumnOf(t, k) + [Num(MonthRate(Lookup(items, k)).value)]
    ensures k !in Keys(items) ==> ColumnOf(AddRates(t, items, maxLength).value.0, k) == ColumnOf(t, k)
    decreases |items|
  {
    if |items| > 0 {
      var (code, text) := items[0];
      AddRatesUnfold(t, items, maxLength);
      var rate := MonthRate(text).value;
      var t2 := AppendCell(t, code, Num(rate));
      var m2 := Max(maxLength, |ColumnOf(t2, code)|);
      var tail := items[1..];
      assert AddRates(t, items, maxLength) == AddRates(t2, tail, m2);
      DictTail(items);
      AppendCellColumn(t, code, Num(rate), k);
      AddRatesCells(t2, tail, m2, k);
      assert k in Keys(items) <==> k == code || k in Keys(tail);
      if k == code {
        assert Lookup(items, k) == text;
      } else if k in Keys(tail) {
        assert Get(items, k) == Get(tail, k);
      }
    }
  }

  /** What `add_data_to_dictionary` appends to a table whose columns all
      have the same length, when at least one rate arrives: the month label
      under `'date'`, each code's rate under its code, and `' '` under every
      other code. */
  lemma AddDataCells(t: Table, monthCurrency: Dict<string, string>, month: Date, n: nat)
    requires 0 <= month.year < 10000 && 0 <= month.month < 100
    requires DistinctKeys(t) && DistinctKeys(monthCurrency) && Lengths(t, n, {})
    requires "date" !in Keys(monthCurrency) && |monthCurrency| > 0
    requires AddDataToDictionary(t, monthCurrency, month).Ok?
    ensures "date" in Keys(t)
    ensures ColumnOf(AddDataToDictionary(t, monthCurrency, month).value, "date")
         == ColumnOf(t, "date") + [Str(MonthLabel(month))]
    ensures forall k | k in Keys(monthCurrency) ::
      k in Keys(t) && MonthRate(Lookup(monthCurrency, k)).Ok?
      && ColumnOf(AddDataToDictionary(t, monthCurrency, month).value, k)
         == ColumnOf(t, k) + [Num(MonthRate(Lookup(monthCurrency, k)).value)]
    ensures forall k | k in Keys(t) && k != "date" && k !in Keys(monthCurrency) ::
      ColumnOf(AddDataToDictionary(t, monthCurrency, month).value, k) == ColumnOf(t, k) + [Str(" ")]
  {
    AddDataUnfold(t, monthCurrency, month);
    forall k | k in Keys(t) {
      AddDataColumn(t, monthCurrency, month, n, k);
    }
  }

  /** One column of `AddDataCells`. */
  lemma AddDataColumn(t: Table, monthCurrency: Dict<string, string>, month: Date, n: nat, k: string)
    requires 0 <= month.year < 10000 && 0 <= month.month < 100
    requires DistinctKeys(t) && DistinctKeys(monthCurrency) && Lengths(t, n, {})
    requires "date" !in Keys(monthCurrency) && |monthCurrency| > 0
    requires AddDataToDictionary(t, monthCurrency, month).Ok?
    requires k in Keys(t)
    ensures k in Keys(AddDataToDictionary(t, monthCurrency, month).value)
    ensures k in Keys(monthCurrency) ==> MonthRate(Lookup(monthCurrency, k)).Ok?
    ensures var r := AddDataToDictionary(t, monthCurrency, month).value;
      ColumnOf(r, k) == ColumnOf(t, k) + if k == "date" then [Str(MonthLabel(month))]
                                        else if k in Keys(monthCurrency) then [Num(MonthRate(Lookup(monthCurrency, k)).value)]
                                        else [Str(" ")]
  {
    var cell := Str(MonthLabel(month));
    var t1 := AppendCell(t, "date", cell);
    AddDataUnfold(t, monthCurrency, month);
    DateColumnLengths(t, t1, month, n);
    assert {"date"} !! KeySet(monthCurrency);
    AddRatesLengths(t1, monthCurrency, 0, n, {"date"});
    var added := AddRates(t1, monthCurrency, 0).value;
    assert AddDataToDictionary(t, monthCurrency, month).value == CheckEmptyFields(added.0, n + 1);
    ColumnLength(t, n, {}, k);
    AppendCellColumn(t, "date", cell, k);
    assert |ColumnOf(t1, k)| == n + (if k == "date" then 1 else 0);
    AddRatesCells(t1, monthCurrency, 0, k);
    assert |ColumnOf(added.0, k)| == n + (if k == "date" || k in Keys(monthCurrency) then 1 else 0);
    PaddingColumn(added.0, n + 1, k);
  }

  /** Under `Lengths`, the column of a key has the length of its row. */
  lemma ColumnLength(t: Table, n: nat, bumped: set<string>, k: string)
    requires Lengths(t, n, bumped) && k in Keys(t)
    ensures |ColumnOf(t, k)| == if t[FirstIndex(Keys(t), k)].0 in bumped then n + 1 else n
  {
  }

  /** The equal-length invariant of the rate table: when all columns have
      the same length and at least one rate arrives, every column (the month,
      the rates that arrived and the padded ones) grows by exactly one. */
  lemma AddDataKeepsEqualLengths(t: Table, monthCurrency: Dict<string, string>, month: Date, n: nat)
    requires 0 <= month.year < 10000 && 0 <= month.month < 100
    requires DistinctKeys(t) && DistinctKeys(monthCurrency) && Lengths(t, n, {})
    requires "date" !in Keys(monthCurrency) && |monthCurrency| > 0
    requires AddDataToDictionary(t, monthCurrency, month).Ok?
    ensures Lengths(AddDataToDictionary(t, monthCurrency, month).value, n + 1, {})
  {
    var t1 := AppendCell(t, "date", Str(MonthLabel(month)));
    AddDataUnfold(t, monthCurrency, month);
    DateColumnLengths(t, t1, month, n);
    RatesThenPadding(t1, monthCurrency, n);
  }

  /** A successful `add_data_to_dictionary` is the date cell, the rate loop,
      then the padding. */
  lemma AddDataUnfold(t: Table, monthCurrency: Dict<string, string>, month: Date)
    requires 0 <= month.year < 10000 && 0 <= month.month < 100
    requires AddDataToDictionary(t, monthCurrency, month).Ok?
    ensures "date" in Keys(t)
    ensures var t1 := AppendCell(t, "date", Str(MonthLabel(month)));
            AddRates(t1, monthCurrency, 0).Ok? &&
            AddDataToDictionary(t, monthCurrency, month).value
              == CheckEmptyFields(AddRates(t1, monthCurrency, 0).value.0, AddRates(t1, monthCurrency, 0).value.1)
  {
  }

  lemma DateColumnLengths(t: Table, t1: Table, month: Date, n: nat)
    requires 0 <= month.year < 10000 && 0 <= month.month < 100
    requires DistinctKeys(t) && "date" in Keys(t) && Lengths(t, n, {})
    requires t1 == AppendCell(t, "date", Str(MonthLabel(month)))
    ensures DistinctKeys(t1) && Lengths(t1, n, {"date"})
  {
    AppendCellLengths(t, "date", Str(MonthLabel(month)), n, {});
    assert Keys(t1) == Keys(t);
  }

  lemma RatesThenPadding(t1: Table, monthCurrency: Dict<string, string>, n: nat)
    requires DistinctKeys(t1) && DistinctKeys(monthCurrency) && Lengths(t1, n, {"date"})
    requires "date" !in Keys(monthCurrency) && |monthCurrency| > 0
    requires AddRates(t1, monthCurrency, 0).Ok?
    ensures var added := AddRates(t1, monthCurrency, 0).value;
            Lengths(CheckEmptyFields(added.0, added.1), n + 1, {})
  {
    assert {"date"} !! KeySet(monthCurrency);
    AddRatesLengths(t1, monthCurrency, 0, n, {"date"});
    var added := AddRates(t1, monthCurrency, 0).value;
    PaddingEvensLengths(added.0, n, {"date"} + KeySet(monthCurrency));
  }

  /** Padding to `n + 1` evens out columns of length `n` and `n + 1`. */
  lemma PaddingEvensLengths(t: Table, n: nat, bumped: set<string>)
    requires Lengths(t, n, bumped)
    ensures Lengths(CheckEmptyFields(t, n + 1), n + 1, {})
  {
  }

  /** With no rates this month the longest length stays 0, nothing is padded,
      and only the `'date'` column grows. */
  lemma AddDataWithoutRates(t: Table, month: Date, n: nat)
    requires 0 <= month.year < 10000 && 0 <= month.month < 100
    requires DistinctKeys(t) && "date" in Keys(t) && Lengths(t, n, {})
    ensures AddDataToDictionary(t, [], month).Ok?
    ensures Lengths(AddDataToDictionary(t, [], month).value, n, {"date"})
  {
    var t1 := AppendCell(t, "date", Str(MonthLabel(month)));
    AppendCellLengths(t, "date", Str(MonthLabel(month)), n, {});
    AddDataNoRates(t, month);
    CheckEmptyFieldsNone(t1);
  }

  /** With no rates the table after the `'date'` cell is padded to length 0. */
  lemma AddDataNoRates(t: Table, month: Date)
    requires 0 <= month.year < 10000 && 0 <= month.month < 100
    requires "date" in Keys(t)
    ensures AddDataToDictionary(t, [], month)
         == Ok(CheckEmptyFields(AppendCell(t, "date", Str(MonthLabel(month))), 0))
  {
  }

  /** Padding to length 0 changes nothing. */
  lemma CheckEmptyFieldsNone(t: Table)
    ensures CheckEmptyFields(t, 0) == t
  {
    var r := CheckEmptyFields(t, 0);
    assert forall i | 0 <= i < |t| :: r[i] == t[i] by {
      assert Keys(r) == Keys(t);
      forall i | 0 <= i < |t| ensures r[i] == t[i] {
        assert Keys(r)[i] == Keys(t)[i];
      }
    }
  }
}
