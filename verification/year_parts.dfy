/** csv_parts_creator.py: splitting the rows of the full export into one
    group per publication year (`parse_by_years`) and the content of the
    per-year files (`create_csv_files`). The files are named by the first
    four characters of the `published_at` cell followed by `.csv`.
 */
module YearParts {
  import opened Results
  import opened Text
  import opened Seqs
  import opened OrderedMaps
  import opened CsvReader

  /** `titles.index('published_at')`: the first such column, ValueError
      when there is none. */
  function DateColumn(titles: Row): (r: Result<nat>)
    ensures r.Ok? <==> "published_at" in titles
    ensures r.Fail? ==> r.error == ValueError
    ensures r.Ok? ==> r.value < |titles| && titles[r.value] == "published_at"
                      && "published_at" !in titles[..r.value]
  {
    if "published_at" in titles then Ok(FirstIndex(titles, "published_at")) else Fail(ValueError)
  }

  /** `f"{row[date_index][0:4]}.csv"`: IndexError on a row too short to hold
      the date column. */
  function FileName(row: Row, index: nat): (r: Result<string>)
    ensures r.Ok? <==> index < |row|
    ensures r.Fail? ==> r.error == IndexError
    ensures r.Ok? ==> 4 <= |r.value| <= 8 && r.value[|r.value| - 4..] == ".csv"
                      && r.value[..|r.value| - 4] <= row[index]
    ensures r.Ok? ==> |r.value| == 4 + (if |row[index]| < 4 then |row[index]| else 4)
  {
    if index < |row| then Ok(Prefix(row[index], 4) + ".csv") else Fail(IndexError)
  }

  /** Each row paired with its file name, in row order; the first row too
      short for the date column raises IndexError. */
  function KeyRows(rows: seq<Row>, index: nat): (r: Result<seq<(string, Row)>>)
    ensures r.Ok? <==> forall i | 0 <= i < |rows| :: index < |rows[i]|
    ensures r.Fail? ==> r.error == IndexError
    ensures r.Ok? ==> |r.value| == |rows|
    ensures r.Ok? ==> forall i | 0 <= i < |rows| ::
      FileName(rows[i], index) == Ok(r.value[i].0) && r.value[i].1 == rows[i]
  {
    if |rows| == 0 then Ok([])
    else
      var n := |rows| - 1;
      var init := KeyRows(rows[..n], index);
      assert forall i | 0 <= i < n :: rows[..n][i] == rows[i];
      if init.Fail? then Fail(init.error)
      else if index >= |rows[n]| then Fail(IndexError)
      else Ok(init.value + [(Prefix(rows[n][index], 4) + ".csv", rows[n])])
  }

  /** `parse_by_years`: the date column is looked up first (ValueError),
      then each row is appended to the list of its year's file, the lists
      kept in the order in which their years first appear. */
  function ParseByYears(rows: seq<Row>, titles: Row): (r: Result<Dict<string, seq<Row>>>)
    ensures "published_at" !in titles ==> r == Fail(ValueError)
    ensures r.Ok? <==> "published_at" in titles
                       && forall i | 0 <= i < |rows| :: DateColumn(titles).value < |rows[i]|
    ensures r.Ok? ==> DistinctKeys(r.value)
  {
    var index :- DateColumn(titles);
    var keyed :- KeyRows(rows, index);
    GroupDistinct(keyed);
    Ok(GroupBy(keyed))
  }

  /** Whether a row belongs in the file `name`. */
  function InFile(index: nat, name: string): Row -> bool {
    (row: Row) => FileName(row, index) == Ok(name)
  }

  /** The rows that a key selects are the rows, in order, whose file name
      is that key. */
  lemma {:induction false} SelectIsFilter(rows: seq<Row>, index: nat, keyed: seq<(string, Row)>, name: string)
    requires |keyed| == |rows|
    requires forall i | 0 <= i < |rows| :: FileName(rows[i], index) == Ok(keyed[i].0) && keyed[i].1 == rows[i]
    ensures Select(keyed, name) == Filter(rows, InFile(index, name))
  {
    if |rows| > 0 {
      var n := |rows| - 1;
      SelectIsFilter(rows[..n], index, keyed[..n], name);
    }
  }

  /** The groups partition the rows: there is one group per distinct file
      name, in first-occurrence order; a group holds exactly the rows with
      its name, in input order; and the group sizes add up to the number of
      rows. */
  lemma ParseByYearsPartition(rows: seq<Row>, titles: Row)
    requires ParseByYears(rows, titles).Ok?
    ensures var index := DateColumn(titles).value;
            var keyed := KeyRows(rows, index).value;
            Keys(ParseByYears(rows, titles).value) == FirstOccurrences(Keys(keyed))
    ensures SumValues(Sizes(ParseByYears(rows, titles).value)) == |rows|
    ensures forall name | name in Keys(ParseByYears(rows, titles).value) ::
      Get(ParseByYears(rows, titles).value, name)
        == Some(Filter(rows, InFile(DateColumn(titles).value, name)))
  {
    var index := DateColumn(titles).value;
    var keyed := KeyRows(rows, index).value;
    var groups := GroupBy(keyed);
    assert ParseByYears(rows, titles).value == groups;
    GroupKeys(keyed);
    GroupSizes(keyed);
    forall name | name in Keys(groups)
      ensures Get(groups, name) == Some(Filter(rows, InFile(index, name)))
    {
      GroupContents(keyed, name);
      SelectIsFilter(rows, index, keyed, name);
    }
  }

  /** Every row lands in the group named by its own file name. */
  lemma RowInItsGroup(rows: seq<Row>, titles: Row, i: nat)
    requires ParseByYears(rows, titles).Ok? && i < |rows|
    ensures var index := DateColumn(titles).value;
            var name := FileName(rows[i], index).value;
            Get(ParseByYears(rows, titles).value, name).Some?
            && rows[i] in Get(ParseByYears(rows, titles).value, name).value
  {
    var index := DateColumn(titles).value;
    var keyed := KeyRows(rows, index).value;
    var name := FileName(rows[i], index).value;
    assert keyed[i].0 == name;
    assert name in Keys(keyed);
    assert name in Keys(ParseByYears(rows, titles).value) by {
      ParseByYearsPartition(rows, titles);
    }
    ParseByYearsPartition(rows, titles);
    assert InFile(index, name)(rows[i]);
  }

  /** `create_csv_files`: each file holds the header row followed by its
      group's rows. */
  function CreateCsvFiles(groups: Dict<string, seq<Row>>, titles: Row): (r: Dict<string, seq<Row>>)
    ensures Keys(r) == Keys(groups)
    ensures forall i | 0 <= i < |r| :: |r[i].1| == |groups[i].1| + 1
  {
    Project(groups, (g: seq<Row>) => [titles] + g)
  }

  /** A year file starts with the header, and its remaining lines are the
      rows of the input whose year gives the file's name, in order. */
  lemma YearFileContents(rows: seq<Row>, titles: Row, name: string)
    requires ParseByYears(rows, titles).Ok?
    requires name in Keys(ParseByYears(rows, titles).value)
    ensures var files := CreateCsvFiles(ParseByYears(rows, titles).value, titles);
            Get(files, name).Some?
            && Get(files, name).value == [titles] + Filter(rows, InFile(DateColumn(titles).value, name))
  {
    var groups := ParseByYears(rows, titles).value;
    var files := CreateCsvFiles(groups, titles);
    ParseByYearsPartition(rows, titles);
    var j := FirstIndex(Keys(groups), name);
    GetAt(groups, j);
    assert DistinctKeys(files) by {
      assert Keys(files) == Keys(groups);
    }
    GetAt(files, j);
  }
}
