/** table.py: the filters of `InputConnect` (`filter_by_salary`,
    `filter_by_skills`, `filter_by_date`, `filter_by_currency`, and the
    dispatch of `filter_data`) and the validation of the console input
    (`check_filter_param`, `check_if_correct`, `check_input_values`).
    Every filter keeps the vacancies it accepts in their input order.
 */
module TableFilters {
  import opened Results
  import opened Text
  import opened Numbers
  import opened Seqs
  import opened OrderedMaps
  import opened CsvReader
  import opened Salaries
  import opened TableFormat
  import Dates

  // ---- filter_by_salary ------------------------------------------------------

  /** `float(from) <= float(value) <= float(to)`: the chained comparison
      converts the lower bound, then the value, and converts the upper bound
      only when the first comparison holds. */
  function SalaryTest(value: string, v: Vacancy): (r: Result<bool>)
    ensures FloatOf(v.salary.from).Fail? ==> r == Fail(FloatOf(v.salary.from).error)
    ensures r == Ok(true) <==> FloatOf(v.salary.from).Ok? && ParseDecimal(value).Ok? && FloatOf(v.salary.to).Ok?
                               && FloatOf(v.salary.from).value <= ParseDecimal(value).value <= FloatOf(v.salary.to).value
    ensures r.Ok? <==> FloatOf(v.salary.from).Ok? && ParseDecimal(value).Ok?
                       && (ParseDecimal(value).value < FloatOf(v.salary.from).value || FloatOf(v.salary.to).Ok?)
  {
    var lo :- FloatOf(v.salary.from);
    var x :- ParseDecimal(value);
    if x < lo then Ok(false)
    else
      var hi :- FloatOf(v.salary.to);
      Ok(x <= hi)
  }

  function SalaryIn(value: string): Vacancy -> Result<bool> {
    (v: Vacancy) => SalaryTest(value, v)
  }

  /** `filter_by_salary`: the vacancies whose salary range holds the value,
      both ends included; the first vacancy whose test raises names the
      error. */
  function FilterBySalary(value: string, vacs: seq<Vacancy>): (r: Result<seq<Vacancy>>)
    ensures r.Ok? <==> forall i | 0 <= i < |vacs| :: SalaryTest(value, vacs[i]).Ok?
    ensures r.Ok? ==> |r.value| <= |vacs|
    ensures r.Ok? ==> forall i | 0 <= i < |r.value| ::
      r.value[i] in vacs
      && FloatOf(r.value[i].salary.from).value <= ParseDecimal(value).value <= FloatOf(r.value[i].salary.to).value
    ensures r.Ok? ==> forall i | 0 <= i < |vacs| ::
      FloatOf(vacs[i].salary.from).Ok? && FloatOf(vacs[i].salary.to).Ok? && ParseDecimal(value).Ok?
      && FloatOf(vacs[i].salary.from).value <= ParseDecimal(value).value <= FloatOf(vacs[i].salary.to).value
      ==> vacs[i] in r.value
  {
    var r := FilterOk(vacs, SalaryIn(value));
    assert r.Ok? ==> forall i | 0 <= i < |r.value| :: SalaryIn(value)(r.value[i]) == Ok(true);
    r
  }

  /** The salary filter keeps the input order: on a concatenation it keeps
      the first part's vacancies and then the second's, and the first part's
      error comes before the second's. */
  lemma FilterBySalaryAppend(value: string, a: seq<Vacancy>, b: seq<Vacancy>)
    ensures FilterBySalary(value, a + b)
         == if FilterBySalary(value, a).Fail? then FilterBySalary(value, a)
            else if FilterBySalary(value, b).Fail? then FilterBySalary(value, b)
            else Ok(FilterBySalary(value, a).value + FilterBySalary(value, b).value)
  {
    FilterOkAppend(a, b, SalaryIn(value));
  }

  // ---- filter_by_skills ------------------------------------------------------

  /** `skill in key_skills`: a substring of a single skill text, or an entry
      of a list of skills. */
  predicate SkillIn(skill: string, skills: Field) {
    match skills
    case Text(t) => Contains(t, skill)
    case Lines(ls) => skill in ls
  }

  /** Every wanted skill is among the vacancy's skills. */
  function HasSkills(wanted: seq<string>): Vacancy -> bool {
    (v: Vacancy) => forall k | 0 <= k < |wanted| :: SkillIn(wanted[k], v.keySkills)
  }

  /** `filter_by_skills`: the requested skills are the `', '`-separated
      pieces of the value, and a vacancy is kept when it has all of them. */
  function FilterBySkills(value: string, vacs: seq<Vacancy>): (r: seq<Vacancy>)
    ensures |r| <= |vacs|
    ensures forall i | 0 <= i < |r| ::
      r[i] in vacs
      && forall k | 0 <= k < |SplitOn(value, ", ")| :: SkillIn(SplitOn(value, ", ")[k], r[i].keySkills)
    ensures forall i | 0 <= i < |vacs| ::
      (forall k | 0 <= k < |SplitOn(value, ", ")| :: SkillIn(SplitOn(value, ", ")[k], vacs[i].keySkills))
      ==> vacs[i] in r
  {
    var r := Filter(vacs, HasSkills(SplitOn(value, ", ")));
    assert forall i | 0 <= i < |r| :: HasSkills(SplitOn(value, ", "))(r[i]);
    r
  }

  /** The skills filter keeps the input order. */
  lemma FilterBySkillsAppend(value: string, a: seq<Vacancy>, b: seq<Vacancy>)
    ensures FilterBySkills(value, a + b) == FilterBySkills(value, a) + FilterBySkills(value, b)
  {
    FilterAppend(a, b, HasSkills(SplitOn(value, ", ")));
  }

  /** A value without `', '` asks for one skill, the whole value. */
  lemma FilterByOneSkill(value: string, vacs: seq<Vacancy>)
    requires !Contains(value, ", ")
    ensures FilterBySkills(value, vacs) == Filter(vacs, HasSkills([value]))
    ensures forall v :: HasSkills([value])(v) <==> SkillIn(value, v.keySkills)
  {
    SplitWithout(value, ", ");
    forall v ensures HasSkills([value])(v) <==> SkillIn(value, v.keySkills) {
      assert [value][0] == value;
    }
  }

  /** Asking for the skills `a, b` keeps exactly the vacancies that have `a`
      and that the request for `b` keeps. */
  lemma FilterByTwoSkills(a: string, b: string, vacs: seq<Vacancy>)
    requires ',' !in a
    ensures var wanted := SplitOn(a + ", " + b, ", ");
            forall v :: HasSkills(wanted)(v) <==> SkillIn(a, v.keySkills) && HasSkills(SplitOn(b, ", "))(v)
  {
    SplitAtLead(a, b, ", ");
    var rest := SplitOn(b, ", ");
    var wanted := [a] + rest;
    forall v
      ensures HasSkills(wanted)(v) <==> SkillIn(a, v.keySkills) && HasSkills(rest)(v)
    {
      if SkillIn(a, v.keySkills) && HasSkills(rest)(v) {
        forall k | 0 <= k < |wanted| ensures SkillIn(wanted[k], v.keySkills) {
          if k > 0 {
            assert wanted[k] == rest[k - 1];
          }
        }
      }
      if HasSkills(wanted)(v) {
        assert SkillIn(wanted[0], v.keySkills);
        forall k | 0 <= k < |rest| ensures SkillIn(rest[k], v.keySkills) {
          assert rest[k] == wanted[k + 1];
        }
      }
    }
  }

  // ---- filter_by_date --------------------------------------------------------

  /** The `YYYY-MM-DD` text a `DD.MM.YYYY` value is compared with: the value
      split on `'.'`, the pieces reversed and joined by `'-'`. A value with
      fewer than three pieces is an IndexError, raised before any vacancy is
      looked at. */
  function DateKey(value: string): (r: Result<string>)
    ensures r.Ok? <==> CountChar(value, '.') >= 2
    ensures r.Fail? ==> r.error == IndexError
  {
    var parts := SplitOn(value, ".");
    SplitCharPieces(value, '.');
    if |parts| < 3 then Fail(IndexError) else Ok(parts[2] + "-" + parts[1] + "-" + parts[0])
  }

  /** `vac.published_at[0:10] == date`; a list never equals a text. */
  function PublishedOn(key: string): Vacancy -> bool {
    (v: Vacancy) => v.publishedAt.Text? && Prefix(v.publishedAt.text, 10) == key
  }

  /** `filter_by_date`: the vacancies published on the given day. */
  function FilterByDate(value: string, vacs: seq<Vacancy>): (r: Result<seq<Vacancy>>)
    ensures r.Ok? <==> DateKey(value).Ok?
    ensures r.Fail? ==> r.error == IndexError
    ensures r.Ok? ==> |r.value| <= |vacs|
    ensures r.Ok? ==> forall i | 0 <= i < |r.value| ::
      r.value[i] in vacs
      && r.value[i].publishedAt.Text? && Prefix(r.value[i].publishedAt.text, 10) == DateKey(value).value
    ensures r.Ok? ==> forall i | 0 <= i < |vacs| ::
      vacs[i].publishedAt.Text? && Prefix(vacs[i].publishedAt.text, 10) == DateKey(value).value ==> vacs[i] in r.value
  {
    var key :- DateKey(value);
    var r := Filter(vacs, PublishedOn(key));
    assert forall i | 0 <= i < |r| :: PublishedOn(key)(r[i]);
    assert forall i | 0 <= i < |vacs| :: PublishedOn(key)(vacs[i]) ==> vacs[i] in r;
    Ok(r)
  }

  /** The date filter keeps the input order. */
  lemma FilterByDateAppend(value: string, a: seq<Vacancy>, b: seq<Vacancy>)
    requires DateKey(value).Ok?
    ensures FilterByDate(value, a + b) == Ok(FilterByDate(value, a).value + FilterByDate(value, b).value)
  {
    FilterAppend(a, b, PublishedOn(DateKey(value).value));
  }

  /** The date `formatter` shows for a timestamp, given back to the date
      filter, selects the timestamps of that day: the two conversions are
      inverse. */
  lemma DateKeyOfShownDate(s: string)
    requires Dates.IsoShape(s)
    ensures ShownDate(Text(s)).Ok?
    ensures DateKey(ShownDate(Text(s)).value) == Ok(Prefix(s, 10))
  {
    ShownDateOfIso(s);
    var y, m, d := s[..4], s[5..7], s[8..10];
    assert '.' !in y && '.' !in m && '.' !in d by {
      assert forall i | 0 <= i < 4 :: IsDigit(y[i]);
      assert forall i | 0 <= i < 2 :: IsDigit(m[i]) && IsDigit(d[i]);
    }
    var shown := d + "." + m + "." + y;
    assert ShownDate(Text(s)).value == shown;
    assert shown == d + ['.'] + (m + ['.'] + y);
    SplitAtSep(d, m + ['.'] + y, '.');
    SplitAtSep(m, y, '.');
    SplitNoSep(y, '.');
    var parts := SplitOn(shown, ".");
    assert parts == [d, m, y];
    assert s[..10] == y + "-" + m + "-" + d;
  }

  /** A vacancy with a timestamp is kept by the date filter given the date
      `formatter` shows for it. */
  lemma FilterByShownDate(v: Vacancy, vacs: seq<Vacancy>)
    requires v.publishedAt.Text? && Dates.IsoShape(v.publishedAt.text) && v in vacs
    ensures ShownDate(v.publishedAt).Ok?
    ensures FilterByDate(ShownDate(v.publishedAt).value, vacs).Ok?
    ensures v in FilterByDate(ShownDate(v.publishedAt).value, vacs).value
  {
    var s := v.publishedAt.text;
    DateKeyOfShownDate(s);
    assert PublishedOn(Prefix(s, 10))(v);
    var i :| 0 <= i < |vacs| && vacs[i] == v;
  }

  // ---- filter_by_currency ----------------------------------------------------

  function CurrencyIs(value: string): Vacancy -> bool {
    (v: Vacancy) => v.salary.currency == Text(value)
  }

  /** `filter_by_currency`: the vacancies whose currency code is the value. */
  function FilterByCurrency(value: string, vacs: seq<Vacancy>): (r: seq<Vacancy>)
    ensures |r| <= |vacs|
    ensures forall i | 0 <= i < |r| :: r[i] in vacs && r[i].salary.currency == Text(value)
    ensures forall i | 0 <= i < |vacs| :: vacs[i].salary.currency == Text(value) ==> vacs[i] in r
  {
    var r := Filter(vacs, CurrencyIs(value));
    assert forall i | 0 <= i < |r| :: CurrencyIs(value)(r[i]);
    r
  }

  /** The currency filter keeps the input order. */
  lemma FilterByCurrencyAppend(value: string, a: seq<Vacancy>, b: seq<Vacancy>)
    ensures FilterByCurrency(value, a + b) == FilterByCurrency(value, a) + FilterByCurrency(value, b)
  {
    FilterAppend(a, b, CurrencyIs(value));
  }

  // ---- filter_data -----------------------------------------------------------

  /** The attributes `filter_data` compares with the value for equality. */
  const TextFields: seq<string> := ["name", "description", "employer_name", "area_name", "premium", "experience_id"]

  /** The attributes with a filter method of their own. */
  const FilterMethods: seq<string> := ["salary", "key_skills", "published_at", "salary_currency"]

  /** `vac.__dict__[param]` for the text fields. */
  function TextFieldOf(param: string, v: Vacancy): (r: Option<Field>)
    ensures r.Some? <==> param in TextFields
  {
    if param == "experience_id" then Some(v.experience) else PlainAttribute(param, v)
  }

  function AttributeIs(param: string, value: string): Vacancy -> bool {
    (v: Vacancy) => TextFieldOf(param, v) == Some(Text(value))
  }

  /** `filter_data`: a text field is compared for equality, the other
      attributes go to their filter method, and any other parameter is a
      KeyError. The list filtered is the data set's vacancies. */
  function FilterData(param: string, value: string, vacs: seq<Vacancy>): (r: Result<seq<Vacancy>>)
    ensures param !in TextFields && param !in FilterMethods ==> r == Fail(KeyError)
    ensures param in TextFields || param == "key_skills" || param == "salary_currency" ==> r.Ok?
    ensures r.Ok? ==> |r.value| <= |vacs| && forall i | 0 <= i < |r.value| :: r.value[i] in vacs
    ensures r.Ok? && param in TextFields ==>
      forall i | 0 <= i < |r.value| :: TextFieldOf(param, r.value[i]) == Some(Text(value))
    ensures r.Ok? && param in TextFields ==>
      forall i | 0 <= i < |vacs| :: TextFieldOf(param, vacs[i]) == Some(Text(value)) ==> vacs[i] in r.value
    ensures param == "salary" ==> r == FilterBySalary(value, vacs)
    ensures param == "key_skills" ==> r == Ok(FilterBySkills(value, vacs))
    ensures param == "published_at" ==> r == FilterByDate(value, vacs)
    ensures param == "salary_currency" ==> r == Ok(FilterByCurrency(value, vacs))
  {
    if param in TextFields then
      var r := Filter(vacs, AttributeIs(param, value));
      assert forall i | 0 <= i < |r| :: AttributeIs(param, value)(r[i]);
      assert forall i | 0 <= i < |vacs| :: AttributeIs(param, value)(vacs[i]) ==> vacs[i] in r;
      Ok(r)
    else if param == "salary" then FilterBySalary(value, vacs)
    else if param == "key_skills" then Ok(FilterBySkills(value, vacs))
    else if param == "published_at" then FilterByDate(value, vacs)
    else if param == "salary_currency" then Ok(FilterByCurrency(value, vacs))
    else Fail(KeyError)
  }

  /** Every filter keeps the input order: filtering a concatenation whose
      parts both pass gives the two filtered parts in order, and it passes
      exactly when both parts do. */
  lemma FilterDataAppend(param: string, value: string, a: seq<Vacancy>, b: seq<Vacancy>)
    ensures FilterData(param, value, a + b).Ok?
        <==> FilterData(param, value, a).Ok? && FilterData(param, value, b).Ok?
    ensures FilterData(param, value, a).Ok? && FilterData(param, value, b).Ok? ==>
      FilterData(param, value, a + b) == Ok(FilterData(param, value, a).value + FilterData(param, value, b).value)
  {
    if param in TextFields {
      FilterAppend(a, b, AttributeIs(param, value));
    } else if param == "salary" {
      FilterBySalaryAppend(value, a, b);
    } else if param == "key_skills" {
      FilterBySkillsAppend(value, a, b);
    } else if param == "published_at" {
      if DateKey(value).Ok? {
        FilterByDateAppend(value, a, b);
      }
    } else if param == "salary_currency" {
      FilterByCurrencyAppend(value, a, b);
    }
  }

  /** Filtering the filtered vacancies again with the same parameter and
      value keeps all of them. */
  lemma FilterDataIdempotent(param: string, value: string, vacs: seq<Vacancy>)
    requires FilterData(param, value, vacs).Ok?
    ensures FilterData(param, value, FilterData(param, value, vacs).value) == FilterData(param, value, vacs)
  {
    if param in TextFields {
      FilterIdempotent(vacs, AttributeIs(param, value));
    } else if param == "salary" {
      FilterOkAgain(vacs, SalaryIn(value));
    } else if param == "key_skills" {
      FilterIdempotent(vacs, HasSkills(SplitOn(value, ", ")));
    } else if param == "published_at" {
      FilterIdempotent(vacs, PublishedOn(DateKey(value).value));
    } else {
      FilterIdempotent(vacs, CurrencyIs(value));
    }
  }

  // ---- input validation ------------------------------------------------------

  /** The keys of `rus_naming`: the attributes that have a column title. */
  const RusKeys: seq<string> :=
    ["name", "description", "key_skills", "experience_id", "premium", "employer_name",
     "salary", "area_name", "published_at"]

  /** The keys of `eng_naming`: the column titles and, last, the title of
      the currency code. */
  const EngKeys: seq<string> :=
    ["Название", "Описание", "Навыки", "Опыт работы", "Премиум-вакансия", "Компания",
     "Оклад", "Название региона", "Дата публикации вакансии", "Идентификатор валюты оклада"]

  /** `eng_naming`: the attribute a column title names. */
  function EngName(title: string): (r: Option<string>)
    ensures r.Some? <==> title in EngKeys
    ensures r.Some? ==> r.value in RusKeys || r.value == "salary_currency"
  {
    if title == "Название" then Some("name")
    else if title == "Описание" then Some("description")
    else if title == "Навыки" then Some("key_skills")
    else if title == "Опыт работы" then Some("experience_id")
    else if title == "Премиум-вакансия" then Some("premium")
    else if title == "Компания" then Some("employer_name")
    else if title == "Оклад" then Some("salary")
    else if title == "Название региона" then Some("area_name")
    else if title == "Дата публикации вакансии" then Some("published_at")
    else if title == "Идентификатор валюты оклада" then Some("salary_currency")
    else None
  }

  /** The keys of `bool_naming`, the answers to the sort order question. */
  const BoolKeys: seq<string> := ["Да", "Нет"]

  const FormatMessage: string := "Формат ввода некорректен"
  const ParamMessage: string := "Параметр поиска некорректен"
  const SortMessage: string := "Параметр сортировки некорректен"
  const OrderMessage: string := "Порядок сортировки задан некорректно"

  /** `check_filter_param`: an empty filter is accepted; a filter without
      `': '` has the wrong format; otherwise the text before the first
      `': '` must be an attribute or a column title. `None` stands for both
      `True` and the implicit `None` of an accepted filter. */
  function CheckFilterParam(parameter: string): (r: Option<string>)
    ensures parameter == "" ==> r == None
    ensures parameter != "" && !Contains(parameter, ": ") ==> r == Some(FormatMessage)
    ensures r.Some? ==> r.value == FormatMessage || r.value == ParamMessage
    ensures parameter != "" && Contains(parameter, ": ") ==>
      (r == None <==> SplitOn(parameter, ": ")[0] in RusKeys || SplitOn(parameter, ": ")[0] in EngKeys)
  {
    if parameter == "" then None
    else if !Contains(parameter, ": ") then Some(FormatMessage)
    else
      var title := SplitOn(parameter, ": ")[0];
      if title !in RusKeys && title !in EngKeys then Some(ParamMessage) else None
  }

  /** A filter written as a known title, `': '` and any value is accepted,
      whatever the value. */
  lemma CheckFilterParamAccepts(title: string, value: string)
    requires title in RusKeys || title in EngKeys
    requires ':' !in title
    ensures CheckFilterParam(title + ": " + value) == None
  {
    var p := title + ": " + value;
    SplitAtLead(title, value, ": ");
    assert p[|title|..|title| + 2] == ": ";
    ContainsAt(p, ": ", |title|);
  }

  /** `p` occurs in `s` wherever `s` holds it. */
  lemma {:induction false} ContainsAt(s: string, p: string, k: nat)
    requires k + |p| <= |s| && s[k..k + |p|] == p
    ensures Contains(s, p)
    decreases k
  {
    if k == 0 {
      assert p <= s;
    } else {
      assert s[1..][k - 1..k - 1 + |p|] == s[k..k + |p|];
      ContainsAt(s[1..], p, k - 1);
    }
  }

  /** `check_if_correct`: a key of the table, or empty. */
  predicate CheckIfCorrect(value: string, keys: seq<string>) {
    value in keys || value == ""
  }

  /** `check_input_values`: the message of the filter check followed by a
      newline, then the sort parameter message with a newline, then the
      sort order message, each present only when its check fails. The last
      statement of the source slices the message and discards the slice,
      so it changes nothing. */
  function CheckInputValues(filter: string, sort: string, reversed: string): (r: string)
    ensures r == "" <==> CheckFilterParam(filter) == None && CheckIfCorrect(sort, EngKeys)
                         && CheckIfCorrect(reversed, BoolKeys)
    ensures CheckFilterParam(filter).Some? ==> CheckFilterParam(filter).value + "\n" <= r
    ensures !CheckIfCorrect(reversed, BoolKeys) <==>
      |OrderMessage| <= |r| && r[|r| - |OrderMessage|..] == OrderMessage
  {
    var result := CheckFilterParam(filter);
    var message := if result.Some? then result.value + "\n" else "";
    var message := if !CheckIfCorrect(sort, EngKeys) then message + SortMessage + "\n" else message;
    assert message == "" || message[|message| - 1] == '\n';
    assert OrderMessage[|OrderMessage| - 1] != '\n';
    if !CheckIfCorrect(reversed, BoolKeys) then message + OrderMessage else message
  }

  /** The accepted input of the table tests: nothing to filter, sort or
      reverse gives no message. */
  lemma CheckInputValuesEmpty()
    ensures CheckInputValues("", "", "") == ""
  {
  }

  // ---- the currency sort parameter -------------------------------------------

  /** The attribute the validated sort title names: `eng_naming[sort_param]`,
      a KeyError for any other title. */
  function SortParam(title: string): (r: Result<string>)
    ensures r.Ok? <==> title in EngKeys
    ensures r.Fail? ==> r.error == KeyError
    ensures r.Ok? ==> r.value in RusKeys || r.value == "salary_currency"
  {
    if EngName(title).None? then Fail(KeyError) else Ok(EngName(title).value)
  }

  /** As written, the validation accepts the currency title as a sort
      parameter, and the key it then sorts by raises KeyError for every
      vacancy: `salary_currency` is an attribute of the salary, not of the
      vacancy. */
  lemma CurrencySortAsWritten(title: string, v: Vacancy)
    requires title == "Идентификатор валюты оклада"
    ensures CheckInputValues("", title, "") == ""
    ensures SortParam(title) == Ok("salary_currency")
    ensures SortingKeyAsWritten(SortParam(title).value, v) == Fail(KeyError)
  {
  }

  /** With the currency read from the salary, every attribute a sort title
      names yields a key except for the computed keys, which can fail only
      on the vacancy's own data. */
  lemma CurrencySortCorrected(title: string, v: Vacancy)
    requires SortParam(title).Ok?
    ensures SortingKey(SortParam(title).value, v).Fail? ==> SortParam(title).value in ComputedKeys
  {
  }
}
