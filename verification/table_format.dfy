/** table.py: the vacancy record of the console table, the lookup tables of
    `InputConnect`, the sort keys of `get_sorting_func`, the display
    formatting of `modify_number` and `formatter`, and the cell truncation
    of `create_table`. Field values are the cleaned fields of `csv_filer`:
    text, or a list of lines for a multi-line cell.
 */
module TableFormat {
  import opened Results
  import opened Text
  import opened Numbers
  import opened Seqs
  import opened OrderedMaps
  import opened CsvReader
  import opened Salaries
  import Dates

  datatype Salary = Salary(from: Field, to: Field, gross: Field, currency: Field)

  /** The attributes of a table vacancy, in the order `__init__` sets them. */
  datatype Vacancy = Vacancy(name: Field, description: Field, keySkills: Field, experience: Field,
                             premium: Field, employer: Field, salary: Salary, area: Field,
                             publishedAt: Field)

  /** The keys `create_vacancy` reads, in reading order. */
  const VacancyKeys: seq<string> :=
    ["name", "experience_id", "description", "area_name", "employer_name", "key_skills",
     "premium", "published_at", "salary_from", "salary_to", "salary_gross", "salary_currency"]

  /** `create_vacancy`: every key is looked up; a missing one raises
      KeyError, whichever it is. */
  function CreateVacancy(d: Dict<string, Field>): (r: Result<Vacancy>)
    ensures r.Ok? <==> forall k | k in VacancyKeys :: k in Keys(d)
    ensures r.Fail? ==> r.error == KeyError
    ensures r.Ok? ==> Get(d, "name") == Some(r.value.name) && Get(d, "key_skills") == Some(r.value.keySkills)
                      && Get(d, "experience_id") == Some(r.value.experience)
                      && Get(d, "published_at") == Some(r.value.publishedAt)
                      && Get(d, "salary_from") == Some(r.value.salary.from)
                      && Get(d, "salary_to") == Some(r.value.salary.to)
                      && Get(d, "salary_currency") == Some(r.value.salary.currency)
    ensures r.Ok? ==> Get(d, "description") == Some(r.value.description)
                      && Get(d, "premium") == Some(r.value.premium)
                      && Get(d, "employer_name") == Some(r.value.employer)
                      && Get(d, "salary_gross") == Some(r.value.salary.gross)
                      && Get(d, "area_name") == Some(r.value.area)
  {
    if exists k | k in VacancyKeys :: k !in Keys(d) then Fail(KeyError)
    else
      VacancyKeysPresent(d);
      Ok(Vacancy(Lookup(d, "name"), Lookup(d, "description"), Lookup(d, "key_skills"),
                 Lookup(d, "experience_id"), Lookup(d, "premium"), Lookup(d, "employer_name"),
                 Salary(Lookup(d, "salary_from"), Lookup(d, "salary_to"),
                        Lookup(d, "salary_gross"), Lookup(d, "salary_currency")),
                 Lookup(d, "area_name"), Lookup(d, "published_at")))
  }

  /** A dict holding every vacancy key holds each one by name. */
  lemma VacancyKeysPresent(d: Dict<string, Field>)
    requires forall k | k in VacancyKeys :: k in Keys(d)
    ensures "name" in Keys(d) && "experience_id" in Keys(d) && "description" in Keys(d)
    ensures "area_name" in Keys(d) && "employer_name" in Keys(d) && "key_skills" in Keys(d)
    ensures "premium" in Keys(d) && "published_at" in Keys(d) && "salary_from" in Keys(d)
    ensures "salary_to" in Keys(d) && "salary_gross" in Keys(d) && "salary_currency" in Keys(d)
  {
    assert "name" in VacancyKeys && "experience_id" in VacancyKeys && "description" in VacancyKeys;
    assert "area_name" in VacancyKeys && "employer_name" in VacancyKeys && "key_skills" in VacancyKeys;
    assert "premium" in VacancyKeys && "published_at" in VacancyKeys && "salary_from" in VacancyKeys;
    assert "salary_to" in VacancyKeys && "salary_gross" in VacancyKeys && "salary_currency" in VacancyKeys;
  }

  // ---- lookup tables ---------------------------------------------------------

  /** The experience ids from the least to the most senior. */
  const ExperienceIds: seq<string> := ["noExperience", "between1And3", "between3And6", "moreThan6"]

  /** Their display names, in the same order. */
  const ExperienceTitles: seq<string> := ["Нет опыта", "От 1 года до 3 лет", "От 3 до 6 лет", "Более 6 лет"]

  /** `experience_priority`: the position of the id in seniority order. */
  function ExperiencePriority(id: string): (r: Option<nat>)
    ensures r.Some? <==> id in ExperienceIds
    ensures r.Some? ==> r.value < |ExperienceIds| && ExperienceIds[r.value] == id
  {
    if id == "noExperience" then Some(0)
    else if id == "between1And3" then Some(1)
    else if id == "between3And6" then Some(2)
    else if id == "moreThan6" then Some(3)
    else None
  }

  /** `experience_naming`, which maps in both directions. */
  function ExperienceName(s: string): (r: Option<string>)
    ensures r.Some? <==> s in ExperienceIds || s in ExperienceTitles
  {
    if s == "noExperience" then Some("Нет опыта")
    else if s == "between1And3" then Some("От 1 года до 3 лет")
    else if s == "between3And6" then Some("От 3 до 6 лет")
    else if s == "moreThan6" then Some("Более 6 лет")
    else if s == "Нет опыта" then Some("noExperience")
    else if s == "От 1 года до 3 лет" then Some("between1And3")
    else if s == "От 3 до 6 лет" then Some("between3And6")
    else if s == "Более 6 лет" then Some("moreThan6")
    else None
  }

  /** The two directions of `experience_naming` undo each other. */
  lemma ExperienceNamingRoundTrip(i: nat)
    requires i < |ExperienceIds|
    ensures ExperienceName(ExperienceIds[i]) == Some(ExperienceTitles[i])
    ensures ExperienceName(ExperienceTitles[i]) == Some(ExperienceIds[i])
  {
  }

  /** The currency display names, in the order of the rate table's codes. */
  const CurrencyTitles: seq<string> :=
    ["Манаты", "Белорусские рубли", "Евро", "Грузинский лари", "Киргизский сом",
     "Тенге", "Рубли", "Гривны", "Доллары", "Узбекский сум"]

  /** `currency_naming`, which maps in both directions. */
  function CurrencyName(s: string): (r: Option<string>)
    ensures r.Some? <==> s in Codes || s in CurrencyTitles
  {
    if s == "AZN" then Some("Манаты")
    else if s == "BYR" then Some("Белорусские рубли")
    else if s == "EUR" then Some("Евро")
    else if s == "GEL" then Some("Грузинский лари")
    else if s == "KGS" then Some("Киргизский сом")
    else if s == "KZT" then Some("Тенге")
    else if s == "RUR" then Some("Рубли")
    else if s == "UAH" then Some("Гривны")
    else if s == "USD" then Some("Доллары")
    else if s == "UZS" then Some("Узбекский сум")
    else if s == "Манаты" then Some("AZN")
    else if s == "Белорусские рубли" then Some("BYR")
    else if s == "Евро" then Some("EUR")
    else if s == "Грузинский лари" then Some("GEL")
    else if s == "Киргизский сом" then Some("KGS")
    else if s == "Тенге" then Some("KZT")
    else if s == "Рубли" then Some("RUR")
    else if s == "Гривны" then Some("UAH")
    else if s == "Доллары" then Some("USD")
    else if s == "Узбекский сум" then Some("UZS")
    else None
  }

  lemma CurrencyNamingOfCode(i: nat)
    requires i < |Codes|
    ensures CurrencyName(Codes[i]) == Some(CurrencyTitles[i])
  {
    if i < 5 {
      assert i == 0 || i == 1 || i == 2 || i == 3 || i == 4;
    } else {
      assert i == 5 || i == 6 || i == 7 || i == 8 || i == 9;
    }
  }

  lemma CurrencyNamingOfTitle(i: nat)
    requires i < |Codes|
    ensures CurrencyName(CurrencyTitles[i]) == Some(Codes[i])
  {
    if i < 5 {
      assert i == 0 || i == 1 || i == 2 || i == 3 || i == 4;
    } else {
      assert i == 5 || i == 6 || i == 7 || i == 8 || i == 9;
    }
  }

  /** The two directions of `currency_naming` undo each other, for every
      code of the rate table. */
  lemma CurrencyNamingRoundTrip(i: nat)
    requires i < |Codes|
    ensures CurrencyName(Codes[i]) == Some(CurrencyTitles[i])
    ensures CurrencyName(CurrencyTitles[i]) == Some(Codes[i])
  {
    CurrencyNamingOfCode(i);
    CurrencyNamingOfTitle(i);
  }

  // ---- sort keys -------------------------------------------------------------

  /** `sort_by_skills`: a single skill counts 1, a list counts its entries. */
  function SkillsCount(skills: Field): nat {
    match skills
    case Text(_) => 1
    case Lines(ls) => |ls|
  }

  /** For a raw cell, the skills key is the number of its lines. */
  lemma SkillsCountOfCell(cell: string)
    ensures SkillsCount(CleanField(cell)) == CountChar(cell, '\n') + 1
  {
    if '\n' in cell {
      CleanFieldLines(cell);
    } else {
      CountCharAbsent(cell, '\n');
    }
  }

  /** `sort_by_experience`: the seniority of the id; an unknown id is a
      KeyError and a list is unhashable (TypeError). */
  function SortByExperience(v: Vacancy): (r: Result<nat>)
    ensures r.Ok? <==> v.experience.Text? && v.experience.text in ExperienceIds
    ensures r.Ok? ==> r.value < |ExperienceIds| && ExperienceIds[r.value] == v.experience.text
    ensures v.experience.Text? && v.experience.text !in ExperienceIds ==> r == Fail(KeyError)
  {
    match v.experience
    case Lines(_) => Fail(TypeError)
    case Text(id) => if ExperiencePriority(id).None? then Fail(KeyError) else Ok(ExperiencePriority(id).value)
  }

  /** `sort_by_date`: the offset rule of `Dates.SortByDate`; a list has no
      `split` (AttributeError). */
  function SortByDate(v: Vacancy): (r: Result<Dates.DateTime>)
    ensures v.publishedAt.Lines? ==> r == Fail(AttributeError)
    ensures v.publishedAt.Text? ==> r == Dates.SortByDate(v.publishedAt.text)
    ensures r.Ok? ==> Dates.ValidDateTime(r.value)
  {
    match v.publishedAt
    case Lines(_) => Fail(AttributeError)
    case Text(s) => Dates.SortByDate(s)
  }

  /** The value a vacancy is sorted by. */
  datatype SortKey =
    | Money(amount: real)
    | Priority(rank: nat)
    | Count(n: nat)
    | Moment(time: Dates.DateTime)
    | Attribute(value: Field)

  /** The parameters `get_sorting_func` computes a key for. */
  const ComputedKeys: seq<string> := ["salary", "experience_id", "key_skills", "published_at"]

  /** The text attributes `vac.__dict__[param]` can return. */
  const PlainAttributes: seq<string> := ["name", "description", "premium", "employer_name", "area_name"]

  /** `vac.__dict__[param]` for the plain attributes. */
  function PlainAttribute(param: string, v: Vacancy): (r: Option<Field>)
    ensures r.Some? <==> param in PlainAttributes
  {
    if param == "name" then Some(v.name)
    else if param == "description" then Some(v.description)
    else if param == "premium" then Some(v.premium)
    else if param == "employer_name" then Some(v.employer)
    else if param == "area_name" then Some(v.area)
    else None
  }

  /** `get_sorting_func(param)(vac)` as written: the four computed keys, and
      otherwise the attribute of that name, a KeyError when the vacancy has
      none. `salary_currency` is an attribute of the salary, not of the
      vacancy, so it falls through to the KeyError. */
  function SortingKeyAsWritten(param: string, v: Vacancy): (r: Result<SortKey>)
    ensures param !in ComputedKeys && param !in PlainAttributes ==> r == Fail(KeyError)
    ensures param in PlainAttributes ==> r == Ok(Attribute(PlainAttribute(param, v).value))
    ensures param == "salary" ==>
      r == (if ConvertToRub(v.salary.from, v.salary.to, v.salary.currency).Ok?
            then Ok(Money(ConvertToRub(v.salary.from, v.salary.to, v.salary.currency).value))
            else Fail(ConvertToRub(v.salary.from, v.salary.to, v.salary.currency).error))
    ensures param == "experience_id" ==>
      r == (if SortByExperience(v).Ok? then Ok(Priority(SortByExperience(v).value)) else Fail(SortByExperience(v).error))
    ensures param == "published_at" ==>
      r == (if SortByDate(v).Ok? then Ok(Moment(SortByDate(v).value)) else Fail(SortByDate(v).error))
    ensures param == "key_skills" ==> r == Ok(Count(SkillsCount(v.keySkills)))
  {
    if param == "salary" then
      var money :- ConvertToRub(v.salary.from, v.salary.to, v.salary.currency);
      Ok(Money(money))
    else if param == "experience_id" then
      var rank :- SortByExperience(v);
      Ok(Priority(rank))
    else if param == "key_skills" then Ok(Count(SkillsCount(v.keySkills)))
    else if param == "published_at" then
      var time :- SortByDate(v);
      Ok(Moment(time))
    else if PlainAttribute(param, v).Some? then Ok(Attribute(PlainAttribute(param, v).value))
    else Fail(KeyError)
  }

  /** The sort key with `salary_currency` read from the salary. */
  function SortingKey(param: string, v: Vacancy): (r: Result<SortKey>)
    ensures param == "salary_currency" ==> r == Ok(Attribute(v.salary.currency))
    ensures param != "salary_currency" ==> r == SortingKeyAsWritten(param, v)
    ensures param in PlainAttributes || param == "salary_currency" || param == "key_skills" ==> r.Ok?
  {
    if param == "salary_currency" then Ok(Attribute(v.salary.currency)) else SortingKeyAsWritten(param, v)
  }

  // ---- modify_number ---------------------------------------------------------

  function NotBlank(c: char): bool {
    c != ' '
  }

  /** The text with its spaces removed. */
  function Unspaced(s: string): string {
    Filter(s, NotBlank)
  }

  /** A space before the last three characters of a text longer than three. */
  function ThousandSpace(digits: string): (r: string)
    ensures |r| == |digits| + (if |digits| > 3 then 1 else 0)
    ensures |digits| > 3 ==> r[|r| - 4] == ' ' && r[|r| - 3..] == digits[|digits| - 3..]
                             && r[..|r| - 4] == digits[..|digits| - 3]
  {
    if |digits| > 3 then
      var n := |digits| - 3;
      digits[..n] + " " + digits[n..]
    else digits
  }

  /** The inserted space is the only change: removing spaces undoes it. */
  lemma ThousandSpaceUnspaced(digits: string)
    ensures Unspaced(ThousandSpace(digits)) == Unspaced(digits)
  {
    if |digits| > 3 {
      var n := |digits| - 3;
      var a, b := digits[..n], digits[n..];
      var r := ThousandSpace(digits);
      assert r == (a + " ") + b;
      assert digits == a + b;
      assert Filter(" ", NotBlank) == [] by { assert " "[..0] == []; }
      calc {
        Filter(r, NotBlank);
        { FilterAppend(a + " ", b, NotBlank); }
        Filter(a + " ", NotBlank) + Filter(b, NotBlank);
        { FilterAppend(a, " ", NotBlank); }
        Filter(a, NotBlank) + Filter(b, NotBlank);
        { FilterAppend(a, b, NotBlank); }
        Filter(digits, NotBlank);
      }
    }
  }

  /** It adds exactly one space to a text longer than three. */
  lemma ThousandSpaceCount(digits: string)
    ensures CountChar(ThousandSpace(digits), ' ') == CountChar(digits, ' ') + (if |digits| > 3 then 1 else 0)
  {
    if |digits| > 3 {
      var n := |digits| - 3;
      var a, b := digits[..n], digits[n..];
      CountCharInsert(a, b, ' ');
      CountCharAppend(a, b, ' ');
      assert digits == a + b;
    }
  }

  /** `str(i)` holds no space. */
  lemma IntToStringUnspaced(i: int)
    ensures Unspaced(IntToString(i)) == IntToString(i)
    ensures CountChar(IntToString(i), ' ') == 0
  {
    var s := IntToString(i);
    forall k | 0 <= k < |s| ensures s[k] != ' ' {
      if i < 0 {
        assert k == 0 || s[k] == NatToString(-i)[k - 1];
      }
    }
    FilterAll(s, NotBlank);
    CountCharAbsent(s, ' ');
  }

  /** `modify_number`: `str(math.floor(float(number)))`, with a space before
      the last three characters when it is longer than three. */
  function ModifyNumber(f: Field): (r: Result<string>)
    ensures r.Ok? <==> FloatOf(f).Ok?
    ensures r.Fail? ==> r.error == FloatOf(f).error
    ensures r.Ok? ==> Unspaced(r.value) == IntToString(FloatOf(f).value.Floor)
    ensures r.Ok? ==> r.value == ThousandSpace(IntToString(FloatOf(f).value.Floor))
  {
    var x :- FloatOf(f);
    IntToStringUnspaced(x.Floor);
    ThousandSpaceUnspaced(IntToString(x.Floor));
    Ok(ThousandSpace(IntToString(x.Floor)))
  }

  /** Removing the space gives back the whole part of the number, and the
      result holds exactly one space when the whole part has more than
      three characters and none otherwise. */
  lemma ModifyNumberReadsBack(f: Field)
    requires FloatOf(f).Ok?
    ensures ParseInt(Unspaced(ModifyNumber(f).value)) == Ok(FloatOf(f).value.Floor)
    ensures CountChar(ModifyNumber(f).value, ' ')
            == if |IntToString(FloatOf(f).value.Floor)| > 3 then 1 else 0
  {
    var digits := IntToString(FloatOf(f).value.Floor);
    ParseIntOfIntToString(FloatOf(f).value.Floor);
    IntToStringUnspaced(FloatOf(f).value.Floor);
    ThousandSpaceCount(digits);
  }

  /** For any number text, the space goes before the last three characters
      of `str(math.floor(...))`, and a whole part of three characters or
      fewer is shown as it is. */
  lemma ModifyNumberLayout(f: Field)
    requires FloatOf(f).Ok?
    ensures var s := IntToString(FloatOf(f).value.Floor);
            && (|s| > 3 ==> ModifyNumber(f) == Ok(s[..|s| - 3] + " " + s[|s| - 3..]))
            && (|s| <= 3 ==> ModifyNumber(f) == Ok(s))
  {
  }

  /** A fraction never digit-for-digit exceeds its scale: `0.d…d < 1`. */
  lemma {:induction false} DigitsValueBelowPow10(s: string)
    requires AllDigits(s)
    ensures DigitsValue(s) < Pow10(|s|)
    decreases |s|
  {
    if |s| > 0 {
      var h := s[..|s| - 1];
      DigitsValueBelowPow10(h);
      assert DigitsValue(s) == DigitsValue(h) * 10 + DigitValue(s[|s| - 1]);
      assert DigitsValue(h) * 10 <= (Pow10(|h|) - 1) * 10;
    }
  }

  /** `float('<n>.<digits>')` rounds down to `n`. */
  lemma DecimalFloor(n: nat, frac: string)
    requires AllDigits(frac)
    ensures ParseDecimal(NatToString(n) + "." + frac).Ok?
    ensures ParseDecimal(NatToString(n) + "." + frac).value.Floor == n
  {
    var w := NatToString(n);
    ParseDecimalOfParts(w, frac);
    DigitsValueBelowPow10(frac);
    FractionBelowOne(DigitsValue(frac), Pow10(|frac|));
    var q := DigitsValue(frac) as real / Pow10(|frac|) as real;
    assert DecimalValue(w, frac) == n as real + q;
  }

  lemma FractionBelowOne(v: nat, p: nat)
    requires v < p
    ensures 0.0 <= v as real / p as real < 1.0
  {
  }

  /** The fraction of an export bound such as `'35000.0'` is dropped:
      `modify_number('<n>.<digits>')` is `modify_number('<n>')`. */
  lemma ModifyNumberOfDecimal(n: nat, frac: string)
    requires AllDigits(frac)
    ensures ModifyNumber(Text(NatToString(n) + "." + frac)) == Ok(ThousandSpace(NatToString(n)))
    ensures ModifyNumber(Text(NatToString(n) + "." + frac)) == ModifyNumber(Text(NatToString(n)))
  {
    DecimalFloor(n, frac);
    ModifyNumberOfWhole(NatToString(n), n);
  }

  /** `modify_number` of the text of a whole number. */
  lemma ModifyNumberOfWhole(s: string, n: nat)
    requires s == NatToString(n)
    ensures ModifyNumber(Text(s)) == Ok(ThousandSpace(s))
  {
    ParseDecimalOfNatToString(n);
    assert (n as real).Floor == n;
  }

  /** A whole number of four or more digits gets one space before its last
      three digits: `modify_number('10000')` is `'10 000'` and
      `modify_number('1234567')` is `'1234 567'`. */
  lemma ModifyNumberLong(n: nat)
    requires n >= 1000
    ensures var s := NatToString(n);
            |s| > 3 && ModifyNumber(Text(s)) == Ok(s[..|s| - 3] + " " + s[|s| - 3..])
  {
    var s := NatToString(n);
    ModifyNumberOfWhole(s, n);
    NatToStringLength(n, 2);
    assert Pow10(3) == 1000;
  }

  /** A whole number below a thousand is shown unchanged. */
  lemma ModifyNumberShort(n: nat)
    requires n < 1000
    ensures ModifyNumber(Text(NatToString(n))) == Ok(NatToString(n))
  {
    ModifyNumberOfWhole(NatToString(n), n);
    NatToStringLength(n, 2);
    assert Pow10(3) == 1000;
  }

  // ---- formatter -------------------------------------------------------------

  /** The vacancy after `formatter`: the experience, premium, salary and date
      attributes are display text, the others are unchanged. */
  datatype Shown = Shown(name: Field, description: Field, keySkills: Field, experience: string,
                         premium: string, employer: Field, salary: string, area: Field,
                         publishedAt: string)

  /** `set_value`: `yes` when the value is the text `'True'`. */
  function YesNo(f: Field, yes: string, no: string): string {
    if f == Text("True") then yes else no
  }

  /** `experience_naming[...]` of a field. */
  function ExperienceNameOf(f: Field): (r: Result<string>)
    ensures r.Ok? <==> f.Text? && (f.text in ExperienceIds || f.text in ExperienceTitles)
    ensures r.Ok? ==> ExperienceName(f.text) == Some(r.value)
  {
    match f
    case Lines(_) => Fail(TypeError)
    case Text(s) => if ExperienceName(s).None? then Fail(KeyError) else Ok(ExperienceName(s).value)
  }

  /** `currency_naming[...]` of a field. */
  function CurrencyNameOf(f: Field): (r: Result<string>)
    ensures r.Ok? <==> f.Text? && (f.text in Codes || f.text in CurrencyTitles)
    ensures r.Ok? ==> CurrencyName(f.text) == Some(r.value)
  {
    match f
    case Lines(_) => Fail(TypeError)
    case Text(s) => if CurrencyName(s).None? then Fail(KeyError) else Ok(CurrencyName(s).value)
  }

  /** The salary text of `formatter`: both bounds through `modify_number`
      (lower first), the tax text, then the currency name. */
  function SalaryText(s: Salary): (r: Result<string>)
    ensures r.Ok? <==> ModifyNumber(s.from).Ok? && ModifyNumber(s.to).Ok? && CurrencyNameOf(s.currency).Ok?
  {
    var from :- ModifyNumber(s.from);
    var to :- ModifyNumber(s.to);
    var taxes := YesNo(s.gross, "Без вычета налогов", "С вычетом налогов");
    var currency :- CurrencyNameOf(s.currency);
    Ok(from + " - " + to + " (" + currency + ") (" + taxes + ")")
  }

  /** The date of `formatter`: split on `'-'`, then the first two characters
      of the third piece, the second piece and the first piece, joined by
      dots. Fewer than three pieces is an IndexError; a list has no `split`. */
  function ShownDate(f: Field): (r: Result<string>)
    ensures f.Lines? ==> r == Fail(AttributeError)
    ensures f.Text? ==> (r.Ok? <==> |SplitOn(f.text, "-")| >= 3)
    ensures r.Fail? ==> r.error == AttributeError || r.error == IndexError
  {
    match f
    case Lines(_) => Fail(AttributeError)
    case Text(s) =>
      var parts := SplitOn(s, "-");
      if |parts| < 3 then Fail(IndexError)
      else Ok(Prefix(parts[2], 2) + "." + parts[1] + "." + parts[0])
  }

  /** A timestamp of the file shape is shown as `DD.MM.YYYY`. */
  lemma ShownDateOfIso(s: string)
    requires Dates.IsoShape(s)
    ensures ShownDate(Text(s)) == Ok(s[8..10] + "." + s[5..7] + "." + s[..4])
  {
    var y, m, d := s[..4], s[5..7], s[8..10];
    assert '-' !in y && '-' !in m && '-' !in d by {
      assert forall i | 0 <= i < 4 :: IsDigit(y[i]);
      assert forall i | 0 <= i < 2 :: IsDigit(m[i]) && IsDigit(d[i]);
    }
    assert s == y + ['-'] + s[5..];
    assert s[5..] == m + ['-'] + s[8..];
    assert s[8..] == d + s[10..];
    SplitAtSep(y, s[5..], '-');
    SplitAtSep(m, s[8..], '-');
    SplitFreePrefix(d, s[10..], '-');
    var parts := SplitOn(s, "-");
    assert parts[0] == y && parts[1] == m;
    assert parts[2] == d + SplitOn(s[10..], "-")[0];
    assert Prefix(parts[2], 2) == d;
  }

  /** `formatter`: the experience name (KeyError for an unknown id), the
      premium flag, the salary text and the date, in that order. */
  function Formatter(v: Vacancy): (r: Result<Shown>)
    ensures r.Ok? <==> ExperienceNameOf(v.experience).Ok? && SalaryText(v.salary).Ok?
                       && ShownDate(v.publishedAt).Ok?
    ensures r.Ok? ==> r.value.name == v.name && r.value.description == v.description
                      && r.value.keySkills == v.keySkills && r.value.employer == v.employer
                      && r.value.area == v.area
    ensures r.Ok? ==> r.value.premium in ["Да", "Нет"] && (r.value.premium == "Да" <==> v.premium == Text("True"))
    ensures r.Ok? ==> r.value.experience == ExperienceNameOf(v.experience).value
                      && r.value.salary == SalaryText(v.salary).value
                      && r.value.publishedAt == ShownDate(v.publishedAt).value
  {
    var experience :- ExperienceNameOf(v.experience);
    var premium := YesNo(v.premium, "Да", "Нет");
    var salary :- SalaryText(v.salary);
    var date :- ShownDate(v.publishedAt);
    Ok(Shown(v.name, v.description, v.keySkills, experience, premium, v.employer, salary, v.area, date))
  }

  /** The salary of the table tests: bounds below a thousand in roubles,
      before tax, e.g. `100 - 200 (Рубли) (Без вычета налогов)`. */
  lemma SalaryTextExample(from: nat, to: nat, code: string)
    requires from < 1000 && to < 1000 && code == "RUR"
    ensures SalaryText(Salary(Text(NatToString(from)), Text(NatToString(to)), Text("True"), Text(code)))
         == Ok(NatToString(from) + " - " + NatToString(to) + " (Рубли) (Без вычета налогов)")
  {
    var a, b := NatToString(from), NatToString(to);
    ModifyNumberShort(from);
    ModifyNumberShort(to);
    RoubleName(code);
    var s := Salary(Text(a), Text(b), Text("True"), Text(code));
    SalaryTextOfParts(s, a, b, "Рубли");
    Regroup(a + " - " + b, " (", "Рубли", ") (", "Без вычета налогов", ")");
    RoubleTail("Без вычета налогов");
  }

  /** The naming of the rouble code. */
  lemma RoubleName(code: string)
    requires code == "RUR"
    ensures CurrencyNameOf(Text(code)) == Ok("Рубли")
  {
  }

  /** The salary text assembled from its formatted parts. */
  lemma SalaryTextOfParts(s: Salary, from: string, to: string, currency: string)
    requires ModifyNumber(s.from) == Ok(from) && ModifyNumber(s.to) == Ok(to)
    requires CurrencyNameOf(s.currency) == Ok(currency)
    ensures SalaryText(s)
         == Ok(from + " - " + to + " (" + currency + ") (" + YesNo(s.gross, "Без вычета налогов", "С вычетом налогов") + ")")
  {
  }

  /** Concatenation regrouped. */
  lemma Regroup(x: string, p: string, q: string, u: string, v: string, w: string)
    ensures x + p + q + u + v + w == x + (p + q + u + v + w)
  {
  }

  /** The currency and tax part of a rouble salary before tax. */
  lemma RoubleTail(taxes: string)
    requires taxes == "Без вычета налогов"
    ensures " (" + "Рубли" + ") (" + taxes + ")" == " (Рубли) (Без вычета налогов)"
  {
  }

  /** The analyst vacancy of the table tests, with salary bounds `from` and
      `to`, published at `published`. */
  function Analyst(from: nat, to: nat, published: string): Vacancy {
    Vacancy(Text("Аналитик"), Text("Будет работать с данными"), Text("Усидчивость"), Text("Более 6 лет"),
            Text("True"), Text("Скб Контур"), Salary(Text(NatToString(from)), Text(NatToString(to)), Text("True"), Text("RUR")),
            Text("Екб"), Text(published))
  }

  /** The formatter test: the salary text, and an experience given by its
      display name translated back to its id. */
  lemma FormatterExample(from: nat, to: nat, published: string)
    requires from < 1000 && to < 1000 && Dates.IsoShape(published)
    ensures Formatter(Analyst(from, to, published)).Ok?
    ensures Formatter(Analyst(from, to, published)).value.salary
         == NatToString(from) + " - " + NatToString(to) + " (Рубли) (Без вычета налогов)"
    ensures Formatter(Analyst(from, to, published)).value.experience == "moreThan6"
    ensures Formatter(Analyst(from, to, published)).value.publishedAt
         == published[8..10] + "." + published[5..7] + "." + published[..4]
  {
    SalaryTextExample(from, to, "RUR");
    ShownDateOfIso(published);
  }

  // ---- create_table ----------------------------------------------------------

  /** The position of `key_skills` among the attributes. */
  const SkillsColumn: nat := 2

  /** The attribute values of a formatted vacancy in `__dict__` order. */
  function Cells(s: Shown): (r: seq<Field>)
    ensures |r| == 9 && r[SkillsColumn] == s.keySkills
  {
    [s.name, s.description, s.keySkills, Text(s.experience), Text(s.premium), s.employer,
     Text(s.salary), s.area, Text(s.publishedAt)]
  }

  /** One cell of `create_table`: a skills list of more than one entry is
      joined with newlines; then a value longer than 100 is cut to its first
      100 characters plus `'...'`. A list of more than 100 entries cannot be
      concatenated with `'...'` (TypeError). */
  function Truncate(isSkills: bool, v: Field): (r: Result<Field>)
    ensures r.Fail? <==> v.Lines? && !(isSkills && |v.lines| > 1) && |v.lines| > 100
    ensures r.Fail? ==> r.error == TypeError
    ensures r.Ok? && r.value.Text? ==> |r.value.text| <= 103
    ensures v.Text? ==> r.Ok? && r.value.Text?
    ensures v.Text? && |v.text| <= 100 ==> r == Ok(v)
    ensures v.Text? && |v.text| > 100 ==> r == Ok(Text(v.text[..100] + "..."))
    ensures isSkills && v.Lines? && |v.lines| > 1 ==>
      var t := JoinOn(v.lines, "\n");
      r == Ok(Text(if |t| > 100 then t[..100] + "..." else t))
    ensures r.Ok? && r.value.Lines? ==> r == Ok(v)
  {
    var joined := if isSkills && v.Lines? && |v.lines| > 1 then Text(JoinOn(v.lines, "\n")) else v;
    match joined
    case Text(t) => if |t| > 100 then Ok(Text(t[..100] + "...")) else Ok(Text(t))
    case Lines(ls) => if |ls| > 100 then Fail(TypeError) else Ok(Lines(ls))
  }

  /** A long text keeps its first 100 characters. */
  lemma TruncateKeepsStart(isSkills: bool, t: string)
    ensures Truncate(isSkills, Text(t)).value.text[..if |t| <= 100 then |t| else 100]
         == t[..if |t| <= 100 then |t| else 100]
  {
  }

  /** Truncating a truncated cell changes nothing. */
  lemma TruncateIdempotent(isSkills: bool, v: Field)
    requires Truncate(isSkills, v).Ok?
    ensures Truncate(isSkills, Truncate(isSkills, v).value) == Truncate(isSkills, v)
  {
    var w := Truncate(isSkills, v).value;
    if w.Text? && |w.text| > 100 {
      assert w.text[..100] + "..." == w.text;
    }
  }

  /** Every cell of a row, truncated in attribute order. */
  function TruncateCells(cells: seq<Field>): (r: Result<seq<Field>>)
    ensures r.Ok? <==> forall i | 0 <= i < |cells| :: Truncate(i == SkillsColumn, cells[i]).Ok?
    ensures r.Ok? ==> |r.value| == |cells|
    ensures r.Ok? ==> forall i | 0 <= i < |cells| :: Truncate(i == SkillsColumn, cells[i]) == Ok(r.value[i])
  {
    if |cells| == 0 then Ok([])
    else
      var n := |cells| - 1;
      var init := TruncateCells(cells[..n]);
      assert forall i | 0 <= i < n :: cells[..n][i] == cells[i];
      if init.Fail? then Fail(init.error)
      else
        var last := Truncate(n == SkillsColumn, cells[n]);
        if last.Fail? then Fail(last.error)
        else Ok(init.value + [last.value])
  }

  /** One table row: the formatted vacancy's cells, truncated. */
  function TableRow(v: Vacancy): (r: Result<seq<Field>>)
    ensures Formatter(v).Fail? ==> r == Fail(Formatter(v).error)
    ensures r.Ok? ==> Formatter(v).Ok? && |r.value| == 9
    ensures r.Ok? ==> forall i | 0 <= i < 9 :: r.value[i].Text? ==> |r.value[i].text| <= 103
  {
    var shown :- Formatter(v);
    TruncateCells(Cells(shown))
  }

  /** The cells of a table row are the formatted vacancy's attributes in
      `__dict__` order, each truncated: a name or area of at most 100
      characters is shown as it is, and the premium cell is `'Да'` exactly
      for `'True'`. */
  lemma TableRowCells(v: Vacancy)
    requires TableRow(v).Ok?
    ensures Formatter(v).Ok?
    ensures forall i | 0 <= i < 9 ::
      Truncate(i == SkillsColumn, Cells(Formatter(v).value)[i]) == Ok(TableRow(v).value[i])
    ensures v.name.Text? && |v.name.text| <= 100 ==> TableRow(v).value[0] == v.name
    ensures TableRow(v).value[4] == Text(if v.premium == Text("True") then "Да" else "Нет")
    ensures v.area.Text? && |v.area.text| <= 100 ==> TableRow(v).value[7] == v.area
  {
    var shown := Formatter(v).value;
    ShownCellsKept(shown, TableRow(v).value);
  }

  /** The name, premium and area cells of a truncated row: a short text is
      shown as it is. */
  lemma ShownCellsKept(shown: Shown, row: seq<Field>)
    requires TruncateCells(Cells(shown)) == Ok(row)
    requires shown.premium in ["Да", "Нет"]
    ensures shown.name.Text? && |shown.name.text| <= 100 ==> row[0] == shown.name
    ensures row[4] == Text(shown.premium)
    ensures shown.area.Text? && |shown.area.text| <= 100 ==> row[7] == shown.area
  {
    var cells := Cells(shown);
    assert Truncate(false, cells[0]) == Ok(row[0]);
    assert Truncate(false, cells[4]) == Ok(row[4]);
    assert Truncate(false, cells[7]) == Ok(row[7]);
    assert |shown.premium| <= 100;
  }

  /** The elements paired with their position counted from 1. */
  function Numbered<T>(xs: seq<T>): (r: seq<(nat, T)>)
    ensures |r| == |xs| && forall i | 0 <= i < |xs| :: r[i].0 == i + 1 && r[i].1 == xs[i]
  {
    seq(|xs|, i requires 0 <= i < |xs| => (i + 1, xs[i]))
  }

  /** The rows of `create_table`, numbered from 1 in input order. */
  function CreateTable(vacs: seq<Vacancy>): (r: Result<seq<(nat, seq<Field>)>>)
    ensures r.Ok? <==> forall i | 0 <= i < |vacs| :: TableRow(vacs[i]).Ok?
    ensures r.Ok? ==> |r.value| == |vacs|
    ensures r.Ok? ==> forall i | 0 <= i < |vacs| :: r.value[i].0 == i + 1 && Ok(r.value[i].1) == TableRow(vacs[i])
  {
    var rows := MapOk(vacs, TableRow);
    if rows.Fail? then Fail(rows.error)
    else
      Ok(Numbered(rows.value))
  }
}
