/** csv_reader.py: keeping the well-formed rows of a parsed CSV file,
    cleaning field text (`clear_str`) and turning rows into vacancies
    (`csv_filer`). The same three routines are repeated in table.py.
 */
module CsvReader {
  import opened Results
  import opened Text
  import opened Seqs
  import opened OrderedMaps

  /** One parsed CSV row. */
  type Row = seq<string>

  /** A cleaned field: text, or the cleaned lines of a multi-line field. */
  datatype Field = Text(text: string) | Lines(lines: seq<string>)

  // ---- csv_reader ----------------------------------------------------------

  /** A row `csv_reader` keeps: no empty cell and as many cells as the header. */
  predicate WellFormed(row: Row, titles: Row) {
    "" !in row && |row| == |titles|
  }

  /** `csv_reader` on the rows `csv.reader` parsed: the first row is the header,
      the later rows are kept when well-formed. `data[0]` of an empty parse
      raises IndexError. */
  function ReadCsv(data: seq<Row>): (r: Result<(seq<Row>, Row)>)
    ensures r.Fail? <==> |data| == 0
    ensures r.Ok? ==> r.value.1 == data[0]
    ensures r.Ok? ==> forall i | 0 <= i < |r.value.0| :: WellFormed(r.value.0[i], data[0])
    ensures r.Ok? ==> forall i | 1 <= i < |data| :: WellFormed(data[i], data[0]) ==> data[i] in r.value.0
  {
    if |data| == 0 then Fail(IndexError)
    else
      var titles := data[0];
      Ok((Filter(data[1..], row => WellFormed(row, titles)), titles))
  }

  /** The kept rows are exactly the well-formed later rows, each as often as
      it occurs, in file order: appending a row to the file appends it to the
      result exactly when it is well-formed. */
  lemma ReadCsvExactly(data: seq<Row>, row: Row)
    requires |data| > 0
    ensures multiset(ReadCsv(data).value.0)[row]
         == if WellFormed(row, data[0]) then multiset(data[1..])[row] else 0
    ensures ReadCsv(data + [row]).value.0
         == ReadCsv(data).value.0 + (if WellFormed(row, data[0]) then [row] else [])
  {
    var p := (x: Row) => WellFormed(x, data[0]);
    FilterCount(data[1..], p, row);
    assert (data + [row])[1..] == data[1..] + [row];
    FilterAppend(data[1..], [row], p);
  }

  /** A file with one data row returns that row with the header, and a file
      that parses to one empty row gives `([], [])`. */
  lemma ReadCsvSmallFiles(titles: Row, row: Row)
    requires WellFormed(row, titles)
    ensures ReadCsv([titles, row]) == Ok(([row], titles))
    ensures ReadCsv([[]]) == Ok(([], []))
  {
    assert [titles, row][1..] == [] + [row];
    ReadCsvExactly([titles], row);
    assert [titles] + [row] == [titles, row];
  }

  // ---- clear_str ------------------------------------------------------------

  /** No `<` is followed, anywhere later, by `>`: nothing is left for the tag
      pattern `<[^>]*>` to match. */
  predicate TagFree(s: string) {
    forall i, j | 0 <= i < j < |s| :: !(s[i] == '<' && s[j] == '>')
  }

  lemma TagFreeCons(c: char, s: string)
    ensures TagFree([c] + s) <==> (c == '<' ==> '>' !in s) && TagFree(s)
  {
    var t := [c] + s;
    if TagFree(t) {
      forall i, j | 0 <= i < j < |s| ensures !(s[i] == '<' && s[j] == '>') {
        assert t[i + 1] == s[i] && t[j + 1] == s[j];
      }
      forall j | 0 <= j < |s| ensures !(c == '<' && s[j] == '>') {
        assert t[0] == c && t[j + 1] == s[j];
      }
    }
    if (c == '<' ==> '>' !in s) && TagFree(s) {
      forall i, j | 0 <= i < j < |t| ensures !(t[i] == '<' && t[j] == '>') {
        if i == 0 {
          assert t[j] == s[j - 1];
        } else {
          assert t[i] == s[i - 1] && t[j] == s[j - 1];
        }
      }
    }
  }

  /** `re.sub(r"\<[^>]*\>", '', s)`: scanning left to right, a `<` that has a
      `>` somewhere after it is deleted together with everything up to and
      including the first such `>`; every other character is kept. */
  function StripTags(s: string): (r: string)
    ensures |r| <= |s|
    ensures forall i | 0 <= i < |r| :: r[i] in s
    decreases |s|
  {
    if |s| == 0 then []
    else if s[0] == '<' && '>' in s[1..] then
      var rest := s[1..][IndexOf(s[1..], '>') + 1..];
      var r := StripTags(rest);
      assert forall i | 0 <= i < |r| :: r[i] in s by {
        forall i | 0 <= i < |r| ensures r[i] in s {
          var k :| 0 <= k < |rest| && rest[k] == r[i];
          assert rest[k] == s[|s| - |rest| + k];
        }
      }
      r
    else
      var r := [s[0]] + StripTags(s[1..]);
      assert forall i | 1 <= i < |r| :: r[i] in s[1..];
      r
  }

  /** No tag survives the substitution. */
  lemma {:induction false} StripTagsTagFree(s: string)
    ensures TagFree(StripTags(s))
    decreases |s|
  {
    if |s| == 0 {
    } else if s[0] == '<' && '>' in s[1..] {
      StripTagsTagFree(s[1..][IndexOf(s[1..], '>') + 1..]);
    } else {
      var tail := StripTags(s[1..]);
      StripTagsTagFree(s[1..]);
      if s[0] == '<' {
        assert '>' !in tail by {
          forall i | 0 <= i < |tail| ensures tail[i] != '>' {
            assert tail[i] in s[1..];
          }
        }
      }
      TagFreeCons(s[0], tail);
    }
  }

  /** Text without tags passes through unchanged. */
  lemma {:induction false} StripTagsOfTagFree(s: string)
    requires TagFree(s)
    ensures StripTags(s) == s
    decreases |s|
  {
    if |s| > 0 {
      assert s == [s[0]] + s[1..];
      TagFreeCons(s[0], s[1..]);
      StripTagsOfTagFree(s[1..]);
    }
  }

  /** `' '.join(s.split())`. */
  function Collapse(s: string): string {
    JoinOn(Words(s), " ")
  }

  /** Collapsing twice is collapsing once. */
  lemma CollapseIdempotent(s: string)
    ensures Collapse(Collapse(s)) == Collapse(s)
  {
    WordsOfJoin(Words(s));
  }

  /** Collapsing only drops or rewrites whitespace: the other characters stay, in order. */
  lemma CollapseKeepsContent(s: string)
    ensures NonSpace(Collapse(s)) == NonSpace(s)
  {
    var ws := Words(s);
    NonSpaceOfJoin(ws);
    WordsFromContent(s, []);
    assert [] + NonSpace(s) == NonSpace(s);
  }

  lemma {:induction false} NonSpaceHas(s: string, c: char)
    requires !IsSpace(c)
    ensures c in NonSpace(s) <==> c in s
    decreases |s|
  {
    if |s| > 0 {
      NonSpaceHas(s[1..], c);
      assert s == [s[0]] + s[1..];
    }
  }

  /** Whether a text is tag-free depends only on its non-whitespace characters. */
  lemma {:induction false} TagFreeNonSpace(s: string)
    ensures TagFree(s) <==> TagFree(NonSpace(s))
    decreases |s|
  {
    if |s| > 0 {
      assert s == [s[0]] + s[1..];
      TagFreeNonSpace(s[1..]);
      TagFreeCons(s[0], s[1..]);
      if !IsSpace(s[0]) {
        TagFreeCons(s[0], NonSpace(s[1..]));
        NonSpaceHas(s[1..], '>');
      }
    }
  }

  /** `clear_str`: delete the tags, then collapse the whitespace. */
  function ClearStr(s: string): string {
    Collapse(StripTags(s))
  }

  /** The cleaned text has no tag left, no leading or trailing whitespace, and
      no whitespace other than single spaces between words. */
  lemma ClearStrShape(s: string)
    ensures TagFree(ClearStr(s))
    ensures Collapsed(ClearStr(s))
  {
    var t := StripTags(s);
    StripTagsTagFree(s);
    JoinWordsCollapsed(Words(t));
    CollapseKeepsContent(t);
    TagFreeNonSpace(t);
    TagFreeNonSpace(Collapse(t));
  }

  /** Cleaning is idempotent. */
  lemma ClearStrIdempotent(s: string)
    ensures ClearStr(ClearStr(s)) == ClearStr(s)
  {
    var c := ClearStr(s);
    ClearStrShape(s);
    StripTagsOfTagFree(c);
    CollapseIdempotent(StripTags(s));
  }

  /** Plain text without tags or whitespace is left as it is. */
  lemma ClearStrOfWord(w: string)
    requires IsWord(w) && TagFree(w)
    ensures ClearStr(w) == w
  {
    StripTagsOfTagFree(w);
    WordsOfJoin([w]);
  }

  /** Text before any `<` is kept as it is. */
  lemma {:induction false} StripTagsPlain(a: string, b: string)
    requires '<' !in a
    ensures StripTags(a + b) == a + StripTags(b)
    decreases |a|
  {
    if |a| > 0 {
      StripTagsPlainStep(a, b);
      StripTagsPlain(a[1..], b);
      assert a + StripTags(b) == [a[0]] + (a[1..] + StripTags(b));
    } else {
      assert a + b == b;
    }
  }

  /** One step of `StripTagsPlain`: the first character of `a` is kept. */
  lemma StripTagsPlainStep(a: string, b: string)
    requires |a| > 0 && a[0] != '<'
    ensures StripTags(a + b) == [a[0]] + StripTags(a[1..] + b)
  {
    var s := a + b;
    assert s[0] == a[0] && s[1..] == a[1..] + b;
    StripTagsKeep(s);
  }

  /** A first character other than `<` is kept. */
  lemma StripTagsKeep(s: string)
    requires |s| > 0 && s[0] != '<'
    ensures StripTags(s) == [s[0]] + StripTags(s[1..])
  {
  }

  /** A complete tag `<...>` in front is deleted. */
  lemma StripTagsTag(a: string, b: string)
    requires '>' !in a
    ensures StripTags("<" + a + ">" + b) == StripTags(b)
  {
    var s := "<" + a + ">" + b;
    var t := s[1..];
    assert t == a + ">" + b;
    assert t[|a|] == '>';
    var k := IndexOf(t, '>');
    assert k == |a|;
    assert t[k + 1..] == b;
  }

  /** The source's test case: `'text'` is left as it is. */
  lemma ClearStrExampleText()
    ensures ClearStr("text") == "text"
  {
    var w := "text";
    assert IsWord(w);
    assert TagFree(w);
    ClearStrOfWord(w);
  }

  /** A tag pair around plain text, as in `'<p>text</p>'`, is removed. */
  lemma StripTagsWrapped(w: string)
    requires '<' !in w
    ensures StripTags("<p>" + w + "</p>") == w
  {
    var close := "<" + "/p" + ">" + [];
    assert close == "</p>";
    StripTagsTag("/p", []);
    StripTagsPlain(w, close);
    StripTagsTag("p", w + close);
    assert "<" + "p" + ">" == "<p>";
    assert "<p>" + (w + close) == "<p>" + w + "</p>";
  }

  /** The source's test case: `'<p>text</p>'` cleans to `'text'`. */
  lemma ClearStrWrappedExample()
    ensures ClearStr("<p>" + "text" + "</p>") == "text"
  {
    StripTagsWrapped("text");
    StripTagsOfTagFree("text");
    ClearStrExampleText();
  }

  /** The source's test case: the empty string cleans to the empty string. */
  lemma ClearStrEmptyExample()
    ensures ClearStr("") == ""
  {
    assert StripTags("") == "";
    assert Words("") == [];
  }

  // ---- csv_filer ------------------------------------------------------------

  /** The field conversion of `csv_filer`: a field holding `'\n'` becomes the
      list of its cleaned lines, any other field its cleaned text. */
  function CleanField(f: string): (r: Field)
    ensures '\n' in f <==> r.Lines?
    ensures '\n' !in f ==> r == Text(ClearStr(f))
  {
    if '\n' in f then
      var pieces := SplitOn(f, "\n");
      Lines(seq(|pieces|, i requires 0 <= i < |pieces| => ClearStr(pieces[i])))
    else Text(ClearStr(f))
  }

  /** A field without a line break is kept as one text: tag-free, collapsed,
      and unchanged by a second cleaning. */
  lemma CleanFieldText(f: string)
    requires '\n' !in f
    ensures CleanField(f).Text?
    ensures TagFree(CleanField(f).text) && Collapsed(CleanField(f).text)
    ensures CleanField(CleanField(f).text) == CleanField(f)
  {
    var t := ClearStr(f);
    ClearStrShape(f);
    ClearStrIdempotent(f);
    assert forall i | 0 <= i < |t| :: t[i] != '\n' by {
      forall i | 0 <= i < |t| ensures t[i] != '\n' {
        if t[i] == '\n' {
          assert IsSpace(t[i]);
        }
      }
    }
  }

  /** A multi-line field has one cleaned entry per line: the newline count plus one. */
  lemma CleanFieldLines(f: string)
    requires '\n' in f
    ensures |CleanField(f).lines| == CountChar(f, '\n') + 1
    ensures forall i | 0 <= i < |CleanField(f).lines| ::
      CleanField(f).lines[i] == ClearStr(SplitOn(f, "\n")[i])
  {
    SplitCharPieces(f, '\n');
  }

  /** `zip(a, b)`: pairs by position, stopping at the shorter list. */
  function Zip<A, B>(a: seq<A>, b: seq<B>): (r: seq<(A, B)>)
    ensures |r| == if |a| <= |b| then |a| else |b|
    ensures forall i | 0 <= i < |r| :: r[i] == (a[i], b[i])
  {
    if |a| == 0 || |b| == 0 then [] else [(a[0], b[0])] + Zip(a[1..], b[1..])
  }

  /** The dict `csv_filer` builds for one row: `dict(zip(titles, cleaned row))`. */
  function RowDict(titles: Row, row: Row): Dict<string, Field>
  {
    FromPairs(Zip(titles, seq(|row|, i requires 0 <= i < |row| => CleanField(row[i]))))
  }

  /** With distinct titles, every title up to the shorter length maps to its
      own cleaned cell, and titles beyond the row are absent. */
  lemma RowDictLookup(titles: Row, row: Row, j: nat)
    requires Distinct(titles) && j < |titles|
    ensures j < |row| ==> Get(RowDict(titles, row), titles[j]) == Some(CleanField(row[j]))
    ensures j >= |row| ==> Get(RowDict(titles, row), titles[j]).None?
  {
    var cells := seq(|row|, i requires 0 <= i < |row| => CleanField(row[i]));
    var z := Zip(titles, cells);
    assert Keys(z) == titles[..|z|];
    assert DistinctKeys(z);
    FromDistinctPairs(z);
    if j < |row| {
      GetAt(z, j);
    } else {
      assert titles[j] !in Keys(z);
      GetNone(z, titles[j]);
    }
  }

  /** `csv_filer`: one vacancy per row, in row order, each built from that
      row's dict. */
  function CsvFiler<V>(rows: seq<Row>, titles: Row, create: Dict<string, Field> -> V): (r: seq<V>)
    ensures |r| == |rows|
    ensures forall i | 0 <= i < |rows| :: r[i] == create(RowDict(titles, rows[i]))
  {
    seq(|rows|, i requires 0 <= i < |rows| => create(RowDict(titles, rows[i])))
  }
}
