/** `BookDetailParser` of `scraper/book_detail_parser.py`: the fields of a
    catalogue record page. The page is given as its labelled rows
    (`div.row`, each with its `tdBibliografskiZapisNaziv` label and its
    `tdCellValue` value) and the few elements looked up page-wide. */
module BookDetail {
  import opened Wrappers
  import opened Strings
  import opened Patterns
  import opened Html

  /** A row's value: its text nodes and the elements the extractors look
      for inside it (the first `a.aBibZapisAutor`, the first `a` and the
      first `span[itemprop=name]`). */
  datatype Value = Value(content: Element, authorLink: Option<Element>, firstLink: Option<Element>,
                         nameSpan: Option<Element>)

  /** A `div.row`: its label and its value, each when present. */
  datatype DetailRow = DetailRow(labelDiv: Option<Element>, value: Option<Value>)

  /** A record page: the first `span[itemprop=name]` of the page, the title
      div, the rows, the first `span[itemprop=isbn]` and the links of
      `div#divOznakeTagoviTab` when that div exists. */
  datatype DetailPage = DetailPage(nameSpan: Option<Element>, titleDiv: Option<TitleDiv>, rows: seq<DetailRow>,
                                   isbnSpan: Option<Element>, tagLinks: Option<seq<Element>>)

  datatype Classification = Classification(code: string, description: string)

  /** The result of `parse_book_detail`: every field, or the id with the
      error that stopped the parse. */
  datatype BookDetail =
    | Parsed(id: string, url: string, title: string, author: string, otherAuthors: seq<string>,
             publisher: string, year: string, pages: string, isbn: string, language: string,
             subjects: seq<string>, classifications: seq<Classification>, tags: seq<string>,
             materialType: string, notes: seq<string>)
    | ParseError(id: string, error: string)

  // ---------------------------------------------------------------------
  // Row tests and the two ways of walking the rows

  /** The label's stripped text is exactly `s`. */
  predicate LabelIs(row: DetailRow, s: string) {
    row.labelDiv.Some? && Text(row.labelDiv.value) == s
  }

  /** The label's text contains `s`. */
  predicate LabelHas(row: DetailRow, s: string) {
    row.labelDiv.Some? && Contains(RawText(row.labelDiv.value), s)
  }

  /** The value of the first row `f` accepts: a loop that returns early. */
  function FirstOf<T>(rows: seq<DetailRow>, f: DetailRow -> Option<T>): Option<T>
    decreases |rows|
  {
    if rows == [] then None
    else if f(rows[0]).Some? then f(rows[0])
    else FirstOf(rows[1..], f)
  }

  /** The first match is the value of the first accepted row, and there is
      none exactly when no row is accepted. */
  lemma {:induction false} FirstOfSpec<T>(rows: seq<DetailRow>, f: DetailRow -> Option<T>)
    ensures FirstOf(rows, f).None? <==> forall k :: 0 <= k < |rows| ==> f(rows[k]).None?
    ensures FirstOf(rows, f).Some? ==>
              exists k :: 0 <= k < |rows| && f(rows[k]) == FirstOf(rows, f) && forall j :: 0 <= j < k ==> f(rows[j]).None?
    decreases |rows|
  {
    if rows != [] && f(rows[0]).None? {
      var tail := rows[1..];
      FirstOfSpec(tail, f);
      assert FirstOf(rows, f) == FirstOf(tail, f);
      if FirstOf(tail, f).Some? {
        var k :| 0 <= k < |tail| && f(tail[k]) == FirstOf(tail, f) && forall j :: 0 <= j < k ==> f(tail[j]).None?;
        assert rows[k + 1] == tail[k];
        forall j | 0 <= j < k + 1 ensures f(rows[j]).None? {
          if j > 0 {
            assert rows[j] == tail[j - 1];
          }
        }
      } else {
        forall j | 0 <= j < |rows| ensures f(rows[j]).None? {
          if j > 0 {
            assert rows[j] == tail[j - 1];
          }
        }
      }
    }
  }

  /** The values of every accepted row, in row order: a loop that appends. */
  function Collected<T>(rows: seq<DetailRow>, f: DetailRow -> Option<T>): seq<T>
    decreases |rows|
  {
    if rows == [] then []
    else
      var last := f(rows[|rows| - 1]);
      Collected(rows[..|rows| - 1], f) + (if last.Some? then [last.value] else [])
  }

  lemma {:induction false} CollectedAppend<T>(a: seq<DetailRow>, b: seq<DetailRow>, f: DetailRow -> Option<T>)
    ensures Collected(a + b, f) == Collected(a, f) + Collected(b, f)
    decreases |b|
  {
    if b != [] {
      var init := b[..|b| - 1];
      CollectedAppend(a, init, f);
      assert (a + b)[..|a + b| - 1] == a + init;
      assert (a + b)[|a + b| - 1] == b[|b| - 1];
    } else {
      assert a + b == a;
    }
  }

  /** A value is collected exactly when some row yields it. */
  lemma {:induction false} CollectedSpec<T>(rows: seq<DetailRow>, f: DetailRow -> Option<T>)
    ensures |Collected(rows, f)| <= |rows|
    ensures forall x :: x in Collected(rows, f) <==> exists k :: 0 <= k < |rows| && f(rows[k]) == Some(x)
    decreases |rows|
  {
    if rows != [] {
      var init := rows[..|rows| - 1];
      CollectedSpec(init, f);
      forall x | (exists k :: 0 <= k < |rows| && f(rows[k]) == Some(x)) ensures x in Collected(rows, f) {
        var k :| 0 <= k < |rows| && f(rows[k]) == Some(x);
        if k < |rows| - 1 {
          assert init[k] == rows[k];
        }
      }
    }
  }

  /** The loop of a list extractor. */
  method CollectRows<T>(rows: seq<DetailRow>, f: DetailRow -> Option<T>) returns (out: seq<T>)
    ensures out == Collected(rows, f)
  {
    out := [];
    var i := 0;
    while i < |rows|
      invariant 0 <= i <= |rows|
      invariant out == Collected(rows[..i], f)
    {
      assert rows[..i + 1][..i] == rows[..i];
      var v := f(rows[i]);
      if v.Some? {
        out := out + [v.value];
      }
      i := i + 1;
    }
    assert rows[..i] == rows;
  }

  /** `"N/A"` for a field that was not found. */
  function OrNa(o: Option<string>): string {
    if o.Some? then o.value else "N/A"
  }

  // ---------------------------------------------------------------------
  // The field extractors

  /** `_extract_title`: the page's name span, else the title div's hidden
      span, else "N/A". */
  function ExtractTitle(page: DetailPage): string {
    if page.nameSpan.Some? then Text(page.nameSpan.value)
    else if page.titleDiv.Some? && page.titleDiv.value.hiddenSpan.Some? then Text(page.titleDiv.value.hiddenSpan.value)
    else "N/A"
  }

  /** The title comes from the name span, else from the title div's hidden
      span, and is "N/A" when the page has neither. */
  lemma TitleSources(page: DetailPage)
    ensures page.nameSpan.Some? ==> ExtractTitle(page) == Text(page.nameSpan.value)
    ensures page.nameSpan.None? && page.titleDiv.Some? && page.titleDiv.value.hiddenSpan.Some? ==>
              ExtractTitle(page) == Text(page.titleDiv.value.hiddenSpan.value)
    ensures page.nameSpan.None? && (page.titleDiv.None? || page.titleDiv.value.hiddenSpan.None?) ==>
              ExtractTitle(page) == "N/A"
    ensures ExtractTitle(page) != "N/A" ==> page.nameSpan.Some? || page.titleDiv.Some?
  {
  }

  /** A row labelled exactly "Autor" whose value has an author link. */
  function AuthorIn(row: DetailRow): Option<string> {
    if LabelIs(row, "Autor") && row.value.Some? && row.value.value.authorLink.Some?
    then Some(Text(row.value.value.authorLink.value))
    else None
  }

  /** `_extract_author`. */
  function ExtractAuthor(rows: seq<DetailRow>): string {
    OrNa(FirstOf(rows, AuthorIn))
  }

  /** The author is the link text of the first "Autor" row that has an
      author link, rows without one being passed over; "N/A" when there is
      no such row. */
  lemma AuthorSpec(rows: seq<DetailRow>)
    ensures (forall k :: 0 <= k < |rows| ==> !(LabelIs(rows[k], "Autor") && rows[k].value.Some? && rows[k].value.value.authorLink.Some?))
            ==> ExtractAuthor(rows) == "N/A"
    ensures (exists k :: 0 <= k < |rows| && LabelIs(rows[k], "Autor") && rows[k].value.Some? && rows[k].value.value.authorLink.Some?)
            ==> exists k :: 0 <= k < |rows| && LabelIs(rows[k], "Autor") && rows[k].value.Some?
                            && rows[k].value.value.authorLink.Some?
                            && ExtractAuthor(rows) == Text(rows[k].value.value.authorLink.value)
                            && forall j :: 0 <= j < k ==> AuthorIn(rows[j]).None?
  {
    FirstOfSpec(rows, AuthorIn);
    forall k | 0 <= k < |rows|
      ensures AuthorIn(rows[k]).Some? <==>
                LabelIs(rows[k], "Autor") && rows[k].value.Some? && rows[k].value.value.authorLink.Some?
    {
    }
  }

  /** The role in brackets, or "contributor". */
  function RoleOf(text: string): string {
    var m := FindRole(text);
    if m.Some? then m.value else "contributor"
  }

  /** A row labelled exactly "Ostali autori" whose value has an author
      link gives "name (role)". */
  function OtherAuthorIn(row: DetailRow): Option<string> {
    if LabelIs(row, "Ostali autori") && row.value.Some? && row.value.value.authorLink.Some?
    then Some(Text(row.value.value.authorLink.value) + " (" + RoleOf(RawText(row.value.value.content)) + ")")
    else None
  }

  /** Each other author comes from an "Ostali autori" row with a link and
      reads "name (role)", the role being the first bracketed text of the
      value or "contributor"; rows are kept in order. */
  lemma OtherAuthorsSpec(rows: seq<DetailRow>)
    ensures forall x :: x in Collected(rows, OtherAuthorIn) ==>
              exists k :: 0 <= k < |rows| && LabelIs(rows[k], "Ostali autori") && rows[k].value.Some?
                          && rows[k].value.value.authorLink.Some?
                          && x == Text(rows[k].value.value.authorLink.value) + " (" + RoleOf(RawText(rows[k].value.value.content)) + ")"
    ensures forall k :: 0 <= k < |rows| && LabelIs(rows[k], "Ostali autori") && rows[k].value.Some?
                          && rows[k].value.value.authorLink.Some? ==>
              Text(rows[k].value.value.authorLink.value) + " (" + RoleOf(RawText(rows[k].value.value.content)) + ")"
                in Collected(rows, OtherAuthorIn)
  {
    CollectedSpec(rows, OtherAuthorIn);
  }

  /** The role is the text between the first '[' and the next ']' when
      there is such a pair on one line. */
  lemma RoleSpec(text: string)
    ensures RoleOf(text) == "contributor" || Contains(text, "[" + RoleOf(text) + "]")
    ensures FindRole(text).None? <==> forall i :: 0 <= i <= |text| ==> RoleAt(text, i).None?
    ensures FindRole(text).None? ==> RoleOf(text) == "contributor"
    ensures FindRole(text).Some? ==>
              ']' !in RoleOf(text)
              && exists i :: 0 <= i <= |text| && RoleAt(text, i) == Some(RoleOf(text))
                             && forall k :: 0 <= k < i ==> RoleAt(text, k).None?
  {
    FoundOccurs(text, RoleAt, r => "[" + r + "]");
    SearchIsLeftmost(text, RoleAt);
  }

  /** A row whose label contains "Nakladnik" and whose value has a name span. */
  function PublisherIn(row: DetailRow): Option<string> {
    if LabelHas(row, "Nakladnik") && row.value.Some? && row.value.value.nameSpan.Some?
    then Some(Text(row.value.value.nameSpan.value))
    else None
  }

  /** A row whose label contains "Nakladnik" and whose value text holds a
      year. */
  function YearIn(row: DetailRow): Option<string> {
    if LabelHas(row, "Nakladnik") && row.value.Some? then FindYear(RawText(row.value.value.content)) else None
  }

  /** A row whose label contains "Materijalni opis" and whose stripped value
      text holds a page count. */
  function PagesIn(row: DetailRow): Option<string> {
    if LabelHas(row, "Materijalni opis") && row.value.Some? then FindPages(Text(row.value.value.content)) else None
  }

  /** A year found in a row is a 19xx/20xx standing alone in its value
      text: at the leftmost index where one matches, with no word character
      on either side. */
  lemma YearInSpec(row: DetailRow)
    requires YearIn(row).Some?
    ensures var y := YearIn(row).value;
            LabelHas(row, "Nakladnik") && row.value.Some?
            && |y| == 4 && (y[..2] == "19" || y[..2] == "20") && Digits(y[2..])
            && Contains(RawText(row.value.value.content), y)
    ensures var text := RawText(row.value.value.content);
            exists i :: 0 <= i <= |text| && OccursAt(text, YearIn(row).value, i)
                        && (i == 0 || !IsWordChar(text[i - 1])) && (i + 4 == |text| || !IsWordChar(text[i + 4]))
                        && forall k :: 0 <= k < i ==> YearAt(text, k).None?
  {
    var text := RawText(row.value.value.content);
    SearchIsLeftmost(text, YearAt);
    FoundOccurs(text, YearAt, y => y);
  }

  /** The year is that of the first "Nakladnik" row whose value text holds
      one, and "N/A" exactly when no row has one. */
  lemma YearSpec(rows: seq<DetailRow>)
    ensures OrNa(FirstOf(rows, YearIn)) == "N/A" <==> forall k :: 0 <= k < |rows| ==> YearIn(rows[k]).None?
    ensures FirstOf(rows, YearIn).Some? ==>
              exists k :: 0 <= k < |rows| && YearIn(rows[k]) == FirstOf(rows, YearIn)
                          && forall j :: 0 <= j < k ==> YearIn(rows[j]).None?
    ensures var y := OrNa(FirstOf(rows, YearIn));
            y == "N/A"
            || (|y| == 4 && (y[..2] == "19" || y[..2] == "20") && Digits(y[2..])
                && exists k :: 0 <= k < |rows| && LabelHas(rows[k], "Nakladnik") && rows[k].value.Some?
                               && Contains(RawText(rows[k].value.value.content), y)
                               && forall j :: 0 <= j < k ==> YearIn(rows[j]).None?)
  {
    FirstOfSpec(rows, YearIn);
    if FirstOf(rows, YearIn).Some? {
      var k :| 0 <= k < |rows| && YearIn(rows[k]) == FirstOf(rows, YearIn) && forall j :: 0 <= j < k ==> YearIn(rows[j]).None?;
      YearInSpec(rows[k]);
    }
  }

  /** A page count found in a row is a run of digits in its value text. */
  lemma PagesInSpec(row: DetailRow)
    requires PagesIn(row).Some?
    ensures var p := PagesIn(row).value;
            LabelHas(row, "Materijalni opis") && row.value.Some?
            && p != [] && Digits(p) && Contains(Text(row.value.value.content), p)
  {
    FoundPages(Text(row.value.value.content));
  }

  /** A page count found in a text is a run of digits occurring in it. */
  lemma FoundPages(text: string)
    requires FindPages(text).Some?
    ensures var p := FindPages(text).value;
            p != [] && Digits(p) && Contains(text, p)
  {
    SearchIsLeftmost(text, PagesAt);
    var j :| 0 <= j <= |text| && PagesAt(text, j) == FindPages(text);
    ContainsAt(text, FindPages(text).value, j);
  }

  /** The page count is that of the first "Materijalni opis" row whose
      stripped value text holds one, and "N/A" exactly when no row has
      one. */
  lemma PagesSpec(rows: seq<DetailRow>)
    ensures OrNa(FirstOf(rows, PagesIn)) == "N/A" <==> forall k :: 0 <= k < |rows| ==> PagesIn(rows[k]).None?
    ensures FirstOf(rows, PagesIn).Some? ==>
              exists k :: 0 <= k < |rows| && PagesIn(rows[k]) == FirstOf(rows, PagesIn)
                          && forall j :: 0 <= j < k ==> PagesIn(rows[j]).None?
    ensures var p := OrNa(FirstOf(rows, PagesIn));
            p == "N/A"
            || (p != [] && Digits(p)
                && exists k :: 0 <= k < |rows| && LabelHas(rows[k], "Materijalni opis") && rows[k].value.Some?
                               && Contains(Text(rows[k].value.value.content), p)
                               && forall j :: 0 <= j < k ==> PagesIn(rows[j]).None?)
  {
    FirstOfSpec(rows, PagesIn);
    if FirstOf(rows, PagesIn).Some? {
      var k :| 0 <= k < |rows| && PagesIn(rows[k]) == FirstOf(rows, PagesIn) && forall j :: 0 <= j < k ==> PagesIn(rows[j]).None?;
      PagesInSpec(rows[k]);
      DigitsAreNotNa(PagesIn(rows[k]).value);
    }
  }

  /** No run of digits reads "N/A", so a found page count is never taken
      for the missing one. */
  lemma DigitsAreNotNa(p: string)
    requires Digits(p)
    ensures p != "N/A"
  {
    assert p != [] ==> IsDigit(p[0]);
  }

  /** A row labelled exactly "Jezik" with a value. */
  function LanguageIn(row: DetailRow): Option<string> {
    if LabelIs(row, "Jezik") && row.value.Some? then Some(Text(row.value.value.content)) else None
  }

  /** A row labelled exactly "Građa" with a value: its text with line
      breaks turned into spaces, stripped. */
  function MaterialIn(row: DetailRow): Option<string> {
    if LabelIs(row, "Građa") && row.value.Some?
    then Some(Strip(Replace(Text(row.value.value.content), "\n", " ")))
    else None
  }

  /** The language needs the exact label: a row whose label only contains
      "Jezik" does not count, and the first exact row with a value wins. */
  lemma LanguageSpec(rows: seq<DetailRow>)
    ensures FirstOf(rows, LanguageIn).None? <==> forall k :: 0 <= k < |rows| ==> !LabelIs(rows[k], "Jezik") || rows[k].value.None?
    ensures FirstOf(rows, LanguageIn).Some? ==>
              exists k :: 0 <= k < |rows| && LabelIs(rows[k], "Jezik") && rows[k].value.Some?
                          && FirstOf(rows, LanguageIn).value == Text(rows[k].value.value.content)
                          && forall j :: 0 <= j < k ==> LanguageIn(rows[j]).None?
  {
    FirstOfSpec(rows, LanguageIn);
  }

  /** One row's material type: present exactly for a "Građa" row with a
      value, and without line breaks. */
  lemma MaterialInSpec(row: DetailRow)
    ensures MaterialIn(row).None? <==> !LabelIs(row, "Građa") || row.value.None?
    ensures MaterialIn(row).Some? ==> '\n' !in MaterialIn(row).value
  {
    if MaterialIn(row).Some? {
      var t := Text(row.value.value.content);
      ReplaceLineBreaks(t);
      StripKeeps(Replace(t, "\n", " "), '\n');
    }
  }

  /** The material type needs the exact label "Građa" too, and has no line
      break left in it. */
  lemma MaterialTypeSpec(rows: seq<DetailRow>)
    ensures FirstOf(rows, MaterialIn).None? <==> forall k :: 0 <= k < |rows| ==> !LabelIs(rows[k], "Građa") || rows[k].value.None?
    ensures FirstOf(rows, MaterialIn).Some? ==> '\n' !in FirstOf(rows, MaterialIn).value
  {
    FirstOfSpec(rows, MaterialIn);
    forall k | 0 <= k < |rows| ensures MaterialIn(rows[k]).None? <==> !LabelIs(rows[k], "Građa") || rows[k].value.None? {
      MaterialInSpec(rows[k]);
    }
    if FirstOf(rows, MaterialIn).Some? {
      var k :| 0 <= k < |rows| && MaterialIn(rows[k]) == FirstOf(rows, MaterialIn);
      MaterialInSpec(rows[k]);
    }
  }

  /** Replacing every line break by a space leaves none. */
  lemma {:induction false} ReplaceLineBreaks(s: string)
    ensures '\n' !in Replace(s, "\n", " ")
    decreases |s|
  {
    if |s| >= 1 {
      ReplaceLineBreaks(s[1..]);
    }
  }

  /** Stripping adds no character. */
  lemma StripKeeps(s: string, c: char)
    requires c !in s
    ensures c !in Strip(s)
  {
    var i :| SpaceBounded(s, Strip(s), i);
  }

  /** A row whose label contains "Napomena" with a value. */
  function NoteIn(row: DetailRow): Option<string> {
    if LabelHas(row, "Napomena") && row.value.Some? then Some(Text(row.value.value.content)) else None
  }

  /** A row whose label contains "Klasifikacijska oznaka" and whose value
      has a link: the link text is the code, the value text without the
      code is the description. */
  function ClassificationIn(row: DetailRow): Option<Classification> {
    if LabelHas(row, "Klasifikacijska oznaka") && row.value.Some? && row.value.value.firstLink.Some? then
      var code := Text(row.value.value.firstLink.value);
      Some(Classification(code, Strip(Replace(RawText(row.value.value.content), code, ""))))
    else None
  }

  /** The description is the value text cut at every occurrence of the
      code, the pieces put back together and stripped. */
  lemma ClassificationSpec(row: DetailRow)
    requires ClassificationIn(row).Some?
    ensures var c := ClassificationIn(row).value;
            var text := RawText(row.value.value.content);
            c.code == Text(row.value.value.firstLink.value)
            && (c.code != [] ==> c.description == Strip(Join("", SplitOn(text, c.code))))
            && (c.code != [] && !Contains(text, c.code) ==> c.description == Strip(text))
            && (c.code == [] ==> c.description == Strip(text))
  {
    var c := ClassificationIn(row).value;
    var text := RawText(row.value.value.content);
    if c.code != [] {
      ReplaceIsJoinSplit(text, c.code, "");
      if !Contains(text, c.code) {
        ReplaceAbsent(text, c.code, "");
      }
    } else {
      ReplaceEmpty(text);
    }
  }

  /** Removing the empty string changes nothing. */
  lemma {:induction false} ReplaceEmpty(s: string)
    ensures Replace(s, "", "") == s
    decreases |s|
  {
    if s != [] {
      ReplaceEmpty(s[1..]);
      assert s == [s[0]] + s[1..];
    }
  }

  /** Notes come from every row whose label contains "Napomena", in order. */
  lemma NotesSpec(a: seq<DetailRow>, b: seq<DetailRow>)
    ensures Collected(a + b, NoteIn) == Collected(a, NoteIn) + Collected(b, NoteIn)
    ensures forall x :: x in Collected(a, NoteIn) <==>
              exists k :: 0 <= k < |a| && LabelHas(a[k], "Napomena") && a[k].value.Some? && x == Text(a[k].value.value.content)
  {
    CollectedAppend(a, b, NoteIn);
    CollectedSpec(a, NoteIn);
  }

  // ---------------------------------------------------------------------
  // Tags

  /** `_extract_tags`: the text of every link of the tag div. */
  function Tags(page: DetailPage): (r: seq<string>)
    ensures page.tagLinks.None? ==> r == []
    ensures page.tagLinks.Some? ==> |r| == |page.tagLinks.value| && forall k :: 0 <= k < |r| ==> r[k] == Text(page.tagLinks.value[k])
  {
    if page.tagLinks.None? then [] else seq(|page.tagLinks.value|, k requires 0 <= k < |page.tagLinks.value| => Text(page.tagLinks.value[k]))
  }

  method ExtractTags(page: DetailPage) returns (tags: seq<string>)
    ensures tags == Tags(page)
  {
    tags := [];
    if page.tagLinks.Some? {
      var links := page.tagLinks.value;
      var i := 0;
      while i < |links|
        invariant 0 <= i <= |links|
        invariant |tags| == i && forall k :: 0 <= k < i ==> tags[k] == Text(links[k])
      {
        tags := tags + [Text(links[i])];
        i := i + 1;
      }
    }
  }

  // ---------------------------------------------------------------------
  // Subjects

  const SubjectLabel := "Predmetna odrednica"

  /** A row that starts (or keeps up) the collecting. */
  predicate Starts(row: DetailRow) {
    LabelHas(row, SubjectLabel)
  }

  /** A row that ends the collecting: a non-blank label without the text. */
  predicate Stops(row: DetailRow) {
    row.labelDiv.Some? && Text(row.labelDiv.value) != [] && !Contains(RawText(row.labelDiv.value), SubjectLabel)
  }

  /** The text of a row's first link, when the row has one. */
  function SubjectIn(row: DetailRow): Option<string> {
    if row.value.Some? && row.value.value.firstLink.Some? then Some(Text(row.value.value.firstLink.value)) else None
  }

  /** What a loop with a `collecting` flag gathers from `rows` on: `start`
      turns the flag on, `stop` ends the loop while it is on, and while it
      is on `pick` gives a row's value. */
  function Gathered(rows: seq<DetailRow>, on: bool, start: DetailRow -> bool, stop: DetailRow -> bool,
                    pick: DetailRow -> Option<string>): seq<string>
    decreases |rows|
  {
    if rows == [] then []
    else
      var on' := on || start(rows[0]);
      if on' && stop(rows[0]) then []
      else
        var here := if on' && pick(rows[0]).Some? then [pick(rows[0]).value] else [];
        here + Gathered(rows[1..], on', start, stop, pick)
  }

  /** The subjects the loop collects from `rows` on, given whether it is
      already collecting. */
  function SubjectsFrom(rows: seq<DetailRow>, collecting: bool): seq<string> {
    Gathered(rows, collecting, Starts, Stops, SubjectIn)
  }

  /** The loop with a `collecting` flag: `start` turns the flag on, `stop`
      breaks out while it is on, and while it is on `pick` appends a row's
      value. */
  method GatherRows(rows: seq<DetailRow>, start: DetailRow -> bool, stop: DetailRow -> bool,
                    pick: DetailRow -> Option<string>) returns (out: seq<string>)
    ensures out == Gathered(rows, false, start, stop, pick)
  {
    out := [];
    var collecting := false;
    var i := 0;
    while i < |rows|
      invariant 0 <= i <= |rows|
      invariant out + Gathered(rows[i..], collecting, start, stop, pick) == Gathered(rows, false, start, stop, pick)
    {
      var row := rows[i];
      GatheredStep(rows[i..], collecting, start, stop, pick);
      assert rows[i..][0] == row && rows[i..][1..] == rows[i + 1..];
      if start(row) {
        collecting := true;
      }
      if collecting && stop(row) {
        assert out + [] == out;
        break;
      }
      if collecting && pick(row).Some? {
        assert (out + [pick(row).value]) + Gathered(rows[i + 1..], collecting, start, stop, pick)
               == out + ([pick(row).value] + Gathered(rows[i + 1..], collecting, start, stop, pick));
        out := out + [pick(row).value];
      } else {
        assert [] + Gathered(rows[i + 1..], collecting, start, stop, pick) == Gathered(rows[i + 1..], collecting, start, stop, pick);
      }
      i := i + 1;
    }
  }

  /** One row of the loop. */
  lemma GatheredStep(rows: seq<DetailRow>, on: bool, start: DetailRow -> bool, stop: DetailRow -> bool,
                     pick: DetailRow -> Option<string>)
    requires rows != []
    ensures var on' := on || start(rows[0]);
            Gathered(rows, on, start, stop, pick)
            == if on' && stop(rows[0]) then []
               else (if on' && pick(rows[0]).Some? then [pick(rows[0]).value] else []) + Gathered(rows[1..], on', start, stop, pick)
  {
  }

  /** `_extract_subjects`: the subject rows walked by that loop. */
  method ExtractSubjects(rows: seq<DetailRow>) returns (subjects: seq<string>)
    ensures subjects == SubjectsFrom(rows, false)
  {
    subjects := GatherRows(rows, Starts, Stops, SubjectIn);
  }

  /** The first index from which `p` holds, or `|rows|`. */
  function FirstWhere(rows: seq<DetailRow>, p: DetailRow -> bool): (n: nat)
    ensures n <= |rows|
    ensures forall j :: 0 <= j < n ==> !p(rows[j])
    ensures n < |rows| ==> p(rows[n])
    decreases |rows|
  {
    if rows == [] then 0 else if p(rows[0]) then 0 else 1 + FirstWhere(rows[1..], p)
  }

  /** Once collecting, the loop gathers the values of the rows before the
      first stopping row. */
  lemma {:induction false} SubjectsWhileCollecting(rows: seq<DetailRow>, start: DetailRow -> bool,
                                                   stop: DetailRow -> bool, pick: DetailRow -> Option<string>)
    ensures Gathered(rows, true, start, stop, pick) == Collected(rows[..FirstWhere(rows, stop)], pick)
    decreases |rows|
  {
    if rows != [] && !stop(rows[0]) {
      SubjectsWhileCollecting(rows[1..], start, stop, pick);
      var n := FirstWhere(rows[1..], stop);
      assert rows[..1 + n] == [rows[0]] + rows[1..][..n];
      CollectedAppend([rows[0]], rows[1..][..n], pick);
      assert [rows[0]][..0] == [];
    }
  }

  /** Before collecting, rows up to the first starting row contribute
      nothing, provided a starting row never stops the loop. */
  lemma {:induction false} SubjectsBeforeStart(rows: seq<DetailRow>, start: DetailRow -> bool,
                                               stop: DetailRow -> bool, pick: DetailRow -> Option<string>)
    requires forall r :: start(r) ==> !stop(r)
    ensures var s := FirstWhere(rows, start);
            Gathered(rows, false, start, stop, pick)
            == if s == |rows| then [] else Gathered(rows[s..], true, start, stop, pick)
    decreases |rows|
  {
    if rows != [] {
      if start(rows[0]) {
        assert rows[0..] == rows;
      } else {
        SubjectsBeforeStart(rows[1..], start, stop, pick);
        var s := FirstWhere(rows[1..], start);
        assert rows[1..][s..] == rows[1 + s..];
      }
    }
  }

  /** A row whose label contains the subject text never stops the loop. */
  lemma StartsDoNotStop(row: DetailRow)
    ensures Starts(row) ==> !Stops(row)
  {
  }

  /** The subjects are the links of the rows from the first row whose
      label contains "Predmetna odrednica" up to, not including, the first
      later row with another non-blank label; that row and every later one
      contribute nothing. */
  lemma SubjectsSpec(rows: seq<DetailRow>)
    ensures var s := FirstWhere(rows, Starts);
            var tail := rows[s..];
            SubjectsFrom(rows, false) == Collected(tail[..FirstWhere(tail, Stops)], SubjectIn)
  {
    forall r ensures Starts(r) ==> !Stops(r) {
      StartsDoNotStop(r);
    }
    SubjectsBeforeStart(rows, Starts, Stops, SubjectIn);
    var s := FirstWhere(rows, Starts);
    if s < |rows| {
      SubjectsWhileCollecting(rows[s..], Starts, Stops, SubjectIn);
    } else {
      assert rows[s..] == [];
    }
  }

  // ---------------------------------------------------------------------
  // parse_book_detail

  function DetailUrl(baseUrl: string, bookId: string): string {
    baseUrl + "/pagesResults/bibliografskiZapis.aspx?selectedId=" + bookId
  }

  /** The record `parse_book_detail` returns for a page. */
  function Detail(baseUrl: string, bookId: string, page: DetailPage): BookDetail {
    Parsed(bookId, DetailUrl(baseUrl, bookId), ExtractTitle(page), ExtractAuthor(page.rows),
           Collected(page.rows, OtherAuthorIn), OrNa(FirstOf(page.rows, PublisherIn)),
           OrNa(FirstOf(page.rows, YearIn)), OrNa(FirstOf(page.rows, PagesIn)),
           if page.isbnSpan.Some? then Text(page.isbnSpan.value) else "N/A",
           OrNa(FirstOf(page.rows, LanguageIn)), SubjectsFrom(page.rows, false),
           Collected(page.rows, ClassificationIn), Tags(page),
           OrNa(FirstOf(page.rows, MaterialIn)), Collected(page.rows, NoteIn))
  }

  /** `parse_book_detail`: a failed request gives only the id and the error. */
  method ParseBookDetail(baseUrl: string, bookId: string, fetch: Fetch<DetailPage>) returns (r: BookDetail)
    ensures fetch.FetchFailed? ==> r == ParseError(bookId, fetch.message)
    ensures fetch.Fetched? ==> r == Detail(baseUrl, bookId, fetch.page)
  {
    if fetch.FetchFailed? {
      return ParseError(bookId, fetch.message);
    }
    var page := fetch.page;
    var otherAuthors := CollectRows(page.rows, OtherAuthorIn);
    var subjects := ExtractSubjects(page.rows);
    var classifications := CollectRows(page.rows, ClassificationIn);
    var tags := ExtractTags(page);
    var notes := CollectRows(page.rows, NoteIn);
    r := Parsed(bookId, DetailUrl(baseUrl, bookId), ExtractTitle(page), ExtractAuthor(page.rows),
                otherAuthors, OrNa(FirstOf(page.rows, PublisherIn)),
                OrNa(FirstOf(page.rows, YearIn)), OrNa(FirstOf(page.rows, PagesIn)),
                if page.isbnSpan.Some? then Text(page.isbnSpan.value) else "N/A",
                OrNa(FirstOf(page.rows, LanguageIn)), subjects, classifications, tags,
                OrNa(FirstOf(page.rows, MaterialIn)), notes);
  }

  /** Every parse keeps the id; the record's url is the record page's. */
  lemma ParseKeepsId(baseUrl: string, bookId: string, fetch: Fetch<DetailPage>)
    ensures var r := if fetch.Fetched? then Detail(baseUrl, bookId, fetch.page) else ParseError(bookId, fetch.message);
            r.id == bookId && (r.Parsed? <==> fetch.Fetched?)
            && (r.Parsed? ==> Contains(r.url, "selectedId=" + bookId) && r.url[..|baseUrl|] == baseUrl)
  {
    if fetch.Fetched? {
      var u := DetailUrl(baseUrl, bookId);
      assert u == (baseUrl + "/pagesResults/bibliografskiZapis.aspx?") + ("selectedId=" + bookId) + "";
      ContainsInfix(baseUrl + "/pagesResults/bibliografskiZapis.aspx?", "selectedId=" + bookId, "");
    }
  }
}
