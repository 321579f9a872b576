/** The availability checker: it reads the holdings table of a catalogue
    record, classifies the status cell of each copy, and renders the result
    as a chat message. */
module Availability {
  import opened Wrappers
  import opened Strings
  import opened Patterns
  import opened Html

  datatype Status = Available | Borrowed | Unknown

  /** A classifier's verdict on one status cell. */
  datatype StatusInfo = StatusInfo(signature: string, status: Status, note: string, dueDate: Option<string>)

  /** One holding of the book: branch and department, shelf mark, status. */
  datatype Location = Location(location: string, signature: string, status: Status, note: string, dueDate: Option<string>)

  /** The dictionary `check_availability` returns; only a failed page fetch
      sets `error`. */
  datatype Report = Report(bookId: string, title: string, locations: seq<Location>, error: Option<string>)

  const EBookNote := "📱 E-knjiga (dostupna za posudbu)"
  const AskNote := "Status dostupan na upit (Provjerite status)"
  const CheckNote := "Dostupno (provjerite status)"
  const DefaultLibrary := "Središnja knjižnica"
  /** Python's message for reading `row` after a loop over no rows. */
  const UnboundRow := "cannot access local variable 'row' where it is not associated with a value"

  // ---------------------------------------------------------------------
  // The two status classifiers

  /** The lower-cased `src` of the cell's image contains `sub`. */
  predicate SrcHas(c: Cell, sub: string) {
    c.img.Some? && Contains(Lower(SrcOf(c.img.value)), sub)
  }

  /** The image is the "borrowed" icon. */
  predicate BorrowedImage(c: Cell) {
    SrcHas(c, "posudjeno") || SrcHas(c, "posuđeno")
  }

  /** The image is an "available" icon, as `_parse_td_status` reads it. */
  predicate AvailableImage(c: Cell) {
    SrcHas(c, "za_posudbu") || SrcHas(c, "dostupno")
  }

  /** The lower-cased stripped text of the cell contains `sub`. */
  predicate TextHas(c: Cell, sub: string) {
    Contains(Lower(Text(c.content)), sub)
  }

  function BorrowedNote(dueDate: Option<string>): string {
    if Truthy(dueDate) then "Posuđeno do " + dueDate.value else "Posuđeno"
  }

  /** The verdict for a borrowed copy: its due date is the first date in
      `dateText`, and none is given only when the text holds no date. */
  function BorrowedVerdict(signature: string, dateText: string): (r: StatusInfo)
    ensures r.status == Borrowed && r.signature == signature && r.note == BorrowedNote(r.dueDate)
    ensures r.dueDate.Some? ==> IsDate(r.dueDate.value) && Contains(dateText, r.dueDate.value)
    ensures r.dueDate.None? <==> forall j :: 0 <= j <= |dateText| ==> DateAt(dateText, j).None?
  {
    FindDateSpec(dateText);
    var d := FindDate(dateText);
    StatusInfo(signature, Borrowed, BorrowedNote(d), d)
  }

  /** `_parse_td_status`: the borrowed icon wins over the available icon,
      an icon that is neither falls through to the text, and the text rules
      are "posuđeno"/"posudeno", then "provjerite", then anything else. */
  function ParseTdStatus(td: Cell, signature: string): (r: StatusInfo)
    ensures r.signature == signature
    ensures r.status == Borrowed <==>
              BorrowedImage(td)
              || (!AvailableImage(td) && (TextHas(td, "posuđeno") || TextHas(td, "posudeno")))
    ensures r.status == Borrowed ==> r == BorrowedVerdict(signature, Text(td.content))
    ensures r.status == Available <==>
              !BorrowedImage(td)
              && (AvailableImage(td)
                  || (!TextHas(td, "posuđeno") && !TextHas(td, "posudeno") && TextHas(td, "provjerite")))
    ensures r.status == Available ==> r.note == (if AvailableImage(td) then "Dostupno" else CheckNote)
    ensures r.status == Unknown ==> r.note == Text(td.content)
    ensures r.status != Borrowed ==> r.dueDate.None?
  {
    var text := Text(td.content);
    if td.img.Some? && BorrowedImage(td) then BorrowedVerdict(signature, text)
    else if td.img.Some? && AvailableImage(td) then StatusInfo(signature, Available, "Dostupno", None)
    else if TextHas(td, "posuđeno") || TextHas(td, "posudeno") then BorrowedVerdict(signature, text)
    else if TextHas(td, "provjerite") then StatusInfo(signature, Available, CheckNote, None)
    else StatusInfo(signature, Unknown, text, None)
  }

  /** The signals `_parse_row_status` recognises in a status cell. */
  predicate RowSignal(c: Cell) {
    Contains(c.markup, "posudbaLCP") || SrcHas(c, "za_posudbu") || BorrowedImage(c)
    || TextHas(c, "provjerite status") || TextHas(c, "dostupno")
  }

  /** `_parse_row_status`: the e-book button anywhere in the cell's markup
      wins over any image; the "available" icon is tested before the
      "borrowed" one; the text rules know only "provjerite status" and
      "dostupno", and a row with none of these signals is dropped. */
  function ParseRowStatus(row: Row): (r: Option<StatusInfo>)
    ensures r.Some? ==> |row.cells| >= 3 && r.value.signature == Text(row.cells[1].content)
    ensures r.None? <==> |row.cells| < 3 || !RowSignal(row.cells[2])
    ensures |row.cells| >= 3 && Contains(row.cells[2].markup, "posudbaLCP") ==>
              r == Some(StatusInfo(Text(row.cells[1].content), Available, EBookNote, None))
    ensures r.Some? && r.value.status == Borrowed ==>
              BorrowedImage(row.cells[2]) && !SrcHas(row.cells[2], "za_posudbu")
              && r.value == BorrowedVerdict(r.value.signature, RawText(row.cells[2].content))
    ensures r.Some? && r.value.status == Unknown ==> r.value.note == AskNote && r.value.dueDate.None?
  {
    if |row.cells| < 3 then None
    else
      var signature := Text(row.cells[1].content);
      var c := row.cells[2];
      if Contains(c.markup, "posudbaLCP") then Some(StatusInfo(signature, Available, EBookNote, None))
      else if c.img.Some? && SrcHas(c, "za_posudbu") then Some(StatusInfo(signature, Available, "Dostupno", None))
      else if c.img.Some? && BorrowedImage(c) then Some(BorrowedVerdict(signature, RawText(c.content)))
      else if TextHas(c, "provjerite status") then Some(StatusInfo(signature, Unknown, AskNote, None))
      else if TextHas(c, "dostupno") then Some(StatusInfo(signature, Available, "Dostupno", None))
      else None
  }

  /** A status cell with neither image nor e-book button, read by both
      classifiers. */
  predicate PlainCell(row: Row) {
    |row.cells| >= 3 && row.cells[2].img.None? && !Contains(row.cells[2].markup, "posudbaLCP")
  }

  /** `_parse_td_status` reads "provjerite status" without an image as
      an available copy. */
  lemma TdStatusOfCheckStatusText(td: Cell, signature: string)
    requires td.img.None? && TextHas(td, "provjerite status")
    requires !TextHas(td, "posuđeno") && !TextHas(td, "posudeno")
    ensures ParseTdStatus(td, signature) == StatusInfo(signature, Available, CheckNote, None)
  {
    CheckStatusSaysCheck(Lower(Text(td.content)));
  }

  /** Text holding "provjerite status" holds "provjerite". */
  lemma CheckStatusSaysCheck(t: string)
    requires Contains(t, "provjerite status")
    ensures Contains(t, "provjerite")
  {
    assert "provjerite" + " status" == "provjerite status";
    ContainsConcatLeft(t, "provjerite", " status");
  }

  /** `_parse_row_status` reads it as a copy of unknown status. */
  lemma RowStatusOfCheckStatusText(row: Row)
    requires PlainCell(row) && TextHas(row.cells[2], "provjerite status")
    ensures ParseRowStatus(row) == Some(StatusInfo(Text(row.cells[1].content), Unknown, AskNote, None))
  {
  }

  /** The classifiers disagree on "provjerite status": one calls the copy
      available, the other unknown. */
  lemma ClassifiersDisagreeOnCheckStatus(row: Row)
    requires PlainCell(row)
    requires TextHas(row.cells[2], "provjerite status")
    requires !TextHas(row.cells[2], "posuđeno") && !TextHas(row.cells[2], "posudeno")
    ensures ParseTdStatus(row.cells[2], Text(row.cells[1].content)).status == Available
    ensures ParseRowStatus(row).Some? && ParseRowStatus(row).value.status == Unknown
  {
    TdStatusOfCheckStatusText(row.cells[2], Text(row.cells[1].content));
    RowStatusOfCheckStatusText(row);
  }

  /** The classifiers disagree on text they do not recognise: one keeps
      the copy as unknown with the text as its note, the other drops it. */
  lemma ClassifiersDisagreeOnUnrecognisedText(row: Row)
    requires PlainCell(row)
    requires !TextHas(row.cells[2], "posuđeno") && !TextHas(row.cells[2], "posudeno")
    requires !TextHas(row.cells[2], "provjerite") && !TextHas(row.cells[2], "dostupno")
    ensures ParseTdStatus(row.cells[2], Text(row.cells[1].content))
            == StatusInfo(Text(row.cells[1].content), Unknown, Text(row.cells[2].content), None)
    ensures ParseRowStatus(row).None?
  {
    var t := Lower(Text(row.cells[2].content));
    if Contains(t, "provjerite status") {
      CheckStatusSaysCheck(t);
    }
  }

  /** A text-only "Posuđeno" is a borrowed copy for `_parse_td_status` and
      a dropped row for `_parse_row_status`. */
  lemma TextOnlyBorrowedIsDroppedByRowStatus(row: Row)
    requires PlainCell(row)
    requires TextHas(row.cells[2], "posuđeno")
    requires !TextHas(row.cells[2], "provjerite status") && !TextHas(row.cells[2], "dostupno")
    ensures ParseTdStatus(row.cells[2], Text(row.cells[1].content)).status == Borrowed
    ensures ParseRowStatus(row).None?
  {
  }

  // ---------------------------------------------------------------------
  // The branch-name cleaner

  /** The text after both substitutions of `_extract_location_name`. */
  function Cleaned(text: string): string {
    RemoveNumberSuffix(RemoveTelSuffix(text))
  }

  /** `_extract_location_name`: drops ", address ... tel: ..." and ", 51000
      ..." tails; the result is stripped, a comma-free text only loses its
      surrounding whitespace, and a text that cleaning empties falls back
      to what comes before its first comma. On one line the result is a
      stripped prefix of the text. */
  function ExtractLocationName(text: string): (r: string)
    ensures r != [] ==> !IsSpace(r[0]) && !IsSpace(r[|r| - 1])
    ensures ',' !in text ==> r == Strip(text)
    ensures Strip(Cleaned(text)) == [] ==> r == Strip(SplitOn(text, ",")[0])
    ensures '\n' !in text ==> exists k :: 0 <= k <= |text| && r == Strip(text[..k])
  {
    var clean := Cleaned(text);
    var result := if Strip(clean) == [] then Strip(SplitOn(text, ",")[0]) else Strip(clean);
    ExtractLocationNameProof(text, result);
    result
  }

  lemma ExtractLocationNameProof(text: string, result: string)
    requires result == if Strip(Cleaned(text)) == [] then Strip(SplitOn(text, ",")[0]) else Strip(Cleaned(text))
    ensures ',' !in text ==> result == Strip(text)
    ensures '\n' !in text ==> exists k :: 0 <= k <= |text| && result == Strip(text[..k])
  {
    if ',' !in text {
      CleanedWithoutComma(text);
    }
    if '\n' !in text {
      CleanedSingleLine(text);
      if Strip(Cleaned(text)) == [] {
        PrefixIsSlice(SplitOn(text, ",")[0], text);
        assert result == Strip(text[..|SplitOn(text, ",")[0]|]);
      } else {
        PrefixIsSlice(Cleaned(text), text);
        assert result == Strip(text[..|Cleaned(text)|]);
      }
    }
  }

  /** Without a comma neither substitution nor the split changes the text. */
  lemma CleanedWithoutComma(text: string)
    requires ',' !in text
    ensures Cleaned(text) == text && SplitOn(text, ",")[0] == text
  {
    RemoveSuffixesWithoutComma(text);
    RemoveSuffixesWithoutComma(RemoveTelSuffix(text));
    ContainsChar(text, ',');
    SplitOnFirst(text, ",");
    JoinSplitOn(text, ",");
  }

  /** On one line the cleaned text and the first comma-piece are prefixes. */
  lemma CleanedSingleLine(text: string)
    requires '\n' !in text
    ensures Cleaned(text) <= text && SplitOn(text, ",")[0] <= text
  {
    SplitOnFirst(text, ",");
    RemoveTelSuffixSingleLine(text);
    var tel := RemoveTelSuffix(text);
    assert '\n' !in tel by {
      assert tel == text[..|tel|];
    }
    RemoveNumberSuffixSingleLine(tel);
  }

  // ---------------------------------------------------------------------
  // _parse_ajax_locations

  /** A row whose first cell names a branch (its text contains "tel:"). */
  predicate TelRow(row: Row) {
    row.cells != [] && Contains(Text(row.cells[0].content), "tel:")
  }

  /** The entry a data row adds under branch `branch`. */
  function AjaxEntry(branch: string, cells: seq<Cell>): Location
    requires |cells| >= 3
  {
    var info := ParseTdStatus(cells[2], Text(cells[1].content));
    Location(branch + " (" + Text(cells[0].content) + ")", info.signature, info.status, info.note, info.dueDate)
  }

  /** The branch after `row`: a branch row names a new one, any other row
      keeps it. */
  function AjaxNext(row: Row, current: Option<string>): Option<string> {
    if TelRow(row) then Some(ExtractLocationName(Text(row.cells[0].content))) else current
  }

  /** The entries `row` adds under `current`: one for a data row with at
      least three cells under a non-empty branch, none for an empty row, a
      branch row or a "Lokacija" header row. */
  function AjaxEmit(row: Row, current: Option<string>): seq<Location> {
    var cells := row.cells;
    if cells == [] || TelRow(row) then []
    else if |cells| >= 3 && Text(cells[0].content) == "Lokacija" then []
    else if Truthy(current) && |cells| >= 3 then [AjaxEntry(current.value, cells)]
    else []
  }

  /** The entries the rows add when the walk enters them under `current`. */
  function AjaxWalk(rows: seq<Row>, current: Option<string>): seq<Location>
    decreases |rows|
  {
    if rows == [] then []
    else AjaxEmit(rows[0], current) + AjaxWalk(rows[1..], AjaxNext(rows[0], current))
  }

  /** The current branch once the walk has passed the rows. */
  function AjaxBranch(rows: seq<Row>, current: Option<string>): Option<string>
    decreases |rows|
  {
    if rows == [] then current else AjaxBranch(rows[1..], AjaxNext(rows[0], current))
  }

  /** Only the first table of the AJAX response is read. */
  function AjaxLocations(tables: seq<Table>): seq<Location> {
    if tables == [] then [] else AjaxWalk(tables[0].rows, None)
  }

  /** The body of the row loop of `_parse_ajax_locations`: the branch
      after the row and the entries the row adds. */
  method HandleAjaxRow(row: Row, current: Option<string>) returns (next: Option<string>, added: seq<Location>)
    ensures next == AjaxNext(row, current) && added == AjaxEmit(row, current)
  {
    next, added := current, [];
    var cells := row.cells;
    if cells == [] {
      return;
    }
    var firstCellText := Text(cells[0].content);
    if Contains(firstCellText, "tel:") {
      next := Some(ExtractLocationName(firstCellText));
      return;
    }
    if |cells| >= 3 && firstCellText == "Lokacija" {
      return;
    }
    if Truthy(current) && |cells| >= 3 {
      var locationDetail := firstCellText;
      var signature := Text(cells[1].content);
      var info := ParseTdStatus(cells[2], signature);
      added := [Location(current.value + " (" + locationDetail + ")",
                         info.signature, info.status, info.note, info.dueDate)];
    }
  }

  /** `_parse_ajax_locations`. */
  method ParseAjaxLocations(tables: seq<Table>) returns (locations: seq<Location>)
    ensures locations == AjaxLocations(tables)
  {
    locations := [];
    if tables == [] {
      return;
    }
    var rows := tables[0].rows;
    var current: Option<string> := None;
    var i := 0;
    while i < |rows|
      invariant 0 <= i <= |rows|
      invariant locations + AjaxWalk(rows[i..], current) == AjaxWalk(rows, None)
    {
      assert rows[i..][1..] == rows[i + 1..];
      var next, added := HandleAjaxRow(rows[i], current);
      AppendAssoc(locations, added, AjaxWalk(rows[i + 1..], next));
      locations := locations + added;
      current := next;
      i := i + 1;
    }
    assert rows[i..] == [];
  }

  /** Walking two blocks of rows is walking the first, then the second
      under the branch the first one left. */
  lemma {:induction false} AjaxWalkAppend(a: seq<Row>, b: seq<Row>, current: Option<string>)
    ensures AjaxWalk(a + b, current) == AjaxWalk(a, current) + AjaxWalk(b, AjaxBranch(a, current))
    ensures AjaxBranch(a + b, current) == AjaxBranch(b, AjaxBranch(a, current))
    decreases |a|
  {
    if a == [] {
      assert a + b == b;
    } else {
      var e := AjaxEmit(a[0], current);
      var next := AjaxNext(a[0], current);
      AjaxWalkFirst(a, b, current);
      AjaxWalkAppend(a[1..], b, next);
      AppendAssoc(e, AjaxWalk(a[1..], next), AjaxWalk(b, AjaxBranch(a, current)));
    }
  }

  /** The first row of `a + b` is the first row of `a`. */
  lemma AjaxWalkFirst(a: seq<Row>, b: seq<Row>, current: Option<string>)
    requires a != []
    ensures AjaxWalk(a + b, current) == AjaxEmit(a[0], current) + AjaxWalk(a[1..] + b, AjaxNext(a[0], current))
    ensures AjaxBranch(a + b, current) == AjaxBranch(a[1..] + b, AjaxNext(a[0], current))
  {
    assert (a + b)[1..] == a[1..] + b;
    assert (a + b)[0] == a[0];
  }

  /** Rows with no branch row among them, walked without a branch, add
      nothing and leave the walk without a branch. */
  lemma {:induction false} NothingBeforeFirstTelRow(rows: seq<Row>, current: Option<string>)
    requires !Truthy(current)
    requires forall k :: 0 <= k < |rows| ==> !TelRow(rows[k])
    ensures AjaxWalk(rows, current) == [] && AjaxBranch(rows, current) == current
    decreases |rows|
  {
    if rows != [] {
      NothingBeforeFirstTelRow(rows[1..], current);
    }
  }

  /** So the rows before the first branch row never matter. */
  lemma RowsBeforeFirstTelRowIgnored(before: seq<Row>, after: seq<Row>)
    requires forall k :: 0 <= k < |before| ==> !TelRow(before[k])
    ensures AjaxWalk(before + after, None) == AjaxWalk(after, None)
  {
    AjaxWalkAppend(before, after, None);
    NothingBeforeFirstTelRow(before, None);
  }

  /** Each row adds at most one entry. */
  lemma {:induction false} AjaxWalkLength(rows: seq<Row>, current: Option<string>)
    ensures |AjaxWalk(rows, current)| <= |rows|
    decreases |rows|
  {
    if rows != [] {
      AjaxWalkLength(rows[1..], AjaxNext(rows[0], current));
    }
  }

  /** `loc` is the entry of a data row under a non-empty branch. */
  ghost predicate EntryOfRow(loc: Location, row: Row) {
    |row.cells| >= 3 && exists branch :: branch != "" && loc == AjaxEntry(branch, row.cells)
  }

  /** Every entry comes from one row with at least three cells, read under
      a non-empty branch. */
  lemma {:induction false} AjaxWalkEntries(rows: seq<Row>, current: Option<string>)
    ensures forall loc :: loc in AjaxWalk(rows, current) ==>
              exists k :: 0 <= k < |rows| && EntryOfRow(loc, rows[k])
    decreases |rows|
  {
    if rows != [] {
      var next := AjaxNext(rows[0], current);
      AjaxWalkEntries(rows[1..], next);
      forall loc | loc in AjaxWalk(rows, current)
        ensures exists k :: 0 <= k < |rows| && EntryOfRow(loc, rows[k])
      {
        if loc in AjaxWalk(rows[1..], next) {
          var k :| 0 <= k < |rows[1..]| && EntryOfRow(loc, rows[1..][k]);
          assert rows[1..][k] == rows[k + 1];
        } else {
          assert EntryOfRow(loc, rows[0]);
        }
      }
    }
  }

  // ---------------------------------------------------------------------
  // _parse_locations

  /** `soup.find('table', class_='tblData')`. */
  function FirstTblData(tables: seq<Table>): (r: Option<Table>)
    ensures r.Some? ==> r.value in tables && "tblData" in r.value.classes
    ensures r.None? <==> forall k :: 0 <= k < |tables| ==> "tblData" !in tables[k].classes
  {
    if tables == [] then None
    else if "tblData" in tables[0].classes then Some(tables[0])
    else
      var r := FirstTblData(tables[1..]);
      assert forall k :: 1 <= k < |tables| ==> tables[k] == tables[1..][k - 1];
      r
  }

  /** `row.find('td', class_='tdKnjiznicaNaziv')`. */
  function LibraryHeader(row: Row): Option<Cell> {
    FirstWithClass(row.cells, "tdKnjiznicaNaziv")
  }

  function FirstWithClass(cells: seq<Cell>, cls: string): Option<Cell> {
    if cells == [] then None
    else if cls in cells[0].classes then Some(cells[0])
    else FirstWithClass(cells[1..], cls)
  }

  /** The branch a header cell names: its text before the first link or
      text break, stripped. */
  function HeaderName(c: Cell): string {
    Strip(SplitOn(JoinedText(c.content, "|"), "|")[0])
  }

  /** The branch named by the last header row among `rows`, or the
      default branch. */
  function LibraryOf(rows: seq<Row>): string {
    if rows == [] then DefaultLibrary
    else
      var h := LibraryHeader(rows[|rows| - 1]);
      if h.Some? then HeaderName(h.value) else LibraryOf(rows[..|rows| - 1])
  }

  /** What `_parse_locations` returns (or the error it raises): nothing
      without a `tblData` table, and otherwise at most the one entry its
      last row gives. */
  function TblDataLocations(tables: seq<Table>): (r: Result<seq<Location>>)
    ensures FirstTblData(tables).None? ==> r == Success([])
    ensures r.Failure? <==> FirstTblData(tables).Some? && FirstTblData(tables).value.rows == []
    ensures r.Success? ==> |r.value| <= 1
    ensures r.Success? && |r.value| == 1 ==>
              var rows := FirstTblData(tables).value.rows;
              var last := rows[|rows| - 1];
              |last.cells| >= 3 && !Truthy(last.hidden) && ParseRowStatus(last).Some?
              && r.value[0].location == LibraryOf(rows) + " (" + Text(last.cells[0].content) + ")"
              && r.value[0].status == ParseRowStatus(last).value.status
  {
    match FirstTblData(tables)
    case None => Success([])
    case Some(t) =>
      if t.rows == [] then Failure(UnboundRow)
      else
        var last := t.rows[|t.rows| - 1];
        if |last.cells| >= 3 && !Truthy(last.hidden) && ParseRowStatus(last).Some? then
          var info := ParseRowStatus(last).value;
          Success([Location(LibraryOf(t.rows) + " (" + Text(last.cells[0].content) + ")",
                            info.signature, info.status, info.note, info.dueDate)])
        else Success([])
  }

  lemma LibraryOfNext(rows: seq<Row>, i: nat)
    requires i < |rows|
    ensures LibraryOf(rows[..i + 1]) == if LibraryHeader(rows[i]).Some? then HeaderName(LibraryHeader(rows[i]).value) else LibraryOf(rows[..i])
  {
    assert rows[..i + 1][..i] == rows[..i];
  }

  /** `_parse_locations`. */
  method ParseLocations(tables: seq<Table>) returns (r: Result<seq<Location>>)
    ensures r == TblDataLocations(tables)
  {
    var table := FirstTblData(tables);
    if table.None? {
      return Success([]);
    }
    var rows := table.value.rows;
    var currentLibrary := DefaultLibrary;
    var i := 0;
    while i < |rows|
      invariant 0 <= i <= |rows|
      invariant currentLibrary == LibraryOf(rows[..i])
    {
      LibraryOfNext(rows, i);
      var libHeader := LibraryHeader(rows[i]);
      if libHeader.Some? {
        currentLibrary := HeaderName(libHeader.value);
      }
      i := i + 1;
    }
    assert rows[..i] == rows;
    if rows == [] {
      return Failure(UnboundRow);
    }
    var row := rows[|rows| - 1];
    var cells := row.cells;
    var locations: seq<Location> := [];
    if |cells| >= 3 && !Truthy(row.hidden) {
      var statusInfo := ParseRowStatus(row);
      if statusInfo.Some? {
        var info := statusInfo.value;
        locations := [Location(currentLibrary + " (" + Text(cells[0].content) + ")",
                               info.signature, info.status, info.note, info.dueDate)];
      }
    }
    return Success(locations);
  }

  /** Only the last row is examined: a row before it that is not a header
      row changes nothing, however it reads. */
  lemma OnlyLastRowIsExamined(classes: seq<string>, before: seq<Row>, extra: Row, last: Row)
    requires "tblData" in classes
    requires LibraryHeader(extra).None?
    ensures TblDataLocations([Table(classes, before + [extra, last])])
            == TblDataLocations([Table(classes, before + [last])])
  {
    var long := before + [extra, last];
    var short := before + [last];
    assert long[..|long| - 1] == before + [extra];
    assert (before + [extra])[..|before|] == before;
    assert short[..|short| - 1] == before;
    assert LibraryOf(long) == LibraryOf(short);
  }

  // ---------------------------------------------------------------------
  // check_availability

  /** The title shown for a record: the `span.hidden` of `divNaslov`. */
  function PageTitle(naslov: Option<TitleDiv>): string {
    if naslov.Some? && naslov.value.hiddenSpan.Some? then Text(naslov.value.hiddenSpan.value) else "Nepoznato"
  }

  /** `check_availability`: the record page gives the title and the AJAX
      response the holdings. A failed page fetch gives the error report;
      a failed AJAX request only empties the holdings. */
  function CheckAvailability(bookId: string, page: Fetch<Option<TitleDiv>>, ajax: Fetch<seq<Table>>): (r: Report)
    ensures r.bookId == bookId
    ensures r.error.Some? <==> page.FetchFailed?
    ensures page.FetchFailed? ==> r == Report(bookId, "Greška", [], Some(page.message))
    ensures page.Fetched? ==> r.title == PageTitle(page.page)
    ensures page.Fetched? && ajax.FetchFailed? ==> r.locations == []
    ensures page.Fetched? && ajax.Fetched? ==> r.locations == AjaxLocations(ajax.page)
  {
    match page
    case FetchFailed(message) => Report(bookId, "Greška", [], Some(message))
    case Fetched(naslov) =>
      var locations := if ajax.Fetched? then AjaxLocations(ajax.page) else [];
      Report(bookId, PageTitle(naslov), locations, None)
  }

  // ---------------------------------------------------------------------
  // format_availability_message

  const ErrorApology := "Žao mi je, trenutno ne mogu provjeriti status u katalogu. Molim vas pokušajte kasnije."

  function NotFoundMessage(title: string): string {
    "Nažalost, trenutno ne mogu pronaći podatke o dostupnosti za knjigu: **" + title + "**."
  }

  function StatusEmoji(s: Status): string {
    match s
    case Available => "✅"
    case Borrowed => "❌"
    case Unknown => "❓"
  }

  function StatusText(loc: Location): string {
    match loc.status
    case Available => "Slobodno"
    case Borrowed => if Truthy(loc.dueDate) then "Posuđeno (rok: " + loc.dueDate.value + ")" else "Posuđeno"
    case Unknown => "Nepoznato"
  }

  /** The lines shown for one holding. */
  function LocationBlock(loc: Location): string {
    "\n" + StatusEmoji(loc.status) + " **" + loc.location + "**"
    + "\n   Status: " + StatusText(loc)
    + "\n   Signatura: `" + loc.signature + "`\n"
  }

  /** The blocks of the holdings, in order. */
  function Blocks(locs: seq<Location>): string {
    if locs == [] then "" else Blocks(locs[..|locs| - 1]) + LocationBlock(locs[|locs| - 1])
  }

  function Header(title: string): string {
    "🔍 **Status za: " + title + "**\n"
  }

  /** The message for a report. */
  function AvailabilityMessage(r: Report): string {
    if r.error.Some? then ErrorApology
    else if r.locations == [] then NotFoundMessage(r.title)
    else Header(r.title) + Blocks(r.locations)
  }

  /** The body of the loop of `format_availability_message`: the three
      appends for one holding add its block. */
  method AppendLocation(msg: string, loc: Location) returns (result: string)
    ensures result == msg + LocationBlock(loc)
  {
    var statusEmoji := StatusEmoji(loc.status);
    var statusText := StatusText(loc);
    result := msg;
    result := result + "\n" + statusEmoji + " **" + loc.location + "**";
    result := result + "\n   Status: " + statusText;
    result := result + "\n   Signatura: `" + loc.signature + "`\n";
  }

  lemma BlocksStep(locs: seq<Location>, i: nat)
    requires i < |locs|
    ensures Blocks(locs[..i + 1]) == Blocks(locs[..i]) + LocationBlock(locs[i])
  {
    assert locs[..i + 1][..i] == locs[..i];
  }

  /** `format_availability_message`. */
  method FormatAvailabilityMessage(r: Report) returns (msg: string)
    ensures msg == AvailabilityMessage(r)
  {
    if r.error.Some? {
      return ErrorApology;
    }
    if r.locations == [] {
      return NotFoundMessage(r.title);
    }
    msg := "🔍 **Status za: " + r.title + "**\n";
    var i := 0;
    while i < |r.locations|
      invariant 0 <= i <= |r.locations|
      invariant msg == Header(r.title) + Blocks(r.locations[..i])
    {
      BlocksStep(r.locations, i);
      AppendAssoc(Header(r.title), Blocks(r.locations[..i]), LocationBlock(r.locations[i]));
      msg := AppendLocation(msg, r.locations[i]);
      i := i + 1;
    }
    assert r.locations[..i] == r.locations;
  }

  /** The blocks string holds each holding's block. */
  lemma {:induction false} BlocksContainEach(locs: seq<Location>, i: nat)
    requires i < |locs|
    ensures Contains(Blocks(locs), LocationBlock(locs[i]))
    decreases |locs|
  {
    var init := locs[..|locs| - 1];
    if i == |locs| - 1 {
      ContainsInfix(Blocks(init), LocationBlock(locs[i]), "");
      assert Blocks(init) + LocationBlock(locs[i]) + "" == Blocks(locs);
    } else {
      BlocksContainEach(init, i);
      var s := Blocks(init);
      ContainsIff(s, LocationBlock(locs[i]));
      var j :| OccursAt(s, LocationBlock(locs[i]), j);
      assert OccursAt(Blocks(locs), LocationBlock(locs[i]), j) by {
        assert Blocks(locs) == s + LocationBlock(locs[|locs| - 1]);
        assert Blocks(locs)[..|s|] == s;
      }
      ContainsAt(Blocks(locs), LocationBlock(locs[i]), j);
    }
  }

  /** A report without an error lists every holding it has. */
  lemma MessageShowsEveryLocation(r: Report, i: nat)
    requires r.error.None? && i < |r.locations|
    ensures Contains(AvailabilityMessage(r), LocationBlock(r.locations[i]))
  {
    BlocksContainEach(r.locations, i);
    ContainsExtend(Blocks(r.locations), LocationBlock(r.locations[i]), Header(r.title), "");
    assert Header(r.title) + Blocks(r.locations) + "" == AvailabilityMessage(r);
  }

  /** A borrowed copy with a due date shows it as "Posuđeno (rok: d)". */
  lemma BorrowedBlockShowsDueDate(loc: Location)
    requires loc.status == Borrowed && Truthy(loc.dueDate)
    ensures Contains(LocationBlock(loc), "Posuđeno (rok: " + loc.dueDate.value + ")")
  {
    var pre := "\n" + StatusEmoji(loc.status) + " **" + loc.location + "**" + "\n   Status: ";
    var post := "\n   Signatura: `" + loc.signature + "`\n";
    assert LocationBlock(loc) == pre + StatusText(loc) + post;
    ContainsInfix(pre, StatusText(loc), post);
  }

  /** End to end: a failed page fetch always shows the apology, and a
      failed AJAX request the "not found" sentence with the title. */
  lemma FailedFetchMessages(bookId: string, page: Fetch<Option<TitleDiv>>, ajax: Fetch<seq<Table>>)
    ensures page.FetchFailed? ==> AvailabilityMessage(CheckAvailability(bookId, page, ajax)) == ErrorApology
    ensures page.Fetched? && ajax.FetchFailed? ==>
              AvailabilityMessage(CheckAvailability(bookId, page, ajax)) == NotFoundMessage(PageTitle(page.page))
  {
  }
}
