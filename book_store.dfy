/** `DatabaseManager` of `database/db_manager.py`: the SQLite tables of the
    catalogue, kept as sequences of rows in rowid order, and the insert,
    import, search and lookup operations over them. */
module BookStore {
  import opened Wrappers
  import opened Strings

  // ---------------------------------------------------------------------
  // Rows and tables

  /** A row of `books` (the timestamps are left out). SQL `NULL` is `None`;
      `title` is `NOT NULL`. */
  datatype BookRow = BookRow(
    id: Option<string>, title: string, author: Option<string>, publisher: Option<string>,
    year: Option<string>, pages: Option<string>, isbn: Option<string>, language: Option<string>,
    materialType: Option<string>, url: Option<string>, fullInfo: Option<string>)

  /** A row of one of the tables that point at a book through `book_id`. */
  datatype Linked<T> = Linked(bookId: Option<string>, value: T)

  datatype Author = Author(name: string, role: string)

  datatype Classification = Classification(code: Option<string>, description: Option<string>)

  /** The tables `books`, `book_authors`, `book_subjects`, `book_tags`,
      `book_classifications` and `book_notes`. */
  datatype Tables = Tables(
    books: seq<BookRow>, authors: seq<Linked<Author>>, subjects: seq<Linked<string>>,
    tags: seq<Linked<string>>, classifications: seq<Linked<Classification>>, notes: seq<Linked<string>>)

  const Empty := Tables([], [], [], [], [], [])

  /** An element of `classifications` in a book dict: a dict with `code`
      and `description` (either may be missing), or any other value. */
  datatype ClassificationInput = ClassificationDict(code: Option<string>, description: Option<string>) | NotDict

  /** The dict `insert_book` gets: `None` for a missing or null key, and an
      empty list for a missing list. */
  datatype BookInput = BookInput(
    id: Option<string>, title: Option<string>, author: Option<string>, publisher: Option<string>,
    year: Option<string>, pages: Option<string>, isbn: Option<string>, language: Option<string>,
    materialType: Option<string>, url: Option<string>, fullInfo: Option<string>,
    otherAuthors: seq<string>, subjects: seq<string>, tags: seq<string>,
    classifications: seq<ClassificationInput>, notes: seq<string>)

  /** SQL `a = b`: never true when either side is `NULL`. */
  predicate SqlEq(a: Option<string>, b: Option<string>) {
    a.Some? && b.Some? && a.value == b.value
  }

  /** Non-null ids are unique, as the primary key demands. */
  predicate UniqueIds(books: seq<BookRow>) {
    forall i, j :: 0 <= i < j < |books| && books[i].id.Some? ==> books[i].id != books[j].id
  }

  // ---------------------------------------------------------------------
  // insert_book

  /** The `books` row of a dict with a title. */
  function RowOf(b: BookInput): BookRow
    requires b.title.Some?
  {
    BookRow(b.id, b.title.value, b.author, b.publisher, b.year, b.pages, b.isbn, b.language,
            b.materialType, b.url, b.fullInfo)
  }

  /** `INSERT OR REPLACE`: a row with the same non-null id is deleted and
      the new row goes last. */
  function Replaced(books: seq<BookRow>, row: BookRow): seq<BookRow> {
    WithoutId(books, row.id) + [row]
  }

  function WithoutId(books: seq<BookRow>, id: Option<string>): (r: seq<BookRow>)
    ensures |r| <= |books|
    ensures forall x :: x in r <==> x in books && !SqlEq(x.id, id)
    decreases |books|
  {
    if books == [] then []
    else if SqlEq(books[0].id, id) then WithoutId(books[1..], id)
    else [books[0]] + WithoutId(books[1..], id)
  }

  /** `DELETE FROM t WHERE book_id = ?`. */
  function Unlinked<T(!new)>(rows: seq<Linked<T>>, id: Option<string>): (r: seq<Linked<T>>)
    ensures forall x :: x in r <==> x in rows && !SqlEq(x.bookId, id)
    decreases |rows|
  {
    if rows == [] then []
    else if SqlEq(rows[0].bookId, id) then Unlinked(rows[1..], id)
    else [rows[0]] + Unlinked(rows[1..], id)
  }

  /** The values of `SELECT ... FROM t WHERE book_id = ?`, in rowid order. */
  function LinkedTo<T>(rows: seq<Linked<T>>, id: string): seq<T>
    decreases |rows|
  {
    if rows == [] then []
    else if SqlEq(rows[0].bookId, Some(id)) then [rows[0].value] + LinkedTo(rows[1..], id)
    else LinkedTo(rows[1..], id)
  }

  /** One inserted row per value, in order. */
  function Link<T>(id: Option<string>, values: seq<T>): seq<Linked<T>> {
    seq(|values|, i requires 0 <= i < |values| => Linked(id, values[i]))
  }

  /** The "Name (role)" parsing of `insert_book`: with a '(' the name is
      the stripped text before the first '(' and the role the text between
      the first and the second '(' with every ')' removed, stripped;
      without one the whole text is the name and the role "contributor". */
  function ParseAuthor(s: string): Author {
    if '(' in s then
      ParenSplits(s);
      var parts := SplitOn(s, "(");
      Author(Strip(parts[0]), Strip(Replace(parts[1], ")", "")))
    else Author(s, "contributor")
  }

  /** A text with a '(' splits on it into at least two parts. */
  lemma ParenSplits(s: string)
    requires '(' in s
    ensures |SplitOn(s, "(")| >= 2
  {
    ContainsChar(s, '(');
    SplitOnFirst(s, "(");
  }

  /** The classification rows: one per dict, other values skipped. */
  function ClassificationsOf(cs: seq<ClassificationInput>): seq<Classification>
    decreases |cs|
  {
    if cs == [] then []
    else
      var rest := ClassificationsOf(cs[..|cs| - 1]);
      var c := cs[|cs| - 1];
      if c.ClassificationDict? then rest + [Classification(c.code, c.description)] else rest
  }

  function Authors(xs: seq<string>): seq<Author> {
    seq(|xs|, i requires 0 <= i < |xs| => ParseAuthor(xs[i]))
  }

  /** `insert_book`: `None` when the transaction is rolled back, which
      happens exactly when the title is missing (the `NOT NULL` constraint
      aborts the first statement). */
  function Inserted(t: Tables, b: BookInput): Option<Tables> {
    if b.title.None? then None
    else Some(Tables(
      Replaced(t.books, RowOf(b)),
      Unlinked(t.authors, b.id) + Link(b.id, Authors(b.otherAuthors)),
      Unlinked(t.subjects, b.id) + Link(b.id, b.subjects),
      Unlinked(t.tags, b.id) + Link(b.id, b.tags),
      Unlinked(t.classifications, b.id) + Link(b.id, ClassificationsOf(b.classifications)),
      Unlinked(t.notes, b.id) + Link(b.id, b.notes)))
  }

  /** The first row whose id equals `id`. */
  function FindBook(books: seq<BookRow>, id: string): Option<BookRow>
    decreases |books|
  {
    if books == [] then None
    else if SqlEq(books[0].id, Some(id)) then Some(books[0])
    else FindBook(books[1..], id)
  }

  lemma {:induction false} FindBookSpec(books: seq<BookRow>, id: string)
    ensures FindBook(books, id).Some? <==> exists x :: x in books && SqlEq(x.id, Some(id))
    ensures FindBook(books, id).Some? ==> FindBook(books, id).value in books && FindBook(books, id).value.id == Some(id)
    decreases |books|
  {
    if books != [] {
      FindBookSpec(books[1..], id);
      if !SqlEq(books[0].id, Some(id)) {
        forall x | x in books && SqlEq(x.id, Some(id)) ensures x in books[1..] {
        }
      }
    }
  }

  /** With unique ids the row found is the only one with that id. */
  lemma {:induction false} FindBookUnique(books: seq<BookRow>, id: string, x: BookRow)
    requires UniqueIds(books) && x in books && x.id == Some(id)
    ensures FindBook(books, id) == Some(x)
    decreases |books|
  {
    if books[0] != x {
      assert x in books[1..];
      assert UniqueIds(books[1..]) by {
        forall i, j | 0 <= i < j < |books[1..]| && books[1..][i].id.Some? ensures books[1..][i].id != books[1..][j].id {
          assert books[1..][i] == books[i + 1] && books[1..][j] == books[j + 1];
        }
      }
      FindBookUnique(books[1..], id, x);
    }
  }

  /** After an insert the ids are still unique, the new row is what its id
      finds, every other id finds what it found before, and a book without
      an id is added beside the existing ones. */
  lemma InsertedBooks(t: Tables, b: BookInput)
    requires UniqueIds(t.books) && b.title.Some?
    ensures UniqueIds(Inserted(t, b).value.books)
    ensures b.id.Some? ==> FindBook(Inserted(t, b).value.books, b.id.value) == Some(RowOf(b))
    ensures forall k :: !SqlEq(b.id, Some(k)) ==> FindBook(Inserted(t, b).value.books, k) == FindBook(t.books, k)
    ensures b.id.None? ==> |Inserted(t, b).value.books| == |t.books| + 1
  {
    var row := RowOf(b);
    var kept := WithoutId(t.books, b.id);
    var books := kept + [row];
    WithoutIdSpec(t.books, b.id);
    assert UniqueIds(books) by {
      forall i, j | 0 <= i < j < |books| && books[i].id.Some? ensures books[i].id != books[j].id {
        if j == |books| - 1 {
          assert books[i] in kept;
        } else {
          assert books[i] == kept[i] && books[j] == kept[j];
        }
      }
    }
    if b.id.Some? {
      FindBookUnique(books, b.id.value, row);
    }
    forall k | !SqlEq(b.id, Some(k)) ensures FindBook(books, k) == FindBook(t.books, k) {
      FindBookSpec(books, k);
      FindBookSpec(t.books, k);
      if FindBook(t.books, k).Some? {
        var x := FindBook(t.books, k).value;
        assert x in kept;
        FindBookUnique(books, k, x);
      }
    }
  }

  lemma UniqueTail(books: seq<BookRow>)
    requires books != [] && UniqueIds(books)
    ensures UniqueIds(books[1..])
  {
    forall i, j | 0 <= i < j < |books[1..]| && books[1..][i].id.Some? ensures books[1..][i].id != books[1..][j].id {
      assert books[1..][i] == books[i + 1] && books[1..][j] == books[j + 1];
    }
  }

  lemma HeadIdFresh(books: seq<BookRow>)
    requires books != [] && UniqueIds(books) && books[0].id.Some?
    ensures forall y :: y in books[1..] ==> y.id != books[0].id
  {
    forall y | y in books[1..] ensures y.id != books[0].id {
      var k :| 0 <= k < |books[1..]| && books[1..][k] == y;
      assert books[k + 1] == y;
    }
  }

  lemma UniqueCons(x: BookRow, rest: seq<BookRow>)
    requires UniqueIds(rest) && (x.id.Some? ==> forall y :: y in rest ==> y.id != x.id)
    ensures UniqueIds([x] + rest)
  {
    var r := [x] + rest;
    forall i, j | 0 <= i < j < |r| && r[i].id.Some? ensures r[i].id != r[j].id {
      assert r[j] == rest[j - 1];
      if i > 0 {
        assert r[i] == rest[i - 1];
      }
    }
  }

  /** Deleting by an id keeps the other rows in their order, so their ids
      stay unique; `NULL` deletes nothing. */
  lemma {:induction false} WithoutIdSpec(books: seq<BookRow>, id: Option<string>)
    requires UniqueIds(books)
    ensures UniqueIds(WithoutId(books, id))
    ensures id.None? ==> WithoutId(books, id) == books
    decreases |books|
  {
    if books != [] {
      UniqueTail(books);
      WithoutIdSpec(books[1..], id);
      if !SqlEq(books[0].id, id) {
        if books[0].id.Some? {
          HeadIdFresh(books);
        }
        UniqueCons(books[0], WithoutId(books[1..], id));
      }
      if id.None? {
        assert [books[0]] + books[1..] == books;
      }
    }
  }

  /** The rows linked to a book after an insert: the new ones for the
      inserted id, the old ones for every other id. */
  lemma {:induction false} RelinkedSpec<T(!new)>(rows: seq<Linked<T>>, id: Option<string>, values: seq<T>, k: string)
    ensures LinkedTo(Unlinked(rows, id) + Link(id, values), k)
            == if SqlEq(id, Some(k)) then values else LinkedTo(rows, k)
  {
    LinkedToAppend(Unlinked(rows, id), Link(id, values), k);
    UnlinkedTo(rows, id, k);
    LinkTo(id, values, k);
  }

  lemma {:induction false} LinkedToAppend<T>(a: seq<Linked<T>>, b: seq<Linked<T>>, k: string)
    ensures LinkedTo(a + b, k) == LinkedTo(a, k) + LinkedTo(b, k)
    decreases |a|
  {
    if a == [] {
      assert a + b == b;
    } else {
      assert (a + b)[1..] == a[1..] + b;
      LinkedToAppend(a[1..], b, k);
    }
  }

  lemma {:induction false} UnlinkedTo<T(!new)>(rows: seq<Linked<T>>, id: Option<string>, k: string)
    ensures LinkedTo(Unlinked(rows, id), k) == if SqlEq(id, Some(k)) then [] else LinkedTo(rows, k)
    decreases |rows|
  {
    if rows != [] {
      UnlinkedTo(rows[1..], id, k);
    }
  }

  lemma {:induction false} LinkTo<T>(id: Option<string>, values: seq<T>, k: string)
    ensures LinkedTo(Link(id, values), k) == if SqlEq(id, Some(k)) then values else []
    decreases |values|
  {
    if values != [] {
      assert Link(id, values)[1..] == Link(id, values[1..]);
      LinkTo(id, values[1..], k);
    }
  }

  // ---------------------------------------------------------------------
  // get_book_by_id

  /** The dict `get_book_by_id` returns: the `books` row with the other
      authors as "name (role)", the subjects and the tags (classifications
      and notes are not read back). */
  datatype BookView = BookView(row: BookRow, otherAuthors: seq<string>, subjects: seq<string>, tags: seq<string>)

  function FormatAuthor(a: Author): string {
    a.name + " (" + a.role + ")"
  }

  function Formatted(authors: seq<Author>): seq<string> {
    seq(|authors|, i requires 0 <= i < |authors| => FormatAuthor(authors[i]))
  }

  function ViewOf(t: Tables, id: string): Option<BookView> {
    var row := FindBook(t.books, id);
    if row.None? then None
    else Some(BookView(row.value, Formatted(LinkedTo(t.authors, id)), LinkedTo(t.subjects, id), LinkedTo(t.tags, id)))
  }

  /** Reading a book back after inserting it gives its row, its other
      authors parsed and formatted again, its subjects and its tags; a book
      that was not touched reads back as before. */
  lemma InsertThenView(t: Tables, b: BookInput)
    requires UniqueIds(t.books) && b.title.Some?
    ensures b.id.Some? ==>
              ViewOf(Inserted(t, b).value, b.id.value)
              == Some(BookView(RowOf(b), Formatted(Authors(b.otherAuthors)), b.subjects, b.tags))
    ensures forall k :: !SqlEq(b.id, Some(k)) ==> ViewOf(Inserted(t, b).value, k) == ViewOf(t, k)
  {
    var t' := Inserted(t, b).value;
    InsertedBooks(t, b);
    forall k ensures ViewOf(t', k) == if SqlEq(b.id, Some(k)) then Some(BookView(RowOf(b), Formatted(Authors(b.otherAuthors)), b.subjects, b.tags)) else ViewOf(t, k) {
      RelinkedSpec(t.authors, b.id, Authors(b.otherAuthors), k);
      RelinkedSpec(t.subjects, b.id, b.subjects, k);
      RelinkedSpec(t.tags, b.id, b.tags, k);
    }
  }

  lemma TrimEndSpace(n: string)
    requires n != [] ==> !IsSpace(n[|n| - 1])
    ensures TrimEnd(n + " ") == n
  {
    var s := n + " ";
    assert IsSpace(s[|s| - 1]) && s[..|s| - 1] == n;
  }

  /** A stripped name followed by a blank strips back to the name. */
  lemma StripWithSpace(n: string)
    requires n != [] ==> !IsSpace(n[0]) && !IsSpace(n[|n| - 1])
    ensures Strip(n + " ") == n
  {
    var s := n + " ";
    if n != [] {
      assert s[0] == n[0];
      assert TrimStart(s) == s;
    } else {
      assert s[1..] == [] && IsSpace(s[0]);
      assert TrimStart(s) == [];
    }
    TrimEndSpace(n);
  }

  lemma {:induction false} RemoveClosing(r: string)
    requires ')' !in r
    ensures Replace(r + ")", ")", "") == r
    decreases |r|
  {
    if r != [] {
      assert (r + ")")[0] == r[0] != ')';
      assert (r + ")")[1..] == r[1..] + ")";
      RemoveClosing(r[1..]);
    }
  }

  lemma {:induction false} SplitAtParen(a: string, b: string)
    requires '(' !in a
    ensures SplitOn(a + "(" + b, "(") == [a] + SplitOn(b, "(")
    decreases |a|
  {
    if a == [] {
      assert a + "(" + b == "(" + b;
      assert ("(" + b)[1..] == b;
    } else {
      var s := a + "(" + b;
      assert s[0] == a[0] != '(';
      assert !("(" <= s);
      assert s[1..] == a[1..] + "(" + b;
      SplitAtParen(a[1..], b);
      var rest := SplitOn(s[1..], "(");
      assert rest[0] == a[1..] && rest[1..] == SplitOn(b, "(");
      assert [a[0]] + a[1..] == a;
    }
  }

  /** "name (role)" splits on '(' into the name with its blank and the
      role with its ')'. */
  lemma SplitAuthor(name: string, role: string)
    requires '(' !in name && '(' !in role
    ensures SplitOn(name + " (" + role + ")", "(") == [name + " ", role + ")"]
  {
    assert name + " (" + role + ")" == (name + " ") + "(" + (role + ")");
    SplitAtParen(name + " ", role + ")");
    SplitAbsent(role + ")");
  }

  lemma SplitAbsent(x: string)
    requires '(' !in x
    ensures SplitOn(x, "(") == [x]
  {
    SplitOnFirst(x, "(");
    ContainsChar(x, '(');
    JoinSplitOn(x, "(");
    var r := SplitOn(x, "(");
    assert r == [r[0]];
  }

  /** A text that splits on '(' into two parts parses into the stripped
      first part and the second without its ')', stripped. */
  lemma ParseTwoParts(s: string, a: string, b: string)
    requires '(' in s && SplitOn(s, "(") == [a, b]
    ensures ParseAuthor(s) == Author(Strip(a), Strip(Replace(b, ")", "")))
  {
  }

  /** An author written as "Name (role)", with the name and the role
      stripped and free of parentheses, comes back unchanged after parsing
      and formatting. */
  lemma AuthorRoundTrip(name: string, role: string)
    requires Strip(name) == name && Strip(role) == role
    requires '(' !in name && '(' !in role && ')' !in role
    ensures FormatAuthor(ParseAuthor(name + " (" + role + ")")) == name + " (" + role + ")"
  {
    var s := name + " (" + role + ")";
    assert s[|name| + 1] == '(';
    SplitAuthor(name, role);
    ParseTwoParts(s, name + " ", role + ")");
    StripWithSpace(name);
    RemoveClosing(role);
  }

  /** A text without '(' is a name, unstripped, with the role
      "contributor", and reads back with " (contributor)" after it. */
  lemma AuthorWithoutRole(s: string)
    requires '(' !in s
    ensures ParseAuthor(s) == Author(s, "contributor")
    ensures FormatAuthor(ParseAuthor(s)) == s + " (contributor)"
  {
  }

  // ---------------------------------------------------------------------
  // search_books

  /** SQLite's `LIKE` folds only the ASCII letters. */
  function FoldAscii(c: char): char {
    if 'A' <= c <= 'Z' then (c as int + 32) as char else c
  }

  function FoldAll(s: string): string {
    seq(|s|, i requires 0 <= i < |s| => FoldAscii(s[i]))
  }

  /** `s LIKE p`: '%' matches any run of characters, '_' any one character,
      any other character itself up to ASCII case. */
  function Like(s: string, p: string): bool
    decreases |s| + |p|
  {
    if p == [] then s == []
    else if p[0] == '%' then Like(s, p[1..]) || (s != [] && Like(s[1..], p))
    else if s == [] then false
    else if p[0] == '_' then Like(s[1..], p[1..])
    else FoldAscii(s[0]) == FoldAscii(p[0]) && Like(s[1..], p[1..])
  }

  predicate NoWildcards(q: string) {
    '%' !in q && '_' !in q
  }

  /** `title LIKE ? OR author LIKE ? OR isbn LIKE ?` with `%query%`; a
      `NULL` column matches nothing. */
  predicate RowMatches(row: BookRow, query: string) {
    var p := "%" + query + "%";
    Like(row.title, p) || (row.author.Some? && Like(row.author.value, p)) || (row.isbn.Some? && Like(row.isbn.value, p))
  }

  function Matching(books: seq<BookRow>, query: string): seq<BookRow>
    decreases |books|
  {
    if books == [] then []
    else (if RowMatches(books[0], query) then [books[0]] else []) + Matching(books[1..], query)
  }

  /** `LIMIT n`: a negative limit means no limit. */
  function Limited<T>(rows: seq<T>, limit: int): seq<T> {
    if limit < 0 || |rows| <= limit then rows else rows[..limit]
  }

  function SearchResult(books: seq<BookRow>, query: string, limit: int): seq<BookRow> {
    Limited(Matching(books, query), limit)
  }

  lemma {:induction false} LikeAnything(s: string)
    ensures Like(s, "%")
    decreases |s|
  {
    if s != [] {
      LikeAnything(s[1..]);
    }
  }

  /** A leading '%' lets the rest match any suffix. */
  lemma {:induction false} LikeLeadingPercent(s: string, p: string)
    ensures Like(s, "%" + p) <==> exists i :: 0 <= i <= |s| && Like(s[i..], p)
    decreases |s|
  {
    assert ("%" + p)[1..] == p;
    if s == [] {
      assert s[0..] == s;
    } else {
      LikeLeadingPercent(s[1..], p);
      assert s[0..] == s;
      if exists i :: 0 <= i <= |s| && Like(s[i..], p) {
        var i :| 0 <= i <= |s| && Like(s[i..], p);
        if i > 0 {
          assert s[1..][i - 1..] == s[i..];
        }
      }
      if exists i :: 0 <= i <= |s[1..]| && Like(s[1..][i..], p) {
        var i :| 0 <= i <= |s[1..]| && Like(s[1..][i..], p);
        assert s[1..][i..] == s[i + 1..];
      }
    }
  }

  /** A pattern without wildcards followed by '%' matches exactly the
      strings that start with it up to ASCII case. */
  lemma {:induction false} LikePrefix(s: string, q: string)
    requires NoWildcards(q)
    ensures Like(s, q + "%") <==> |q| <= |s| && FoldAll(s[..|q|]) == FoldAll(q)
    decreases |q|
  {
    if q == [] {
      LikeAnything(s);
      assert q + "%" == "%";
    } else {
      assert (q + "%")[1..] == q[1..] + "%";
      assert (q + "%")[0] == q[0];
      assert q[0] != '%' && q[0] != '_';
      if s != [] {
        LikePrefix(s[1..], q[1..]);
        if |q| <= |s| {
          var a, b := FoldAll(s[1..][..|q| - 1]), FoldAll(q[1..]);
          assert FoldAll(s[..|q|]) == [FoldAscii(s[0])] + a;
          assert FoldAll(q) == [FoldAscii(q[0])] + b;
          if FoldAll(s[..|q|]) == FoldAll(q) {
            assert ([FoldAscii(s[0])] + a)[1..] == a && ([FoldAscii(q[0])] + b)[1..] == b;
          }
        }
      }
    }
  }

  /** Folding commutes with slicing. */
  lemma FoldSlice(s: string, i: nat, n: nat)
    requires i + n <= |s|
    ensures FoldAll(s)[i..i + n] == FoldAll(s[i..][..n])
  {
  }

  /** A match of "%q%" is an occurrence of the folded query at the start of
      the matching suffix. */
  lemma LikeContainsAt(s: string, q: string, i: nat)
    requires NoWildcards(q) && i <= |s|
    ensures Like(s[i..], q + "%") <==> OccursAt(FoldAll(s), FoldAll(q), i)
  {
    LikePrefix(s[i..], q);
    if i + |q| <= |s| {
      FoldSlice(s, i, |q|);
    }
  }

  /** A query without wildcards matches a text exactly when the text
      contains it up to ASCII case. */
  lemma LikeContains(s: string, q: string)
    requires NoWildcards(q)
    ensures Like(s, "%" + q + "%") <==> Contains(FoldAll(s), FoldAll(q))
  {
    assert "%" + q + "%" == "%" + (q + "%");
    LikeLeadingPercent(s, q + "%");
    ContainsIff(FoldAll(s), FoldAll(q));
    if Like(s, "%" + q + "%") {
      var i :| 0 <= i <= |s| && Like(s[i..], q + "%");
      LikeContainsAt(s, q, i);
    }
    if Contains(FoldAll(s), FoldAll(q)) {
      var i :| OccursAt(FoldAll(s), FoldAll(q), i);
      LikeContainsAt(s, q, i);
    }
  }

  /** The results are matching rows of the table in table order, at most
      `limit` of them when the limit is not negative, and all matching rows
      when there are no more than that. */
  lemma {:induction false} MatchingSpec(books: seq<BookRow>, query: string)
    ensures forall x :: x in Matching(books, query) <==> x in books && RowMatches(x, query)
    ensures |Matching(books, query)| <= |books|
    decreases |books|
  {
    if books != [] {
      MatchingSpec(books[1..], query);
    }
  }

  lemma SearchSpec(books: seq<BookRow>, query: string, limit: int)
    ensures forall x :: x in SearchResult(books, query, limit) ==> x in books && RowMatches(x, query)
    ensures limit >= 0 ==> |SearchResult(books, query, limit)| <= limit
    ensures SearchResult(books, query, limit) <= Matching(books, query)
    ensures (limit < 0 || |Matching(books, query)| <= limit) ==>
              forall x :: x in books && RowMatches(x, query) ==> x in SearchResult(books, query, limit)
  {
    MatchingSpec(books, query);
  }

  // ---------------------------------------------------------------------
  // import_from_json

  /** The tables after inserting the books one after the other, a failed
      insert leaving them as they were. */
  function ImportAll(t: Tables, books: seq<BookInput>): Tables
    decreases |books|
  {
    if books == [] then t
    else
      var next := Inserted(t, books[0]);
      ImportAll(if next.Some? then next.value else t, books[1..])
  }

  /** How many of the books have a title. */
  function Titled(books: seq<BookInput>): nat
    decreases |books|
  {
    if books == [] then 0 else (if books[0].title.Some? then 1 else 0) + Titled(books[1..])
  }

  /** Importing keeps the ids unique, and an id that no imported book
      carries reads back as it did before the import. */
  lemma {:induction false} ImportAllSpec(t: Tables, books: seq<BookInput>)
    requires UniqueIds(t.books)
    ensures UniqueIds(ImportAll(t, books).books)
    ensures forall k :: (forall i :: 0 <= i < |books| ==> !SqlEq(books[i].id, Some(k))) ==>
              ViewOf(ImportAll(t, books), k) == ViewOf(t, k)
    decreases |books|
  {
    if books != [] {
      var next := Inserted(t, books[0]);
      var t' := if next.Some? then next.value else t;
      if next.Some? {
        InsertedBooks(t, books[0]);
        InsertThenView(t, books[0]);
      }
      ImportAllSpec(t', books[1..]);
      forall k | forall i :: 0 <= i < |books| ==> !SqlEq(books[i].id, Some(k))
        ensures ViewOf(ImportAll(t, books), k) == ViewOf(t, k)
      {
        assert !SqlEq(books[0].id, Some(k));
        assert forall i :: 0 <= i < |books[1..]| ==> !SqlEq(books[1..][i].id, Some(k)) by {
          forall i | 0 <= i < |books[1..]| ensures !SqlEq(books[1..][i].id, Some(k)) {
            assert books[1..][i] == books[i + 1];
          }
        }
      }
    }
  }

  // ---------------------------------------------------------------------
  // The manager

  class DatabaseManager {
    var books: seq<BookRow>
    var authors: seq<Linked<Author>>
    var subjects: seq<Linked<string>>
    var tags: seq<Linked<string>>
    var classifications: seq<Linked<Classification>>
    var notes: seq<Linked<string>>

    function State(): Tables
      reads this
    {
      Tables(books, authors, subjects, tags, classifications, notes)
    }

    ghost predicate Valid()
      reads this
    {
      UniqueIds(books)
    }

    /** A manager over a new database file, its tables created empty. */
    constructor ()
      ensures State() == Empty && Valid()
    {
      books := [];
      authors := [];
      subjects := [];
      tags := [];
      classifications := [];
      notes := [];
    }

    /** `insert_book`: `true` and the book stored with its related rows, or
        `false` and nothing changed. */
    method InsertBook(b: BookInput) returns (ok: bool)
      requires Valid()
      modifies this
      ensures Valid()
      ensures ok <==> b.title.Some?
      ensures State() == if ok then Inserted(old(State()), b).value else old(State())
    {
      if b.title.None? {
        return false;
      }
      var t := State();
      InsertedBooks(t, b);
      books := WithoutId(books, b.id) + [RowOf(b)];
      authors := Unlinked(authors, b.id);
      subjects := Unlinked(subjects, b.id);
      tags := Unlinked(tags, b.id);
      classifications := Unlinked(classifications, b.id);
      notes := Unlinked(notes, b.id);
      var newAuthors := AuthorRows(b.id, b.otherAuthors);
      authors := authors + newAuthors;
      var newSubjects := LinkAll(b.id, b.subjects);
      subjects := subjects + newSubjects;
      var newTags := LinkAll(b.id, b.tags);
      tags := tags + newTags;
      var newClassifications := ClassificationRows(b.id, b.classifications);
      classifications := classifications + newClassifications;
      var newNotes := LinkAll(b.id, b.notes);
      notes := notes + newNotes;
      return true;
    }

    /** `import_from_json`: the count of books inserted; a file that cannot
        be read gives 0 and changes nothing. */
    method ImportFromJson(file: Result<seq<BookInput>>) returns (count: nat)
      requires Valid()
      modifies this
      ensures Valid()
      ensures file.Failure? ==> count == 0 && State() == old(State())
      ensures file.Success? ==> count == Titled(file.value) && State() == ImportAll(old(State()), file.value)
    {
      if file.Failure? {
        return 0;
      }
      var input := file.value;
      count := 0;
      var i := 0;
      while i < |input|
        invariant 0 <= i <= |input| && Valid()
        invariant ImportAll(State(), input[i..]) == ImportAll(old(State()), input)
        invariant count + Titled(input[i..]) == Titled(input)
      {
        assert input[i..][0] == input[i] && input[i..][1..] == input[i + 1..];
        var ok := InsertBook(input[i]);
        if ok {
          count := count + 1;
        }
        i := i + 1;
      }
    }

    /** `search_books`. */
    method SearchBooks(query: string, limit: int) returns (rows: seq<BookRow>)
      ensures rows == SearchResult(books, query, limit)
    {
      var matching: seq<BookRow> := [];
      var i := 0;
      while i < |books|
        invariant 0 <= i <= |books|
        invariant matching + Matching(books[i..], query) == Matching(books, query)
      {
        assert books[i..][0] == books[i] && books[i..][1..] == books[i + 1..];
        if RowMatches(books[i], query) {
          matching := matching + [books[i]];
        }
        i := i + 1;
      }
      rows := Limited(matching, limit);
    }

    /** `get_book_by_id`. */
    method GetBookById(id: string) returns (book: Option<BookView>)
      ensures book == ViewOf(State(), id)
    {
      book := ViewOf(State(), id);
    }

    /** `get_all_books`. */
    method GetAllBooks(limit: int) returns (rows: seq<BookRow>)
      ensures rows == Limited(books, limit)
      ensures limit >= 0 ==> |rows| <= limit
      ensures rows <= books
    {
      rows := Limited(books, limit);
    }
  }

  /** The loop that inserts the other authors. */
  method AuthorRows(id: Option<string>, xs: seq<string>) returns (rows: seq<Linked<Author>>)
    ensures rows == Link(id, Authors(xs))
  {
    rows := [];
    var i := 0;
    while i < |xs|
      invariant 0 <= i <= |xs|
      invariant rows == Link(id, Authors(xs[..i]))
    {
      rows := rows + [Linked(id, ParseAuthor(xs[i]))];
      i := i + 1;
    }
    assert xs[..i] == xs;
  }

  /** The loop that inserts the classifications, skipping what is not a dict. */
  method ClassificationRows(id: Option<string>, cs: seq<ClassificationInput>) returns (rows: seq<Linked<Classification>>)
    ensures rows == Link(id, ClassificationsOf(cs))
  {
    rows := [];
    var i := 0;
    while i < |cs|
      invariant 0 <= i <= |cs|
      invariant rows == Link(id, ClassificationsOf(cs[..i]))
    {
      assert cs[..i + 1][..i] == cs[..i];
      if cs[i].ClassificationDict? {
        rows := rows + [Linked(id, Classification(cs[i].code, cs[i].description))];
      }
      i := i + 1;
    }
    assert cs[..i] == cs;
  }

  /** The loops that insert subjects, tags and notes. */
  method LinkAll(id: Option<string>, values: seq<string>) returns (rows: seq<Linked<string>>)
    ensures rows == Link(id, values)
  {
    rows := [];
    var i := 0;
    while i < |values|
      invariant 0 <= i <= |values|
      invariant rows == Link(id, values[..i])
    {
      rows := rows + [Linked(id, values[i])];
      i := i + 1;
    }
    assert values[..i] == values;
  }
}
