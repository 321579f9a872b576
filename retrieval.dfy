/** What the three chatbots share: the book rows the catalogue search
    returns, the knowledge-base hits, keyword extraction from a message,
    the loop that collects search results for several keywords, and the
    de-duplication of those results by book id. */
module Retrieval {
  import opened Wrappers
  import opened Strings

  /** A book row as `search_books` and `get_all_books` return it; the
      `author`, `year`, `pages` and `isbn` columns may be NULL. The `id`
      is always a string here: a row stored with a NULL id is not
      represented. */
  datatype BookRow = BookRow(id: string, title: string, author: Option<string>,
                             year: Option<string>, pages: Option<string>, isbn: Option<string>)

  /** A knowledge-base hit: its content, its distance when the store gave
      one, and the `title` and `source` of its metadata. The knowledge base
      always sets the distance, so `None` (read as 1.0, as a missing key
      would be) never comes from it. */
  datatype KbHit = KbHit(content: string, distance: Option<real>, title: Option<string>, source: Option<string>)

  /** `result.get('distance', 1.0)`. */
  function Distance(h: KbHit): real {
    if h.distance.Some? then h.distance.value else 1.0
  }

  /** `kb_results and kb_results[0].get('distance', 1.0) < bound`. */
  predicate TopHitWithin(hits: seq<KbHit>, bound: real) {
    hits != [] && Distance(hits[0]) < bound
  }

  /** `any(word in s for word in words)`. */
  predicate AnyIn(s: string, words: seq<string>) {
    exists w :: w in words && Contains(s, w)
  }

  // ---------------------------------------------------------------------
  // Keywords

  /** The tokens that are not stop words and are longer than two characters,
      in order. */
  function KeepKeywords(tokens: seq<string>, stop: seq<string>): seq<string>
    decreases |tokens|
  {
    if tokens == [] then []
    else (if tokens[0] !in stop && |tokens[0]| > 2 then [tokens[0]] else []) + KeepKeywords(tokens[1..], stop)
  }

  /** `[w for w in re.findall(r'\w+', query.lower()) if w not in stop and
      len(w) > 2][:3]`, the keyword extraction of all three chatbots; each
      passes its own stop list. */
  function ExtractKeywords(query: string, stop: seq<string>): seq<string> {
    Take(KeepKeywords(WordTokens(Lower(query)), stop), 3)
  }

  lemma {:induction false} KeepKeywordsSpec(tokens: seq<string>, stop: seq<string>)
    ensures forall w :: w in KeepKeywords(tokens, stop) <==> w in tokens && w !in stop && |w| > 2
    ensures IsSubsequence(KeepKeywords(tokens, stop), tokens)
    decreases |tokens|
  {
    if tokens != [] {
      KeepKeywordsSpec(tokens[1..], stop);
      var rest := KeepKeywords(tokens[1..], stop);
      assert tokens == [tokens[0]] + tokens[1..];
      if tokens[0] !in stop && |tokens[0]| > 2 {
        assert ([tokens[0]] + rest)[1..] == rest;
      } else {
        assert [] + rest == rest;
      }
    }
  }

  /** At most three keywords, each a `\w+` token of the lower-cased query
      that is not a stop word and is longer than two characters, in the
      query's order; fewer than three only when no other token qualifies. */
  lemma ExtractKeywordsSpec(query: string, stop: seq<string>)
    ensures |ExtractKeywords(query, stop)| <= 3
    ensures forall w :: w in ExtractKeywords(query, stop) ==>
              w in WordTokens(Lower(query)) && w !in stop && |w| > 2 && All(w, IsWordChar)
    ensures IsSubsequence(ExtractKeywords(query, stop), WordTokens(Lower(query)))
    ensures |ExtractKeywords(query, stop)| < 3 ==>
              forall w :: w in WordTokens(Lower(query)) && w !in stop && |w| > 2 ==> w in ExtractKeywords(query, stop)
  {
    var tokens := WordTokens(Lower(query));
    var kept := KeepKeywords(tokens, stop);
    KeepKeywordsSpec(tokens, stop);
    if |kept| > 3 {
      SubsequencePrefix(kept, tokens, 3);
      assert ExtractKeywords(query, stop) == kept[..3];
    }
    forall w | w in ExtractKeywords(query, stop)
      ensures w in tokens && w !in stop && |w| > 2 && All(w, IsWordChar)
    {
      assert w in kept;
      var k :| 0 <= k < |tokens| && tokens[k] == w;
    }
  }

  // ---------------------------------------------------------------------
  // Collecting search results

  /** The rows of `search(k, limit)` for each keyword `k`, one search after
      the other. */
  function Searched(keywords: seq<string>, search: (string, nat) -> seq<BookRow>, limit: nat): seq<BookRow>
    decreases |keywords|
  {
    if keywords == [] then []
    else Searched(keywords[..|keywords| - 1], search, limit) + search(keywords[|keywords| - 1], limit)
  }

  /** The loop `for keyword in keywords: books.extend(search(keyword, limit))`. */
  method CollectBooks(keywords: seq<string>, search: (string, nat) -> seq<BookRow>, limit: nat)
    returns (books: seq<BookRow>)
    ensures books == Searched(keywords, search, limit)
  {
    books := [];
    var i := 0;
    while i < |keywords|
      invariant 0 <= i <= |keywords|
      invariant books == Searched(keywords[..i], search, limit)
    {
      assert keywords[..i + 1][..i] == keywords[..i];
      books := books + search(keywords[i], limit);
      i := i + 1;
    }
    assert keywords[..i] == keywords;
  }

  /** A row is collected exactly when some keyword's search returned it. */
  lemma {:induction false} SearchedFrom(keywords: seq<string>, search: (string, nat) -> seq<BookRow>, limit: nat)
    ensures forall b :: b in Searched(keywords, search, limit) <==> exists k :: k in keywords && b in search(k, limit)
    decreases |keywords|
  {
    if keywords != [] {
      var init := keywords[..|keywords| - 1];
      var last := keywords[|keywords| - 1];
      SearchedFrom(init, search, limit);
      assert keywords == init + [last];
      forall b | b in Searched(keywords, search, limit)
        ensures exists k :: k in keywords && b in search(k, limit)
      {
        if b !in search(last, limit) {
          assert b in Searched(init, search, limit);
          var k :| k in init && b in search(k, limit);
          assert k in keywords;
        }
      }
      forall b, k | k in keywords && b in search(k, limit)
        ensures b in Searched(keywords, search, limit)
      {
        if k != last {
          assert k in init;
        }
      }
    }
  }

  /** Nothing is collected exactly when every search came back empty. */
  lemma SearchedEmpty(keywords: seq<string>, search: (string, nat) -> seq<BookRow>, limit: nat)
    ensures Searched(keywords, search, limit) == [] <==> forall k :: k in keywords ==> search(k, limit) == []
  {
    SearchedFrom(keywords, search, limit);
    if Searched(keywords, search, limit) != [] {
      assert Searched(keywords, search, limit)[0] in Searched(keywords, search, limit);
    }
    forall k | k in keywords && search(k, limit) != []
      ensures Searched(keywords, search, limit) != []
    {
      assert search(k, limit)[0] in search(k, limit);
    }
  }

  // ---------------------------------------------------------------------
  // De-duplication by id: `{book['id']: book for book in books}.values()`

  /** The position of the row with id `id` in `d`, or -1. */
  function IdIndex(d: seq<BookRow>, id: string): (k: int)
    ensures -1 <= k < |d|
    ensures k >= 0 ==> d[k].id == id
    ensures k < 0 ==> forall i :: 0 <= i < |d| ==> d[i].id != id
    decreases |d|
  {
    if d == [] then -1
    else if d[0].id == id then 0
    else
      var k := IdIndex(d[1..], id);
      if k < 0 then -1 else k + 1
  }

  predicate DistinctIds(d: seq<BookRow>) {
    forall i, j :: 0 <= i < j < |d| ==> d[i].id != d[j].id
  }

  function Ids(d: seq<BookRow>): (r: seq<string>)
    ensures |r| == |d| && forall i :: 0 <= i < |d| ==> r[i] == d[i].id
  {
    seq(|d|, i requires 0 <= i < |d| => d[i].id)
  }

  /** The distinct values of `xs` in order of first appearance: the key
      order of a Python dictionary filled from `xs`. */
  function FirstAppearances(xs: seq<string>): (r: seq<string>)
    ensures forall x :: x in r <==> x in xs
    decreases |xs|
  {
    if xs == [] then []
    else
      var init := FirstAppearances(xs[..|xs| - 1]);
      var x := xs[|xs| - 1];
      assert forall y :: y in xs <==> y in xs[..|xs| - 1] || y == x;
      if x in xs[..|xs| - 1] then init else init + [x]
  }

  /** A dictionary keyed by id, built row by row: a new id is appended, a
      known one has its row replaced where it stands. */
  function DedupById(books: seq<BookRow>): seq<BookRow>
    decreases |books|
  {
    if books == [] then []
    else
      var d := DedupById(books[..|books| - 1]);
      var b := books[|books| - 1];
      var k := IdIndex(d, b.id);
      if k < 0 then d + [b] else d[k := b]
  }

  /** The kept rows have distinct ids, come from the input, and their ids
      are the input's ids in order of first appearance. */
  lemma {:induction false} DedupByIdSpec(books: seq<BookRow>)
    ensures DistinctIds(DedupById(books))
    ensures forall y :: y in DedupById(books) ==> y in books
    ensures Ids(DedupById(books)) == FirstAppearances(Ids(books))
    decreases |books|
  {
    if books != [] {
      var init := books[..|books| - 1];
      var d := DedupById(init);
      var b := books[|books| - 1];
      var k := IdIndex(d, b.id);
      DedupByIdSpec(init);
      assert Ids(books)[..|books| - 1] == Ids(init);
      assert forall y :: y in init ==> y in books;
      if k < 0 {
        DedupAppended(d, b);
        assert b.id !in FirstAppearances(Ids(init));
      } else {
        DedupReplaced(d, b, k);
        assert b.id in FirstAppearances(Ids(init));
      }
    }
  }

  lemma DedupAppended(d: seq<BookRow>, b: BookRow)
    requires DistinctIds(d) && IdIndex(d, b.id) < 0
    ensures DistinctIds(d + [b]) && Ids(d + [b]) == Ids(d) + [b.id]
    ensures b.id !in Ids(d)
  {
  }

  lemma DedupReplaced(d: seq<BookRow>, b: BookRow, k: nat)
    requires DistinctIds(d) && k < |d| && d[k].id == b.id
    ensures DistinctIds(d[k := b]) && Ids(d[k := b]) == Ids(d)
    ensures forall y :: y in d[k := b] ==> y == b || y in d
    ensures b.id in Ids(d)
  {
    assert Ids(d)[k] == b.id;
  }

  /** Each kept row is the last row of the input with its id. */
  lemma {:induction false} DedupKeepsLast(books: seq<BookRow>)
    ensures forall i :: 0 <= i < |DedupById(books)| ==>
              exists j :: 0 <= j < |books| && books[j] == DedupById(books)[i]
                          && forall j' :: j < j' < |books| ==> books[j'].id != DedupById(books)[i].id
    decreases |books|
  {
    if books != [] {
      var init := books[..|books| - 1];
      var d := DedupById(init);
      var b := books[|books| - 1];
      var k := IdIndex(d, b.id);
      var r := DedupById(books);
      DedupKeepsLast(init);
      DedupByIdSpec(init);
      forall i | 0 <= i < |r|
        ensures exists j :: 0 <= j < |books| && books[j] == r[i]
                            && forall j' :: j < j' < |books| ==> books[j'].id != r[i].id
      {
        if (k < 0 && i == |d|) || (k >= 0 && i == k) {
          assert books[|books| - 1] == r[i];
        } else {
          assert i < |d| && r[i] == d[i] && d[i].id != b.id;
          var j :| 0 <= j < |init| && init[j] == d[i]
                   && forall j' :: j < j' < |init| ==> init[j'].id != d[i].id;
          assert books[j] == r[i];
          assert forall j' :: j < j' < |books| ==> books[j'].id != r[i].id by {
            assert forall j' :: j < j' < |init| ==> books[j'] == init[j'];
          }
        }
      }
      assert r == DedupById(books);
    } else {
      assert DedupById(books) == [];
    }
  }

  /** `list({book['id']: book for book in books}.values())[:cap]`. */
  function UniqueBooks(books: seq<BookRow>, cap: nat): (r: seq<BookRow>)
    ensures |r| <= cap && DistinctIds(r)
    ensures forall y :: y in r ==> y in books
    ensures books != [] && cap > 0 ==> r != []
    ensures Ids(r) == Take(FirstAppearances(Ids(books)), cap)
  {
    var d := DedupById(books);
    DedupByIdSpec(books);
    IdsTake(d, cap);
    assert books == [] || (books[0].id in Ids(books) && |FirstAppearances(Ids(books))| > 0);
    Take(d, cap)
  }

  /** Taking a prefix of the rows takes the same prefix of their ids. */
  lemma IdsTake(d: seq<BookRow>, n: nat)
    ensures Ids(Take(d, n)) == Take(Ids(d), n)
  {
    if |d| > n {
      assert forall i :: 0 <= i < n ==> Ids(Take(d, n))[i] == Take(Ids(d), n)[i];
    }
  }

  // ---------------------------------------------------------------------
  // Listing books in a reply: `for i, book in enumerate(books, 1): response += ...`

  /** The blocks of a listing, the `n`-th book (from 1) formatted by
      `block(n, book)`. */
  function Blocks(books: seq<BookRow>, block: (nat, BookRow) -> string): string
    decreases |books|
  {
    if books == [] then ""
    else Blocks(books[..|books| - 1], block) + block(|books|, books[|books| - 1])
  }

  /** The loop that appends one block per book to `response`. */
  method ListBooks(response: string, books: seq<BookRow>, block: (nat, BookRow) -> string)
    returns (result: string)
    ensures result == response + Blocks(books, block)
  {
    result := response;
    var i := 0;
    while i < |books|
      invariant 0 <= i <= |books|
      invariant result == response + Blocks(books[..i], block)
    {
      assert books[..i + 1][..i] == books[..i];
      AppendAssoc(response, Blocks(books[..i], block), block(i + 1, books[i]));
      result := result + block(i + 1, books[i]);
      i := i + 1;
    }
    assert books[..i] == books;
  }

  /** When every block shows some field of its book, the listing shows it
      for every book. */
  lemma {:induction false} BlocksShowEach(books: seq<BookRow>, block: (nat, BookRow) -> string, field: BookRow -> string)
    requires forall n: nat, b: BookRow :: Contains(block(n, b), field(b))
    ensures forall b :: b in books ==> Contains(Blocks(books, block), field(b))
    decreases |books|
  {
    if books != [] {
      var init := books[..|books| - 1];
      var last := books[|books| - 1];
      var head := Blocks(init, block);
      var tail := block(|books|, last);
      BlocksShowEach(init, block, field);
      assert Blocks(books, block) == head + tail;
      assert books == init + [last];
      forall b | b in books ensures Contains(head + tail, field(b)) {
        if b in init {
          ContainsExtend(head, field(b), "", tail);
          assert "" + head + tail == head + tail;
        } else {
          ContainsExtend(tail, field(b), head, "");
          assert head + tail + "" == head + tail;
        }
      }
    }
  }
}
