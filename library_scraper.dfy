/** `LibraryScraper` of `scraper/library_scraper.py`: the basic record read
    from a result link, the list of new books, the merge with the record
    page's details and the flattening of records for the CSV file. Records
    are Python dicts: ordered lists of keys with their values. */
module LibraryScraper {
  import opened Wrappers
  import opened Strings
  import opened Patterns
  import Html
  import BookDetail

  const BaseUrl := "https://katalog.halubajska-zora.hr"

  // ---------------------------------------------------------------------
  // Records as ordered dicts

  /** An element of a list value: a string, or a dict of strings. */
  datatype Item = Plain(s: string) | Dict(entries: seq<(string, string)>)

  /** A record's value: a string, `None`, or a list. */
  datatype Field = Str(s: string) | Null | List(items: seq<Item>)

  /** A dict: its keys in insertion order with their values. */
  type Record = seq<(string, Field)>

  function Keys(d: Record): seq<string> {
    seq(|d|, i requires 0 <= i < |d| => d[i].0)
  }

  predicate DistinctKeys(d: Record) {
    forall i, j :: 0 <= i < j < |d| ==> d[i].0 != d[j].0
  }

  /** `d.get(k)`. */
  function Get(d: Record, k: string): Option<Field>
    decreases |d|
  {
    if d == [] then None
    else if d[0].0 == k then Some(d[0].1)
    else Get(d[1..], k)
  }

  /** `d[k] = v`: an existing key keeps its place, a new one goes last. */
  function Set(d: Record, k: string, v: Field): Record
    decreases |d|
  {
    if d == [] then [(k, v)]
    else if d[0].0 == k then [(k, v)] + d[1..]
    else [d[0]] + Set(d[1..], k, v)
  }

  /** `{**a, **b}`. */
  function Merge(a: Record, b: Record): Record
    decreases |b|
  {
    if b == [] then a else Merge(Set(a, b[0].0, b[0].1), b[1..])
  }

  lemma KeysFront(d: Record)
    requires d != []
    ensures Keys(d) == [d[0].0] + Keys(d[1..])
  {
  }

  /** Distinct keys: the first is not among the others. */
  lemma DistinctFront(d: Record)
    requires d != [] && DistinctKeys(d)
    ensures d[0].0 !in Keys(d[1..]) && DistinctKeys(d[1..])
  {
    forall j | 0 <= j < |d[1..]| ensures Keys(d[1..])[j] != d[0].0 {
      assert d[j + 1].0 != d[0].0;
    }
  }

  /** Setting a key changes that key's value and nothing else; the keys
      stay distinct and keep their order, a new key going last. */
  lemma {:induction false} SetSpec(d: Record, k: string, v: Field)
    requires DistinctKeys(d)
    ensures DistinctKeys(Set(d, k, v))
    ensures Get(Set(d, k, v), k) == Some(v)
    ensures forall k' :: k' != k ==> Get(Set(d, k, v), k') == Get(d, k')
    ensures Keys(Set(d, k, v)) == if k in Keys(d) then Keys(d) else Keys(d) + [k]
    decreases |d|
  {
    var r := Set(d, k, v);
    if d == [] {
    } else if d[0].0 == k {
      assert r[1..] == d[1..];
      assert Keys(d)[0] == k;
      assert Keys(r) == Keys(d);
    } else {
      var r' := Set(d[1..], k, v);
      SetSpec(d[1..], k, v);
      DistinctFront(d);
      KeysFront(d);
      assert r[1..] == r';
      KeysFront(r);
      assert k in Keys(d) <==> k in Keys(d[1..]);
      forall i, j | 0 <= i < j < |r| ensures r[i].0 != r[j].0 {
        if i == 0 {
          assert r[j].0 == Keys(r')[j - 1];
        } else {
          assert r[i] == r'[i - 1] && r[j] == r'[j - 1];
        }
      }
    }
  }

  /** After `{**a, **b}` a key of `b` has `b`'s value, any other key keeps
      `a`'s, and the keys of `a` come first in their order. */
  lemma {:induction false} MergeSpec(a: Record, b: Record)
    requires DistinctKeys(a) && DistinctKeys(b)
    ensures DistinctKeys(Merge(a, b))
    ensures forall k :: k in Keys(b) ==> Get(Merge(a, b), k) == Get(b, k)
    ensures forall k :: k !in Keys(b) ==> Get(Merge(a, b), k) == Get(a, k)
    ensures Keys(a) <= Keys(Merge(a, b))
    decreases |b|
  {
    if b != [] {
      var a' := Set(a, b[0].0, b[0].1);
      SetSpec(a, b[0].0, b[0].1);
      DistinctFront(b);
      KeysFront(b);
      MergeSpec(a', b[1..]);
    }
  }

  // ---------------------------------------------------------------------
  // extract_book_info

  /** A result link: whether it holds an `img`, that image's `alt`, and the
      link's `href` (links are chosen by an href containing
      "bibliografskiZapis"). */
  datatype BookLink = BookLink(hasImg: bool, alt: Option<string>, href: string)

  /** The basic record of a book; `id` is `None` when the link has no id. */
  datatype BasicBook = BasicBook(id: Option<string>, title: string, author: string, fullInfo: string, url: string)

  /** `img.get('alt', '')`. */
  function AltText(link: BookLink): string {
    if link.alt.Some? then link.alt.value else ""
  }

  /** `extract_book_info`. */
  function ExtractBookInfo(link: BookLink): Option<BasicBook> {
    if !link.hasImg then None
    else
      var alt := AltText(link);
      var parts := SplitOn(alt, " / ");
      var author := if |parts| > 1 then Strip(SplitOn(parts[1], ";")[0]) else "N/A";
      Some(BasicBook(FindSelectedId(link.href), Strip(parts[0]), author, alt, BaseUrl + "/pagesResults/" + link.href))
  }

  /** No image, no record. Otherwise the title is the stripped text before
      the first " / " of the alt text (all of it without one), the full
      information is the alt text and the url the link under the results
      path. */
  lemma BookTitleSpec(link: BookLink)
    ensures ExtractBookInfo(link).None? <==> !link.hasImg
    ensures link.hasImg ==>
              var b := ExtractBookInfo(link).value;
              var raw := SplitOn(AltText(link), " / ")[0];
              b.fullInfo == AltText(link) && b.url == BaseUrl + "/pagesResults/" + link.href
              && b.title == Strip(raw) && raw <= AltText(link)
              && (forall i :: 0 <= i < |raw| ==> !OccursAt(AltText(link), " / ", i))
              && (Contains(AltText(link), " / ") ==> OccursAt(AltText(link), " / ", |raw|))
              && (!Contains(AltText(link), " / ") ==> raw == AltText(link))
  {
    if link.hasImg {
      var alt := AltText(link);
      SplitOnFirst(alt, " / ");
      SplitOnFirstOccurrence(alt, " / ");
      if |SplitOn(alt, " / ")| == 1 {
        JoinSplitOn(alt, " / ");
      }
    }
  }

  /** The author is "N/A" when the alt text has no " / "; otherwise it is
      the stripped text of the second " / " piece up to its first ';'. */
  lemma BookAuthorSpec(link: BookLink)
    requires link.hasImg
    ensures var alt := AltText(link);
            var parts := SplitOn(alt, " / ");
            var b := ExtractBookInfo(link).value;
            (!Contains(alt, " / ") ==> b.author == "N/A")
            && (Contains(alt, " / ") ==>
                  |parts| > 1 && alt == parts[0] + " / " + Join(" / ", parts[1..])
                  && var raw := SplitOn(parts[1], ";")[0];
                     raw <= parts[1] && (forall i :: 0 <= i < |raw| ==> raw[i] != ';')
                     && b.author == Strip(raw))
  {
    var alt := AltText(link);
    SplitOnFirst(alt, " / ");
    var parts := SplitOn(alt, " / ");
    if |parts| > 1 {
      JoinSplitOn(alt, " / ");
      SplitOnFirst(parts[1], ";");
      SplitOnFirstOccurrence(parts[1], ";");
      var raw := SplitOn(parts[1], ";")[0];
      forall i | 0 <= i < |raw| ensures raw[i] != ';' {
        assert !OccursAt(parts[1], ";", i);
        assert parts[1][i] == raw[i];
        assert parts[1][i..i + 1] == [raw[i]];
      }
    }
  }

  /** The id is the digit run after the leftmost "selectedId=" of the link
      that has one, and `None` when no such place exists. */
  lemma BookIdSpec(link: BookLink)
    requires link.hasImg
    ensures var id := ExtractBookInfo(link).value.id;
            (id.Some? ==> Contains(link.href, "selectedId=" + id.value) && Digits(id.value) && id.value != []
                          && exists j :: 0 <= j <= |link.href| && SelectedIdAt(link.href, j) == id
                                         && forall k :: 0 <= k < j ==> SelectedIdAt(link.href, k).None?)
            && (id.None? <==> forall j :: 0 <= j <= |link.href| ==> SelectedIdAt(link.href, j).None?)
  {
    assert ExtractBookInfo(link).value.id == FindSelectedId(link.href);
    SelectedIdSpec(link.href);
  }

  lemma SelectedIdSpec(href: string)
    ensures var id := FindSelectedId(href);
            (id.Some? ==> Contains(href, "selectedId=" + id.value) && Digits(id.value) && id.value != []
                          && exists j :: 0 <= j <= |href| && SelectedIdAt(href, j) == id
                                         && forall k :: 0 <= k < j ==> SelectedIdAt(href, k).None?)
            && (id.None? <==> forall j :: 0 <= j <= |href| ==> SelectedIdAt(href, j).None?)
  {
    FoundOccurs(href, SelectedIdAt, d => "selectedId=" + d);
    SearchIsLeftmost(href, SelectedIdAt);
  }

  // ---------------------------------------------------------------------
  // get_new_books

  /** The ids of a list of books. */
  function IdSet(books: seq<BasicBook>): set<Option<string>> {
    set b | b in books :: b.id
  }

  /** The record `read` gets from each link, in the page's order. */
  function Infos(links: seq<BookLink>, read: BookLink -> Option<BasicBook>): seq<Option<BasicBook>> {
    seq(|links|, i requires 0 <= i < |links| => read(links[i]))
  }

  /** What the loop of `get_new_books` still adds to its list, given the
      records of the remaining links, the ids seen and the room left before
      the cap (the cap is tested after an append, so a room of zero or less
      still lets one book in). */
  function NewBooksFrom(infos: seq<Option<BasicBook>>, seen: set<Option<string>>, room: int): seq<BasicBook>
    decreases |infos|
  {
    if infos == [] then []
    else if infos[0].Some? && infos[0].value.id !in seen then
      [infos[0].value] + (if room <= 1 then [] else NewBooksFrom(infos[1..], seen + {infos[0].value.id}, room - 1))
    else NewBooksFrom(infos[1..], seen, room)
  }

  /** `get_new_books`: a failed request gives no books. */
  function NewBooks(page: Html.Fetch<seq<BookLink>>, maxBooks: int): seq<BasicBook> {
    if page.FetchFailed? then [] else NewBooksFrom(Infos(page.page, ExtractBookInfo), {}, maxBooks)
  }

  lemma NewBooksStep(infos: seq<Option<BasicBook>>, i: nat, seen: set<Option<string>>, room: int)
    requires i < |infos|
    ensures NewBooksFrom(infos[i..], seen, room)
            == if infos[i].Some? && infos[i].value.id !in seen then
                 [infos[i].value] + (if room <= 1 then [] else NewBooksFrom(infos[i + 1..], seen + {infos[i].value.id}, room - 1))
               else NewBooksFrom(infos[i + 1..], seen, room)
  {
    assert infos[i..][0] == infos[i] && infos[i..][1..] == infos[i + 1..];
  }

  /** `get_new_books` after a successful request. */
  method GetNewBooks(page: Html.Fetch<seq<BookLink>>, maxBooks: int) returns (books: seq<BasicBook>)
    ensures books == NewBooks(page, maxBooks)
  {
    books := [];
    if page.Fetched? {
      books := KeepNewBooks(page.page, ExtractBookInfo, maxBooks);
    }
  }

  /** The loop of `get_new_books` over the result links, each read by
      `read`: a record with an id not seen yet is kept, and the loop stops
      once `max_books` are kept. */
  method KeepNewBooks(links: seq<BookLink>, read: BookLink -> Option<BasicBook>, maxBooks: int)
    returns (books: seq<BasicBook>)
    ensures books == NewBooksFrom(Infos(links, read), {}, maxBooks)
  {
    books := [];
    ghost var infos := Infos(links, read);
    var seen: set<Option<string>> := {};
    var i := 0;
    assert infos[0..] == infos;
    while i < |links|
      invariant 0 <= i <= |links|
      invariant books + NewBooksFrom(infos[i..], seen, maxBooks - |books|) == NewBooksFrom(infos, {}, maxBooks)
    {
      NewBooksStep(infos, i, seen, maxBooks - |books|);
      var info := read(links[i]);
      if info.Some? && info.value.id !in seen {
        books := books + [info.value];
        seen := seen + {info.value.id};
        if |books| >= maxBooks {
          break;
        }
      }
      i := i + 1;
    }
  }

  predicate IdsDistinct(books: seq<BasicBook>) {
    forall i, j :: 0 <= i < j < |books| ==> books[i].id != books[j].id
  }

  /** The books have pairwise distinct ids, none of them seen before. */
  lemma {:induction false} NewBooksFresh(infos: seq<Option<BasicBook>>, seen: set<Option<string>>, room: int)
    ensures IdsDistinct(NewBooksFrom(infos, seen, room))
    ensures IdSet(NewBooksFrom(infos, seen, room)) !! seen
    decreases |infos|
  {
    if infos != [] {
      if infos[0].Some? && infos[0].value.id !in seen {
        if room > 1 {
          var x := infos[0].value;
          NewBooksFresh(infos[1..], seen + {x.id}, room - 1);
          var rest := NewBooksFrom(infos[1..], seen + {x.id}, room - 1);
          var r := [x] + rest;
          assert NewBooksFrom(infos, seen, room) == r;
          assert IdSet(r) == {x.id} + IdSet(rest);
          forall i, j | 0 <= i < j < |r| ensures r[i].id != r[j].id {
            assert r[j] == rest[j - 1];
            assert rest[j - 1].id in IdSet(rest);
            if i > 0 {
              assert r[i] == rest[i - 1];
            }
          }
        }
      } else {
        NewBooksFresh(infos[1..], seen, room);
        assert NewBooksFrom(infos, seen, room) == NewBooksFrom(infos[1..], seen, room);
      }
    }
  }

  /** At most `room` books, and one when the room is smaller. */
  lemma {:induction false} NewBooksBound(infos: seq<Option<BasicBook>>, seen: set<Option<string>>, room: int)
    ensures |NewBooksFrom(infos, seen, room)| <= if room < 1 then 1 else room
    decreases |infos|
  {
    if infos != [] {
      if infos[0].Some? && infos[0].value.id !in seen {
        NewBooksBound(infos[1..], seen + {infos[0].value.id}, room - 1);
      } else {
        NewBooksBound(infos[1..], seen, room);
      }
    }
  }

  /** Every book is one of the records. */
  lemma {:induction false} NewBooksOrigin(infos: seq<Option<BasicBook>>, seen: set<Option<string>>, room: int)
    ensures forall b :: b in NewBooksFrom(infos, seen, room) ==> Some(b) in infos
    decreases |infos|
  {
    if infos != [] {
      if infos[0].Some? && infos[0].value.id !in seen {
        NewBooksOrigin(infos[1..], seen + {infos[0].value.id}, room - 1);
      } else {
        NewBooksOrigin(infos[1..], seen, room);
      }
      forall b | b in NewBooksFrom(infos, seen, room) ensures Some(b) in infos {
        if Some(b) != infos[0] {
          assert Some(b) in infos[1..];
        }
      }
    }
  }

  /** Below the cap, every id the records carry was seen or got a book. */
  lemma {:induction false} NewBooksComplete(infos: seq<Option<BasicBook>>, seen: set<Option<string>>, room: int)
    ensures |NewBooksFrom(infos, seen, room)| < room ==>
              forall k :: 0 <= k < |infos| && infos[k].Some? ==> infos[k].value.id in seen + IdSet(NewBooksFrom(infos, seen, room))
    decreases |infos|
  {
    var r := NewBooksFrom(infos, seen, room);
    if infos != [] && |r| < room {
      if infos[0].Some? && infos[0].value.id !in seen {
        var x := infos[0].value;
        var rest := NewBooksFrom(infos[1..], seen + {x.id}, room - 1);
        NewBooksComplete(infos[1..], seen + {x.id}, room - 1);
        assert r == [x] + rest;
        assert IdSet(r) == {x.id} + IdSet(rest);
        forall k | 0 <= k < |infos| && infos[k].Some? ensures infos[k].value.id in seen + IdSet(r) {
          if k > 0 {
            assert infos[k] == infos[1..][k - 1];
          }
        }
      } else {
        NewBooksComplete(infos[1..], seen, room);
        forall k | 0 <= k < |infos| && infos[k].Some? ensures infos[k].value.id in seen + IdSet(r) {
          if k > 0 {
            assert infos[k] == infos[1..][k - 1];
          }
        }
      }
    }
  }

  /** Each index of a list, one further on. */
  function Shifted(idx: seq<nat>): (r: seq<nat>)
    ensures |r| == |idx| && forall i :: 0 <= i < |idx| ==> r[i] == idx[i] + 1
  {
    seq(|idx|, i requires 0 <= i < |idx| => idx[i] + 1)
  }

  /** The index of the record each book of `NewBooksFrom` was taken from. */
  function KeptAt(infos: seq<Option<BasicBook>>, seen: set<Option<string>>, room: int): seq<nat>
    decreases |infos|
  {
    if infos == [] then []
    else if infos[0].Some? && infos[0].value.id !in seen then
      [0] + (if room <= 1 then [] else Shifted(KeptAt(infos[1..], seen + {infos[0].value.id}, room - 1)))
    else Shifted(KeptAt(infos[1..], seen, room))
  }

  /** One index per book. */
  lemma {:induction false} KeptAtLength(infos: seq<Option<BasicBook>>, seen: set<Option<string>>, room: int)
    ensures |KeptAt(infos, seen, room)| == |NewBooksFrom(infos, seen, room)|
    decreases |infos|
  {
    if infos != [] {
      if infos[0].Some? && infos[0].value.id !in seen {
        if room > 1 {
          KeptAtLength(infos[1..], seen + {infos[0].value.id}, room - 1);
        }
      } else {
        KeptAtLength(infos[1..], seen, room);
      }
    }
  }

  /** The first record is kept: the books and indices are it and those of
      the rest, one further on. */
  lemma KeptHead(infos: seq<Option<BasicBook>>, seen: set<Option<string>>, room: int)
    requires infos != [] && infos[0].Some? && infos[0].value.id !in seen
    ensures var x := infos[0].value;
            var seen' := seen + {x.id};
            NewBooksFrom(infos, seen, room)
            == [x] + (if room <= 1 then [] else NewBooksFrom(infos[1..], seen', room - 1))
            && KeptAt(infos, seen, room)
               == [0] + (if room <= 1 then [] else Shifted(KeptAt(infos[1..], seen', room - 1)))
  {
  }

  /** The first record is skipped: the books are those of the rest, the
      indices one further on. */
  lemma SkippedHead(infos: seq<Option<BasicBook>>, seen: set<Option<string>>, room: int)
    requires infos != [] && !(infos[0].Some? && infos[0].value.id !in seen)
    ensures NewBooksFrom(infos, seen, room) == NewBooksFrom(infos[1..], seen, room)
            && KeptAt(infos, seen, room) == Shifted(KeptAt(infos[1..], seen, room))
  {
  }

  /** The `i`-th book is the record at its index, and its id was not seen. */
  lemma {:induction false} KeptAtRecord(infos: seq<Option<BasicBook>>, seen: set<Option<string>>, room: int, i: nat)
    requires i < |NewBooksFrom(infos, seen, room)|
    ensures var r := NewBooksFrom(infos, seen, room);
            var idx := KeptAt(infos, seen, room);
            i < |idx| && idx[i] < |infos| && infos[idx[i]] == Some(r[i]) && r[i].id !in seen
    decreases |infos|, 1
  {
    KeptAtLength(infos, seen, room);
    if infos[0].Some? && infos[0].value.id !in seen {
      KeptRecordKept(infos, seen, room, i);
    } else {
      KeptRecordSkipped(infos, seen, room, i);
    }
  }

  lemma {:induction false} KeptRecordKept(infos: seq<Option<BasicBook>>, seen: set<Option<string>>, room: int, i: nat)
    requires i < |NewBooksFrom(infos, seen, room)| && i < |KeptAt(infos, seen, room)|
    requires infos != [] && infos[0].Some? && infos[0].value.id !in seen
    ensures var r := NewBooksFrom(infos, seen, room);
            var idx := KeptAt(infos, seen, room);
            idx[i] < |infos| && infos[idx[i]] == Some(r[i]) && r[i].id !in seen
    decreases |infos|, 0
  {
    var x := infos[0].value;
    var tail := infos[1..];
    var seen' := seen + {x.id};
    KeptHead(infos, seen, room);
    if i > 0 {
      assert room > 1;
      var restIdx := KeptAt(tail, seen', room - 1);
      KeptAtRecord(tail, seen', room - 1, i - 1);
      assert infos[restIdx[i - 1] + 1] == tail[restIdx[i - 1]];
    }
  }

  lemma {:induction false} KeptRecordSkipped(infos: seq<Option<BasicBook>>, seen: set<Option<string>>, room: int, i: nat)
    requires i < |NewBooksFrom(infos, seen, room)| && i < |KeptAt(infos, seen, room)|
    requires infos != [] && !(infos[0].Some? && infos[0].value.id !in seen)
    ensures var r := NewBooksFrom(infos, seen, room);
            var idx := KeptAt(infos, seen, room);
            idx[i] < |infos| && infos[idx[i]] == Some(r[i]) && r[i].id !in seen
    decreases |infos|, 0
  {
    var tail := infos[1..];
    SkippedHead(infos, seen, room);
    var restIdx := KeptAt(tail, seen, room);
    KeptAtRecord(tail, seen, room, i);
    assert infos[restIdx[i] + 1] == tail[restIdx[i]];
  }

  /** No record before the index of the `i`-th book carries its id: the
      first record with an id is the one kept. */
  lemma {:induction false} KeptAtEarlier(infos: seq<Option<BasicBook>>, seen: set<Option<string>>, room: int, i: nat, j: nat)
    requires i < |NewBooksFrom(infos, seen, room)| && i < |KeptAt(infos, seen, room)|
    requires j < |infos| && j < KeptAt(infos, seen, room)[i] && infos[j].Some?
    ensures infos[j].value.id != NewBooksFrom(infos, seen, room)[i].id
    decreases |infos|, 1
  {
    if infos[0].Some? && infos[0].value.id !in seen {
      KeptEarlierKept(infos, seen, room, i, j);
    } else {
      KeptEarlierSkipped(infos, seen, room, i, j);
    }
  }

  lemma {:induction false} KeptEarlierKept(infos: seq<Option<BasicBook>>, seen: set<Option<string>>, room: int, i: nat, j: nat)
    requires i < |NewBooksFrom(infos, seen, room)| && i < |KeptAt(infos, seen, room)|
    requires j < |infos| && j < KeptAt(infos, seen, room)[i] && infos[j].Some?
    requires infos[0].Some? && infos[0].value.id !in seen
    ensures infos[j].value.id != NewBooksFrom(infos, seen, room)[i].id
    decreases |infos|, 0
  {
    var x := infos[0].value;
    var tail := infos[1..];
    var seen' := seen + {x.id};
    KeptHead(infos, seen, room);
    assert i > 0 && room > 1;
    KeptAtRecord(tail, seen', room - 1, i - 1);
    if j > 0 {
      assert infos[j] == tail[j - 1];
      KeptAtEarlier(tail, seen', room - 1, i - 1, j - 1);
    }
  }

  lemma {:induction false} KeptEarlierSkipped(infos: seq<Option<BasicBook>>, seen: set<Option<string>>, room: int, i: nat, j: nat)
    requires i < |NewBooksFrom(infos, seen, room)| && i < |KeptAt(infos, seen, room)|
    requires j < |infos| && j < KeptAt(infos, seen, room)[i] && infos[j].Some?
    requires !(infos[0].Some? && infos[0].value.id !in seen)
    ensures infos[j].value.id != NewBooksFrom(infos, seen, room)[i].id
    decreases |infos|, 0
  {
    var tail := infos[1..];
    SkippedHead(infos, seen, room);
    if j > 0 {
      assert infos[j] == tail[j - 1];
      KeptAtEarlier(tail, seen, room, i, j - 1);
    } else {
      KeptAtRecord(infos, seen, room, i);
    }
  }

  /** The books keep the order of the records they were read from. */
  lemma {:induction false} KeptAtIncreasing(infos: seq<Option<BasicBook>>, seen: set<Option<string>>, room: int, i: nat, i': nat)
    requires i < i' < |KeptAt(infos, seen, room)|
    ensures KeptAt(infos, seen, room)[i] < KeptAt(infos, seen, room)[i']
    decreases |infos|
  {
    var tail := infos[1..];
    if infos[0].Some? && infos[0].value.id !in seen {
      if i > 0 {
        KeptAtIncreasing(tail, seen + {infos[0].value.id}, room - 1, i - 1, i' - 1);
      }
    } else {
      KeptAtIncreasing(tail, seen, room, i, i');
    }
  }

  /** The ids of a list with one book in front. */
  lemma IdSetCons(x: BasicBook, rest: seq<BasicBook>)
    ensures IdSet([x] + rest) == {x.id} + IdSet(rest)
  {
    assert forall b :: b in [x] + rest <==> b == x || b in rest;
  }

  /** A record before the last book kept has its id kept or seen: at the
      cap, the ids kept are the first ones. */
  lemma {:induction false} KeptAtPrefixComplete(infos: seq<Option<BasicBook>>, seen: set<Option<string>>, room: int, j: nat)
    requires var idx := KeptAt(infos, seen, room);
             |idx| > 0 && j < |infos| && j < idx[|idx| - 1] && infos[j].Some?
    ensures infos[j].value.id in seen + IdSet(NewBooksFrom(infos, seen, room))
    decreases |infos|, 1
  {
    if infos[0].Some? && infos[0].value.id !in seen {
      KeptPrefixKept(infos, seen, room, j);
    } else {
      KeptPrefixSkipped(infos, seen, room, j);
    }
  }

  lemma {:induction false} KeptPrefixKept(infos: seq<Option<BasicBook>>, seen: set<Option<string>>, room: int, j: nat)
    requires var idx := KeptAt(infos, seen, room);
             |idx| > 0 && j < |infos| && j < idx[|idx| - 1] && infos[j].Some?
    requires infos[0].Some? && infos[0].value.id !in seen
    ensures infos[j].value.id in seen + IdSet(NewBooksFrom(infos, seen, room))
    decreases |infos|, 0
  {
    var x := infos[0].value;
    var tail := infos[1..];
    var seen' := seen + {x.id};
    KeptHead(infos, seen, room);
    var rest := if room <= 1 then [] else NewBooksFrom(tail, seen', room - 1);
    IdSetCons(x, rest);
    if j > 0 {
      assert room > 1;
      var restIdx := KeptAt(tail, seen', room - 1);
      assert |restIdx| > 0 && KeptAt(infos, seen, room)[|restIdx|] == restIdx[|restIdx| - 1] + 1;
      assert infos[j] == tail[j - 1];
      KeptAtPrefixComplete(tail, seen', room - 1, j - 1);
    }
  }

  lemma {:induction false} KeptPrefixSkipped(infos: seq<Option<BasicBook>>, seen: set<Option<string>>, room: int, j: nat)
    requires var idx := KeptAt(infos, seen, room);
             |idx| > 0 && j < |infos| && j < idx[|idx| - 1] && infos[j].Some?
    requires !(infos[0].Some? && infos[0].value.id !in seen)
    ensures infos[j].value.id in seen + IdSet(NewBooksFrom(infos, seen, room))
    decreases |infos|, 0
  {
    var tail := infos[1..];
    SkippedHead(infos, seen, room);
    if j > 0 {
      var restIdx := KeptAt(tail, seen, room);
      assert KeptAt(infos, seen, room)[|restIdx| - 1] == restIdx[|restIdx| - 1] + 1;
      assert infos[j] == tail[j - 1];
      KeptAtPrefixComplete(tail, seen, room, j - 1);
    }
  }

  /** The indices increase. */
  lemma KeptIncreasing(infos: seq<Option<BasicBook>>, room: int)
    ensures Increasing(KeptAt(infos, {}, room))
  {
    var idx := KeptAt(infos, {}, room);
    forall i, i' | 0 <= i < i' < |idx| ensures idx[i] < idx[i'] {
      KeptAtIncreasing(infos, {}, room, i, i');
    }
  }

  /** Each book is the first record with its id. */
  lemma KeptFirst(infos: seq<Option<BasicBook>>, room: int)
    ensures var r := NewBooksFrom(infos, {}, room);
            var idx := KeptAt(infos, {}, room);
            |idx| == |r|
            && forall i :: 0 <= i < |r| ==>
                 idx[i] < |infos| && infos[idx[i]] == Some(r[i])
                 && forall j :: 0 <= j < idx[i] && infos[j].Some? ==> infos[j].value.id != r[i].id
  {
    var r := NewBooksFrom(infos, {}, room);
    var idx := KeptAt(infos, {}, room);
    KeptAtLength(infos, {}, room);
    forall i | 0 <= i < |r|
      ensures idx[i] < |infos| && infos[idx[i]] == Some(r[i])
              && forall j :: 0 <= j < idx[i] && infos[j].Some? ==> infos[j].value.id != r[i].id
    {
      KeptAtRecord(infos, {}, room, i);
      forall j | 0 <= j < idx[i] && infos[j].Some? ensures infos[j].value.id != r[i].id {
        KeptAtEarlier(infos, {}, room, i, j);
      }
    }
  }

  /** Every record before the last book kept has its id kept. */
  lemma KeptPrefix(infos: seq<Option<BasicBook>>, room: int)
    ensures var r := NewBooksFrom(infos, {}, room);
            var idx := KeptAt(infos, {}, room);
            |idx| == |r|
            && (|r| > 0 ==> forall j :: 0 <= j < |infos| && j < idx[|r| - 1] && infos[j].Some? ==> infos[j].value.id in IdSet(r))
  {
    var r := NewBooksFrom(infos, {}, room);
    var idx := KeptAt(infos, {}, room);
    KeptAtLength(infos, {}, room);
    if |r| > 0 {
      forall j | 0 <= j < |infos| && j < idx[|r| - 1] && infos[j].Some? ensures infos[j].value.id in IdSet(r) {
        KeptAtPrefixComplete(infos, {}, room, j);
        assert {} + IdSet(r) == IdSet(r);
      }
    }
  }

  /** `KeptAt` picks, in increasing order, the first record of each new id,
      and every record before the last book kept has its id kept. */
  lemma KeptInOrder(infos: seq<Option<BasicBook>>, room: int)
    ensures var r := NewBooksFrom(infos, {}, room);
            var idx := KeptAt(infos, {}, room);
            |idx| == |r| && Increasing(idx)
            && (forall i :: 0 <= i < |r| ==>
                  idx[i] < |infos| && infos[idx[i]] == Some(r[i])
                  && forall j :: 0 <= j < idx[i] && infos[j].Some? ==> infos[j].value.id != r[i].id)
            && (|r| > 0 ==> forall j :: 0 <= j < |infos| && j < idx[|r| - 1] && infos[j].Some? ==> infos[j].value.id in IdSet(r))
  {
    KeptIncreasing(infos, room);
    KeptFirst(infos, room);
    KeptPrefix(infos, room);
  }

  /** The books `get_new_books` keeps are, in link order, the first record
      of each new id: `idx` gives the link each book was read from, no
      earlier link reads the same id, and every link before the last book
      kept reads an id that was kept. */
  lemma NewBooksInLinkOrder(links: seq<BookLink>, read: BookLink -> Option<BasicBook>, maxBooks: int)
    ensures var r := NewBooksFrom(Infos(links, read), {}, maxBooks);
            exists idx: seq<nat> ::
              |idx| == |r| && Increasing(idx)
              && (forall i :: 0 <= i < |r| ==>
                    idx[i] < |links| && read(links[idx[i]]) == Some(r[i])
                    && forall j :: 0 <= j < idx[i] && read(links[j]).Some? ==> read(links[j]).value.id != r[i].id)
              && (|r| > 0 ==> forall j :: 0 <= j < idx[|r| - 1] && read(links[j]).Some? ==> read(links[j]).value.id in IdSet(r))
  {
    var infos := Infos(links, read);
    var r := NewBooksFrom(infos, {}, maxBooks);
    var idx := KeptAt(infos, {}, maxBooks);
    KeptInOrder(infos, maxBooks);
    forall i | 0 <= i < |r|
      ensures idx[i] < |links| && read(links[idx[i]]) == Some(r[i])
              && forall j :: 0 <= j < idx[i] && read(links[j]).Some? ==> read(links[j]).value.id != r[i].id
    {
      assert infos[idx[i]] == read(links[idx[i]]);
      forall j | 0 <= j < idx[i] && read(links[j]).Some? ensures read(links[j]).value.id != r[i].id {
        assert infos[j] == read(links[j]);
      }
    }
    if |r| > 0 {
      forall j | 0 <= j < idx[|r| - 1] && read(links[j]).Some? ensures read(links[j]).value.id in IdSet(r) {
        assert infos[j] == read(links[j]);
      }
    }
  }

  /** `get_new_books` returns books of pairwise distinct ids, at most
      `max(max_books, 1)` of them, each read from one of the page's links;
      below the cap it has kept a book for every id the links carry. */
  lemma NewBooksSpec(page: Html.Fetch<seq<BookLink>>, maxBooks: int)
    ensures IdsDistinct(NewBooks(page, maxBooks))
    ensures |NewBooks(page, maxBooks)| <= if maxBooks < 1 then 1 else maxBooks
    ensures page.Fetched? ==> forall b :: b in NewBooks(page, maxBooks) ==>
              exists k :: 0 <= k < |page.page| && ExtractBookInfo(page.page[k]) == Some(b)
    ensures page.Fetched? && |NewBooks(page, maxBooks)| < maxBooks ==>
              forall k :: 0 <= k < |page.page| && ExtractBookInfo(page.page[k]).Some? ==>
                ExtractBookInfo(page.page[k]).value.id in IdSet(NewBooks(page, maxBooks))
    ensures page.FetchFailed? ==> NewBooks(page, maxBooks) == []
  {
    if page.Fetched? {
      var infos := Infos(page.page, ExtractBookInfo);
      NewBooksFresh(infos, {}, maxBooks);
      NewBooksBound(infos, {}, maxBooks);
      LinksOrigin(page.page, ExtractBookInfo, maxBooks);
      LinksComplete(page.page, ExtractBookInfo, maxBooks);
    }
  }

  /** Each book kept was read from one of the links. */
  lemma LinksOrigin(links: seq<BookLink>, read: BookLink -> Option<BasicBook>, maxBooks: int)
    ensures forall b :: b in NewBooksFrom(Infos(links, read), {}, maxBooks) ==>
              exists k :: 0 <= k < |links| && read(links[k]) == Some(b)
  {
    var infos := Infos(links, read);
    NewBooksOrigin(infos, {}, maxBooks);
    forall b | b in NewBooksFrom(infos, {}, maxBooks) ensures exists k :: 0 <= k < |links| && read(links[k]) == Some(b) {
      var k :| 0 <= k < |infos| && infos[k] == Some(b);
      assert read(links[k]) == Some(b);
    }
  }

  /** Below the cap every id read from a link is kept. */
  lemma LinksComplete(links: seq<BookLink>, read: BookLink -> Option<BasicBook>, maxBooks: int)
    ensures var r := NewBooksFrom(Infos(links, read), {}, maxBooks);
            |r| < maxBooks ==> forall k :: 0 <= k < |links| && read(links[k]).Some? ==> read(links[k]).value.id in IdSet(r)
  {
    var infos := Infos(links, read);
    var r := NewBooksFrom(infos, {}, maxBooks);
    NewBooksComplete(infos, {}, maxBooks);
    if |r| < maxBooks {
      forall k | 0 <= k < |links| && read(links[k]).Some? ensures read(links[k]).value.id in IdSet(r) {
        assert infos[k] == read(links[k]);
        assert {} + IdSet(r) == IdSet(r);
      }
    }
  }

  // ---------------------------------------------------------------------
  // scrape_catalog_full

  function IdField(id: Option<string>): Field {
    if id.Some? then Str(id.value) else Null
  }

  function BasicRecord(b: BasicBook): Record {
    [("id", IdField(b.id)), ("title", Str(b.title)), ("author", Str(b.author)),
     ("full_info", Str(b.fullInfo)), ("url", Str(b.url))]
  }

  function Plains(xs: seq<string>): seq<Item> {
    seq(|xs|, i requires 0 <= i < |xs| => Plain(xs[i]))
  }

  function ClassificationItems(cs: seq<BookDetail.Classification>): seq<Item> {
    seq(|cs|, i requires 0 <= i < |cs| => Dict([("code", cs[i].code), ("description", cs[i].description)]))
  }

  /** The dict `parse_book_detail` returns, with the id as it was passed. */
  function DetailRecord(id: Option<string>, d: BookDetail.BookDetail): Record {
    match d
    case ParseError(_, e) => [("id", IdField(id)), ("error", Str(e))]
    case Parsed(_, url, title, author, others, publisher, year, pages, isbn, language,
                subjects, classifications, tags, material, notes) =>
      [("id", IdField(id)), ("url", Str(url)), ("title", Str(title)), ("author", Str(author)),
       ("other_authors", List(Plains(others))), ("publisher", Str(publisher)), ("year", Str(year)),
       ("pages", Str(pages)), ("isbn", Str(isbn)), ("language", Str(language)),
       ("subjects", List(Plains(subjects))), ("classifications", List(ClassificationItems(classifications))),
       ("tags", List(Plains(tags))), ("material_type", Str(material)), ("notes", List(Plains(notes)))]
  }

  const DetailKeys: seq<string> :=
    ["id", "url", "title", "author", "other_authors", "publisher", "year", "pages", "isbn",
     "language", "subjects", "classifications", "tags", "material_type", "notes"]

  /** The detail parse of one book; `fetch` stands for the record page
      request, and a missing id is passed on as Python formats it. */
  function DetailsOf(b: BasicBook, fetch: string -> Html.Fetch<BookDetail.DetailPage>): BookDetail.BookDetail {
    var id := Show(b.id);
    var page := fetch(id);
    if page.FetchFailed? then BookDetail.ParseError(id, page.message) else BookDetail.Detail(BaseUrl, id, page.page)
  }

  /** One element of `detailed_books`. */
  function FullRecord(b: BasicBook, fetch: string -> Html.Fetch<BookDetail.DetailPage>): Record {
    Merged(b, DetailsOf(b, fetch))
  }

  /** `{**basic_info, **details}`. */
  function Merged(b: BasicBook, d: BookDetail.BookDetail): Record {
    Merge(BasicRecord(b), DetailRecord(b.id, d))
  }

  /** The loop of `scrape_catalog_full` over the basic books. */
  method ScrapeCatalogFull(page: Html.Fetch<seq<BookLink>>, maxBooks: int,
                           fetch: string -> Html.Fetch<BookDetail.DetailPage>)
    returns (detailed: seq<Record>)
    ensures var basic := NewBooks(page, maxBooks);
            |detailed| == |basic| && forall i :: 0 <= i < |basic| ==> detailed[i] == FullRecord(basic[i], fetch)
  {
    var basic := GetNewBooks(page, maxBooks);
    detailed := [];
    var i := 0;
    while i < |basic|
      invariant 0 <= i <= |basic|
      invariant |detailed| == i && forall k :: 0 <= k < i ==> detailed[k] == FullRecord(basic[k], fetch)
    {
      var details := BookDetail.ParseBookDetail(BaseUrl, Show(basic[i].id), fetch(Show(basic[i].id)));
      detailed := detailed + [Merge(BasicRecord(basic[i]), DetailRecord(basic[i].id, details))];
      i := i + 1;
    }
  }

  /** The basic record has the five keys in order, each once. */
  lemma BasicKeys(b: BasicBook)
    ensures Keys(BasicRecord(b)) == ["id", "title", "author", "full_info", "url"]
    ensures DistinctKeys(BasicRecord(b))
  {
    var r := BasicRecord(b);
    assert forall i :: 0 <= i < 5 ==> Keys(r)[i] == r[i].0;
  }

  /** A parsed record has the fifteen keys in order, each once; a failed
      one has the id and the error. */
  lemma DetailKeysSpec(id: Option<string>, d: BookDetail.BookDetail)
    ensures DistinctKeys(DetailRecord(id, d))
    ensures d.Parsed? ==> Keys(DetailRecord(id, d)) == DetailKeys
    ensures d.ParseError? ==> Keys(DetailRecord(id, d)) == ["id", "error"]
  {
    var r := DetailRecord(id, d);
    if d.Parsed? {
      assert forall i :: 0 <= i < 15 ==> Keys(r)[i] == r[i].0 == DetailKeys[i];
      DetailKeysDistinct();
    }
  }

  /** The fifteen keys differ in length or in their first character, and
      none is `full_info`. */
  lemma DetailKeysDistinct()
    ensures forall i, j :: 0 <= i < j < |DetailKeys| ==> DetailKeys[i] != DetailKeys[j]
    ensures "full_info" !in DetailKeys
  {
    forall i, j | 0 <= i < j < |DetailKeys| ensures DetailKeys[i] != DetailKeys[j] {
      assert |DetailKeys[i]| != |DetailKeys[j]| || DetailKeys[i][0] != DetailKeys[j][0];
    }
    forall i | 0 <= i < |DetailKeys| ensures DetailKeys[i] != "full_info" {
      assert |DetailKeys[i]| != 9 || DetailKeys[i][0] != 'f';
    }
  }

  /** In a merged record the detail fields win, the other basic fields
      stay, and the basic keys come first in their order. */
  lemma MergedSpec(b: BasicBook, d: BookDetail.BookDetail)
    ensures DistinctKeys(Merged(b, d))
    ensures forall k :: k in Keys(DetailRecord(b.id, d)) ==> Get(Merged(b, d), k) == Get(DetailRecord(b.id, d), k)
    ensures forall k :: k !in Keys(DetailRecord(b.id, d)) ==> Get(Merged(b, d), k) == Get(BasicRecord(b), k)
    ensures ["id", "title", "author", "full_info", "url"] <= Keys(Merged(b, d))
  {
    BasicKeys(b);
    DetailKeysSpec(b.id, d);
    MergeSpec(BasicRecord(b), DetailRecord(b.id, d));
  }

  /** In a dict with distinct keys each entry is what its key gets. */
  lemma {:induction false} GetAt(d: Record, i: nat)
    requires DistinctKeys(d) && i < |d|
    ensures Get(d, d[i].0) == Some(d[i].1)
    decreases i
  {
    if i > 0 {
      assert d[i] == d[1..][i - 1];
      assert d[0].0 != d[i].0;
      GetAt(d[1..], i - 1);
    }
  }

  /** The alt text survives the merge as `full_info` and the id as it was
      read; a failed detail parse adds its error and keeps the basic
      title. */
  lemma MergedKeeps(b: BasicBook, d: BookDetail.BookDetail)
    ensures Get(Merged(b, d), "full_info") == Some(Str(b.fullInfo))
    ensures Get(Merged(b, d), "id") == Some(IdField(b.id))
    ensures d.ParseError? ==>
              Get(Merged(b, d), "title") == Some(Str(b.title)) && Get(Merged(b, d), "error") == Some(Str(d.error))
  {
    var a := BasicRecord(b);
    var dr := DetailRecord(b.id, d);
    MergedSpec(b, d);
    BasicKeys(b);
    DetailKeysSpec(b.id, d);
    GetAt(a, 3);
    GetAt(dr, 0);
    assert "id" == Keys(dr)[0];
    DetailKeysDistinct();
    assert "full_info" !in Keys(dr);
    if d.ParseError? {
      GetAt(a, 1);
      GetAt(dr, 1);
      assert "error" == Keys(dr)[1];
      assert "title" !in Keys(dr);
    }
  }

  // ---------------------------------------------------------------------
  // save_to_csv

  function HexDigit(n: nat): char
    requires n < 16
  {
    "0123456789abcdef"[n]
  }

  /** One character as Python's `repr` writes it between the quotes. */
  function ReprChar(c: char, quote: char): string {
    if c == quote || c == '\\' then ['\\', c]
    else if c == '\t' then "\\t"
    else if c == '\n' then "\\n"
    else if c == '\r' then "\\r"
    else if c < ' ' || c as int == 127 then "\\x" + [HexDigit(c as nat / 16), HexDigit(c as nat % 16)]
    else [c]
  }

  /** `repr(s)`: single quotes, or double quotes when the text has a
      single quote and no double one. */
  function Repr(s: string): string {
    var quote := if '\'' in s && '"' !in s then '"' else '\'';
    [quote] + Concat(seq(|s|, i requires 0 <= i < |s| => ReprChar(s[i], quote))) + [quote]
  }

  /** `str(item)`: a string as it is, a dict as `{'k': 'v', ...}`. */
  function ItemText(item: Item): string {
    match item
    case Plain(s) => s
    case Dict(entries) =>
      "{" + Join(", ", seq(|entries|, i requires 0 <= i < |entries| => Repr(entries[i].0) + ": " + Repr(entries[i].1))) + "}"
  }

  /** The first index of a dict item, or `|items|`. */
  function FirstDict(items: seq<Item>): (n: nat)
    ensures n <= |items| && (forall i :: 0 <= i < n ==> items[i].Plain?) && (n < |items| ==> items[n].Dict?)
    decreases |items|
  {
    if items == [] then 0 else if items[0].Dict? then 0 else 1 + FirstDict(items[1..])
  }

  /** A value as the CSV gets it: a list whose first element is a dict is
      joined by `str` of each element, any other list is joined as strings
      (which raises at the first dict in it), other values are kept. */
  function FlattenField(f: Field): Result<Field> {
    match f
    case List(items) =>
      if items != [] && items[0].Dict? then
        Success(Str(Join(" | ", seq(|items|, i requires 0 <= i < |items| => ItemText(items[i])))))
      else if FirstDict(items) < |items| then
        Failure("sequence item " + NatToString(FirstDict(items)) + ": expected str instance, dict found")
      else
        Success(Str(Join(" | ", seq(|items|, i requires 0 <= i < |items| => items[i].s))))
    case _ => Success(f)
  }

  /** When the first dict follows only plain strings, `FirstDict` finds
      its index. */
  lemma {:induction false} FirstDictIs(items: seq<Item>, n: nat)
    requires n < |items| && items[n].Dict? && forall i :: 0 <= i < n ==> items[i].Plain?
    ensures FirstDict(items) == n
    decreases n
  {
    if n > 0 {
      FirstDictIs(items[1..], n - 1);
    }
  }

  /** A list of strings becomes its elements joined by " | " (an empty
      list ""), a list starting with a dict becomes the `str` of each of
      its elements joined by " | ", a list of
      strings with a dict further on raises the `TypeError` naming the
      first dict's index, and a value that is not a list is unchanged. */
  lemma FlattenFieldSpec(f: Field)
    ensures !f.List? ==> FlattenField(f) == Success(f)
    ensures f == List([]) ==> FlattenField(f) == Success(Str(""))
    ensures f.List? && (forall i :: 0 <= i < |f.items| ==> f.items[i].Plain?) ==>
              FlattenField(f) == Success(Str(Join(" | ", seq(|f.items|, i requires 0 <= i < |f.items| => f.items[i].s))))
    ensures f.List? && f.items != [] && f.items[0].Dict? ==> FlattenField(f).Success? && FlattenField(f).value.Str?
    ensures f.List? && f.items != [] && f.items[0].Dict? ==>
              FlattenField(f) == Success(Str(Join(" | ", seq(|f.items|, i requires 0 <= i < |f.items| => ItemText(f.items[i])))))
    ensures forall n :: f.List? && 0 < n < |f.items| && f.items[n].Dict? && (forall i :: 0 <= i < n ==> f.items[i].Plain?) ==>
              FlattenField(f) == Failure("sequence item " + NatToString(n) + ": expected str instance, dict found")
    ensures FlattenField(f).Success? ==> !FlattenField(f).value.List?
  {
    if f.List? {
      var n := FirstDict(f.items);
      assert n < |f.items| ==> f.items[n].Dict?;
      forall m | 0 < m < |f.items| && f.items[m].Dict? && (forall i :: 0 <= i < m ==> f.items[i].Plain?)
        ensures FirstDict(f.items) == m
      {
        FirstDictIs(f.items, m);
      }
    }
  }

  /** The copy of one record with its list values flattened, in key order;
      the first value that cannot be joined stops it. */
  function FlattenRecord(d: Record): Result<Record>
    decreases |d|
  {
    if d == [] then Success([])
    else
      var rest := FlattenRecord(d[..|d| - 1]);
      var last := FlattenField(d[|d| - 1].1);
      if rest.Failure? then rest
      else if last.Failure? then Failure(last.error)
      else Success(rest.value + [(d[|d| - 1].0, last.value)])
  }

  /** The flattened copy has the same keys in the same order, no list
      value, and every value is the flattening of the original one. */
  lemma {:induction false} FlattenRecordSpec(d: Record)
    requires FlattenRecord(d).Success?
    ensures var r := FlattenRecord(d).value;
            Keys(r) == Keys(d)
            && forall i :: 0 <= i < |d| ==> FlattenField(d[i].1) == Success(r[i].1) && !r[i].1.List?
    decreases |d|
  {
    if d != [] {
      var init := d[..|d| - 1];
      FlattenRecordSpec(init);
      FlattenFieldSpec(d[|d| - 1].1);
      var rv := FlattenRecord(init).value;
      var r := rv + [(d[|d| - 1].0, FlattenField(d[|d| - 1].1).value)];
      assert FlattenRecord(d).value == r;
      forall i | 0 <= i < |d|
        ensures Keys(r)[i] == Keys(d)[i] && FlattenField(d[i].1) == Success(r[i].1) && !r[i].1.List?
      {
        if i < |d| - 1 {
          assert d[i] == init[i] && r[i] == rv[i];
          assert Keys(rv)[i] == Keys(init)[i];
        }
      }
    }
  }

  /** The loop over one record's keys. */
  method FlattenBook(book: Record) returns (r: Result<Record>)
    ensures r == FlattenRecord(book)
  {
    var copy: Record := [];
    var i := 0;
    while i < |book|
      invariant 0 <= i <= |book|
      invariant FlattenRecord(book[..i]) == Success(copy)
    {
      assert book[..i + 1][..i] == book[..i];
      var v := FlattenField(book[i].1);
      if v.Failure? {
        assert FlattenRecord(book[..i + 1]) == Failure(v.error);
        FlattenFailureStays(book, i + 1);
        return Failure(v.error);
      }
      copy := copy + [(book[i].0, v.value)];
      i := i + 1;
    }
    assert book[..i] == book;
    return Success(copy);
  }

  /** A failure in a prefix is the failure of the whole record. */
  lemma {:induction false} FlattenFailureStays(d: Record, n: nat)
    requires n <= |d| && FlattenRecord(d[..n]).Failure?
    ensures FlattenRecord(d) == FlattenRecord(d[..n])
    decreases |d| - n
  {
    if n < |d| {
      assert d[..n + 1][..n] == d[..n];
      FlattenFailureStays(d, n + 1);
    } else {
      assert d[..n] == d;
    }
  }

  /** The rows `save_to_csv` hands to the CSV writer. */
  function CsvRows(books: seq<Record>): Result<seq<Record>>
    decreases |books|
  {
    if books == [] then Success([])
    else
      var rest := CsvRows(books[..|books| - 1]);
      var last := FlattenRecord(books[|books| - 1]);
      if rest.Failure? then rest
      else if last.Failure? then Failure(last.error)
      else Success(rest.value + [last.value])
  }

  /** The rows of the CSV: one flattened copy per book, in order. The
      books are values here, so the caller's records are not changed. */
  lemma {:induction false} CsvRowsSpec(books: seq<Record>)
    requires CsvRows(books).Success?
    ensures |CsvRows(books).value| == |books|
    ensures forall i :: 0 <= i < |books| ==> FlattenRecord(books[i]) == Success(CsvRows(books).value[i])
    decreases |books|
  {
    if books != [] {
      CsvRowsSpec(books[..|books| - 1]);
    }
  }

  /** `save_to_csv` up to the writing of the file: nothing for no books. */
  method SaveToCsv(books: seq<Record>) returns (rows: Result<seq<Record>>)
    ensures rows == CsvRows(books)
    ensures books == [] ==> rows == Success([])
  {
    var out: seq<Record> := [];
    var i := 0;
    while i < |books|
      invariant 0 <= i <= |books|
      invariant CsvRows(books[..i]) == Success(out)
    {
      assert books[..i + 1][..i] == books[..i];
      var flat := FlattenBook(books[i]);
      if flat.Failure? {
        assert CsvRows(books[..i + 1]) == Failure(flat.error);
        CsvFailureStays(books, i + 1);
        return Failure(flat.error);
      }
      out := out + [flat.value];
      i := i + 1;
    }
    assert books[..i] == books;
    return Success(out);
  }

  lemma {:induction false} CsvFailureStays(books: seq<Record>, n: nat)
    requires n <= |books| && CsvRows(books[..n]).Failure?
    ensures CsvRows(books) == CsvRows(books[..n])
    decreases |books| - n
  {
    if n < |books| {
      assert books[..n + 1][..n] == books[..n];
      CsvFailureStays(books, n + 1);
    } else {
      assert books[..n] == books;
    }
  }

  /** `repr` of text without quotes, backslashes or control characters is
      the text in single quotes. */
  lemma ReprPlain(s: string)
    requires forall i :: 0 <= i < |s| ==> s[i] != '\'' && s[i] != '"' && s[i] != '\\' && ' ' <= s[i] && s[i] as int != 127
    ensures Repr(s) == "'" + s + "'"
  {
    var parts := seq(|s|, i requires 0 <= i < |s| => ReprChar(s[i], '\''));
    assert forall i :: 0 <= i < |s| ==> parts[i] == [s[i]];
    ConcatSingles(s, parts);
  }

  lemma {:induction false} ConcatSingles(s: string, parts: seq<string>)
    requires |parts| == |s| && forall i :: 0 <= i < |s| ==> parts[i] == [s[i]]
    ensures Concat(parts) == s
    decreases |s|
  {
    if s != [] {
      ConcatSingles(s[1..], parts[1..]);
    }
  }
}
