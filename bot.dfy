/** The rule-based chatbot `LibraryChatbot`: a message is routed by the
    first keyword group it contains, and each route builds its reply from
    the FAQ, the knowledge base or the catalogue search. The knowledge
    base's hits for the message, the catalogue search and the first rows of
    the catalogue are parameters. */
module Bot {
  import opened Wrappers
  import opened Strings
  import opened Retrieval
  import Faq

  const LibraryInfoKeywords: seq<string> := [
    "kako", "gdje", "kada", "koliko", "što",
    "radno vrijeme", "otvoreno", "zatvoreno",
    "učlaniti", "članarina", "cijena", "košta",
    "posuditi", "posudba", "vratiti", "produžiti",
    "kazna", "kašnjenje", "rezervirati", "rezervacija",
    "e-knjig", "digitalne", "audio", "računal", "wifi"
  ]

  const BookSearchKeywords: seq<string> := [
    "knjiga", "knjige", "knjigu",
    "autor", "napisao",
    "naslov", "zove se",
    "pronađi", "nađi", "traži",
    "imate", "ima li", "imaš"
  ]

  const RecommendWords: seq<string> := ["preporuči", "preporuka", "preporučuješ", "predloži", "što čitati"]

  const StopWords: seq<string> := [
    "knjiga", "knjige", "autor", "o", "na", "u", "i", "za",
    "preporuči", "preporuka", "imaš", "ima", "li", "neku",
    "mi", "me", "se", "je", "koji", "koja", "koje",
    "neki", "neka", "neko", "the", "a", "an"
  ]

  const CatalogueUrl := "https://katalog.halubajska-zora.hr"

  const LibraryInfoFallback := "Nisam siguran u odgovor na to pitanje. Možete provjeriti na web stranici knjižnice: https://www.halubajska-zora.hr ili nazvati knjižnicu za detaljnije informacije."

  const AskForBook := "Molim vas, navedite naslov, autora ili temu knjige koju tražite."

  const AskForTitle := "Molim navedite naslov ili autora knjige."

  const BookNotFound := "Nisam pronašao tu knjigu. Provjerite katalog za točnu dostupnost."

  const DefaultResponse := "**Dobrodošli u knjižnicu Halubajska Zora! 📚**\n\nMogu vam pomoći s:\n• Informacijama o knjižnici (radno vrijeme, učlanjenje, posudba)\n• Pretraživanjem knjiga u katalogu\n• Preporukama za čitanje\n• Provjeri dostupnosti knjiga\n\nŠto vas zanima?"

  // ---------------------------------------------------------------------
  // Routing

  /** `_is_library_info_question`, on the lower-cased message. */
  predicate IsLibraryInfoQuestion(lower: string) {
    AnyIn(lower, LibraryInfoKeywords)
  }

  /** `_is_book_search_query`, on the lower-cased message. */
  predicate IsBookSearchQuery(lower: string) {
    AnyIn(lower, BookSearchKeywords)
  }

  predicate AsksAvailability(lower: string) {
    Contains(lower, "dostupn") || Contains(lower, "posuden")
  }

  datatype Route = LibraryInfo | BookQuery | Recommendations | AvailabilityCheck | KnowledgeAnswer | DefaultReply

  /** The branch of `process_message` that answers `message`. */
  function RouteOf(message: string, kb: seq<KbHit>): Route {
    var lower := Lower(message);
    if IsLibraryInfoQuestion(lower) then LibraryInfo
    else if IsBookSearchQuery(lower) then BookQuery
    else if AnyIn(lower, RecommendWords) then Recommendations
    else if AsksAvailability(lower) then AvailabilityCheck
    else if TopHitWithin(kb, 0.5) then KnowledgeAnswer
    else DefaultReply
  }

  /** Each branch is taken exactly when its own test holds and no earlier
      test does, in the order library information, book search,
      recommendations, availability, knowledge base, default. */
  lemma RoutePriority(message: string, kb: seq<KbHit>)
    ensures var lower := Lower(message);
            RouteOf(message, kb) == LibraryInfo <==> IsLibraryInfoQuestion(lower)
    ensures var lower := Lower(message);
            RouteOf(message, kb) == BookQuery <==> !IsLibraryInfoQuestion(lower) && IsBookSearchQuery(lower)
    ensures var lower := Lower(message);
            RouteOf(message, kb) == Recommendations <==>
              !IsLibraryInfoQuestion(lower) && !IsBookSearchQuery(lower) && AnyIn(lower, RecommendWords)
    ensures var lower := Lower(message);
            RouteOf(message, kb) == AvailabilityCheck <==>
              !IsLibraryInfoQuestion(lower) && !IsBookSearchQuery(lower) && !AnyIn(lower, RecommendWords)
              && AsksAvailability(lower)
    ensures var lower := Lower(message);
            RouteOf(message, kb) == KnowledgeAnswer <==>
              !IsLibraryInfoQuestion(lower) && !IsBookSearchQuery(lower) && !AnyIn(lower, RecommendWords)
              && !AsksAvailability(lower) && TopHitWithin(kb, 0.5)
    ensures var lower := Lower(message);
            RouteOf(message, kb) == DefaultReply <==>
              !IsLibraryInfoQuestion(lower) && !IsBookSearchQuery(lower) && !AnyIn(lower, RecommendWords)
              && !AsksAvailability(lower) && !TopHitWithin(kb, 0.5)
    ensures RouteOf(message, kb) != LibraryInfo ==> !IsLibraryInfoQuestion(Lower(message))
    ensures RouteOf(message, kb) in {Recommendations, AvailabilityCheck, KnowledgeAnswer, DefaultReply} ==>
              !IsBookSearchQuery(Lower(message))
    ensures RouteOf(message, kb) in {AvailabilityCheck, KnowledgeAnswer, DefaultReply} ==>
              !AnyIn(Lower(message), RecommendWords)
    ensures RouteOf(message, kb) == KnowledgeAnswer ==> !AsksAvailability(Lower(message)) && TopHitWithin(kb, 0.5)
  {
  }

  /** A message containing "kako" is always a library-information question. */
  lemma KakoIsLibraryInfo(message: string, kb: seq<KbHit>)
    requires Contains(Lower(message), "kako")
    ensures RouteOf(message, kb) == LibraryInfo
  {
    assert LibraryInfoKeywords[0] == "kako";
  }

  /** "što čitati" can never reach the recommendations branch: its "što"
      already makes the message a library-information question. */
  lemma ReadingAdviceIsLibraryInfo(message: string, kb: seq<KbHit>)
    requires Contains(Lower(message), "što čitati")
    ensures RouteOf(message, kb) == LibraryInfo
  {
    assert "što" + " čitati" == "što čitati";
    ContainsConcatLeft(Lower(message), "što", " čitati");
    assert LibraryInfoKeywords[4] == "što";
  }

  /** A recommendation request that names a book ("knjigu", "knjige", ...)
      is answered as a book search. */
  lemma BookWordBeatsRecommendation(message: string, kb: seq<KbHit>)
    requires !IsLibraryInfoQuestion(Lower(message))
    requires Contains(Lower(message), "knjigu") && Contains(Lower(message), "preporuči")
    ensures RouteOf(message, kb) == BookQuery
  {
    assert BookSearchKeywords[2] == "knjigu";
  }

  // ---------------------------------------------------------------------
  // Library information: the FAQ, then the knowledge base

  /** `_format_faq_response`. */
  function FormatFaqResponse(f: Faq.FaqResult): string {
    "**" + f.question + "**\n\n" + f.answer
  }

  /** The words before the last ". " of `s`: `'. '.join(s.split('. ')[:-1])`. */
  function SentenceCut(s: string): string {
    var pieces := SplitOn(s, ". ");
    Join(". ", pieces[..|pieces| - 1])
  }

  /** The cut is the prefix before the last ". ", or "" when there is none. */
  lemma SentenceCutSpec(s: string)
    ensures SentenceCut(s) <= s
    ensures Contains(s, ". ") ==> OccursAt(s, ". ", |SentenceCut(s)|)
    ensures !Contains(s, ". ") ==> SentenceCut(s) == ""
    ensures forall i :: |SentenceCut(s)| < i ==> !OccursAt(s, ". ", i)
  {
    CutAtLast(s, ". ");
  }

  /** The same for any two-character separator whose characters differ. */
  lemma CutAtLast(s: string, sep: string)
    requires |sep| == 2 && sep[0] != sep[1]
    ensures var pieces := SplitOn(s, sep);
            var p := Join(sep, pieces[..|pieces| - 1]);
            && p <= s
            && (Contains(s, sep) ==> OccursAt(s, sep, |p|))
            && (!Contains(s, sep) ==> p == "")
            && forall i :: |p| < i ==> !OccursAt(s, sep, i)
  {
    var pieces := SplitOn(s, sep);
    var n := |pieces|;
    JoinSplitOn(s, sep);
    SplitOnLast(s, sep);
    if n == 1 {
      NoSeparator(s, sep);
    } else {
      JoinInit(sep, pieces);
      LastOccurrence(Join(sep, pieces[..n - 1]), sep, pieces[n - 1]);
    }
  }

  /** A string without `sep` holds it nowhere. */
  lemma NoSeparator(s: string, sep: string)
    requires !Contains(s, sep)
    ensures forall i :: !OccursAt(s, sep, i)
  {
    ContainsIff(s, sep);
  }

  /** A join splits before its last piece. */
  lemma JoinInit(sep: string, xs: seq<string>)
    requires |xs| >= 2
    ensures Join(sep, xs) == Join(sep, xs[..|xs| - 1]) + sep + xs[|xs| - 1]
  {
    assert xs == xs[..|xs| - 1] + [xs[|xs| - 1]];
    JoinSnoc(sep, xs[..|xs| - 1], xs[|xs| - 1]);
  }

  /** In `p + sep + last`, with `sep` not in `last`, the only occurrence of
      `sep` at or after `|p|` is the one at `|p|`. */
  lemma LastOccurrence(p: string, sep: string, last: string)
    requires |sep| == 2 && sep[0] != sep[1]
    requires !Contains(last, sep)
    ensures p <= p + sep + last
    ensures OccursAt(p + sep + last, sep, |p|)
    ensures Contains(p + sep + last, sep)
    ensures forall i :: |p| < i ==> !OccursAt(p + sep + last, sep, i)
  {
    var s := p + sep + last;
    assert s[|p|..|p| + 2] == sep;
    assert OccursAt(s, sep, |p|);
    forall i | |p| < i ensures !OccursAt(s, sep, i) {
      if i == |p| + 1 {
        assert s[i] == sep[1];
      } else {
        ContainsIff(last, sep);
        OccursShift(p + sep, last, sep, i - |p| - 2);
      }
    }
  }

  /** The shortening of `_format_kb_response`: content over 500 characters
      is cut at the last ". " of its first 500 and closed with '.'. */
  function ShortenKb(content: string): string {
    if |content| > 500 then
      var cut := SentenceCut(content[..500]) + ".";
      if !EndsWith(cut, ".") then cut + "..." else cut
    else content
  }

  /** Short content is kept; long content becomes the text before the last
      ". " of its first 500 characters, closed by '.', so the "..." branch
      is never taken. */
  lemma ShortenKbSpec(content: string)
    ensures |content| <= 500 ==> ShortenKb(content) == content
    ensures |content| > 500 ==>
              ShortenKb(content) == SentenceCut(content[..500]) + "."
              && EndsWith(ShortenKb(content), ".") && |ShortenKb(content)| <= 500
              && SentenceCut(content[..500]) <= content
  {
    if |content| > 500 {
      var c := content[..500];
      SentenceCutSpec(c);
      var cut := SentenceCut(c);
      assert c <= content;
    }
  }

  /** `_format_kb_response`: the shortened content, then the source link
      when the hit's metadata names one. */
  function FormatKbResponse(hit: KbHit): string {
    ShortenKb(hit.content) + (if Truthy(hit.source) then "\n\n🔗 Više informacija: " + hit.source.value else "")
  }

  /** `_handle_library_info(query)`: the top FAQ result when it scores at
      least 2, else the top knowledge-base hit when its distance is below
      0.7, else a fixed fallback. */
  function LibraryInfoReply(query: string, kb: seq<KbHit>): string {
    var faq := Faq.SearchFaqSpec(Faq.FaqData, query);
    if faq != [] && faq[0].score >= 2 then FormatFaqResponse(faq[0])
    else if TopHitWithin(kb, 0.7) then FormatKbResponse(kb[0])
    else LibraryInfoFallback
  }

  /** The FAQ answers exactly when some FAQ entry scores at least 2, and then
      with the best-scoring entry; otherwise the knowledge base or the
      fallback does. */
  lemma LibraryInfoSources(query: string, kb: seq<KbHit>)
    ensures (exists k :: 0 <= k < |Faq.FaqData| && Faq.Score(Faq.FaqData[k], Lower(query)) >= 2) ==>
              var faq := Faq.SearchFaqSpec(Faq.FaqData, query);
              faq != [] && LibraryInfoReply(query, kb) == FormatFaqResponse(faq[0])
              && forall y :: y in faq ==> y.score <= faq[0].score
    ensures !(exists k :: 0 <= k < |Faq.FaqData| && Faq.Score(Faq.FaqData[k], Lower(query)) >= 2) ==>
              LibraryInfoReply(query, kb) == (if TopHitWithin(kb, 0.7) then FormatKbResponse(kb[0]) else LibraryInfoFallback)
  {
    Faq.SearchFaqTopScore(Faq.FaqData, query, 2);
    Faq.SearchFaqSpecOrdered(Faq.FaqData, query);
    var faq := Faq.SearchFaqSpec(Faq.FaqData, query);
    forall y | y in faq ensures y.score <= faq[0].score {
      var j :| 0 <= j < |faq| && faq[j] == y;
      assert j == 0 || faq[0].score >= faq[j].score;
    }
  }

  // ---------------------------------------------------------------------
  // Book search

  function Keywords(message: string): seq<string> {
    ExtractKeywords(message, StopWords)
  }

  /** The header: "knjigu" for exactly one book, "knjige" otherwise. */
  function FoundHeader(n: nat): string {
    "**Pronašao sam " + NatToString(n) + " " + (if n == 1 then "knjigu" else "knjige") + ":**\n\n"
  }

  /** The header says "knjigu" exactly when it announces one book. */
  lemma FoundHeaderSingular(n: nat)
    ensures Contains(FoundHeader(n), "knjigu") <==> n == 1
  {
    var d := NatToString(n);
    if n == 1 {
      assert FoundHeader(n) == "**Pronašao sam " + d + " " + "knjigu" + ":**\n\n";
      ContainsInfix("**Pronašao sam " + d + " ", "knjigu", ":**\n\n");
    } else {
      assert FoundHeader(n) == "**Pronašao sam " + d + " knjige:**\n\n";
      assert 'u' !in d by {
        assert forall i :: 0 <= i < |d| ==> IsDigit(d[i]);
      }
      NotContainsMissingChar(FoundHeader(n), "knjigu", 'u');
    }
  }

  /** "**n. ", the start of a numbered entry. */
  function Numbered(n: nat): string {
    "**" + NatToString(n) + ". "
  }

  /** One book of a search reply. */
  function BookQueryBlock(n: nat, b: BookRow): string {
    Numbered(n) + b.title + BookQueryDetails(b)
  }

  function BookQueryDetails(b: BookRow): string {
    "**\n"
    + "   📚 Autor: " + Show(b.author) + "\n"
    + (if Truthy(b.year) then "   📅 Godina: " + b.year.value + "\n" else "")
    + (if Truthy(b.pages) then "   📄 Stranica: " + b.pages.value + "\n" else "")
    + (if Truthy(b.isbn) then "   🔢 ISBN: " + b.isbn.value + "\n" else "")
    + "\n"
  }

  /** What `_handle_book_query(query)` answers. */
  function BookQueryReply(query: string, search: (string, nat) -> seq<BookRow>): string {
    var keywords := Keywords(query);
    if keywords == [] then AskForBook
    else
      var books := UniqueBooks(Searched(keywords, search, 5), 5);
      if books == [] then
        "Nisam pronašao knjige za '" + Join(" ", keywords) + "'. Možete pretraživati katalog na: " + CatalogueUrl
      else
        FoundHeader(|books|) + Blocks(books, BookQueryBlock)
        + "\n💡 Za provjeru dostupnosti posjetite katalog ili nazovite knjižnicu."
  }

  /** `_handle_book_query`: searches each keyword (5 rows each), keeps five
      books unique by id and lists them. */
  method HandleBookQuery(query: string, search: (string, nat) -> seq<BookRow>) returns (reply: string)
    ensures reply == BookQueryReply(query, search)
  {
    var keywords := Keywords(query);
    if keywords == [] {
      return AskForBook;
    }
    var results := CollectBooks(keywords, search, 5);
    var books := UniqueBooks(results, 5);
    if books == [] {
      return "Nisam pronašao knjige za '" + Join(" ", keywords) + "'. Možete pretraživati katalog na: " + CatalogueUrl;
    }
    reply := ListBooks(FoundHeader(|books|), books, BookQueryBlock);
    reply := reply + "\n💡 Za provjeru dostupnosti posjetite katalog ili nazovite knjižnicu.";
  }

  /** With keywords, the reply lists at most five books of distinct ids, the
      first five ids in order of first appearance among the search results,
      each found by some keyword's search and shown by title; the reply opens
      with the header for that many books, which says "knjigu" exactly when
      one book is listed (`FoundHeaderSingular`). Nothing found names the
      keywords instead. */
  lemma BookQueryReplySpec(query: string, search: (string, nat) -> seq<BookRow>)
    ensures Keywords(query) == [] ==> BookQueryReply(query, search) == AskForBook
    ensures Keywords(query) != [] ==>
              var found := Searched(Keywords(query), search, 5);
              var books := UniqueBooks(found, 5);
              |books| <= 5 && DistinctIds(books)
              && Ids(books) == Take(FirstAppearances(Ids(found)), 5)
              && (books == [] <==> forall k :: k in Keywords(query) ==> search(k, 5) == [])
              && (books == [] ==>
                    BookQueryReply(query, search)
                    == "Nisam pronašao knjige za '" + Join(" ", Keywords(query)) + "'. Možete pretraživati katalog na: " + CatalogueUrl)
              && (books != [] ==>
                    BookQueryReply(query, search)
                    == FoundHeader(|books|) + Blocks(books, BookQueryBlock)
                       + "\n💡 Za provjeru dostupnosti posjetite katalog ili nazovite knjižnicu.")
              && (forall b :: b in books ==>
                    Contains(BookQueryReply(query, search), b.title)
                    && exists k :: k in Keywords(query) && b in search(k, 5))
  {
    var keywords := Keywords(query);
    if keywords != [] {
      var found := Searched(keywords, search, 5);
      var books := UniqueBooks(found, 5);
      SearchedFrom(keywords, search, 5);
      SearchedEmpty(keywords, search, 5);
      if books != [] {
        forall n: nat, b: BookRow ensures Contains(BookQueryBlock(n, b), b.title) {
          ContainsInfix(Numbered(n), b.title, BookQueryDetails(b));
        }
        BlocksShowEach(books, BookQueryBlock, (b: BookRow) => b.title);
        var footer := "\n💡 Za provjeru dostupnosti posjetite katalog ili nazovite knjižnicu.";
        forall b | b in books ensures Contains(BookQueryReply(query, search), b.title) {
          ContainsExtend(Blocks(books, BookQueryBlock), b.title, FoundHeader(|books|), footer);
        }
      }
    }
  }

  // ---------------------------------------------------------------------
  // Recommendations

  function RecommendBlock(n: nat, b: BookRow): string {
    Numbered(n) + b.title + "** - " + Show(b.author) + "\n"
    + (if Truthy(b.year) then "   Godina: " + b.year.value + "\n" else "")
    + "\n"
  }

  function PopularBlock(n: nat, b: BookRow): string {
    Numbered(n) + b.title + "** - " + Show(b.author) + "\n\n"
  }

  /** What `_handle_book_recommendations(query)` answers; `popular` is
      `get_all_books(limit=5)`. */
  function RecommendationsReply(query: string, search: (string, nat) -> seq<BookRow>, popular: seq<BookRow>): string {
    var keywords := Keywords(query);
    var results := if keywords == [] then [] else Searched(keywords, search, 3);
    if results != [] then
      "**Preporučujem vam:**\n\n" + Blocks(UniqueBooks(results, 3), RecommendBlock)
    else if popular != [] then
      "**Evo nekih popularnih naslova:**\n\n" + Blocks(Take(popular, 3), PopularBlock)
    else
      "Možete pregledati najčitanije knjige na: " + CatalogueUrl
  }

  /** `_handle_book_recommendations`. */
  method HandleBookRecommendations(query: string, search: (string, nat) -> seq<BookRow>, popular: seq<BookRow>)
    returns (reply: string)
    ensures reply == RecommendationsReply(query, search, popular)
  {
    var keywords := Keywords(query);
    if keywords != [] {
      var results := CollectBooks(keywords, search, 3);
      if results != [] {
        var books := UniqueBooks(results, 3);
        reply := ListBooks("**Preporučujem vam:**\n\n", books, RecommendBlock);
        return;
      }
    }
    if popular != [] {
      reply := ListBooks("**Evo nekih popularnih naslova:**\n\n", Take(popular, 3), PopularBlock);
      return;
    }
    reply := "Možete pregledati najčitanije knjige na: " + CatalogueUrl;
  }

  /** Recommendations come from the keyword searches when they find
      anything: at most three books of distinct ids, all found by them;
      otherwise from the first three popular rows, and with none of those a
      fixed link. */
  lemma RecommendationsSpec(query: string, search: (string, nat) -> seq<BookRow>, popular: seq<BookRow>)
    ensures var keywords := Keywords(query);
            var listed := UniqueBooks(Searched(keywords, search, 3), 3);
            (keywords != [] && exists k :: k in keywords && search(k, 3) != []) ==>
              RecommendationsReply(query, search, popular) == "**Preporučujem vam:**\n\n" + Blocks(listed, RecommendBlock)
              && 0 < |listed| <= 3 && DistinctIds(listed)
              && Ids(listed) == Take(FirstAppearances(Ids(Searched(keywords, search, 3))), 3)
              && forall b :: b in listed ==> exists k :: k in keywords && b in search(k, 3)
    ensures (Keywords(query) == [] || forall k :: k in Keywords(query) ==> search(k, 3) == []) ==>
              RecommendationsReply(query, search, popular) ==
                (if popular != [] then "**Evo nekih popularnih naslova:**\n\n" + Blocks(Take(popular, 3), PopularBlock)
                 else "Možete pregledati najčitanije knjige na: " + CatalogueUrl)
  {
    var keywords := Keywords(query);
    SearchedEmpty(keywords, search, 3);
    SearchedFrom(keywords, search, 3);
  }

  // ---------------------------------------------------------------------
  // Availability

  /** `_handle_availability_check(query)`: the first hit of the first
      keyword, one row only. */
  function AvailabilityReply(query: string, search: (string, nat) -> seq<BookRow>): string {
    var keywords := Keywords(query);
    if keywords == [] then AskForTitle
    else
      var books := search(keywords[0], 1);
      if books != [] then
        "**" + books[0].title + "** od " + Show(books[0].author)
        + "\n\nZa provjeru trenutne dostupnosti i rezervaciju, molim provjerite katalog: " + CatalogueUrl
      else BookNotFound
  }

  /** Only the first keyword is searched: two queries with the same first
      keyword get the same answer. */
  lemma AvailabilityUsesFirstKeyword(q1: string, q2: string, search: (string, nat) -> seq<BookRow>)
    requires Keywords(q1) != [] && Keywords(q2) != [] && Keywords(q1)[0] == Keywords(q2)[0]
    ensures AvailabilityReply(q1, search) == AvailabilityReply(q2, search)
  {
  }

  // ---------------------------------------------------------------------
  // process_message

  /** `process_message`: the reply of the branch `RouteOf` picks. */
  method ProcessMessage(message: string, kb: seq<KbHit>, search: (string, nat) -> seq<BookRow>, popular: seq<BookRow>)
    returns (reply: string)
    ensures RouteOf(message, kb) == LibraryInfo ==> reply == LibraryInfoReply(message, kb)
    ensures RouteOf(message, kb) == BookQuery ==> reply == BookQueryReply(message, search)
    ensures RouteOf(message, kb) == Recommendations ==> reply == RecommendationsReply(message, search, popular)
    ensures RouteOf(message, kb) == AvailabilityCheck ==> reply == AvailabilityReply(message, search)
    ensures RouteOf(message, kb) == KnowledgeAnswer ==> kb != [] && reply == FormatKbResponse(kb[0])
    ensures RouteOf(message, kb) == DefaultReply ==> reply == DefaultResponse
  {
    var lower := Lower(message);
    if IsLibraryInfoQuestion(lower) {
      return LibraryInfoReply(message, kb);
    }
    if IsBookSearchQuery(lower) {
      reply := HandleBookQuery(message, search);
      return;
    }
    if AnyIn(lower, RecommendWords) {
      reply := HandleBookRecommendations(message, search, popular);
      return;
    }
    if AsksAvailability(lower) {
      return AvailabilityReply(message, search);
    }
    if TopHitWithin(kb, 0.5) {
      return FormatKbResponse(kb[0]);
    }
    reply := DefaultResponse;
  }
}
