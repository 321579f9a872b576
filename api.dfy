/** The REST back end: `generate_response`, the rule-based answer of the
    chat endpoint, and the error handling of the `chat` and `get_book`
    endpoints. The catalogue search, the first catalogue rows, the
    knowledge-base hits and the live availability check are parameters. */
module Api {
  import opened Wrappers
  import opened Strings
  import opened Retrieval
  import Availability

  const AvailabilityWords: seq<string> := ["dostupn", "posuden", "je li", "jel", "ima li na", "rezerv"]
  const RecommendWords: seq<string> := ["preporuč", "preporuka", "preporučuješ", "predloži", "što čitati", "što da čitam", "za čitanje", "knjiga za"]
  const MembershipWords: seq<string> := ["učlaniti", "članarina", "upis"]
  const HoursWords: seq<string> := ["radno vrijeme", "otvoreno", "kada", "kada radi"]
  const BorrowingWords: seq<string> := ["posuditi", "posudba", "koliko knjiga", "rok posudbe"]
  const EbookWords: seq<string> := ["e-knjig", "digitalne", "online", "audio"]
  const LateWords: seq<string> := ["kasn", "kazna", "zakasnio"]
  const RenewalWords: seq<string> := ["produžiti", "produženje"]
  const SearchWords: seq<string> := ["knjiga o", "knjige o", "autor", "naslov", "imate li", "imaš li"]
  const StopWords: seq<string> := ["knjiga", "knjige", "autor", "o", "na", "u", "i", "za", "mi"]

  const AskForTitle := "Molim navedite naziv knjige čiju dostupnost želite provjeriti."
  const NothingToRecommend := "Trenutno nemam knjiga u bazi za preporuku. Provjerite katalog: https://katalog.halubajska-zora.hr"
  const MembershipReply := "📚 **Učlanjenje u knjižnicu**\n\nZa učlanjenje trebate osobnu iskaznicu i pristupnicu. Članarina se plaća godišnje po kategorijama.\n\nViše na: https://www.halubajska-zora.hr"
  const HoursReply := "⏰ **Radno vrijeme:**\n\n• Radnim danima: 8:00 - 20:00\n• Subotom: 8:00 - 14:00\n• Nedjeljom: zatvoreno\n\nViše na: https://www.halubajska-zora.hr"
  const BorrowingReply := "📖 **Posudba knjiga:**\n\n• Do 4 knjige istovremeno\n• Rok: 30 dana\n• Produženje moguće ako nije rezervirana\n\nZa rezervaciju: https://katalog.halubajska-zora.hr"
  const EbookReply := "💻 **E-knjige i audioknige:**\n\nDostupne putem ZaKi Book platforme.\n• Do 4 naslova mjesečno\n• Na 4 uređaja\n\nViše: https://www.halubajska-zora.hr"
  const LateReply := "⚠️ **Kašnjenje:**\n\nZa svaki dan kašnjenja naplaćuje se kazna.\nPreporučujemo pravovremeno vraćanje ili produženje!"
  const RenewalReply := "🔄 **Produženje posudbe:**\n\nMožete produžiti:\n• Online - 'Moja iskaznica'\n• Telefonski\n• Osobno\n\nAko knjiga nije rezervirana."
  const DefaultReply := "📚 **Dobrodošli!** Mogu vam pomoći s:\n\n• Informacijama o knjižnici (radno vrijeme, članstvo...)\n• Pretraživanjem knjiga po naslovu ili autoru\n• Preporukama za čitanje\n\nŠto vas zanima?"

  /** `extract_keywords(query)`. */
  function Keywords(query: string): seq<string> {
    ExtractKeywords(query, StopWords)
  }

  /** The rows the book-search branch collects: five per keyword, for the
      first two keywords. */
  function SearchHits(message: string, search: (string, nat) -> seq<BookRow>): seq<BookRow> {
    var keywords := Keywords(message);
    if keywords == [] then [] else Searched(Take(keywords, 2), search, 5)
  }

  datatype Route = CheckAvailability | Recommend | Membership | Hours | Borrowing | Ebooks | Late | Renewal
                 | BookSearch | KnowledgeBase | Welcome

  /** The branch of `generate_response` that answers `message`. The
      book-search branch answers only when it found books; otherwise the
      message falls through to the knowledge base. */
  function RouteOf(message: string, kb: seq<KbHit>, search: (string, nat) -> seq<BookRow>): (r: Route)
    ensures r == CheckAvailability <==> AnyIn(Lower(message), AvailabilityWords)
    ensures r == BookSearch ==> SearchHits(message, search) != []
  {
    var lower := Lower(message);
    if AnyIn(lower, AvailabilityWords) then CheckAvailability
    else if AnyIn(lower, RecommendWords) then Recommend
    else if AnyIn(lower, MembershipWords) then Membership
    else if AnyIn(lower, HoursWords) then Hours
    else if AnyIn(lower, BorrowingWords) then Borrowing
    else if AnyIn(lower, EbookWords) then Ebooks
    else if AnyIn(lower, LateWords) then Late
    else if AnyIn(lower, RenewalWords) then Renewal
    else if AnyIn(lower, SearchWords) && SearchHits(message, search) != [] then BookSearch
    else if TopHitWithin(kb, 0.7) then KnowledgeBase
    else Welcome
  }

  /** An availability word decides the branch before anything else, and the
      book-search branch needs keywords and hits. */
  lemma RoutePriority(message: string, kb: seq<KbHit>, search: (string, nat) -> seq<BookRow>)
    ensures AnyIn(Lower(message), AvailabilityWords) <==> RouteOf(message, kb, search) == CheckAvailability
    ensures RouteOf(message, kb, search) == BookSearch ==>
              Keywords(message) != [] && exists k :: k in Take(Keywords(message), 2) && search(k, 5) != []
    ensures AnyIn(Lower(message), SearchWords) && !AnyIn(Lower(message), AvailabilityWords)
            && !AnyIn(Lower(message), RecommendWords)
            && (Keywords(message) == [] || forall k :: k in Take(Keywords(message), 2) ==> search(k, 5) == []) ==>
              RouteOf(message, kb, search) in {Membership, Hours, Borrowing, Ebooks, Late, Renewal, KnowledgeBase, Welcome}
  {
    BookSearchNeedsHits(message, kb, search);
    NoHitsFallThrough(message, kb, search);
  }

  lemma BookSearchNeedsHits(message: string, kb: seq<KbHit>, search: (string, nat) -> seq<BookRow>)
    ensures RouteOf(message, kb, search) == BookSearch ==>
              Keywords(message) != [] && exists k :: k in Take(Keywords(message), 2) && search(k, 5) != []
  {
    if RouteOf(message, kb, search) == BookSearch {
      HitsNeedKeywords(message, search);
    }
  }

  /** A search with hits had keywords, and one of the first two found rows. */
  lemma HitsNeedKeywords(message: string, search: (string, nat) -> seq<BookRow>)
    requires SearchHits(message, search) != []
    ensures Keywords(message) != [] && exists k :: k in Take(Keywords(message), 2) && search(k, 5) != []
  {
    SearchedEmpty(Take(Keywords(message), 2), search, 5);
  }

  lemma NoHitsFallThrough(message: string, kb: seq<KbHit>, search: (string, nat) -> seq<BookRow>)
    ensures AnyIn(Lower(message), SearchWords) && !AnyIn(Lower(message), AvailabilityWords)
            && !AnyIn(Lower(message), RecommendWords)
            && (Keywords(message) == [] || forall k :: k in Take(Keywords(message), 2) ==> search(k, 5) == []) ==>
              RouteOf(message, kb, search) in {Membership, Hours, Borrowing, Ebooks, Late, Renewal, KnowledgeBase, Welcome}
  {
    var keywords := Keywords(message);
    if keywords != [] {
      SearchedEmpty(Take(keywords, 2), search, 5);
    }
  }

  /** Asking how to reserve ("rezervirati", "rezervacija") starts the
      availability check. */
  lemma ReservationStartsAvailabilityCheck(message: string, kb: seq<KbHit>, search: (string, nat) -> seq<BookRow>)
    requires Contains(Lower(message), "rezerv")
    ensures RouteOf(message, kb, search) == CheckAvailability
  {
    assert AvailabilityWords[5] == "rezerv";
  }

  // ---------------------------------------------------------------------
  // The availability branch

  /** The answer of the availability branch; `check` is the live
      `check_availability`. */
  function AvailabilityAnswer(message: string, search: (string, nat) -> seq<BookRow>,
                              check: string -> Availability.Report): string {
    var keywords := Keywords(message);
    if keywords == [] then AskForTitle
    else
      var books := search(keywords[0], 1);
      if books != [] then Availability.AvailabilityMessage(check(books[0].id))
      else "Nisam pronašao knjigu '" + keywords[0] + "'. Molim unesite točan naslov ili provjerite katalog."
  }

  /** Only the first hit of the first keyword is checked: two checkers that
      agree on that book give the same answer. */
  lemma AvailabilityChecksFirstHitOnly(message: string, search: (string, nat) -> seq<BookRow>,
                                       check1: string -> Availability.Report, check2: string -> Availability.Report)
    requires Keywords(message) != [] && search(Keywords(message)[0], 1) != []
    requires check1(search(Keywords(message)[0], 1)[0].id) == check2(search(Keywords(message)[0], 1)[0].id)
    ensures AvailabilityAnswer(message, search, check1) == AvailabilityAnswer(message, search, check2)
  {
  }

  /** An unknown title is named in the answer. */
  lemma AvailabilityNamesMissingTitle(message: string, search: (string, nat) -> seq<BookRow>,
                                      check: string -> Availability.Report)
    requires Keywords(message) != [] && search(Keywords(message)[0], 1) == []
    ensures Contains(AvailabilityAnswer(message, search, check), Keywords(message)[0])
  {
    ContainsInfix("Nisam pronašao knjigu '", Keywords(message)[0],
                  "'. Molim unesite točan naslov ili provjerite katalog.");
  }

  // ---------------------------------------------------------------------
  // Recommendations

  function RecommendBlock(n: nat, b: BookRow): string {
    NatToString(n) + ". **" + b.title + "** - " + Show(b.author)
    + (if Truthy(b.year) then " (" + b.year.value + ")" else "")
    + "\n"
  }

  /** The rows the recommendation branch lists from: four per keyword for
      the first two keywords, or the popular rows when that finds nothing. */
  function RecommendPool(message: string, search: (string, nat) -> seq<BookRow>, popular: seq<BookRow>): seq<BookRow> {
    var keywords := Keywords(message);
    var found := if keywords != [] then Searched(Take(keywords, 2), search, 4) else [];
    if found == [] then popular else found
  }

  function RecommendAnswer(message: string, search: (string, nat) -> seq<BookRow>, popular: seq<BookRow>): string {
    var pool := RecommendPool(message, search, popular);
    if pool != [] then
      "📚 **Evo mojih preporuka:**\n\n" + Blocks(UniqueBooks(pool, 5), RecommendBlock)
      + "\n💡 Za više detalja ili rezervaciju, provjerite katalog: https://katalog.halubajska-zora.hr"
    else NothingToRecommend
  }

  /** At most five books of distinct ids, taken from the keyword searches,
      or from the popular rows only when those found nothing. */
  lemma RecommendPoolSpec(message: string, search: (string, nat) -> seq<BookRow>, popular: seq<BookRow>)
    ensures var listed := UniqueBooks(RecommendPool(message, search, popular), 5);
            |listed| <= 5 && DistinctIds(listed)
            && Ids(listed) == Take(FirstAppearances(Ids(RecommendPool(message, search, popular))), 5)
            && (Keywords(message) != [] && (exists k :: k in Take(Keywords(message), 2) && search(k, 4) != []) ==>
                  forall b :: b in listed ==> exists k :: k in Take(Keywords(message), 2) && b in search(k, 4))
            && (Keywords(message) == [] || (forall k :: k in Take(Keywords(message), 2) ==> search(k, 4) == []) ==>
                  forall b :: b in listed ==> b in popular)
  {
    var keywords := Keywords(message);
    SearchedEmpty(Take(keywords, 2), search, 4);
    SearchedFrom(Take(keywords, 2), search, 4);
  }

  // ---------------------------------------------------------------------
  // Book search

  function FoundHeader(n: nat): string {
    "🔍 **Pronašao sam " + NatToString(n) + " " + (if n == 1 then "knjigu" else "knjige") + ":**\n\n"
  }

  function SearchBlock(n: nat, b: BookRow): string {
    NatToString(n) + ". **" + b.title + "**\n"
    + "   📝 Autor: " + Show(b.author) + "\n"
    + (if Truthy(b.year) then "   📅 " + b.year.value + "\n" else "")
    + (if Truthy(b.isbn) then "   📚 ISBN: " + b.isbn.value + "\n" else "")
    + "\n"
  }

  function BookSearchAnswer(message: string, search: (string, nat) -> seq<BookRow>): string {
    var books := UniqueBooks(SearchHits(message, search), 5);
    FoundHeader(|books|) + Blocks(books, SearchBlock) + "💡 Za dostupnost: https://katalog.halubajska-zora.hr"
  }

  // ---------------------------------------------------------------------
  // Knowledge base

  /** The top hit's content, cut to 300 characters plus "..." when longer,
      then the site link. */
  function KnowledgeAnswer(hit: KbHit): string {
    var content := if |hit.content| > 300 then hit.content[..300] + "..." else hit.content;
    content + "\n\nViše: https://www.halubajska-zora.hr"
  }

  /** The answer starts with at most 300 characters of the content, and
      with all of it when it is short enough. */
  lemma KnowledgeAnswerSpec(hit: KbHit)
    ensures |hit.content| <= 300 ==> KnowledgeAnswer(hit) == hit.content + "\n\nViše: https://www.halubajska-zora.hr"
    ensures |hit.content| > 300 ==>
              hit.content[..300] <= KnowledgeAnswer(hit) && Contains(hit.content, KnowledgeAnswer(hit)[..300])
              && !Contains(KnowledgeAnswer(hit)[..300], hit.content)
  {
    if |hit.content| > 300 {
      var a := KnowledgeAnswer(hit);
      assert a == hit.content[..300] + ("..." + "\n\nViše: https://www.halubajska-zora.hr");
      assert a[..300] == hit.content[..300];
      ContainsSlice(hit.content, 0, 300);
      NotContainsShort(a[..300], hit.content);
    }
  }

  // ---------------------------------------------------------------------
  // generate_response

  /** The availability branch of `generate_response`. */
  method AnswerAvailability(message: string, search: (string, nat) -> seq<BookRow>,
                            check: string -> Availability.Report)
    returns (reply: string)
    ensures reply == AvailabilityAnswer(message, search, check)
  {
    var keywords := Keywords(message);
    if keywords == [] {
      return AskForTitle;
    }
    var books := search(keywords[0], 1);
    if books != [] {
      reply := Availability.FormatAvailabilityMessage(check(books[0].id));
    } else {
      reply := "Nisam pronašao knjigu '" + keywords[0] + "'. Molim unesite točan naslov ili provjerite katalog.";
    }
  }

  /** The recommendation branch of `generate_response`. */
  method AnswerRecommendations(message: string, search: (string, nat) -> seq<BookRow>, popular: seq<BookRow>)
    returns (reply: string)
    ensures reply == RecommendAnswer(message, search, popular)
  {
    var keywords := Keywords(message);
    var books := [];
    if keywords != [] {
      books := CollectBooks(Take(keywords, 2), search, 4);
    }
    if books == [] {
      books := popular;
    }
    assert books == RecommendPool(message, search, popular);
    if books == [] {
      return NothingToRecommend;
    }
    var listed := UniqueBooks(books, 5);
    reply := ListBooks("📚 **Evo mojih preporuka:**\n\n", listed, RecommendBlock);
    reply := reply + "\n💡 Za više detalja ili rezervaciju, provjerite katalog: https://katalog.halubajska-zora.hr";
  }

  /** The book-search branch of `generate_response`: it answers only when
      the searches found a book. */
  method AnswerBookSearch(message: string, search: (string, nat) -> seq<BookRow>)
    returns (found: bool, reply: string)
    ensures found <==> SearchHits(message, search) != []
    ensures found ==> reply == BookSearchAnswer(message, search)
  {
    var keywords := Keywords(message);
    if keywords == [] {
      return false, "";
    }
    var books := CollectBooks(Take(keywords, 2), search, 5);
    if books == [] {
      return false, "";
    }
    var listed := UniqueBooks(books, 5);
    reply := ListBooks(FoundHeader(|listed|), listed, SearchBlock);
    reply := reply + "💡 Za dostupnost: https://katalog.halubajska-zora.hr";
    found := true;
  }

  /** The knowledge-base branch of `generate_response`. */
  method AnswerFromKnowledgeBase(hit: KbHit) returns (reply: string)
    ensures reply == KnowledgeAnswer(hit)
  {
    var content := hit.content;
    if |content| > 300 {
      content := content[..300] + "...";
    }
    reply := content + "\n\nViše: https://www.halubajska-zora.hr";
  }

  /** `generate_response`: the answer of the branch `RouteOf` picks. */
  method GenerateResponse(message: string, kb: seq<KbHit>, search: (string, nat) -> seq<BookRow>,
                          popular: seq<BookRow>, check: string -> Availability.Report)
    returns (reply: string)
    ensures RouteOf(message, kb, search) == CheckAvailability ==> reply == AvailabilityAnswer(message, search, check)
    ensures RouteOf(message, kb, search) == Recommend ==> reply == RecommendAnswer(message, search, popular)
    ensures RouteOf(message, kb, search) == Membership ==> reply == MembershipReply
    ensures RouteOf(message, kb, search) == Hours ==> reply == HoursReply
    ensures RouteOf(message, kb, search) == Borrowing ==> reply == BorrowingReply
    ensures RouteOf(message, kb, search) == Ebooks ==> reply == EbookReply
    ensures RouteOf(message, kb, search) == Late ==> reply == LateReply
    ensures RouteOf(message, kb, search) == Renewal ==> reply == RenewalReply
    ensures RouteOf(message, kb, search) == BookSearch ==> reply == BookSearchAnswer(message, search)
    ensures RouteOf(message, kb, search) == KnowledgeBase ==> kb != [] && reply == KnowledgeAnswer(kb[0])
    ensures RouteOf(message, kb, search) == Welcome ==> reply == DefaultReply
  {
    var lower := Lower(message);
    if AnyIn(lower, AvailabilityWords) {
      reply := AnswerAvailability(message, search, check);
      return;
    }
    if AnyIn(lower, RecommendWords) {
      reply := AnswerRecommendations(message, search, popular);
      return;
    }
    if AnyIn(lower, MembershipWords) { return MembershipReply; }
    if AnyIn(lower, HoursWords) { return HoursReply; }
    if AnyIn(lower, BorrowingWords) { return BorrowingReply; }
    if AnyIn(lower, EbookWords) { return EbookReply; }
    if AnyIn(lower, LateWords) { return LateReply; }
    if AnyIn(lower, RenewalWords) { return RenewalReply; }
    if AnyIn(lower, SearchWords) {
      var found;
      found, reply := AnswerBookSearch(message, search);
      if found {
        return;
      }
    }
    if TopHitWithin(kb, 0.7) {
      reply := AnswerFromKnowledgeBase(kb[0]);
      return;
    }
    reply := DefaultReply;
  }

  // ---------------------------------------------------------------------
  // The endpoints' error handling

  /** An endpoint's outcome: a body, or an HTTP error with its detail. */
  datatype Outcome<T> = Ok(body: T) | HttpError(status: nat, detail: string)

  /** The detail of the 500 the chat endpoint answers a blank message with:
      the text of the 400 it raised first. */
  const EmptyMessageError := "Python Error: 400: Poruka ne može biti prazna"

  /** The `chat` endpoint: the message is stripped; an empty one raises a
      400, which the endpoint's own `except Exception` turns into a 500
      whose detail carries the 400's text; `generate` stands for
      `generate_response`, whose failures become 500s too. */
  function Chat(message: string, generate: string -> Result<string>): Outcome<string> {
    var userMessage := Strip(message);
    if userMessage == [] then
      HttpError(500, EmptyMessageError)
    else
      match generate(userMessage)
      case Success(reply) => Ok(reply)
      case Failure(e) => HttpError(500, "Python Error: " + e)
  }

  /** The chat endpoint never answers 400: a blank message gets a 500, any
      other message the reply for its stripped text. */
  lemma ChatOutcomes(message: string, generate: string -> Result<string>)
    ensures Chat(message, generate).HttpError? ==> Chat(message, generate).status == 500
    ensures Strip(message) == [] ==> Chat(message, generate) == HttpError(500, EmptyMessageError)
    ensures Strip(message) != [] ==>
              match generate(Strip(message))
              case Success(reply) => Chat(message, generate) == Ok(reply)
              case Failure(e) => Chat(message, generate) == HttpError(500, "Python Error: " + e)
    ensures Chat(message, generate) == Chat(Strip(message), generate)
  {
    StripIdempotent(message);
  }

  /** The `get_book` endpoint: a missing book is a 404, which is re-raised
      unchanged; a failing lookup is a 500 with the error's text. */
  function GetBook<T>(lookup: Result<Option<T>>): Outcome<T> {
    match lookup
    case Failure(e) => HttpError(500, e)
    case Success(None) => HttpError(404, "Knjiga nije pronađena")
    case Success(Some(book)) => Ok(book)
  }

  /** Unlike the chat endpoint's 400, the 404 survives. */
  lemma GetBookOutcomes<T>(lookup: Result<Option<T>>)
    ensures GetBook(lookup).HttpError? ==> GetBook(lookup).status in {404, 500}
    ensures GetBook(lookup).Ok? <==> lookup.Success? && lookup.value.Some?
    ensures lookup == Success(None) <==> GetBook(lookup) == HttpError(404, "Knjiga nije pronađena")
  {
  }

  /** The body of the `search_books` endpoint. */
  datatype SearchAnswer = SearchAnswer(query: string, count: nat, books: seq<BookRow>)

  /** The `search_books` endpoint: the catalogue search's rows with their
      count, or a 500 with the error's text. */
  function SearchBooksEndpoint(query: string, lookup: Result<seq<BookRow>>): (r: Outcome<SearchAnswer>)
    ensures r.Ok? <==> lookup.Success?
    ensures r.Ok? ==> r.body.query == query && r.body.books == lookup.value && r.body.count == |r.body.books|
    ensures lookup.Failure? ==> r == HttpError(500, lookup.error)
  {
    match lookup
    case Success(books) => Ok(SearchAnswer(query, |books|, books))
    case Failure(e) => HttpError(500, e)
  }

  /** The `check_book_availability` endpoint: the checker's report, or a
      500 with the error's text when the checker raises. */
  function AvailabilityEndpoint(check: Result<Availability.Report>): (r: Outcome<Availability.Report>)
    ensures r.Ok? <==> check.Success?
    ensures check.Success? ==> r.body == check.value
    ensures check.Failure? ==> r == HttpError(500, check.error)
  {
    match check
    case Success(report) => Ok(report)
    case Failure(e) => HttpError(500, e)
  }
}
