/** `AIChatbot` of `chatbot/ai_chatbot.py`: the context it gathers from the
    knowledge base and the catalogue for the language model, and the reply
    it gives. The knowledge-base search, the catalogue search and the
    language model are parameters. */
module AiChatbot {
  import opened Wrappers
  import opened Strings
  import opened Retrieval

  /** The words that make a question a question about books. */
  const BookQueryWords: seq<string> := [
    "knjiga", "knjige", "knjigu", "autor", "autora",
    "napisao", "naslov", "čitati", "pročitati",
    "preporuči", "preporuka", "predloži",
    "ima li", "imaš li", "imate li"
  ]

  /** The words never used as search keywords. */
  const StopWords: seq<string> := [
    "knjiga", "knjige", "knjigu", "autor", "autora",
    "o", "na", "u", "i", "za", "od", "do", "sa", "s",
    "preporuči", "preporuka", "imaš", "ima", "li",
    "mi", "me", "se", "je", "si", "bio", "bila",
    "koji", "koja", "koje", "nekakva", "neki", "neka", "neko"
  ]

  const KbHeader := "=== INFORMACIJE O KNJIŽNICI ==="
  const CatalogueHeader := "\n=== KNJIGE U KATALOGU ==="
  const NoContext := "Nema specifi" + "čnih informacija u bazi za ovo pitanje."
  const Apology := "Žao mi je, došlo je do greške pri generiranju odgovora. Molim pokušaj ponovno ili kontaktiraj knjižnicu direktno."

  /** The instructions given to the language model with every question. */
  const SystemPrompt := "Ti si AI asistent za Narodnu knjižnicu i čitaonicu Halubajska Zora u Rijeci, Hrvatska.\n\nTVOJA ULOGA:\n- Pomažeš korisnicima s informacijama o knjižnici\n- Odgovaraš na pitanja o članstvu, posudbi, uslugama i radnom vremenu\n- Preporučuješ i tražiš knjige iz kataloga\n- Daješ prijateljne, profesionalne i korisne odgovore\n\nSTIL KOMUNIKACIJE:\n- Piši na hrvatskom jeziku\n- Budi koncizan - maksimalno 3-4 rečenice (osim kad preporučuješ knjige)\n- Koristi emoji umjereno za prijateljski ton (📚 🔍 📖 ⏰)\n- Obraćaj se korisniku na \"Vi\"\n\nPRAVILA:\n1. KORISTI SAMO informacije iz konteksta koji ti je pružen\n2. Ako informacija NIJE u kontekstu, reci: \"Za ovu informaciju preporučujem da nazovete knjižnicu ili provjerite web stranicu: https://www.halubajska-zora.hr\"\n3. NEMOJ izmišljati podatke o cijenama, točnim vremenima ili pravilima\n4. Kada preporučuješ knjige, UVIJEK navedi naslov i autora\n5. Za rezervacije i dostupnost UVIJEK uputi na katalog ili knjižničare\n\nPRIMJERI DOBRIH ODGOVORA:\n\nPitanje: \"Kako se učlaniti?\"\nOdgovor: \"Za učlanjenje trebate osobnu iskaznicu i ispunjenu pristupnicu. Članarina se plaća godišnje prema kategoriji (djeca, studenti, odrasli). Za točne cijene i detalje posjetite knjižnicu ili provjerite web stranicu. 📚\"\n\nPitanje: \"Imaš li knjige o internetu?\"\nOdgovor: \"Da, imam nekoliko naslova:\n- 'Error 404: jeste li spremni za svijet bez interneta?' by Esther Paniagua (2025)\n- [ostale knjige iz konteksta]\n\nZa provjeru dostupnosti provjerite katalog na https://katalog.halubajska-zora.hr 🔍\"\n\nPitanje: \"Koliko košta članarina?\"\nOdgovor: \"Cijena članarine ovisi o kategoriji člana. Za točne cijene preporučujem da nazovete knjižnicu ili provjerite web stranicu, jer cijene se povremeno ažuriraju.\"\n\nODGOVARAJ PRIRODNO, KORISNO I PROFESIONALNO!"

  /** `_is_book_query`: a case-insensitive substring test. */
  predicate IsBookQuery(query: string) {
    AnyIn(Lower(query), BookQueryWords)
  }

  /** `_extract_keywords`. */
  function Keywords(query: string): seq<string> {
    ExtractKeywords(query, StopWords)
  }

  /** At most three keywords, in the order the words occur, none of them a
      stop word or shorter than three characters. */
  lemma KeywordsSpec(query: string)
    ensures |Keywords(query)| <= 3
    ensures forall w :: w in Keywords(query) ==> w in WordTokens(Lower(query)) && w !in StopWords && |w| > 2
    ensures IsSubsequence(Keywords(query), WordTokens(Lower(query)))
    ensures "knjigu" !in Keywords(query) && "nekakva" !in Keywords(query)
  {
    ExtractKeywordsSpec(query, StopWords);
    StopWordsInclude();
  }

  lemma StopWordsInclude()
    ensures "knjigu" in StopWords && "nekakva" in StopWords
  {
    assert StopWords[2] == "knjigu" && StopWords[29] == "nekakva";
  }

  // ---------------------------------------------------------------------
  // The knowledge-base section

  /** `result.get('metadata', {}).get('title', 'N/A')`. */
  function TitleOf(h: KbHit): string {
    if h.title.Some? then h.title.value else "N/A"
  }

  /** One knowledge-base entry: its title in brackets, then the first 300
      characters of its content and "...". */
  function KbEntry(h: KbHit): string {
    "\n[" + TitleOf(h) + "]\n" + Take(h.content, 300) + "..."
  }

  function KbEntries(hits: seq<KbHit>): seq<string>
    decreases |hits|
  {
    if hits == [] then [] else KbEntries(hits[..|hits| - 1]) + [KbEntry(hits[|hits| - 1])]
  }

  /** The parts the knowledge base contributes: none unless the best hit is
      closer than 0.7, else a header and the first two hits. */
  function KbSection(hits: seq<KbHit>): seq<string> {
    if TopHitWithin(hits, 0.7) then [KbHeader] + KbEntries(Take(hits, 2)) else []
  }

  lemma {:induction false} KbEntriesSpec(hits: seq<KbHit>)
    ensures |KbEntries(hits)| == |hits|
    ensures forall i :: 0 <= i < |hits| ==> KbEntries(hits)[i] == KbEntry(hits[i])
    decreases |hits|
  {
    if hits != [] {
      KbEntriesSpec(hits[..|hits| - 1]);
    }
  }

  /** The entry shows the hit's title (or "N/A") and the start of its
      content, at most 300 characters of it. */
  lemma KbEntrySpec(h: KbHit)
    ensures Contains(KbEntry(h), TitleOf(h))
    ensures Contains(KbEntry(h), Take(h.content, 300)) && |Take(h.content, 300)| <= 300 && Take(h.content, 300) <= h.content
    ensures h.title.None? ==> Contains(KbEntry(h), "[N/A]")
  {
    var e := KbEntry(h);
    assert e == "\n[" + TitleOf(h) + ("]\n" + Take(h.content, 300) + "...");
    ContainsInfix("\n[", TitleOf(h), "]\n" + Take(h.content, 300) + "...");
    assert e == ("\n[" + TitleOf(h) + "]\n") + Take(h.content, 300) + "...";
    ContainsInfix("\n[" + TitleOf(h) + "]\n", Take(h.content, 300), "...");
    if h.title.None? {
      assert e == "\n" + "[N/A]" + ("\n" + Take(h.content, 300) + "...");
      ContainsInfix("\n", "[N/A]", "\n" + Take(h.content, 300) + "...");
    }
  }

  /** The section is there exactly when the best hit is closer than 0.7; it
      then holds the header and one entry for each of the first two hits. */
  lemma KbSectionSpec(hits: seq<KbHit>)
    ensures KbSection(hits) != [] <==> TopHitWithin(hits, 0.7)
    ensures |KbSection(hits)| <= 3
    ensures KbSection(hits) != [] ==>
              KbSection(hits)[0] == KbHeader
              && |KbSection(hits)| == 1 + |Take(hits, 2)|
              && forall i :: 0 <= i < |Take(hits, 2)| ==> KbSection(hits)[i + 1] == KbEntry(hits[i])
  {
    KbEntriesSpec(Take(hits, 2));
  }

  // ---------------------------------------------------------------------
  // The catalogue section

  /** One catalogue line: "- title by author", then the year and the ISBN
      when they are set. */
  function BookInfo(b: BookRow): string {
    "- " + b.title + " by " + Show(b.author)
    + (if Truthy(b.year) then " (" + b.year.value + ")" else "")
    + (if Truthy(b.isbn) then " [ISBN: " + b.isbn.value + "]" else "")
  }

  lemma BookInfoShowsTitle(b: BookRow)
    ensures Contains(BookInfo(b), b.title)
  {
    var tail := " by " + Show(b.author)
      + (if Truthy(b.year) then " (" + b.year.value + ")" else "")
      + (if Truthy(b.isbn) then " [ISBN: " + b.isbn.value + "]" else "");
    assert BookInfo(b) == "- " + b.title + tail;
    ContainsInfix("- ", b.title, tail);
  }

  function BookInfos(books: seq<BookRow>): seq<string>
    decreases |books|
  {
    if books == [] then [] else BookInfos(books[..|books| - 1]) + [BookInfo(books[|books| - 1])]
  }

  lemma {:induction false} BookInfosSpec(books: seq<BookRow>)
    ensures |BookInfos(books)| == |books|
    ensures forall i :: 0 <= i < |books| ==> BookInfos(books)[i] == BookInfo(books[i])
    decreases |books|
  {
    if books != [] {
      BookInfosSpec(books[..|books| - 1]);
    }
  }

  /** The rows the catalogue searches return: four per keyword, for the
      first two keywords, and only for a question about books. */
  function CatalogueHits(query: string, search: (string, nat) -> seq<BookRow>): seq<BookRow> {
    var keywords := Keywords(query);
    if IsBookQuery(query) && keywords != [] then Searched(Take(keywords, 2), search, 4) else []
  }

  /** The books listed in the catalogue section. */
  function Listed(query: string, search: (string, nat) -> seq<BookRow>): seq<BookRow> {
    UniqueBooks(CatalogueHits(query, search), 5)
  }

  function CatalogueSection(query: string, search: (string, nat) -> seq<BookRow>): seq<string> {
    if CatalogueHits(query, search) != [] then [CatalogueHeader] + BookInfos(Listed(query, search)) else []
  }

  /** The section is there exactly when the question is about books, has
      keywords and the searches found something; it lists at most five
      books of distinct ids, each found by searching one of the first two
      keywords. */
  lemma CatalogueSectionSpec(query: string, search: (string, nat) -> seq<BookRow>)
    ensures CatalogueSection(query, search) != [] <==>
              IsBookQuery(query) && Keywords(query) != []
              && exists k :: k in Take(Keywords(query), 2) && search(k, 4) != []
    ensures var listed := Listed(query, search);
            |listed| <= 5 && DistinctIds(listed)
            && Ids(listed) == Take(FirstAppearances(Ids(CatalogueHits(query, search))), 5)
            && (forall b :: b in listed ==> exists k :: k in Take(Keywords(query), 2) && b in search(k, 4))
    ensures CatalogueSection(query, search) != [] ==>
              CatalogueSection(query, search)[0] == CatalogueHeader
              && |CatalogueSection(query, search)| == 1 + |Listed(query, search)|
              && Listed(query, search) != []
  {
    SearchedEmpty(Take(Keywords(query), 2), search, 4);
    SearchedFrom(Take(Keywords(query), 2), search, 4);
    BookInfosSpec(Listed(query, search));
  }

  // ---------------------------------------------------------------------
  // `_gather_context`

  /** The context handed to the language model. */
  function Context(query: string, hits: seq<KbHit>, search: (string, nat) -> seq<BookRow>): string {
    var parts := KbSection(hits) + CatalogueSection(query, search);
    if parts == [] then NoContext else Join("\n", parts)
  }

  lemma {:induction false} JoinShowsParts(sep: string, xs: seq<string>)
    ensures forall i :: 0 <= i < |xs| ==> Contains(Join(sep, xs), xs[i])
    ensures xs != [] ==> xs[0] <= Join(sep, xs)
    decreases |xs|
  {
    if |xs| > 1 {
      JoinShowsParts(sep, xs[1..]);
      var rest := Join(sep, xs[1..]);
      assert Join(sep, xs) == xs[0] + (sep + rest);
      forall i | 0 <= i < |xs| ensures Contains(Join(sep, xs), xs[i]) {
        if i == 0 {
          ContainsInfix([], xs[0], sep + rest);
          assert [] + xs[0] + (sep + rest) == Join(sep, xs);
        } else {
          assert xs[i] == xs[1..][i - 1];
          ContainsExtend(rest, xs[i], xs[0] + sep, []);
          assert xs[0] + sep + rest + [] == Join(sep, xs);
        }
      }
    } else if |xs| == 1 {
      ContainsSlice(xs[0], 0, |xs[0]|);
      assert xs[0][0..|xs[0]|] == xs[0];
    }
  }

  /** Without a close knowledge-base hit and without catalogue books the
      context is the fixed notice, and only then. */
  lemma ContextEmptyIff(query: string, hits: seq<KbHit>, search: (string, nat) -> seq<BookRow>)
    ensures Context(query, hits, search) == NoContext <==>
              !TopHitWithin(hits, 0.7) && CatalogueSection(query, search) == []
  {
    var kbs := KbSection(hits);
    var cat := CatalogueSection(query, search);
    KbSectionSpec(hits);
    if kbs + cat != [] {
      assert (kbs + cat)[0] == KbHeader || (kbs + cat)[0] == CatalogueHeader;
      JoinIsNotNotice(kbs + cat);
    }
  }

  /** Joined parts that start with a section header are not the notice. */
  lemma JoinIsNotNotice(parts: seq<string>)
    requires parts != [] && (parts[0] == KbHeader || parts[0] == CatalogueHeader)
    ensures Join("\n", parts) != NoContext
  {
    JoinShowsParts("\n", parts);
    assert KbHeader[0] == '=' && CatalogueHeader[0] == '\n' && NoContext[0] == 'N';
    assert Join("\n", parts)[0] == parts[0][0];
  }

  /** The knowledge-base section, joined with whatever follows, shows its
      header first and the entries of the first two hits. */
  lemma KnowledgeShown(hits: seq<KbHit>, rest: seq<string>)
    requires TopHitWithin(hits, 0.7)
    ensures KbHeader <= Join("\n", KbSection(hits) + rest)
    ensures forall h :: h in Take(hits, 2) ==> Contains(Join("\n", KbSection(hits) + rest), KbEntry(h))
  {
    var parts := KbSection(hits) + rest;
    KbSectionSpec(hits);
    JoinShowsParts("\n", parts);
    assert parts[0] == KbHeader;
    forall h | h in Take(hits, 2) ensures Contains(Join("\n", parts), KbEntry(h)) {
      var i :| 0 <= i < |Take(hits, 2)| && Take(hits, 2)[i] == h;
      assert parts[i + 1] == KbEntry(h);
    }
  }

  /** With a close hit, the context starts with the knowledge-base header
      and shows the entries of the first two hits. */
  lemma ContextShowsKnowledge(query: string, hits: seq<KbHit>, search: (string, nat) -> seq<BookRow>)
    requires TopHitWithin(hits, 0.7)
    ensures KbHeader <= Context(query, hits, search)
    ensures forall h :: h in Take(hits, 2) ==> Contains(Context(query, hits, search), KbEntry(h))
  {
    var cat := CatalogueSection(query, search);
    KbSectionSpec(hits);
    assert Context(query, hits, search) == Join("\n", KbSection(hits) + cat);
    KnowledgeShown(hits, cat);
  }

  /** A listed book's title shows in the joined parts that end with the
      catalogue section listing it. */
  lemma BookShown(kbs: seq<string>, listed: seq<BookRow>, b: BookRow)
    requires b in listed
    ensures Contains(Join("\n", kbs + ([CatalogueHeader] + BookInfos(listed))), b.title)
  {
    var parts := kbs + ([CatalogueHeader] + BookInfos(listed));
    BookInfosSpec(listed);
    JoinShowsParts("\n", parts);
    var i :| 0 <= i < |listed| && listed[i] == b;
    assert parts[|kbs| + 1 + i] == BookInfo(b);
    BookInfoShowsTitle(b);
    ContainsTransitive(Join("\n", parts), BookInfo(b), b.title);
  }

  /** Every book of the catalogue section has its title in the context. */
  lemma ContextShowsBooks(query: string, hits: seq<KbHit>, search: (string, nat) -> seq<BookRow>)
    ensures forall b :: b in Listed(query, search) ==> Contains(Context(query, hits, search), b.title)
  {
    var listed := Listed(query, search);
    if listed != [] {
      var kbs := KbSection(hits);
      assert CatalogueHits(query, search) != [];
      assert Context(query, hits, search) == Join("\n", kbs + ([CatalogueHeader] + BookInfos(listed)));
      forall b | b in listed ensures Contains(Context(query, hits, search), b.title) {
        BookShown(kbs, listed, b);
      }
    }
  }

  /** The first loop of `_gather_context`: the knowledge-base parts. */
  method GatherKnowledge(hits: seq<KbHit>) returns (parts: seq<string>)
    ensures parts == KbSection(hits)
  {
    parts := [];
    if TopHitWithin(hits, 0.7) {
      parts := [KbHeader];
      var top := Take(hits, 2);
      var i := 0;
      while i < |top|
        invariant 0 <= i <= |top|
        invariant parts == [KbHeader] + KbEntries(top[..i])
      {
        assert top[..i + 1][..i] == top[..i];
        parts := parts + [KbEntry(top[i])];
        i := i + 1;
      }
      assert top[..i] == top;
    }
  }

  /** The second loop of `_gather_context`: the catalogue parts. */
  method GatherCatalogue(query: string, search: (string, nat) -> seq<BookRow>) returns (parts: seq<string>)
    ensures parts == CatalogueSection(query, search)
  {
    parts := [];
    if !IsBookQuery(query) {
      return;
    }
    var keywords := Keywords(query);
    if keywords == [] {
      return;
    }
    var books := CollectBooks(Take(keywords, 2), search, 4);
    if books == [] {
      return;
    }
    assert books == CatalogueHits(query, search);
    var infos := ListInfos(UniqueBooks(books, 5));
    parts := [CatalogueHeader] + infos;
  }

  /** The loop that writes one catalogue line per listed book. */
  method ListInfos(listed: seq<BookRow>) returns (infos: seq<string>)
    ensures infos == BookInfos(listed)
  {
    infos := [];
    var i := 0;
    while i < |listed|
      invariant 0 <= i <= |listed|
      invariant infos == BookInfos(listed[..i])
    {
      assert listed[..i + 1][..i] == listed[..i];
      infos := infos + [BookInfo(listed[i])];
      i := i + 1;
    }
    assert listed[..i] == listed;
  }

  /** `_gather_context`. */
  method GatherContext(query: string, hits: seq<KbHit>, search: (string, nat) -> seq<BookRow>)
    returns (context: string)
    ensures context == Context(query, hits, search)
  {
    var knowledge := GatherKnowledge(hits);
    var catalogue := GatherCatalogue(query, search);
    var parts := knowledge + catalogue;
    if parts == [] {
      return NoContext;
    }
    context := Join("\n", parts);
  }

  // ---------------------------------------------------------------------
  // `chat`

  const ContextLabel := "KONTEKST IZ BAZE:\n"
  const QuestionLabel := "\n\nKORISNI" + "ČKO PITANJE:\n"
  const AnswerInstruction := "\n\nOdgovori na pitanje koriste" + "ći informacije iz konteksta. Budi koncizan i koristan."

  /** The question the model receives: the context, then the user's
      question, then the instruction to answer from the context. */
  function HumanPrompt(context: string, message: string): string {
    ContextLabel + context + (QuestionLabel + message + AnswerInstruction)
  }

  /** The prompt carries both the context and the question. */
  lemma PromptShows(context: string, message: string)
    ensures Contains(HumanPrompt(context, message), message)
    ensures Contains(HumanPrompt(context, message), context)
  {
    var tail := QuestionLabel + message + AnswerInstruction;
    ContainsInfix(ContextLabel, context, tail);
    ContainsInfix(QuestionLabel, message, AnswerInstruction);
    ContainsInfix(ContextLabel + context, tail, []);
    assert ContextLabel + context + tail + [] == HumanPrompt(context, message);
    ContainsTransitive(HumanPrompt(context, message), tail, message);
  }

  /** `chat`: the model's answer to the system prompt and the question, or
      the fixed apology when the call fails. `llm` stands for the model and
      `system` for the instructions it is given, `SystemPrompt` in the
      chatbot. */
  function Reply(system: string, message: string, hits: seq<KbHit>, search: (string, nat) -> seq<BookRow>,
                 llm: (string, string) -> Result<string>): string {
    match llm(system, HumanPrompt(Context(message, hits, search), message))
    case Success(reply) => reply
    case Failure(_) => Apology
  }

  /** The chatbot's reply, with its own instructions. */
  function Chat(message: string, hits: seq<KbHit>, search: (string, nat) -> seq<BookRow>,
                llm: (string, string) -> Result<string>): string {
    Reply(SystemPrompt, message, hits, search, llm)
  }

  /** A failing model call never shows its error: the reply is the apology
      whatever the error says, and otherwise the model's own answer to a
      prompt that carries the question and the context. */
  lemma ChatSpec(system: string, message: string, hits: seq<KbHit>, search: (string, nat) -> seq<BookRow>,
                 llm: (string, string) -> Result<string>)
    ensures var prompt := HumanPrompt(Context(message, hits, search), message);
            Contains(prompt, message) && Contains(prompt, Context(message, hits, search))
            && (llm(system, prompt).Failure? ==> Reply(system, message, hits, search, llm) == Apology)
            && (llm(system, prompt).Success? ==> Reply(system, message, hits, search, llm) == llm(system, prompt).value)
  {
    PromptShows(Context(message, hits, search), message);
  }

  /** Two models that fail on the same prompt give the same reply, however
      their errors differ. */
  lemma ChatHidesErrors(system: string, message: string, hits: seq<KbHit>, search: (string, nat) -> seq<BookRow>,
                        llm1: (string, string) -> Result<string>, llm2: (string, string) -> Result<string>)
    requires llm1(system, HumanPrompt(Context(message, hits, search), message)).Failure?
    requires llm2(system, HumanPrompt(Context(message, hits, search), message)).Failure?
    ensures Reply(system, message, hits, search, llm1) == Reply(system, message, hits, search, llm2) == Apology
  {
  }
}
