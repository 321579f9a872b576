# Library chatbot of the Halubajska Zora library — a Dafny model

This project models the logic of the library chatbot. It covers:

- the catalogue scrapers: list page, record page and availability page;
- the library-website scraper;
- the SQLite book store;
- the three chat front ends: the keyword bot, the FastAPI answer generator and the LLM-backed bot.

Everything the program reaches over the network, and everything it asks a foreign engine, becomes a parameter of the model:

- an HTML page is an abstract datatype of the elements the code looks at (module `Html`);
- a request is a `Fetch` outcome, either a page or the error message of the exception;
- the catalogue search, the knowledge base and the language model are function parameters.

What is left is plain sequential code over strings, rows and records. It is modelled file by file:

| module | source file |
|---|---|
| `Availability` | scraper/availability_checker.py |
| `Faq` | chatbot/faq_data.py |
| `Bot` | chatbot/bot.py |
| `Api` | api/main.py |
| `AiChatbot` | chatbot/ai_chatbot.py |
| `BookDetail` | scraper/book_detail_parser.py |
| `LibraryScraper` | scraper/library_scraper.py |
| `WebsiteScraper` | scraper/website_scraper.py |
| `BookStore` | database/db_manager.py |

Four modules are shared:

- `Strings` holds Python's string operations: `lower`, `in`, `strip`, `split`, `join`, `replace` and `\w+` tokens.
- `Patterns` holds the regular expressions, each as an explicit leftmost search.
- `Retrieval` holds the keyword extraction, the per-keyword search loop and the de-duplication by id that the three chat front ends share.
- `Wrappers` holds `Option` and `Result`.

Where the code keeps state in loops, the model has a `method` with a loop, proved equal to a specification function. The source does this for the row walkers, the message builders, the FAQ scorer, the sectioning loop and the book store's insert loops.

`DatabaseManager` is a class. Its fields are the six tables, each a sequence of rows in rowid order.

## Model

| member | source | states |
|---|---|---|
| Availability.ParseTdStatus | scraper/availability_checker.py:446-510 | the borrowed icon wins over the available icon; a borrowed copy gets the first D.M.YYYY date of the cell text as due date and the note "Posuđeno do d"; text rules in order posuđeno/posudeno, then provjerite, else unknown with the cell text as note; only borrowed has a due date |
| Availability.BorrowedVerdict | scraper/availability_checker.py:453-476 | the due date, when there is one, is a whole date occurring in the text, and there is none exactly when no position starts a date |
| Availability.ParseRowStatus | scraper/availability_checker.py:202-263 | "posudbaLCP" anywhere in the status cell's markup gives an available e-book before any image test; a row is dropped exactly when it has fewer than 3 cells or no recognised signal; borrowed needs the borrowed icon |
| Availability.TdStatusOfCheckStatusText | scraper/availability_checker.py:492-500 | "provjerite status" without an image is available with the note "Dostupno (provjerite status)" |
| Availability.RowStatusOfCheckStatusText | scraper/availability_checker.py:248-259 | the row classifier reads the same text as unknown |
| Availability.ClassifiersDisagreeOnCheckStatus | scraper/availability_checker.py:213-259 | the two classifiers give different statuses for "provjerite status" |
| Availability.ClassifiersDisagreeOnUnrecognisedText | scraper/availability_checker.py:477-510 | unrecognised text is unknown for the cell classifier and dropped by the row classifier |
| Availability.TextOnlyBorrowedIsDroppedByRowStatus | scraper/availability_checker.py:213-259 | a text-only "Posuđeno" is borrowed for one classifier and dropped by the other |
| Availability.ExtractLocationName | scraper/availability_checker.py:186-200 | the result is stripped; text without a comma comes back stripped; if cleaning empties the text the result is the stripped text before the first comma; on one line the result is a stripped prefix of the input |
| Availability.ParseAjaxLocations | scraper/availability_checker.py:376-444 | the loop computes the row walk of the first table only |
| Availability.HandleAjaxRow | scraper/availability_checker.py:396-440 | one row: a "tel:" row sets the branch, a "Lokacija" header row is skipped, a data row under a branch adds one entry |
| Availability.AjaxWalkAppend | scraper/availability_checker.py:395-440 | walking two blocks of rows is walking the first and then the second from the branch the first left |
| Availability.NothingBeforeFirstTelRow | scraper/availability_checker.py:396-440 | rows walked with no branch and no "tel:" row among them add nothing and leave the branch unset |
| Availability.RowsBeforeFirstTelRowIgnored | scraper/availability_checker.py:396-440 | the rows before the first "tel:" row never matter |
| Availability.AjaxWalkLength | scraper/availability_checker.py:396-440 | each row adds at most one entry |
| Availability.AjaxWalkEntries | scraper/availability_checker.py:419-438 | every entry is "branch (first cell)" of one row with at least three cells read under a non-empty branch |
| Availability.FirstTblData | scraper/availability_checker.py:139-141 | the first table with class tblData, and none exactly when no table has it |
| Availability.TblDataLocations | scraper/availability_checker.py:139-184 | no tblData table gives []; an empty table is the UnboundLocalError; at most one entry, from the last row only, when it has three cells, is not hidden and its status parses |
| Availability.ParseLocations | scraper/availability_checker.py:139-184 | the loop only tracks the branch header; the result is `TblDataLocations` |
| Availability.OnlyLastRowIsExamined | scraper/availability_checker.py:166-183 | inserting a non-header row before the last row changes nothing |
| Availability.CheckAvailability | scraper/availability_checker.py:265-306 | the title comes from the title div, else "Nepoznato"; a failed page fetch gives title "Greška", no locations and the error; a failed AJAX post gives no locations and no error |
| Availability.FormatAvailabilityMessage | scraper/availability_checker.py:79-109 | the loop builds the message of `AvailabilityMessage`: the apology on error, the not-found sentence for no locations, else one block per location |
| Availability.AppendLocation | scraper/availability_checker.py:94-106 | the loop body appends exactly the location's block |
| Availability.BlocksStep | scraper/availability_checker.py:94-106 | the blocks of one more location are the old blocks followed by its block |
| Availability.BlocksContainEach | scraper/availability_checker.py:94-106 | every location's block is in the joined blocks |
| Availability.MessageShowsEveryLocation | scraper/availability_checker.py:79-109 | a report without an error shows every location's block |
| Availability.BorrowedBlockShowsDueDate | scraper/availability_checker.py:98-101 | a borrowed entry with a due date shows "Posuđeno (rok: d)" |
| Availability.FailedFetchMessages | scraper/availability_checker.py:79-90 | a failed page fetch always ends in the apology; a failed AJAX post ends in the not-found sentence with the title |
| Availability.CleanedWithoutComma | scraper/availability_checker.py:189-197 | without a comma neither substitution nor the split changes the text |
| Availability.CleanedSingleLine | scraper/availability_checker.py:189-197 | on one line the cleaned text and the first comma-piece are prefixes of the text |
| Patterns.FindDateSpec | scraper/availability_checker.py:458-460 | the date found is a whole date occurring in the text, and none is found exactly when no position starts one |
| Patterns.SearchIsLeftmost | scraper/availability_checker.py:458-460 | `re.search` returns the match at the leftmost index where one exists, and none exactly when no index matches |
| Patterns.RemoveSuffixesWithoutComma | scraper/availability_checker.py:189-190 | both substitutions leave text without a comma untouched |
| Patterns.RemoveTelSuffixSingleLine | scraper/availability_checker.py:189 | on one line the tel: substitution leaves a prefix |
| Patterns.RemoveNumberSuffixSingleLine | scraper/availability_checker.py:190 | on one line the house-number substitution leaves a prefix |
| Patterns.DateAt | scraper/availability_checker.py:458-460 | a date matched at an index occurs there and is a whole date, and none is matched exactly when no shape of date starts there |
| Patterns.SelectedIdAt | scraper/library_scraper.py:59-60 | the id matched at an index is a non-empty digit run occurring right after "selectedId=" |
| Patterns.YearAt | scraper/book_detail_parser.py:129-134 | a year matched at an index occurs there: four characters, "19" or "20" followed by two digits, with no word character just before or just after it |
| Patterns.PagesAt | scraper/book_detail_parser.py:144-149 | the page count matched at an index is a non-empty digit run occurring there |
| Patterns.RoleAt | scraper/book_detail_parser.py:98-102 | the role matched at an index sits between '[' and the first ']' on one line |
| Patterns.FoundOccurs | scraper/library_scraper.py:59-60 | what a search returns occurs in the searched text |
| Faq.SearchFaq | chatbot/faq_data.py:64-98 | the loops, the stable sort and the cut compute `SearchFaqSpec`; the threshold is unused |
| Faq.ScoreEntries | chatbot/faq_data.py:70-93 | the scoring loop keeps, in data order, each entry with a positive score together with that score |
| Faq.ScoreFaq | chatbot/faq_data.py:73-86 | the method computes the score: 2 per keyword found in the lower-cased query plus 1 per query word that is also a word of the question |
| Faq.CountKeywordHits | chatbot/faq_data.py:76-78 | the keyword loop adds two points per keyword found |
| Faq.CountWordHits | chatbot/faq_data.py:81-86 | the word loop adds one point per query word, counted with repetition, that is also a word of the question |
| Faq.KeywordHits | chatbot/faq_data.py:76-78 | at most one hit per keyword |
| Faq.WordHits | chatbot/faq_data.py:84-86 | at most one hit per query word |
| Faq.ScorePositive | chatbot/faq_data.py:73-88 | a score is positive exactly when some keyword occurs in the query or some query word is a word of the question |
| Faq.KeywordHitsPositive | chatbot/faq_data.py:76-78 | some keyword hits exactly when some lower-cased keyword occurs in the query |
| Faq.WordHitsPositive | chatbot/faq_data.py:84-86 | some word hits exactly when some query word is a word of the question |
| Faq.ScoredFromData | chatbot/faq_data.py:88-93 | every result is an entry's question and answer with its positive score |
| Faq.ScoredComplete | chatbot/faq_data.py:88-93 | every entry with a positive score is among the results before the sort |
| Faq.ScoredDistinct | chatbot/faq_data.py:72-93 | distinct questions give results with distinct questions |
| Faq.InsertByScore | chatbot/faq_data.py:96 | one insertion step adds exactly the element |
| Faq.InsertSorted | chatbot/faq_data.py:96 | inserting into a sorted list keeps it sorted and adds exactly the element |
| Faq.SortByScoreDescSpec | chatbot/faq_data.py:96 | the sort is non-increasing by score and a permutation |
| Faq.SortByScoreDescStable | chatbot/faq_data.py:96 | the sort is stable: the results of each score keep their order |
| Faq.SearchFaqSpecOrdered | chatbot/faq_data.py:96-98 | at most 3 results, in non-increasing score order |
| Faq.SearchFaqSpecFromData | chatbot/faq_data.py:88-98 | each result is an entry copied unchanged with a positive score |
| Faq.SearchFaqSpecKeepsOrder | chatbot/faq_data.py:96-98 | the results of one score are a prefix of that score's entries in data order |
| Faq.SearchFaqSpecDistinct | chatbot/faq_data.py:72-98 | with distinct questions no entry is returned twice |
| Faq.SearchFaqNoRepeats | chatbot/faq_data.py:5-98 | the built-in FAQ list has distinct questions, so no search repeats an entry |
| Faq.SearchFaqIgnoresCase | chatbot/faq_data.py:69 | the search does not see the case of the query |
| Faq.SearchFaqTopScore | chatbot/faq_data.py:96-98 | the first result reaches a positive bound exactly when some entry's score does |
| Retrieval.ExtractKeywordsSpec | chatbot/bot.py:234-246 | at most 3 keywords, each a `\w+` token of the lower-cased query longer than 2 characters and not a stop word, in order; fewer than 3 only when no further token qualifies |
| Retrieval.KeepKeywordsSpec | api/main.py:336 | a token is kept exactly when it is not a stop word and longer than 2 characters; the kept tokens keep their order |
| Retrieval.CollectBooks | chatbot/bot.py:123-126 | the loop extends the list with each keyword's search, in order |
| Retrieval.SearchedFrom | chatbot/bot.py:123-126 | a row is collected exactly when some keyword's search returned it |
| Retrieval.SearchedEmpty | chatbot/bot.py:123-132 | nothing is collected exactly when every search came back empty |
| Retrieval.DedupByIdSpec | chatbot/bot.py:129 | the dict comprehension keeps distinct ids in order of first appearance, and only input rows |
| Retrieval.DedupKeepsLast | chatbot/bot.py:129 | each kept row is the last input row with its id |
| Retrieval.UniqueBooks | chatbot/bot.py:129-130 | at most `cap` rows, distinct ids, all from the input, and non-empty for non-empty input and a positive cap; their ids are the first `cap` distinct ids of the input in order of first appearance |
| Retrieval.ListBooks | chatbot/bot.py:139-148 | the loop appends one block per book, in order |
| Retrieval.BlocksShowEach | chatbot/bot.py:139-148 | when every block shows a field of its book, the listing shows it for every book |
| Retrieval.IdIndex | chatbot/bot.py:129 | the position found holds the id, and -1 means no row has it |
| Bot.RoutePriority | chatbot/bot.py:39-66 | each of the six branches (library info, book search, recommendations, availability, knowledge base below distance 0.5, default reply) is taken exactly when its own test holds and no earlier test does |
| Bot.KakoIsLibraryInfo | chatbot/bot.py:45-46 | a message containing "kako" always goes to library information |
| Bot.ReadingAdviceIsLibraryInfo | chatbot/bot.py:53 | "što čitati" can never reach the recommendations branch, because its "što" is a library-information word |
| Bot.BookWordBeatsRecommendation | chatbot/bot.py:49-54 | a recommendation request with a book word goes to book search |
| Bot.SentenceCutSpec | chatbot/bot.py:221-222 | the cut is the prefix before the last ". ", or "" when there is none |
| Bot.CutAtLast | chatbot/bot.py:221-222 | splitting on a two-character separator and joining all pieces but the last gives a prefix of the text that ends at the last occurrence of the separator, with no occurrence after it, or "" when there is none |
| Bot.ShortenKbSpec | chatbot/bot.py:219-224 | short content is kept; long content becomes the text before the last ". " in the first 500 characters plus ".", so it always ends in "." and the "..." branch is unreachable |
| Bot.LibraryInfoSources | chatbot/bot.py:91-111 | the FAQ answers exactly when some entry scores at least 2; otherwise the knowledge base answers below distance 0.7, else the fixed fallback |
| Bot.HandleBookQuery | chatbot/bot.py:113-152 | the loops build the reply of `BookQueryReply` |
| Bot.BookQueryReplySpec | chatbot/bot.py:113-152 | no keywords gives the fixed prompt; otherwise at most 5 books with distinct ids, none exactly when every search came back empty, each taken from some keyword's search and its title shown in the reply; their ids are the first 5 distinct ids of the hits in order; no books gives the not-found text with the joined keywords and the catalogue link, else the reply is the header for that count, one block per book in order, and the closing hint |
| Bot.FoundHeaderSingular | chatbot/bot.py:137 | the header says "knjigu" exactly when it announces one book, "knjige" otherwise |
| Bot.HandleBookRecommendations | chatbot/bot.py:154-190 | the loops build the reply of `RecommendationsReply` |
| Bot.RecommendationsSpec | chatbot/bot.py:154-190 | keyword hits give at most 3 distinct books, the first 3 distinct ids of the hits in order; otherwise the first 3 popular books, else the fixed link |
| Bot.AvailabilityUsesFirstKeyword | chatbot/bot.py:192-207 | only the first keyword is searched |
| Bot.ProcessMessage | chatbot/bot.py:39-66 | the reply is the chosen branch's reply |
| Api.RouteOf | api/main.py:191-329 | the availability branch is taken exactly when the lowered message holds an availability word; the book-search branch only when the searches for the keywords found rows |
| Api.RoutePriority | api/main.py:191-329 | an availability word takes the availability branch, and only it does; the book-search branch is taken only when a search for one of the first two keywords found rows; a search word without an availability or recommendation word, whose searches found nothing, ends in one of the information, knowledge-base or welcome branches |
| Api.ReservationStartsAvailabilityCheck | api/main.py:193 | a question about reserving goes to the availability check |
| Api.AvailabilityChecksFirstHitOnly | api/main.py:196-208 | only the first hit of the first keyword is checked |
| Api.AvailabilityNamesMissingTitle | api/main.py:209-210 | with no hit, the answer names the first keyword |
| Api.RecommendPoolSpec | api/main.py:215-244 | at most 5 books with distinct ids, the first 5 distinct ids of the pool in order, from the keyword searches, else from the popular books |
| Api.KnowledgeAnswerSpec | api/main.py:315-322 | content up to 300 characters is kept whole, followed by the link; longer content is cut, so the answer starts with its first 300 characters, which do not hold all of it |
| Api.AnswerAvailability | api/main.py:193-212 | the branch computes `AvailabilityAnswer` |
| Api.AnswerRecommendations | api/main.py:215-244 | the branch computes `RecommendAnswer` |
| Api.AnswerBookSearch | api/main.py:288-312 | the branch answers exactly when the keyword searches found rows; otherwise control falls through |
| Api.AnswerFromKnowledgeBase | api/main.py:317-322 | the branch computes `KnowledgeAnswer` |
| Api.GenerateResponse | api/main.py:188-329 | the answer is the chosen branch's answer |
| Api.ChatOutcomes | api/main.py:113-131 | the chat endpoint never answers 400: a blank message gets a 500 with the HTTPException's text, any other error a 500, and otherwise the generated answer for the stripped message |
| Api.GetBookOutcomes | api/main.py:152-168 | a missing book is a 404 that survives; other failures are 500 |
| Api.SearchBooksEndpoint | api/main.py:134-149 | the body is the query, the rows and their count; a failure is a 500 with its text |
| Api.AvailabilityEndpoint | api/main.py:102-111 | the body is the checker's report; a failure is a 500 with its text |
| AiChatbot.KeywordsSpec | chatbot/ai_chatbot.py:190-209 | at most 3 keywords, each a word token longer than 2 characters and not a stop word, in order; "knjigu" and "nekakva" are never keywords |
| AiChatbot.KbEntriesSpec | chatbot/ai_chatbot.py:106-109 | one entry per hit, in order |
| AiChatbot.KbEntrySpec | chatbot/ai_chatbot.py:107-109 | an entry shows its title, "N/A" when missing, and at most the first 300 characters of the content |
| AiChatbot.KbSectionSpec | chatbot/ai_chatbot.py:104-109 | the section exists exactly when the top hit is closer than 0.7, and holds the header and at most 2 entries |
| AiChatbot.BookInfoShowsTitle | chatbot/ai_chatbot.py:127-131 | a catalogue line shows the title |
| AiChatbot.BookInfosSpec | chatbot/ai_chatbot.py:126-132 | one line per listed book, in order |
| AiChatbot.CatalogueSectionSpec | chatbot/ai_chatbot.py:112-132 | the section exists exactly when the query is a book query with keywords and hits; at most 5 books with distinct ids from the searches, the first 5 distinct ids of the hits in order |
| AiChatbot.ContextEmptyIff | chatbot/ai_chatbot.py:134-137 | the fixed notice is returned exactly when there is neither a close hit nor a catalogue book |
| AiChatbot.JoinIsNotNotice | chatbot/ai_chatbot.py:134-137 | joined parts that start with a section header are never the notice |
| AiChatbot.JoinShowsParts | chatbot/ai_chatbot.py:137 | the joined context contains every part and starts with the first |
| AiChatbot.ContextShowsKnowledge | chatbot/ai_chatbot.py:104-109 | with a close hit the context starts with the knowledge-base header and shows the first two entries |
| AiChatbot.KnowledgeShown | chatbot/ai_chatbot.py:104-109 | whatever follows it, a knowledge-base section starts the joined context with its header and shows the first two entries |
| AiChatbot.BookShown | chatbot/ai_chatbot.py:125-137 | whatever precedes it, a catalogue section shows the title of every listed book in the joined context |
| AiChatbot.ContextShowsBooks | chatbot/ai_chatbot.py:125-132 | every listed book's title is in the context |
| AiChatbot.GatherKnowledge | chatbot/ai_chatbot.py:102-109 | the first loop computes the knowledge-base section |
| AiChatbot.GatherCatalogue | chatbot/ai_chatbot.py:112-132 | the second loop computes the catalogue section |
| AiChatbot.ListInfos | chatbot/ai_chatbot.py:126-132 | the inner loop writes one line per listed book |
| AiChatbot.GatherContext | chatbot/ai_chatbot.py:96-137 | the method computes `Context` |
| AiChatbot.PromptShows | chatbot/ai_chatbot.py:77-86 | the prompt carries both the context and the question |
| AiChatbot.ChatSpec | chatbot/ai_chatbot.py:59-94 | for any system instructions, the prompt carries the question and the context, and the reply is the model's answer to it, or the fixed apology when the call fails |
| AiChatbot.ChatHidesErrors | chatbot/ai_chatbot.py:88-94 | the error text never reaches the reply |
| BookDetail.FirstOfSpec | scraper/book_detail_parser.py:73-84 | a first-match extractor returns the value of the first accepted row, and nothing exactly when no row is accepted |
| BookDetail.CollectedSpec | scraper/book_detail_parser.py:241-251 | a list extractor collects a value exactly when some row yields it |
| BookDetail.CollectedAppend | scraper/book_detail_parser.py:241-251 | collecting over two blocks of rows concatenates |
| BookDetail.CollectRows | scraper/book_detail_parser.py:86-107 | the loop of a list extractor computes `Collected` |
| BookDetail.TitleSources | scraper/book_detail_parser.py:58-71 | the name span first, then the title div's hidden span, else "N/A" |
| BookDetail.AuthorSpec | scraper/book_detail_parser.py:73-84 | the author link of the first "Autor" row that has one; rows without a link are skipped; "N/A" when none |
| BookDetail.OtherAuthorsSpec | scraper/book_detail_parser.py:86-107 | one "name (role)" per "Ostali autori" row with a link, in order |
| BookDetail.RoleSpec | scraper/book_detail_parser.py:98-102 | the role is the text of the leftmost [...] of the value (no earlier index starts one), and "contributor" exactly when there is none |
| BookDetail.YearInSpec | scraper/book_detail_parser.py:122-135 | a year found in a row comes from a "Nakladnik" row with a value, has four characters starting with 19 or 20 followed by digits, and occurs in the value's text at the leftmost index where such a year stands with no word character on either side |
| BookDetail.YearSpec | scraper/book_detail_parser.py:122-135 | the year is "N/A" exactly when no row holds one; otherwise it is the 19xx/20xx of the first row that holds one, a "Nakladnik" row whose value text contains it |
| BookDetail.PagesSpec | scraper/book_detail_parser.py:137-150 | the pages are "N/A" exactly when no row holds a page count; otherwise they are the non-empty digit run of the first row that holds one, a "Materijalni opis" row whose stripped value text contains it |
| BookDetail.PagesInSpec | scraper/book_detail_parser.py:137-150 | pages found in a row come from a "Materijalni opis" row with a value and are a non-empty digit run occurring in its text |
| BookDetail.LanguageSpec | scraper/book_detail_parser.py:159-168 | the language is the value of the first row labelled exactly "Jezik" that has a value, and there is none exactly when no such row has a value |
| BookDetail.MaterialInSpec | scraper/book_detail_parser.py:230-239 | a row gives a material type exactly when it is labelled "Građa" and has a value, and the type has no line break |
| BookDetail.MaterialTypeSpec | scraper/book_detail_parser.py:230-239 | the material type needs the exact label "Građa" and has no line break |
| BookDetail.ReplaceLineBreaks | scraper/book_detail_parser.py:238 | replacing every line break by a space leaves none |
| BookDetail.ClassificationSpec | scraper/book_detail_parser.py:197-218 | the description is the value text with every occurrence of the code removed, stripped |
| BookDetail.NotesSpec | scraper/book_detail_parser.py:241-251 | notes come from every row whose label contains "Napomena", in order |
| BookDetail.Tags | scraper/book_detail_parser.py:220-228 | no tag div gives []; otherwise one text per link, in order |
| BookDetail.ExtractTags | scraper/book_detail_parser.py:220-228 | the loop computes `Tags` |
| BookDetail.GatherRows | scraper/book_detail_parser.py:176-193 | a loop with a collecting flag, whatever turns it on, stops it or picks a value, computes `Gathered` from a flag that starts off |
| BookDetail.ExtractSubjects | scraper/book_detail_parser.py:170-195 | the loop with its collecting flag computes `SubjectsFrom` |
| BookDetail.SubjectsWhileCollecting | scraper/book_detail_parser.py:180-193 | once collecting, whatever the tests are, the loop gathers the picked values of the rows before the first stopping row |
| BookDetail.SubjectsBeforeStart | scraper/book_detail_parser.py:180-193 | whatever the tests are, rows before the first starting row contribute nothing |
| BookDetail.SubjectsSpec | scraper/book_detail_parser.py:170-195 | the subjects are the links of the rows from the first "Predmetna odrednica" row up to the first row with another non-empty label, which contributes nothing |
| BookDetail.FirstWhere | scraper/book_detail_parser.py:180-193 | the first index where the test holds, or the length |
| BookDetail.ParseBookDetail | scraper/book_detail_parser.py:24-56 | a failed request gives exactly the id and the error; otherwise every field |
| BookDetail.ParseKeepsId | scraper/book_detail_parser.py:24-56 | every parse keeps the id; a parsed record's url starts with the base url and carries "selectedId=" and the id |
| LibraryScraper.BookTitleSpec | scraper/library_scraper.py:53-72 | no image gives None; the title is the alt text before the first " / ", stripped; full_info is the alt text and url is base + "/pagesResults/" + href |
| LibraryScraper.BookAuthorSpec | scraper/library_scraper.py:62-64 | "N/A" without " / "; otherwise the second segment up to its first ';', stripped |
| LibraryScraper.BookIdSpec | scraper/library_scraper.py:59-60 | the id is the leftmost digit run after "selectedId=", and None exactly when there is none |
| LibraryScraper.GetNewBooks | scraper/library_scraper.py:80-106 | the loop with its seen-id set computes `NewBooks` |
| LibraryScraper.KeepNewBooks | scraper/library_scraper.py:89-99 | the loop over links computes `NewBooksFrom` |
| LibraryScraper.NewBooksStep | scraper/library_scraper.py:89-99 | one link more either adds a book with a new id or nothing |
| LibraryScraper.NewBooksFresh | scraper/library_scraper.py:89-99 | no id already seen is added again |
| LibraryScraper.NewBooksBound | scraper/library_scraper.py:97-99 | the cap is checked after appending, so the list is at most max(max_books, 1) long |
| LibraryScraper.NewBooksOrigin | scraper/library_scraper.py:89-99 | each book comes from a link |
| LibraryScraper.NewBooksComplete | scraper/library_scraper.py:89-99 | below the cap every link's id is present |
| LibraryScraper.NewBooksSpec | scraper/library_scraper.py:80-106 | ids pairwise distinct, length at most max(max_books, 1), each from a link, complete below the cap; a failed fetch gives [] |
| LibraryScraper.KeptInOrder | scraper/library_scraper.py:89-99 | over the parsed records: the kept books are, at increasing positions, the first record of each new id, and every record before the last kept book has its id kept |
| LibraryScraper.NewBooksInLinkOrder | scraper/library_scraper.py:80-106 | the books are in link order; each is what its link reads, no earlier link reads the same id, and every link before the last kept book reads an id that was kept |
| LibraryScraper.ScrapeCatalogFull | scraper/library_scraper.py:108-148 | one merged record per basic book, in order |
| LibraryScraper.SetSpec | scraper/library_scraper.py:157-171 | setting a key gives it the value, keeps the others and keeps keys distinct |
| LibraryScraper.MergeSpec | scraper/library_scraper.py:139 | {**a, **b}: keys distinct, b's keys get b's values, other keys keep a's |
| LibraryScraper.BasicKeys | scraper/library_scraper.py:66-72 | a basic record has the five keys, distinct |
| LibraryScraper.DetailKeysSpec | scraper/book_detail_parser.py:34-52 | a detail record has the fifteen keys, or id and error |
| LibraryScraper.MergedSpec | scraper/library_scraper.py:139 | the merged record has distinct keys and the detail's values override |
| LibraryScraper.MergedKeeps | scraper/library_scraper.py:139 | full_info and id survive the merge; on a parse error the basic title is kept and the error added |
| LibraryScraper.FirstDict | scraper/library_scraper.py:160-166 | the index of the first dict in a list, or none |
| LibraryScraper.FirstDictIs | scraper/library_scraper.py:160-166 | the index found holds a dict and none before it does |
| LibraryScraper.FlattenFieldSpec | scraper/library_scraper.py:157-171 | non-lists unchanged; [] becomes ""; strings joined with " \| "; a list starting with a dict becomes the `str` of each element joined with " \| "; a dict at a later index after strings raises the TypeError naming that index; a success holds no list |
| LibraryScraper.FlattenRecordSpec | scraper/library_scraper.py:157-171 | same keys, each value flattened, no list left |
| LibraryScraper.FlattenBook | scraper/library_scraper.py:156-171 | the loop over the copy computes `FlattenRecord` |
| LibraryScraper.FlattenFailureStays | scraper/library_scraper.py:157-171 | once a value fails, the record fails |
| LibraryScraper.CsvRowsSpec | scraper/library_scraper.py:150-175 | one flattened row per book, in order, or the first failure |
| LibraryScraper.SaveToCsv | scraper/library_scraper.py:150-175 | the loop computes `CsvRows`; no books gives no rows |
| LibraryScraper.CsvFailureStays | scraper/library_scraper.py:155-171 | once a book fails, the whole save fails |
| LibraryScraper.ReprPlain | scraper/library_scraper.py:164 | str() of a plain printable string is it in single quotes |
| WebsiteScraper.CutSections | scraper/website_scraper.py:46-67 | the loop with its current section computes `Sections` |
| WebsiteScraper.SectionsSpec | scraper/website_scraper.py:46-67 | one section per h2/h3/h4 in order, titled by its stripped text; the contents of all sections together are the non-empty texts after the first heading, in order; without a heading there are no sections |
| WebsiteScraper.SectionAt | scraper/website_scraper.py:50-67 | the section of a heading sits at that heading's position among the headings, and its content is exactly the non-empty texts of the elements between it and the next heading (or the end) |
| WebsiteScraper.TitlesLength | scraper/website_scraper.py:49-67 | one title per section |
| WebsiteScraper.NoHeadingNoSections | scraper/website_scraper.py:59-63 | without a heading there are no sections |
| WebsiteScraper.WalkTitles | scraper/website_scraper.py:50-58 | the walk's titles are the headings' titles |
| WebsiteScraper.WalkContent | scraper/website_scraper.py:59-63 | the walk's content is the non-empty texts after a heading |
| WebsiteScraper.ScrapeMembershipInfo | scraper/website_scraper.py:23-80 | the method computes `MembershipInfo` |
| WebsiteScraper.MembershipInfoSpec | scraper/website_scraper.py:33-73 | div.entry-content, else article, else None; the record has the full text and the sections |
| WebsiteScraper.ScrapeMultiplePages | scraper/website_scraper.py:82-114 | the loop computes `PagesFrom` |
| WebsiteScraper.ReadPage | scraper/website_scraper.py:89-104 | the body of the loop gives the entry `PageEntry` defines for one url's response |
| WebsiteScraper.PagesSpec | scraper/website_scraper.py:86-114 | no more entries than urls; an entry is present exactly when some url's page gives it |
| WebsiteScraper.PagesInUrlOrder | scraper/website_scraper.py:86-114 | the entries are, in url order, exactly those of the urls whose page gives one: one entry per such url, none for the others |
| WebsiteScraper.PageEntrySpec | scraper/website_scraper.py:93-104 | the title is h1, else title, else "Untitled" |
| BookStore.DatabaseManager.constructor | database/db_manager.py:19-24 | a new database has empty tables |
| BookStore.DatabaseManager.InsertBook | database/db_manager.py:126-209 | true exactly when there is a title, and the tables become `Inserted`; false leaves them unchanged (rollback) |
| BookStore.DatabaseManager.ImportFromJson | database/db_manager.py:211-227 | the count is the number of books with a title and the tables are those after inserting them in order; an unreadable file gives 0 |
| BookStore.DatabaseManager.SearchBooks | database/db_manager.py:229-243 | the rows of `SearchResult`: matching rows in table order, limited |
| BookStore.DatabaseManager.GetBookById | database/db_manager.py:245-282 | the book's row with its authors, subjects and tags, or None for an unknown id |
| BookStore.DatabaseManager.GetAllBooks | database/db_manager.py:284-292 | a prefix of the table of at most `limit` rows, all of it for a negative limit |
| BookStore.AuthorRows | database/db_manager.py:160-172 | the author loop inserts one parsed author per entry, in order |
| BookStore.ClassificationRows | database/db_manager.py:189-194 | the classification loop inserts one row per dict, skipping other values |
| BookStore.LinkAll | database/db_manager.py:175-201 | the subject, tag and note loops insert one row per value, in order |
| BookStore.WithoutId | database/db_manager.py:130-148 | INSERT OR REPLACE removes exactly the rows with the same non-null id |
| BookStore.Unlinked | database/db_manager.py:153-157 | DELETE ... WHERE book_id = ? removes exactly the rows linked to that id |
| BookStore.InsertedBooks | database/db_manager.py:130-148 | ids stay unique, the new row is what its id finds, other ids find what they found before, and a null id adds a row |
| BookStore.RelinkedSpec | database/db_manager.py:152-201 | after an insert the linked rows of its id are exactly the new ones, with nothing left from earlier inserts; other ids keep theirs |
| BookStore.InsertThenView | database/db_manager.py:126-282 | reading a book back after inserting it gives its row, its authors parsed and formatted again, its subjects and its tags; other books read back as before |
| BookStore.AuthorRoundTrip | database/db_manager.py:160-172 | "Name (role)" with a stripped name and role and no parentheses inside comes back unchanged after parsing and "name (role)" formatting |
| BookStore.AuthorWithoutRole | database/db_manager.py:167-169 | a text without '(' is the name unchanged with the role "contributor", and reads back as "Name (contributor)" |
| BookStore.FindBookSpec | database/db_manager.py:249-253 | a row is found exactly when some row has the id, and it has that id |
| BookStore.FindBookUnique | database/db_manager.py:249-253 | with unique ids the row found is the one with the id |
| BookStore.WithoutIdSpec | database/db_manager.py:130-148 | removing by id keeps ids unique; NULL removes nothing |
| BookStore.LikeContains | database/db_manager.py:232-236 | for a query without wildcards, "%q%" matches exactly when the text contains the query up to ASCII case |
| BookStore.LikeLeadingPercent | database/db_manager.py:232-236 | a leading '%' lets the rest match any suffix |
| BookStore.LikePrefix | database/db_manager.py:232-236 | a wildcard-free pattern followed by '%' matches exactly the texts that start with it up to ASCII case |
| BookStore.MatchingSpec | database/db_manager.py:232-236 | a row is selected exactly when its title, author or isbn matches |
| BookStore.SearchSpec | database/db_manager.py:229-243 | every row matches; at most `limit` rows for a non-negative limit; a prefix of the matching rows, and all of them when the limit allows |
| BookStore.ImportAllSpec | database/db_manager.py:211-227 | importing keeps ids unique and leaves every book whose id is not imported as it was |

## Left out

- Network access: every request (`requests.Session`, its headers, cookies, timeouts, `raise_for_status`, the random delays and `time.sleep`) is a `Fetch` outcome given to the model.
- HTML parsing: BeautifulSoup is replaced by datatypes holding only what the code reads. A cell has its text nodes, raw markup, image source and classes. A detail row has its label, value and links. The nested `find_all` subtleties are not modelled.
- Logging, `print`, `traceback.print_exc` and the debug dump of the AJAX response are not modelled.
- The first `check_availability` (scraper/availability_checker.py:24-77) is not modelled, because the second definition shadows it.
- The AJAX POST request itself (scraper/availability_checker.py:308-369) is a `Fetch` of the tables it returns.
- `chatbot/knowledge_base.py` is not part of this model: knowledge-base hits enter as a list of contents with optional distances and titles. The knowledge base always sets `distance`, so the `None` case (read as 1.0, as a missing key would be) does not arise from it; a distance present but `None` would raise `TypeError` in the comparison and is not modelled.
- Retrieval: a book row's `id` is a string. The `id` column is a `TEXT PRIMARY KEY`, which SQLite lets be NULL, so a search hit with a NULL id is possible there but not represented in the chatbots' model.
- The language model of `chatbot/ai_chatbot.py` is a function parameter whose failure is a `Failure`. The system prompt is the `system` parameter of `Reply`; `Chat` passes the chatbot's own text, kept as a constant.
- FastAPI: the app, CORS, static files, the startup and shutdown hooks and the route matching are not modelled. Endpoints are functions from the outcome of their calls to a body or an HTTP error.
- Python's `.lower()` is modelled on ASCII, Latin-1 and the Croatian letters only. `\w` is ASCII letters, digits and '_' plus the Latin-1 and Latin Extended-A letters. `\d` and `isdigit` are the ASCII digits 0-9 only (`IsDigit`), while Python also accepts the other Unicode decimal digits. Other Unicode case mappings are not modelled.
- pandas CSV writing and `json.dump`/`json.load` are not modelled: `save_to_csv` is modelled up to the flattened rows, and `import_from_json` takes the parsed list or the failure to read it. Both `save_to_json` functions are left out.
- LibraryScraper.ReprPlain: `str()` of a list element is modelled as Python's `repr` of a string only for printable ASCII and the escapes of control characters. Non-printable Unicode characters are not modelled.
- LibraryScraper.FlattenFieldSpec: list elements are strings or string dicts, since the scraper builds only those. Numbers or nested lists inside lists are not modelled.
- LibraryScraper.ScrapeCatalogFull: the `delay` argument and `time.sleep` are not modelled, and neither is the `except` branch of the detail loop (scraper/library_scraper.py:143-146). The parser catches every error of its own, but a negative or NaN `delay` makes `time.sleep` raise inside the `try` after the merged record was appended, so the basic record is appended as well and the list gets two records for that book (for three books, `[merged1, basic1, merged2, basic2, merged3]`). The model is the behaviour for a valid delay: one merged record per book.
- LibraryScraper.KeepNewBooks takes the link reader as a parameter; `GetNewBooks` passes the real one.
- BookStore: the `created_at` and `updated_at` timestamps are not modelled.
- BookStore: the INTEGER affinity of `pages` is not modelled; values are stored as text.
- BookStore: the `book_availability` table is not modelled, because nothing writes to it.
- BookStore: reopening an existing database file is not modelled; the model starts from empty tables.
- BookStore: the SQLite engine is modelled only as far as the code relies on it. `SELECT` without `ORDER BY` returns rows in rowid order, which is what a plain table scan does. `INSERT OR REPLACE` deletes the conflicting row and appends the new one. `LIKE` folds only ASCII case.
- BookStore.DatabaseManager.InsertBook: the only failure modelled is the missing title, which violates `NOT NULL`. Input dicts are modelled with string values and list-valued list keys; other shapes would raise inside the transaction and roll it back.
- BookStore.DatabaseManager.ImportFromJson: a JSON document that is not a list of dicts is not modelled.
- The interactive `__main__` loops, `test_connection` and the exploration scripts under scraper/ are not modelled.
