/** The FAQ search: each question is scored against the user's query by
    keyword hits and shared words, the scored entries are sorted by score,
    highest first, keeping their order on ties, and the first three are
    returned. */
module Faq {
  import opened Strings

  datatype FaqEntry = FaqEntry(question: string, answer: string, keywords: seq<string>)

  /** One result: the entry's question and answer with its score. */
  datatype FaqResult = FaqResult(question: string, answer: string, score: nat)

  const FaqData: seq<FaqEntry> := [
    FaqEntry("Kako se učlaniti u knjižnicu?",
             "Za učlanjenje u Narodnu knjižnicu Halubajska Zora potrebna vam je osobna iskaznica i ispunjena pristupnica. Članarina se plaća godišnje, a cijena ovisi o kategoriji (djeca, studenti, odrasli, umirovljenici).",
             ["učlanjenje", "članarina", "pristupnica", "iskaznica", "upis"]),
    FaqEntry("Koliko knjiga mogu posuditi odjednom?",
             "Članovi mogu posuditi do 4 knjige istovremeno. Rok posudbe je 30 dana, s mogućnošću produženja ako knjiga nije rezervirana.",
             ["posudba", "broj knjiga", "koliko", "limit", "4 knjige"]),
    FaqEntry("Kako mogu produžiti posudbu?",
             "Posudbu možete produžiti online putem sustava 'Moja iskaznica', telefonski ili osobno u knjižnici. Produženje je moguće ako knjiga nije rezervirana od strane drugog člana.",
             ["produženje", "produži", "rok", "vratiti"]),
    FaqEntry("Što ako kasnim s vraćanjem knjige?",
             "Za svaki dan kašnjenja naplaćuje se kazna. Cijena kazne ovisi o vrsti građe. Preporučujemo pravovremeno vraćanje ili produženje posudbe.",
             ["kašnjenje", "kazna", "zakasnio", "nisam vratio"]),
    FaqEntry("Koje su radne vrijeme knjižnice?",
             "Knjižnica radi radnim danima od 8:00 do 20:00, subotom od 8:00 do 14:00. Nedjeljom i praznikom je zatvoreno. Preporučujemo provjeru na web stranici za točne informacije.",
             ["radno vrijeme", "kada radi", "otvoreno", "zatvoreno", "subota"]),
    FaqEntry("Kako mogu rezervirati knjigu?",
             "Knjige možete rezervirati online kroz katalog ili telefonski. Kada knjiga bude dostupna, dobit ćete obavijest emailom ili SMS-om.",
             ["rezervacija", "rezerviraj", "naruči", "čekanje"]),
    FaqEntry("Ima li knjižnica e-knjige?",
             "Da! Knjižnica nudi pristup digitalnim knjigama i audioknjigama putem platforme ZaKi Book. Članovi mogu posuditi do 4 naslova mjesečno na 4 uređaja.",
             ["e-knjige", "digitalne knjige", "audioknige", "online", "elektronske"]),
    FaqEntry("Mogu li koristiti računala u knjižnici?",
             "Da, knjižnica ima računala za javnu upotrebu. Potrebna je rezervacija, a korisnici mogu koristiti internet, Office pakete i pisače.",
             ["računala", "internet", "wifi", "printer", "PC"]),
    FaqEntry("Gdje se nalazi knjižnica?",
             "Narodna knjižnica i čitaonica Halubajska Zora nalazi se u Rijeci. Točnu adresu i upute za dolazak možete pronaći na web stranici knjižnice.",
             ["lokacija", "adresa", "gdje je", "kako doći", "rijeka"]),
    FaqEntry("Ima li programa za djecu?",
             "Da! Knjižnica organizira brojne programe za djecu: čitaonice, radionice, pripovijedanja, tematske izložbe i književne kvizove. Kalendar događanja možete pratiti na web stranici.",
             ["djeca", "program", "radionice", "događanja", "aktivnosti"])
  ]

  // ---------------------------------------------------------------------
  // The score

  /** How many keywords, lower-cased, occur in the lower-cased query. */
  function KeywordHits(keywords: seq<string>, queryLower: string): (n: nat)
    ensures n <= |keywords|
  {
    if keywords == [] then 0
    else
      KeywordHits(keywords[..|keywords| - 1], queryLower)
      + (if Contains(queryLower, Lower(keywords[|keywords| - 1])) then 1 else 0)
  }

  /** How many query words, counted with repetition, are words of the
      question. */
  function WordHits(queryWords: seq<string>, questionWords: seq<string>): (n: nat)
    ensures n <= |queryWords|
  {
    if queryWords == [] then 0
    else
      WordHits(queryWords[..|queryWords| - 1], questionWords)
      + (if queryWords[|queryWords| - 1] in questionWords then 1 else 0)
  }

  /** Two points per keyword found in the query, one per query word that
      is also a word of the question. */
  function Score(faq: FaqEntry, queryLower: string): nat {
    2 * KeywordHits(faq.keywords, queryLower)
    + WordHits(Words(queryLower), Words(Lower(faq.question)))
  }

  /** The keyword loop of `search_faq`: two points per keyword found. */
  method CountKeywordHits(keywords: seq<string>, queryLower: string) returns (points: nat)
    ensures points == 2 * KeywordHits(keywords, queryLower)
  {
    points := 0;
    var i := 0;
    while i < |keywords|
      invariant 0 <= i <= |keywords|
      invariant points == 2 * KeywordHits(keywords[..i], queryLower)
    {
      assert keywords[..i + 1][..i] == keywords[..i];
      if Contains(queryLower, Lower(keywords[i])) {
        points := points + 2;
      }
      i := i + 1;
    }
    assert keywords[..i] == keywords;
  }

  /** The word loop of `search_faq`: one point per query word that is a
      word of the question. */
  method CountWordHits(queryWords: seq<string>, questionWords: seq<string>) returns (points: nat)
    ensures points == WordHits(queryWords, questionWords)
  {
    points := 0;
    var j := 0;
    while j < |queryWords|
      invariant 0 <= j <= |queryWords|
      invariant points == WordHits(queryWords[..j], questionWords)
    {
      assert queryWords[..j + 1][..j] == queryWords[..j];
      if queryWords[j] in questionWords {
        points := points + 1;
      }
      j := j + 1;
    }
    assert queryWords[..j] == queryWords;
  }

  /** The score of one entry, as `search_faq` computes it. */
  method ScoreFaq(faq: FaqEntry, queryLower: string) returns (score: nat)
    ensures score == Score(faq, queryLower)
  {
    var keywordPoints := CountKeywordHits(faq.keywords, queryLower);
    var wordPoints := CountWordHits(Words(queryLower), Words(Lower(faq.question)));
    score := keywordPoints + wordPoints;
  }

  /** A score is positive exactly when some keyword or some query word
      matches. */
  lemma {:induction false} ScorePositive(faq: FaqEntry, queryLower: string)
    ensures Score(faq, queryLower) > 0 <==>
              (exists k :: k in faq.keywords && Contains(queryLower, Lower(k)))
              || (exists w :: w in Words(queryLower) && w in Words(Lower(faq.question)))
  {
    KeywordHitsPositive(faq.keywords, queryLower);
    WordHitsPositive(Words(queryLower), Words(Lower(faq.question)));
  }

  lemma {:induction false} KeywordHitsPositive(keywords: seq<string>, queryLower: string)
    ensures KeywordHits(keywords, queryLower) > 0 <==> exists k :: k in keywords && Contains(queryLower, Lower(k))
    decreases |keywords|
  {
    if keywords != [] {
      var init := keywords[..|keywords| - 1];
      KeywordHitsPositive(init, queryLower);
      assert keywords == init + [keywords[|keywords| - 1]];
    }
  }

  lemma {:induction false} WordHitsPositive(queryWords: seq<string>, questionWords: seq<string>)
    ensures WordHits(queryWords, questionWords) > 0 <==> exists w :: w in queryWords && w in questionWords
    decreases |queryWords|
  {
    if queryWords != [] {
      var init := queryWords[..|queryWords| - 1];
      WordHitsPositive(init, questionWords);
      assert queryWords == init + [queryWords[|queryWords| - 1]];
    }
  }

  // ---------------------------------------------------------------------
  // Scoring every entry

  /** The score of each entry for one lower-cased query. */
  function ScoreOf(queryLower: string): FaqEntry -> nat {
    faq => Score(faq, queryLower)
  }

  /** The result an entry gives under a scoring. */
  function ResultOf(faq: FaqEntry, score: FaqEntry -> nat): FaqResult {
    FaqResult(faq.question, faq.answer, score(faq))
  }

  /** The entries with a positive score, in their own order. */
  function Scored(data: seq<FaqEntry>, score: FaqEntry -> nat): seq<FaqResult> {
    if data == [] then []
    else
      var last := ResultOf(data[|data| - 1], score);
      Scored(data[..|data| - 1], score) + (if last.score > 0 then [last] else [])
  }

  /** Every scored result is some entry's, with a positive score. */
  lemma {:induction false} ScoredFromData(data: seq<FaqEntry>, score: FaqEntry -> nat)
    ensures forall y :: y in Scored(data, score) ==>
              y.score > 0 && exists k :: 0 <= k < |data| && y == ResultOf(data[k], score)
    decreases |data|
  {
    if data != [] {
      var init := data[..|data| - 1];
      ScoredFromData(init, score);
      forall y | y in Scored(data, score)
        ensures y.score > 0 && exists k :: 0 <= k < |data| && y == ResultOf(data[k], score)
      {
        if y in Scored(init, score) {
          var k :| 0 <= k < |init| && y == ResultOf(init[k], score);
          assert init[k] == data[k];
        } else {
          assert y == ResultOf(data[|data| - 1], score);
        }
      }
    }
  }

  /** No two entries share a question. */
  predicate DistinctQuestions(data: seq<FaqEntry>) {
    forall i, j :: 0 <= i < j < |data| ==> data[i].question != data[j].question
  }

  /** No two results share a question. */
  predicate DistinctResults(rs: seq<FaqResult>) {
    forall i, j :: 0 <= i < j < |rs| ==> rs[i].question != rs[j].question
  }

  lemma {:induction false} ScoredDistinct(data: seq<FaqEntry>, score: FaqEntry -> nat)
    requires DistinctQuestions(data)
    ensures DistinctResults(Scored(data, score))
    decreases |data|
  {
    if data != [] {
      var init := data[..|data| - 1];
      var last := ResultOf(data[|data| - 1], score);
      assert DistinctQuestions(init);
      ScoredDistinct(init, score);
      LastQuestionIsNew(data, score);
      if last.score > 0 {
        DistinctSnoc(Scored(init, score), last);
      }
    }
  }

  /** No result scored from the entries before the last one shares the last
      entry's question. */
  lemma LastQuestionIsNew(data: seq<FaqEntry>, score: FaqEntry -> nat)
    requires data != [] && DistinctQuestions(data)
    ensures forall y :: y in Scored(data[..|data| - 1], score) ==> y.question != data[|data| - 1].question
  {
    var init := data[..|data| - 1];
    ScoredFromData(init, score);
    forall y | y in Scored(init, score) ensures y.question != data[|data| - 1].question {
      var k :| 0 <= k < |init| && y == ResultOf(init[k], score);
      assert init[k] == data[k];
    }
  }

  /** A result with a new question keeps the questions distinct. */
  lemma DistinctSnoc(s: seq<FaqResult>, x: FaqResult)
    requires DistinctResults(s)
    requires forall y :: y in s ==> y.question != x.question
    ensures DistinctResults(s + [x])
  {
    var r := s + [x];
    forall i, j | 0 <= i < j < |r| ensures r[i].question != r[j].question {
      if j == |s| {
        assert r[i] == s[i];
      } else {
        assert r[i] == s[i] && r[j] == s[j];
      }
    }
  }

  // ---------------------------------------------------------------------
  // The stable sort by score, highest first (`list.sort(key, reverse=True)`)

  /** Puts `x` after every element of the sorted `s` whose score is at
      least its own. */
  function InsertByScore(x: FaqResult, s: seq<FaqResult>): (r: seq<FaqResult>)
    ensures |r| == |s| + 1
    ensures forall y :: y in r ==> y == x || y in s
    ensures x in r && forall y :: y in s ==> y in r
  {
    if s == [] then [x]
    else if s[0].score < x.score then [x] + s
    else [s[0]] + InsertByScore(x, s[1..])
  }

  /** Python's stable `sort(key=score, reverse=True)`: insertion from left to
      right, each element going after the equal scores already placed. */
  function SortByScoreDesc(xs: seq<FaqResult>): seq<FaqResult> {
    if xs == [] then [] else InsertByScore(xs[|xs| - 1], SortByScoreDesc(xs[..|xs| - 1]))
  }

  predicate SortedDesc(s: seq<FaqResult>) {
    forall i, j :: 0 <= i < j < |s| ==> s[i].score >= s[j].score
  }

  lemma {:induction false} InsertSorted(x: FaqResult, s: seq<FaqResult>)
    requires SortedDesc(s)
    ensures SortedDesc(InsertByScore(x, s))
    ensures multiset(InsertByScore(x, s)) == multiset(s) + multiset{x}
    decreases |s|
  {
    if s == [] {
    } else if s[0].score < x.score {
      InsertInFront(x, s);
    } else {
      InsertSorted(x, s[1..]);
      InsertBehindSorted(x, s);
      InsertBehindCount(x, s);
    }
  }

  /** `x` scoring above the head goes first. */
  lemma InsertInFront(x: FaqResult, s: seq<FaqResult>)
    requires SortedDesc(s) && s != [] && s[0].score < x.score
    ensures SortedDesc(InsertByScore(x, s))
    ensures multiset(InsertByScore(x, s)) == multiset(s) + multiset{x}
  {
    forall y | y in s ensures y.score <= x.score {
      var k :| 0 <= k < |s| && s[k] == y;
    }
    SortedCons(x, s);
  }

  /** `x` scoring at most the head goes into the tail, which stays below
      the head. */
  lemma InsertBehindSorted(x: FaqResult, s: seq<FaqResult>)
    requires SortedDesc(s) && s != [] && x.score <= s[0].score
    requires SortedDesc(InsertByScore(x, s[1..]))
    ensures SortedDesc(InsertByScore(x, s))
  {
    var t := InsertByScore(x, s[1..]);
    TailBelowHead(x, s);
    SortedCons(s[0], t);
    assert InsertByScore(x, s) == [s[0]] + t;
  }

  /** Going into the tail keeps the elements. */
  lemma InsertBehindCount(x: FaqResult, s: seq<FaqResult>)
    requires s != [] && x.score <= s[0].score
    requires multiset(InsertByScore(x, s[1..])) == multiset(s[1..]) + multiset{x}
    ensures multiset(InsertByScore(x, s)) == multiset(s) + multiset{x}
  {
    var t := InsertByScore(x, s[1..]);
    assert InsertByScore(x, s) == [s[0]] + t;
    assert s == [s[0]] + s[1..];
    assert multiset(s) == multiset{s[0]} + multiset(s[1..]);
    assert multiset([s[0]] + t) == multiset{s[0]} + multiset(t);
  }

  /** Inserting into the tail of a sorted list keeps every score at most the
      head's. */
  lemma TailBelowHead(x: FaqResult, s: seq<FaqResult>)
    requires SortedDesc(s) && s != [] && x.score <= s[0].score
    ensures forall y :: y in InsertByScore(x, s[1..]) ==> y.score <= s[0].score
  {
    forall y | y in InsertByScore(x, s[1..]) ensures y.score <= s[0].score {
      if y != x {
        var k :| 0 <= k < |s| - 1 && s[k + 1] == y;
      }
    }
  }

  /** A head scoring at least every element keeps a sorted tail sorted. */
  lemma SortedCons(h: FaqResult, t: seq<FaqResult>)
    requires SortedDesc(t) && forall y :: y in t ==> y.score <= h.score
    ensures SortedDesc([h] + t)
  {
    var r := [h] + t;
    forall i, j | 0 <= i < j < |r| ensures r[i].score >= r[j].score {
      assert r[j] == t[j - 1];
      if i > 0 {
        assert r[i] == t[i - 1];
      }
    }
  }

  /** The sort orders by score and keeps every element exactly. */
  lemma {:induction false} SortByScoreDescSpec(xs: seq<FaqResult>)
    ensures SortedDesc(SortByScoreDesc(xs))
    ensures multiset(SortByScoreDesc(xs)) == multiset(xs)
    decreases |xs|
  {
    if xs != [] {
      var init := xs[..|xs| - 1];
      var x := xs[|xs| - 1];
      var sortedInit := SortByScoreDesc(init);
      assert SortByScoreDesc(xs) == InsertByScore(x, sortedInit);
      SortByScoreDescSpec(init);
      InsertSorted(x, sortedInit);
      MultisetSnoc(xs);
    }
  }

  lemma MultisetSnoc(xs: seq<FaqResult>)
    requires xs != []
    ensures multiset(xs) == multiset(xs[..|xs| - 1]) + multiset{xs[|xs| - 1]}
  {
    assert xs == xs[..|xs| - 1] + [xs[|xs| - 1]];
  }

  /** The results with score `v`, in order. */
  function WithScore(xs: seq<FaqResult>, v: nat): (r: seq<FaqResult>)
    ensures |r| <= |xs|
  {
    if xs == [] then []
    else (if xs[0].score == v then [xs[0]] else []) + WithScore(xs[1..], v)
  }

  lemma {:induction false} WithScoreAppend(a: seq<FaqResult>, b: seq<FaqResult>, v: nat)
    ensures WithScore(a + b, v) == WithScore(a, v) + WithScore(b, v)
    decreases |a|
  {
    if a == [] {
      assert a + b == b;
    } else {
      var head := if a[0].score == v then [a[0]] else [];
      assert (a + b)[0] == a[0];
      assert (a + b)[1..] == a[1..] + b;
      WithScoreAppend(a[1..], b, v);
      calc {
        WithScore(a + b, v);
        head + WithScore(a[1..] + b, v);
        head + (WithScore(a[1..], v) + WithScore(b, v));
        { AppendAssoc(head, WithScore(a[1..], v), WithScore(b, v)); }
        WithScore(a, v) + WithScore(b, v);
      }
    }
  }

  lemma {:induction false} WithScoreNone(s: seq<FaqResult>, v: nat)
    requires forall y :: y in s ==> y.score < v
    ensures WithScore(s, v) == []
    decreases |s|
  {
    if s != [] {
      WithScoreNone(s[1..], v);
    }
  }

  lemma {:induction false} InsertWithScore(x: FaqResult, s: seq<FaqResult>, v: nat)
    requires SortedDesc(s)
    ensures WithScore(InsertByScore(x, s), v) == WithScore(s, v) + (if x.score == v then [x] else [])
    decreases |s|
  {
    if s == [] {
    } else if s[0].score < x.score {
      if x.score == v {
        forall y | y in s ensures y.score < v {
          var k :| 0 <= k < |s| && s[k] == y;
        }
        WithScoreNone(s, v);
      }
    } else {
      InsertWithScore(x, s[1..], v);
    }
  }

  /** The sort is stable: the results of each score keep their order. */
  lemma {:induction false} SortByScoreDescStable(xs: seq<FaqResult>, v: nat)
    ensures WithScore(SortByScoreDesc(xs), v) == WithScore(xs, v)
    decreases |xs|
  {
    if xs != [] {
      var init := xs[..|xs| - 1];
      var x := xs[|xs| - 1];
      var tail := if x.score == v then [x] else [];
      assert WithScore(SortByScoreDesc(xs), v) == WithScore(init, v) + tail by {
        SortByScoreDescStable(init, v);
        SortByScoreDescSpec(init);
        InsertWithScore(x, SortByScoreDesc(init), v);
      }
      assert WithScore(xs, v) == WithScore(init, v) + tail by {
        assert xs == init + [x];
        WithScoreAppend(init, [x], v);
        assert WithScore([x], v) == tail + WithScore([], v);
      }
    }
  }

  lemma {:induction false} InsertDistinct(x: FaqResult, s: seq<FaqResult>)
    requires DistinctResults(s) && forall y :: y in s ==> y.question != x.question
    ensures DistinctResults(InsertByScore(x, s))
    decreases |s|
  {
    if s != [] && s[0].score >= x.score {
      InsertDistinct(x, s[1..]);
      var t := InsertByScore(x, s[1..]);
      forall y | y in t ensures y.question != s[0].question {
        if y != x {
          var k :| 0 <= k < |s[1..]| && s[1..][k] == y;
          assert s[k + 1] == y;
        }
      }
      var r := [s[0]] + t;
      forall i, j | 0 <= i < j < |r| ensures r[i].question != r[j].question {
        if i == 0 {
          assert r[j] in t;
        } else {
          assert r[i] == t[i - 1] && r[j] == t[j - 1];
        }
      }
    } else if s != [] {
      var r := [x] + s;
      forall i, j | 0 <= i < j < |r| ensures r[i].question != r[j].question {
        if i == 0 {
          assert r[j] in s;
        } else {
          assert r[i] == s[i - 1] && r[j] == s[j - 1];
        }
      }
    }
  }

  lemma {:induction false} SortDistinct(xs: seq<FaqResult>)
    requires DistinctResults(xs)
    ensures DistinctResults(SortByScoreDesc(xs))
    decreases |xs|
  {
    if xs != [] {
      var init := xs[..|xs| - 1];
      var x := xs[|xs| - 1];
      assert DistinctResults(init);
      SortDistinct(init);
      SortByScoreDescSpec(init);
      forall y | y in SortByScoreDesc(init) ensures y.question != x.question {
        assert y in multiset(init);
        var k :| 0 <= k < |init| && init[k] == y;
      }
      InsertDistinct(x, SortByScoreDesc(init));
    }
  }

  // ---------------------------------------------------------------------
  // search_faq

  /** What `search_faq` returns for `query`. */
  function SearchFaqSpec(data: seq<FaqEntry>, query: string): seq<FaqResult> {
    Take(SortByScoreDesc(Scored(data, ScoreOf(Lower(query)))), 3)
  }

  lemma ScoredNext(data: seq<FaqEntry>, score: FaqEntry -> nat, i: nat)
    requires i < |data|
    ensures Scored(data[..i + 1], score)
            == Scored(data[..i], score) + (if score(data[i]) > 0 then [ResultOf(data[i], score)] else [])
  {
    assert data[..i + 1][..i] == data[..i];
  }

  /** One entry of the scoring loop, given the score it computed. */
  lemma ScoredStep(data: seq<FaqEntry>, score: FaqEntry -> nat, i: nat, v: nat)
    requires i < |data| && v == score(data[i])
    ensures Scored(data[..i + 1], score)
            == Scored(data[..i], score) + (if v > 0 then [FaqResult(data[i].question, data[i].answer, v)] else [])
  {
    ScoredNext(data, score, i);
  }

  /** `search_faq(query, threshold)`: `threshold` is not used. */
  method SearchFaq(query: string, threshold: real) returns (results: seq<FaqResult>)
    ensures results == SearchFaqSpec(FaqData, query)
  {
    var queryLower := Lower(query);
    results := ScoreEntries(FaqData, queryLower);
    results := SortByScoreDesc(results);
    results := Take(results, 3);
  }

  /** The scoring loop of `search_faq` over the entries `data`. */
  method ScoreEntries(data: seq<FaqEntry>, queryLower: string) returns (results: seq<FaqResult>)
    ensures results == Scored(data, ScoreOf(queryLower))
  {
    results := [];
    var i := 0;
    while i < |data|
      invariant 0 <= i <= |data|
      invariant results == Scored(data[..i], ScoreOf(queryLower))
    {
      results := ScoreEntry(data, queryLower, i, results);
      i := i + 1;
    }
    ScoredAll(data, ScoreOf(queryLower));
  }

  lemma ScoredAll(data: seq<FaqEntry>, score: FaqEntry -> nat)
    ensures Scored(data[..|data|], score) == Scored(data, score)
  {
    assert data[..|data|] == data;
  }

  /** One pass of the scoring loop: entry `i` is scored and kept when its
      score is positive. */
  method ScoreEntry(data: seq<FaqEntry>, queryLower: string, i: nat, before: seq<FaqResult>)
    returns (results: seq<FaqResult>)
    requires i < |data| && before == Scored(data[..i], ScoreOf(queryLower))
    ensures results == Scored(data[..i + 1], ScoreOf(queryLower))
  {
    var faq := data[i];
    var score := ScoreFaq(faq, queryLower);
    ScoredStep(data, ScoreOf(queryLower), i, score);
    results := before;
    if score > 0 {
      results := results + [FaqResult(faq.question, faq.answer, score)];
    }
  }

  lemma {:induction false} WithScorePrefix(p: seq<FaqResult>, s: seq<FaqResult>, v: nat)
    requires p <= s
    ensures WithScore(p, v) <= WithScore(s, v)
    decreases |p|
  {
    if p != [] {
      assert p[1..] <= s[1..];
      WithScorePrefix(p[1..], s[1..], v);
    }
  }

  lemma SortedDescPrefix(p: seq<FaqResult>, s: seq<FaqResult>)
    requires SortedDesc(s) && p <= s
    ensures SortedDesc(p)
  {
    forall i, j | 0 <= i < j < |p| ensures p[i].score >= p[j].score {
      assert p[i] == s[i] && p[j] == s[j];
    }
  }

  /** At most three results, best first. */
  lemma SearchFaqSpecOrdered(data: seq<FaqEntry>, query: string)
    ensures |SearchFaqSpec(data, query)| <= 3
    ensures SortedDesc(SearchFaqSpec(data, query))
  {
    var sorted := SortByScoreDesc(Scored(data, ScoreOf(Lower(query))));
    SortByScoreDescSpec(Scored(data, ScoreOf(Lower(query))));
    SortedDescPrefix(SearchFaqSpec(data, query), sorted);
  }

  /** Each result is an entry with a positive score, copied unchanged. */
  lemma SearchFaqSpecFromData(data: seq<FaqEntry>, query: string)
    ensures forall y :: y in SearchFaqSpec(data, query) ==>
              y.score > 0 && exists k :: 0 <= k < |data| && y == ResultOf(data[k], ScoreOf(Lower(query)))
  {
    var scored := Scored(data, ScoreOf(Lower(query)));
    var sorted := SortByScoreDesc(scored);
    forall y | y in SearchFaqSpec(data, query)
      ensures y.score > 0 && exists k :: 0 <= k < |data| && y == ResultOf(data[k], ScoreOf(Lower(query)))
    {
      assert y in scored by {
        var r := SearchFaqSpec(data, query);
        var k :| 0 <= k < |r| && r[k] == y;
        assert y == sorted[k];
        SortByScoreDescSpec(scored);
        assert y in multiset(sorted);
      }
      ScoredFromData(data, ScoreOf(Lower(query)));
    }
  }

  /** The results of one score are the first entries of that score, in the
      data's order. */
  lemma SearchFaqSpecKeepsOrder(data: seq<FaqEntry>, query: string, v: nat)
    ensures WithScore(SearchFaqSpec(data, query), v) <= WithScore(Scored(data, ScoreOf(Lower(query))), v)
  {
    var scored := Scored(data, ScoreOf(Lower(query)));
    WithScorePrefix(SearchFaqSpec(data, query), SortByScoreDesc(scored), v);
    SortByScoreDescStable(scored, v);
  }

  /** No entry appears twice when the questions are distinct. */
  lemma SearchFaqSpecDistinct(data: seq<FaqEntry>, query: string)
    requires DistinctQuestions(data)
    ensures DistinctResults(SearchFaqSpec(data, query))
  {
    ScoredDistinct(data, ScoreOf(Lower(query)));
    SortDistinct(Scored(data, ScoreOf(Lower(query))));
  }

  /** The search does not see the case of the query. */
  lemma SearchFaqIgnoresCase(data: seq<FaqEntry>, query: string)
    ensures SearchFaqSpec(data, Lower(query)) == SearchFaqSpec(data, query)
  {
    LowerIdempotent(query);
  }

  /** Every entry with a positive score is among the scored results. */
  lemma {:induction false} ScoredComplete(data: seq<FaqEntry>, score: FaqEntry -> nat)
    ensures forall k :: 0 <= k < |data| && score(data[k]) > 0 ==>
              ResultOf(data[k], score) in Scored(data, score)
    decreases |data|
  {
    if data != [] {
      var init := data[..|data| - 1];
      var last := ResultOf(data[|data| - 1], score);
      var tail := if last.score > 0 then [last] else [];
      ScoredComplete(init, score);
      assert Scored(data, score) == Scored(init, score) + tail;
      forall k | 0 <= k < |data| && score(data[k]) > 0
        ensures ResultOf(data[k], score) in Scored(data, score)
      {
        if k < |init| {
          assert init[k] == data[k];
          assert ResultOf(init[k], score) in Scored(init, score);
        } else {
          assert ResultOf(data[k], score) == last && last in tail;
        }
      }
    }
  }

  /** The first result reaches a positive bound exactly when some entry's
      score does: the first result is the best-scoring entry. */
  lemma SearchFaqTopScore(data: seq<FaqEntry>, query: string, bound: nat)
    requires bound > 0
    ensures (SearchFaqSpec(data, query) != [] && SearchFaqSpec(data, query)[0].score >= bound)
            <==> exists k :: 0 <= k < |data| && Score(data[k], Lower(query)) >= bound
  {
    var score := ScoreOf(Lower(query));
    TopComesFromData(data, score, bound);
    TopReachesBest(data, score, bound);
  }

  /** A first result reaching the bound is an entry's. */
  lemma TopComesFromData(data: seq<FaqEntry>, score: FaqEntry -> nat, bound: nat)
    ensures var r := Take(SortByScoreDesc(Scored(data, score)), 3);
            r != [] && r[0].score >= bound ==> exists k :: 0 <= k < |data| && score(data[k]) >= bound
  {
    var scored := Scored(data, score);
    var sorted := SortByScoreDesc(scored);
    var r := Take(sorted, 3);
    if r != [] && r[0].score >= bound {
      assert r[0] == sorted[0];
      SortByScoreDescSpec(scored);
      assert sorted[0] in multiset(scored);
      ScoredFromData(data, score);
      var k :| 0 <= k < |data| && sorted[0] == ResultOf(data[k], score);
    }
  }

  /** An entry reaching a positive bound puts a first result there. */
  lemma TopReachesBest(data: seq<FaqEntry>, score: FaqEntry -> nat, bound: nat)
    requires bound > 0
    ensures var r := Take(SortByScoreDesc(Scored(data, score)), 3);
            (exists k :: 0 <= k < |data| && score(data[k]) >= bound) ==> r != [] && r[0].score >= bound
  {
    var scored := Scored(data, score);
    var sorted := SortByScoreDesc(scored);
    if k :| 0 <= k < |data| && score(data[k]) >= bound {
      ScoredComplete(data, score);
      SortByScoreDescSpec(scored);
      var x := ResultOf(data[k], score);
      assert x in multiset(sorted);
      var j :| 0 <= j < |sorted| && sorted[j] == x;
      assert sorted[0].score >= x.score;
      assert Take(sorted, 3)[0] == sorted[0];
    }
  }

  /** The ten questions are distinct, so no search returns one twice. */
  lemma SearchFaqNoRepeats(query: string)
    ensures DistinctResults(SearchFaqSpec(FaqData, query))
  {
    FaqQuestionsDistinct();
    SearchFaqSpecDistinct(FaqData, query);
  }

  /** The ten questions differ in length or in their sixth character. */
  lemma FaqQuestionsDistinct()
    ensures DistinctQuestions(FaqData)
  {
    forall i, j | 0 <= i < j < |FaqData| ensures FaqData[i].question != FaqData[j].question {
      var a, b := FaqData[i].question, FaqData[j].question;
      assert |a| != |b| || a[5] != b[5];
    }
  }
}
