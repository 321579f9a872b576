/** `WebsiteScraper` of `scraper/website_scraper.py`: the sections of the
    membership page, cut at its headings, and the title and text of a list
    of pages. */
module WebsiteScraper {
  import opened Wrappers
  import opened Strings
  import opened Html

  const MembershipUrl := "https://www.halubajska-zora.hr/clanstvo-i-uvjeti-koristenja/"

  /** One of the `h2`, `h3`, `h4`, `p`, `ul` and `ol` elements of the
      content, in document order: its tag name and its content. */
  datatype Block = Block(name: string, content: Element)

  /** The main content: its own text and the blocks under it. */
  datatype ContentDiv = ContentDiv(content: Element, blocks: seq<Block>)

  /** The membership page: `div.entry-content` and `article`, when present. */
  datatype MembershipPage = MembershipPage(entryContent: Option<ContentDiv>, article: Option<ContentDiv>)

  datatype Section = Section(title: string, content: seq<string>)

  datatype Membership = Membership(url: string, fullText: string, sections: seq<Section>)

  predicate IsHeading(b: Block) {
    b.name == "h2" || b.name == "h3" || b.name == "h4"
  }

  // ---------------------------------------------------------------------
  // The sectioning loop

  /** What the loop holds after some blocks: the finished sections and the
      section under construction. */
  datatype Walk = Walk(done: seq<Section>, current: Option<Section>)

  /** One turn of the loop: a heading closes the open section and opens a
      new one, a block with text under an open section adds its text, any
      other block is passed over. */
  function Step(w: Walk, b: Block): Walk {
    if IsHeading(b) then
      Walk(w.done + (if w.current.Some? then [w.current.value] else []), Some(Section(Text(b.content), [])))
    else if w.current.Some? && Text(b.content) != "" then
      Walk(w.done, Some(Section(w.current.value.title, w.current.value.content + [Text(b.content)])))
    else w
  }

  function WalkOf(blocks: seq<Block>): Walk
    decreases |blocks|
  {
    if blocks == [] then Walk([], None) else Step(WalkOf(blocks[..|blocks| - 1]), blocks[|blocks| - 1])
  }

  /** The sections once the last one is closed. */
  function Sections(blocks: seq<Block>): seq<Section> {
    var w := WalkOf(blocks);
    w.done + (if w.current.Some? then [w.current.value] else [])
  }

  lemma WalkOfNext(blocks: seq<Block>, i: nat)
    requires i < |blocks|
    ensures WalkOf(blocks[..i + 1]) == Step(WalkOf(blocks[..i]), blocks[i])
  {
    assert blocks[..i + 1][..i] == blocks[..i];
  }

  /** The loop of `scrape_membership_info` that cuts the blocks into
      sections. */
  method CutSections(blocks: seq<Block>) returns (sections: seq<Section>)
    ensures sections == Sections(blocks)
  {
    sections := [];
    var current: Option<Section> := None;
    var i := 0;
    while i < |blocks|
      invariant 0 <= i <= |blocks|
      invariant WalkOf(blocks[..i]) == Walk(sections, current)
    {
      WalkOfNext(blocks, i);
      var b := blocks[i];
      ghost var next := Step(Walk(sections, current), b);
      if b.name == "h2" || b.name == "h3" || b.name == "h4" {
        if current.Some? {
          sections := sections + [current.value];
        }
        current := Some(Section(Text(b.content), []));
      } else if current.Some? {
        var text := Text(b.content);
        if text != "" {
          current := Some(Section(current.value.title, current.value.content + [text]));
        }
      }
      assert Walk(sections, current) == next;
      i := i + 1;
    }
    assert blocks[..i] == blocks;
    if current.Some? {
      sections := sections + [current.value];
    }
  }

  /** The texts of the headings, in order. */
  function HeadingTitles(blocks: seq<Block>): seq<string>
    decreases |blocks|
  {
    if blocks == [] then []
    else
      var last := blocks[|blocks| - 1];
      HeadingTitles(blocks[..|blocks| - 1]) + (if IsHeading(last) then [Text(last.content)] else [])
  }

  predicate HasHeading(blocks: seq<Block>) {
    exists i :: 0 <= i < |blocks| && IsHeading(blocks[i])
  }

  /** The non-empty texts of the blocks that are not headings and come
      after some heading, in order. */
  function BodyTexts(blocks: seq<Block>): seq<string>
    decreases |blocks|
  {
    if blocks == [] then []
    else
      var init := blocks[..|blocks| - 1];
      var last := blocks[|blocks| - 1];
      BodyTexts(init) + (if !IsHeading(last) && HasHeading(init) && Text(last.content) != "" then [Text(last.content)] else [])
  }

  function Titles(sections: seq<Section>): seq<string>
    decreases |sections|
  {
    if sections == [] then [] else Titles(sections[..|sections| - 1]) + [sections[|sections| - 1].title]
  }

  /** Every section's content, one after the other. */
  function AllContent(sections: seq<Section>): seq<string>
    decreases |sections|
  {
    if sections == [] then [] else AllContent(sections[..|sections| - 1]) + sections[|sections| - 1].content
  }

  lemma TitlesSnoc(xs: seq<Section>, s: Section)
    ensures Titles(xs + [s]) == Titles(xs) + [s.title]
    ensures AllContent(xs + [s]) == AllContent(xs) + s.content
  {
    assert (xs + [s])[..|xs|] == xs;
  }

  /** A section is open exactly after a heading. */
  lemma {:induction false} WalkOpen(blocks: seq<Block>)
    ensures WalkOf(blocks).current.Some? <==> HasHeading(blocks)
    decreases |blocks|
  {
    if blocks != [] {
      var init := blocks[..|blocks| - 1];
      WalkOpen(init);
      assert forall i :: 0 <= i < |init| ==> init[i] == blocks[i];
      assert HasHeading(blocks) <==> HasHeading(init) || IsHeading(blocks[|blocks| - 1]);
    }
  }

  /** The sections after a block, from those before it. */
  lemma SectionsStep(blocks: seq<Block>)
    requires blocks != []
    ensures var init := blocks[..|blocks| - 1];
            var b := blocks[|blocks| - 1];
            var w := WalkOf(init);
            Sections(blocks)
            == if IsHeading(b) then Sections(init) + [Section(Text(b.content), [])]
               else if w.current.Some? && Text(b.content) != "" then
                 w.done + [Section(w.current.value.title, w.current.value.content + [Text(b.content)])]
               else Sections(init)
  {
  }

  /** The titles of the sections are the headings' texts. */
  lemma {:induction false} WalkTitles(blocks: seq<Block>)
    ensures Titles(Sections(blocks)) == HeadingTitles(blocks)
    decreases |blocks|
  {
    if blocks != [] {
      var init := blocks[..|blocks| - 1];
      var b := blocks[|blocks| - 1];
      var w := WalkOf(init);
      WalkTitles(init);
      SectionsStep(blocks);
      if IsHeading(b) {
        TitlesSnoc(Sections(init), Section(Text(b.content), []));
      } else if w.current.Some? && Text(b.content) != "" {
        var c := w.current.value;
        TitlesSnoc(w.done, c);
        TitlesSnoc(w.done, Section(c.title, c.content + [Text(b.content)]));
      }
    }
  }

  /** The contents of the sections are the texts that followed a heading. */
  lemma {:induction false} WalkContent(blocks: seq<Block>)
    ensures AllContent(Sections(blocks)) == BodyTexts(blocks)
    decreases |blocks|
  {
    if blocks != [] {
      var init := blocks[..|blocks| - 1];
      var b := blocks[|blocks| - 1];
      var w := WalkOf(init);
      var t := Text(b.content);
      assert BodyTexts(blocks) == BodyTexts(init) + (if !IsHeading(b) && HasHeading(init) && t != "" then [t] else []);
      WalkContent(init);
      WalkOpen(init);
      SectionsStep(blocks);
      if IsHeading(b) {
        TitlesSnoc(Sections(init), Section(t, []));
      } else if w.current.Some? && t != "" {
        var c := w.current.value;
        TitlesSnoc(w.done, c);
        TitlesSnoc(w.done, Section(c.title, c.content + [t]));
        AppendAssoc(AllContent(w.done), c.content, [t]);
      }
    }
  }

  /** There is one section per heading, titled with the heading's text;
      the blocks before the first heading contribute nothing, and the
      sections hold, in order, the non-empty texts of the other blocks. */
  lemma SectionsSpec(blocks: seq<Block>)
    ensures |Sections(blocks)| == |HeadingTitles(blocks)|
    ensures Titles(Sections(blocks)) == HeadingTitles(blocks)
    ensures AllContent(Sections(blocks)) == BodyTexts(blocks)
    ensures !HasHeading(blocks) ==> Sections(blocks) == []
  {
    WalkTitles(blocks);
    WalkContent(blocks);
    TitlesLength(Sections(blocks));
    if !HasHeading(blocks) {
      NoHeadingNoSections(blocks);
    }
  }

  /** The non-empty texts of the blocks, in order. */
  function Texts(blocks: seq<Block>): seq<string>
    decreases |blocks|
  {
    if blocks == [] then []
    else
      var t := Text(blocks[|blocks| - 1].content);
      Texts(blocks[..|blocks| - 1]) + (if t != "" then [t] else [])
  }

  /** Each section holds the texts up to the next heading: the section of
      the heading at `h`, the first one after the headings before `h`, is
      titled with its text and holds exactly the non-empty texts of the
      blocks between it and the next heading, or the end. */
  lemma SectionAt(blocks: seq<Block>, h: nat, next: nat)
    requires h < next <= |blocks| && IsHeading(blocks[h])
    requires forall k :: h < k < next ==> !IsHeading(blocks[k])
    requires next == |blocks| || IsHeading(blocks[next])
    ensures |HeadingTitles(blocks[..h])| < |Sections(blocks)|
    ensures Sections(blocks)[|HeadingTitles(blocks[..h])|]
            == Section(Text(blocks[h].content), Texts(blocks[h + 1..next]))
  {
    var before := Sections(blocks[..h]);
    var section := Section(Text(blocks[h].content), Texts(blocks[h + 1..next]));
    SectionOpen(blocks, h, next);
    assert Sections(blocks[..next]) == before + [section];
    SectionsPrefix(blocks, next);
    SectionsSpec(blocks[..h]);
    assert Sections(blocks)[|before|] == section;
  }

  /** Walking from a heading to the block before the next heading leaves the
      heading's section open with the texts walked over. */
  lemma {:induction false} SectionOpen(blocks: seq<Block>, h: nat, next: nat)
    requires h < next <= |blocks| && IsHeading(blocks[h])
    requires forall k :: h < k < next ==> !IsHeading(blocks[k])
    ensures WalkOf(blocks[..next])
            == Walk(Sections(blocks[..h]), Some(Section(Text(blocks[h].content), Texts(blocks[h + 1..next]))))
    decreases next - h
  {
    var title := Text(blocks[h].content);
    if next == h + 1 {
      WalkOfNext(blocks, h);
      var w := WalkOf(blocks[..h]);
      assert WalkOf(blocks[..next]) == Step(w, blocks[h]);
      assert Step(w, blocks[h]) == Walk(Sections(blocks[..h]), Some(Section(title, [])));
      assert blocks[h + 1..next] == [];
      assert Texts(blocks[h + 1..next]) == [];
      assert WalkOf(blocks[..next]) == Walk(Sections(blocks[..h]), Some(Section(title, Texts(blocks[h + 1..next]))));
    } else {
      var k := next - 1;
      var b := blocks[k];
      assert !IsHeading(b);
      WalkOfNext(blocks, k);
      assert k + 1 == next;
      assert blocks[..k + 1] == blocks[..next];
      SectionOpen(blocks, h, k);
      TextsNext(blocks, h + 1, k);
      var w := WalkOf(blocks[..k]);
      var before := Texts(blocks[h + 1..k]);
      var t := Text(b.content);
      assert w == Walk(Sections(blocks[..h]), Some(Section(title, before)));
      assert WalkOf(blocks[..next]) == Step(w, b);
      if t != "" {
        assert Texts(blocks[h + 1..next]) == before + [t];
        assert Step(w, b) == Walk(Sections(blocks[..h]), Some(Section(title, before + [t])));
      } else {
        assert Texts(blocks[h + 1..next]) == before + [];
        assert before + [] == before;
        assert Step(w, b) == w;
      }
    }
  }

  lemma TextsNext(blocks: seq<Block>, i: nat, j: nat)
    requires i <= j < |blocks|
    ensures var t := Text(blocks[j].content);
            Texts(blocks[i..j + 1]) == Texts(blocks[i..j]) + (if t != "" then [t] else [])
  {
    var s := blocks[i..j + 1];
    assert s[..|s| - 1] == blocks[i..j];
    assert s[|s| - 1] == blocks[j];
  }

  /** The sections closed before a heading, or before the end, stay the
      first sections. */
  lemma SectionsPrefix(blocks: seq<Block>, n: nat)
    requires n <= |blocks| && (n == |blocks| || IsHeading(blocks[n]))
    ensures Sections(blocks[..n]) <= Sections(blocks)
  {
    if n == |blocks| {
      assert blocks[..n] == blocks;
    } else {
      WalkOfNext(blocks, n);
      assert WalkOf(blocks[..n + 1]).done == Sections(blocks[..n]);
      DoneGrows(blocks, n + 1, |blocks|);
      assert blocks[..|blocks|] == blocks;
    }
  }

  /** Sections once closed stay closed. */
  lemma {:induction false} DoneGrows(blocks: seq<Block>, n: nat, m: nat)
    requires n <= m <= |blocks|
    ensures WalkOf(blocks[..n]).done <= WalkOf(blocks[..m]).done
    decreases m - n
  {
    if n < m {
      DoneGrows(blocks, n, m - 1);
      WalkOfNext(blocks, m - 1);
      var w := WalkOf(blocks[..m - 1]);
      StepKeepsDone(w, blocks[m - 1]);
      PrefixTransitive(WalkOf(blocks[..n]).done, w.done, WalkOf(blocks[..m]).done);
    }
  }

  /** A step only ever appends to the finished sections. */
  lemma StepKeepsDone(w: Walk, b: Block)
    ensures w.done <= Step(w, b).done
  {
    if IsHeading(b) {
      var closed := if w.current.Some? then [w.current.value] else [];
      assert Step(w, b).done == w.done + closed;
      assert (w.done + closed)[..|w.done|] == w.done;
    }
  }

  lemma PrefixTransitive(a: seq<Section>, b: seq<Section>, c: seq<Section>)
    requires a <= b && b <= c
    ensures a <= c
  {
    assert c[..|b|] == b;
    assert b[..|a|] == a;
    assert c[..|a|] == a;
  }

  lemma {:induction false} TitlesLength(sections: seq<Section>)
    ensures |Titles(sections)| == |sections|
    decreases |sections|
  {
    if sections != [] {
      TitlesLength(sections[..|sections| - 1]);
    }
  }

  lemma {:induction false} NoHeadingNoSections(blocks: seq<Block>)
    requires !HasHeading(blocks)
    ensures WalkOf(blocks) == Walk([], None)
    decreases |blocks|
  {
    if blocks != [] {
      var init := blocks[..|blocks| - 1];
      assert !HasHeading(init) by {
        forall i | 0 <= i < |init| ensures !IsHeading(init[i]) {
          assert init[i] == blocks[i];
        }
      }
      NoHeadingNoSections(init);
      assert !IsHeading(blocks[|blocks| - 1]);
    }
  }

  // ---------------------------------------------------------------------
  // scrape_membership_info

  /** `div.entry-content`, else `article`. */
  function MainContent(entryContent: Option<ContentDiv>, article: Option<ContentDiv>): Option<ContentDiv> {
    if entryContent.Some? then entryContent else article
  }

  /** `scrape_membership_info`: nothing when the request fails or the page
      has neither content element. */
  function MembershipInfo(fetch: Fetch<MembershipPage>): Option<Membership> {
    if fetch.FetchFailed? then None
    else
      var div := MainContent(fetch.page.entryContent, fetch.page.article);
      if div.None? then None
      else Some(Membership(MembershipUrl, JoinedStrippedText(div.value.content, "\n"), Sections(div.value.blocks)))
  }

  method ScrapeMembershipInfo(fetch: Fetch<MembershipPage>) returns (data: Option<Membership>)
    ensures data == MembershipInfo(fetch)
  {
    if fetch.FetchFailed? {
      return None;
    }
    var div := fetch.page.entryContent;
    if div.None? {
      div := fetch.page.article;
    }
    if div.None? {
      return None;
    }
    var sections := CutSections(div.value.blocks);
    data := Some(Membership(MembershipUrl, JoinedStrippedText(div.value.content, "\n"), sections));
  }

  /** The data is read from `div.entry-content` when the page has one and
      from `article` otherwise; its sections follow that element's
      headings. */
  lemma MembershipInfoSpec(fetch: Fetch<MembershipPage>)
    ensures MembershipInfo(fetch).Some? <==>
              fetch.Fetched? && (fetch.page.entryContent.Some? || fetch.page.article.Some?)
    ensures MembershipInfo(fetch).Some? ==>
              var div := if fetch.page.entryContent.Some? then fetch.page.entryContent.value else fetch.page.article.value;
              var m := MembershipInfo(fetch).value;
              m.url == MembershipUrl
              && m.fullText == JoinedStrippedText(div.content, "\n")
              && Titles(m.sections) == HeadingTitles(div.blocks)
              && AllContent(m.sections) == BodyTexts(div.blocks)
  {
    if MembershipInfo(fetch).Some? {
      var div := MainContent(fetch.page.entryContent, fetch.page.article).value;
      WalkTitles(div.blocks);
      WalkContent(div.blocks);
    }
  }

  // ---------------------------------------------------------------------
  // scrape_multiple_pages

  /** A page: its main content elements and its `h1` and `title` tags. */
  datatype Page = Page(entryContent: Option<Element>, article: Option<Element>, h1: Option<Element>, titleTag: Option<Element>)

  datatype PageData = PageData(url: string, title: string, content: string)

  /** `h1`, else `title`, else "Untitled". */
  function PageTitle(p: Page): string {
    if p.h1.Some? then Text(p.h1.value)
    else if p.titleTag.Some? then Text(p.titleTag.value)
    else "Untitled"
  }

  /** What one url adds: nothing when the request fails or the page has
      no main content. */
  function PageEntry(url: string, fetch: Fetch<Page>): Option<PageData> {
    if fetch.FetchFailed? then None
    else if fetch.page.entryContent.Some? then
      Some(PageData(url, PageTitle(fetch.page), JoinedStrippedText(fetch.page.entryContent.value, "\n")))
    else if fetch.page.article.Some? then
      Some(PageData(url, PageTitle(fetch.page), JoinedStrippedText(fetch.page.article.value, "\n")))
    else None
  }

  function PagesFrom(urls: seq<string>, fetch: string -> Fetch<Page>): seq<PageData>
    decreases |urls|
  {
    if urls == [] then []
    else
      var init := urls[..|urls| - 1];
      var e := PageEntry(urls[|urls| - 1], fetch(urls[|urls| - 1]));
      PagesFrom(init, fetch) + (if e.Some? then [e.value] else [])
  }

  /** The loop of `scrape_multiple_pages`; `fetch` stands for the request
      of each url. */
  method ScrapeMultiplePages(urls: seq<string>, fetch: string -> Fetch<Page>) returns (all: seq<PageData>)
    ensures all == PagesFrom(urls, fetch)
  {
    all := [];
    var i := 0;
    while i < |urls|
      invariant 0 <= i <= |urls|
      invariant all == PagesFrom(urls[..i], fetch)
    {
      PagesFromNext(urls, fetch, i);
      var entry := ReadPage(urls[i], fetch(urls[i]));
      if entry.Some? {
        all := all + [entry.value];
      }
      i := i + 1;
    }
    assert urls[..i] == urls;
  }

  /** The body of the loop of `scrape_multiple_pages`: the entry one
      response gives. */
  method ReadPage(url: string, response: Fetch<Page>) returns (entry: Option<PageData>)
    ensures entry == PageEntry(url, response)
  {
    entry := None;
    if response.Fetched? {
      var div := if response.page.entryContent.Some? then response.page.entryContent else response.page.article;
      if div.Some? {
        var text := JoinedStrippedText(div.value, "\n");
        var title := "Untitled";
        if response.page.h1.Some? {
          title := Text(response.page.h1.value);
        } else if response.page.titleTag.Some? {
          title := Text(response.page.titleTag.value);
        }
        entry := Some(PageData(url, title, text));
      }
    }
  }

  lemma PagesFromNext(urls: seq<string>, fetch: string -> Fetch<Page>, i: nat)
    requires i < |urls|
    ensures var e := PageEntry(urls[i], fetch(urls[i]));
            PagesFrom(urls[..i + 1], fetch) == PagesFrom(urls[..i], fetch) + (if e.Some? then [e.value] else [])
  {
    assert urls[..i + 1][..i] == urls[..i];
  }

  /** Every result comes from one of the urls, with that url; a url is in
      the results exactly when its request succeeded and its page has a
      main content element; there are no more results than urls. */
  lemma {:induction false} PagesSpec(urls: seq<string>, fetch: string -> Fetch<Page>)
    ensures |PagesFrom(urls, fetch)| <= |urls|
    ensures forall d :: d in PagesFrom(urls, fetch) <==>
              exists u :: u in urls && PageEntry(u, fetch(u)) == Some(d)
    decreases |urls|
  {
    if urls != [] {
      var init := urls[..|urls| - 1];
      var u := urls[|urls| - 1];
      PagesSpec(init, fetch);
      assert urls == init + [u];
      forall d ensures d in PagesFrom(urls, fetch) <==> exists v :: v in urls && PageEntry(v, fetch(v)) == Some(d) {
        if d in PagesFrom(urls, fetch) && d !in PagesFrom(init, fetch) {
          assert PageEntry(u, fetch(u)) == Some(d);
        }
        if exists v :: v in urls && PageEntry(v, fetch(v)) == Some(d) {
          var v :| v in urls && PageEntry(v, fetch(v)) == Some(d);
          if v != u {
            assert v in init;
          }
        }
      }
    }
  }

  /** The positions holding `true`, in order. */
  function Positions(flags: seq<bool>): seq<nat>
    decreases |flags|
  {
    if flags == [] then []
    else
      var last := |flags| - 1;
      Positions(flags[..last]) + (if flags[last] then [last] else [])
  }

  /** A position holding `true` is among the positions. */
  lemma {:induction false} PositionOf(flags: seq<bool>, i: nat)
    requires i < |flags| && flags[i]
    ensures i in Positions(flags)
    decreases |flags|
  {
    var last := |flags| - 1;
    if i < last {
      assert flags[..last][i];
      PositionOf(flags[..last], i);
    }
  }

  /** Whether each url gives an entry. */
  function Gives(urls: seq<string>, fetch: string -> Fetch<Page>): seq<bool> {
    seq(|urls|, i requires 0 <= i < |urls| => PageEntry(urls[i], fetch(urls[i])).Some?)
  }

  /** The positions of the urls that give an entry, in order. */
  function EntryIndices(urls: seq<string>, fetch: string -> Fetch<Page>): seq<nat> {
    Positions(Gives(urls, fetch))
  }

  /** The positions increase, and each holds `true`. */
  lemma {:induction false} PositionsSpec(flags: seq<bool>)
    ensures var p := Positions(flags);
            Increasing(p) && forall k :: 0 <= k < |p| ==> p[k] < |flags| && flags[p[k]]
    decreases |flags|
  {
    if flags != [] {
      var last := |flags| - 1;
      PositionsSpec(flags[..last]);
      var p0 := Positions(flags[..last]);
      var p := Positions(flags);
      forall k | 0 <= k < |p0| ensures p[k] == p0[k] && flags[p[k]] == flags[..last][p0[k]] {
      }
    }
  }

  /** Whether the urls of a prefix give entries is a prefix of the flags. */
  lemma GivesPrefix(urls: seq<string>, fetch: string -> Fetch<Page>, n: nat)
    requires n <= |urls|
    ensures Gives(urls[..n], fetch) == Gives(urls, fetch)[..n]
  {
    forall i | 0 <= i < n ensures Gives(urls[..n], fetch)[i] == Gives(urls, fetch)[i] {
      assert urls[..n][i] == urls[i];
    }
  }

  /** The `k`-th result is the entry of the url at `EntryIndices[k]`. */
  lemma {:induction false} EntryIndicesAligned(urls: seq<string>, fetch: string -> Fetch<Page>)
    ensures var r := PagesFrom(urls, fetch);
            var idx := EntryIndices(urls, fetch);
            |idx| == |r|
            && forall k :: 0 <= k < |r| ==>
                 idx[k] < |urls| && PageEntry(urls[idx[k]], fetch(urls[idx[k]])) == Some(r[k])
    decreases |urls|
  {
    if urls != [] {
      var last := |urls| - 1;
      var init := urls[..last];
      GivesPrefix(urls, fetch, last);
      EntryIndicesAligned(init, fetch);
      AlignedStep(urls, fetch);
    }
  }

  /** One url more: its entry, if any, is appended at its position. */
  lemma AlignedStep(urls: seq<string>, fetch: string -> Fetch<Page>)
    requires urls != []
    requires Gives(urls[..|urls| - 1], fetch) == Gives(urls, fetch)[..|urls| - 1]
    requires var init := urls[..|urls| - 1];
             var r0 := PagesFrom(init, fetch);
             var idx0 := EntryIndices(init, fetch);
             |idx0| == |r0|
             && forall k :: 0 <= k < |r0| ==>
                  idx0[k] < |init| && PageEntry(init[idx0[k]], fetch(init[idx0[k]])) == Some(r0[k])
    ensures var r := PagesFrom(urls, fetch);
            var idx := EntryIndices(urls, fetch);
            |idx| == |r|
            && forall k :: 0 <= k < |r| ==>
                 idx[k] < |urls| && PageEntry(urls[idx[k]], fetch(urls[idx[k]])) == Some(r[k])
  {
    var last := |urls| - 1;
    var init := urls[..last];
    var r := PagesFrom(urls, fetch);
    var idx := EntryIndices(urls, fetch);
    var r0 := PagesFrom(init, fetch);
    var idx0 := EntryIndices(init, fetch);
    var e := PageEntry(urls[last], fetch(urls[last]));
    assert Gives(urls, fetch)[last] == e.Some?;
    assert idx == idx0 + (if e.Some? then [last] else []);
    assert r == r0 + (if e.Some? then [e.value] else []);
    forall k | 0 <= k < |r0|
      ensures idx[k] == idx0[k] && r[k] == r0[k] && urls[idx[k]] == init[idx0[k]]
    {
    }
  }

  /** A url that gives an entry has its position among the indices. */
  lemma EntryIndexOf(urls: seq<string>, fetch: string -> Fetch<Page>, i: nat)
    requires i < |urls| && PageEntry(urls[i], fetch(urls[i])).Some?
    ensures i in EntryIndices(urls, fetch)
  {
    PositionOf(Gives(urls, fetch), i);
  }

  /** The results are, in url order, exactly the entries of the urls that
      give one: one result per such position of `urls`, none for the
      others. */
  lemma PagesInUrlOrder(urls: seq<string>, fetch: string -> Fetch<Page>)
    ensures var r := PagesFrom(urls, fetch);
            exists idx: seq<nat> ::
              |idx| == |r| && Increasing(idx)
              && (forall k :: 0 <= k < |r| ==>
                    idx[k] < |urls| && PageEntry(urls[idx[k]], fetch(urls[idx[k]])) == Some(r[k]))
              && (forall i :: 0 <= i < |urls| && PageEntry(urls[i], fetch(urls[i])).Some? ==> i in idx)
  {
    EntryIndicesAligned(urls, fetch);
    PositionsSpec(Gives(urls, fetch));
    var idx := EntryIndices(urls, fetch);
    forall i | 0 <= i < |urls| && PageEntry(urls[i], fetch(urls[i])).Some? ensures i in idx {
      EntryIndexOf(urls, fetch, i);
    }
    assert |idx| == |PagesFrom(urls, fetch)|;
  }

  /** A result carries its url, the title from `h1`, else `title`, else
      "Untitled", and the text of `div.entry-content`, else `article`. */
  lemma PageEntrySpec(url: string, fetch: Fetch<Page>)
    ensures PageEntry(url, fetch).Some? <==>
              fetch.Fetched? && (fetch.page.entryContent.Some? || fetch.page.article.Some?)
    ensures PageEntry(url, fetch).Some? ==>
              var d := PageEntry(url, fetch).value;
              d.url == url
              && (fetch.page.h1.Some? ==> d.title == Text(fetch.page.h1.value))
              && (fetch.page.h1.None? && fetch.page.titleTag.Some? ==> d.title == Text(fetch.page.titleTag.value))
              && (fetch.page.h1.None? && fetch.page.titleTag.None? ==> d.title == "Untitled")
              && (fetch.page.entryContent.Some? ==> d.content == JoinedStrippedText(fetch.page.entryContent.value, "\n"))
              && (fetch.page.entryContent.None? ==> d.content == JoinedStrippedText(fetch.page.article.value, "\n"))
  {
  }
}
