/** The crawl loop: a queue of URLs to visit, the list of visited URLs, and three
    persisted stores (the overflow of discovered links, the image table and the concept
    table). One iteration fetches the head of the queue, extracts what the page offers,
    merges it into the stores, pops the head and refills the queue from the overflow when
    it runs empty. Fetching is a parameter; the files the stores live in are fields. */
module Frontier {
  import opened Text
  import opened Wrappers
  import opened Store
  import opened Lexicon
  import opened Extractors

  /** The prefix that turns a stored relative link into a URL. */
  const Base: string := "https://en.wikipedia.org/"

  /** Links taken from the overflow per refill. */
  const RefillSize: nat := 100

  /** Seed URLs read from the start file. */
  const SeedLimit: nat := 200

  /** Iterations of the crawl. */
  const Iterations: nat := 15000

  /** A row of the image table. */
  datatype ImageRow = ImageRow(source: string, caption: string, culture: string, semanticField: string)

  /** The whole crawl state that one iteration reads and writes. */
  datatype CrawlState = CrawlState(
    nextUrls: seq<string>,
    visited: seq<string>,
    overflow: seq<string>,
    images: seq<ImageRow>,
    concepts: seq<Concept>)

  datatype Outcome = Completed | Exhausted(at: nat)

  // ---------------------------------------------------------------------------
  // Interlanguage link

  const LanguagePrefixes: map<string, string> :=
    map["korean" := "ko", "chinese" := "zh", "spanish" := "es", "german" := "de"]

  /** The interlanguage link for the page's default culture: the href of the last link
      whose language is the culture's code, unless that href was visited. */
  function MultilingualLink(culture: string, links: seq<(string, string)>, visited: seq<string>): Option<string> {
    if culture in LanguagePrefixes && LastValue(links, LanguagePrefixes[culture]).Some?
       && LastValue(links, LanguagePrefixes[culture]).value !in visited
    then LastValue(links, LanguagePrefixes[culture])
    else None
  }

  /** The value of the last pair with a given key is the value of some pair with that key,
      and no later pair has the key. */
  lemma {:induction false} LastValueFound(pairs: seq<(string, string)>, k: string)
    requires LastValue(pairs, k).Some?
    ensures exists i :: 0 <= i < |pairs| && pairs[i] == (k, LastValue(pairs, k).value)
                        && forall j :: i < j < |pairs| ==> pairs[j].0 != k
  {
    var n := |pairs| - 1;
    if pairs[n].0 != k {
      LastValueFound(pairs[..n], k);
      var i :| 0 <= i < n && pairs[..n][i] == (k, LastValue(pairs[..n], k).value)
               && forall j :: i < j < n ==> pairs[..n][j].0 != k;
      assert pairs[i] == pairs[..n][i];
      forall j | i < j < |pairs|
        ensures pairs[j].0 != k
      {
        if j < n {
          assert pairs[j] == pairs[..n][j];
        }
      }
    }
  }

  /** At most one link is queued: only for the four target cultures, only a link the page
      lists for the culture's language code (the last one listed), and only when it was not
      visited; with such a link present and unvisited, it is queued. */
  lemma MultilingualLinkMeaning(culture: string, links: seq<(string, string)>, visited: seq<string>)
    ensures var m := MultilingualLink(culture, links, visited);
      && (m.Some? ==> culture in ["korean", "chinese", "spanish", "german"] && m.value !in visited
                      && exists i :: 0 <= i < |links| && links[i] == (LanguagePrefixes[culture], m.value)
                                     && forall j :: i < j < |links| ==> links[j].0 != LanguagePrefixes[culture])
      && ((culture in LanguagePrefixes && LastValue(links, LanguagePrefixes[culture]).Some?
           && LastValue(links, LanguagePrefixes[culture]).value !in visited) ==> m.Some?)
  {
    var m := MultilingualLink(culture, links, visited);
    if m.Some? {
      LastValueFound(links, LanguagePrefixes[culture]);
    }
  }

  // ---------------------------------------------------------------------------
  // Outgoing-link filter

  /** Line 373 as written: drops the links that occur verbatim among the visited URLs. */
  function UnvisitedAsWritten(links: seq<string>, visited: seq<string>): (r: seq<string>)
    ensures forall u :: u in r <==> u in links && u !in visited
  {
    if links == [] then []
    else
      var prev := UnvisitedAsWritten(links[..|links| - 1], visited);
      var last := links[|links| - 1];
      assert links == links[..|links| - 1] + [last];
      if last in visited then prev else prev + [last]
  }

  /** The intended filter: drops the links whose URL, as the refill builds it, was visited. */
  function Unvisited(links: seq<string>, visited: seq<string>): (r: seq<string>)
    ensures forall u :: u in r <==> u in links && Base + u !in visited
  {
    if links == [] then []
    else
      var prev := Unvisited(links[..|links| - 1], visited);
      var last := links[|links| - 1];
      assert links == links[..|links| - 1] + [last];
      if Base + last in visited then prev else prev + [last]
  }

  /** A visited article link passes the filter as written: stored links are relative and
      visited URLs absolute, so the comparison never matches. */
  lemma UnvisitedAsWrittenKeepsVisited()
    ensures var visited := [Base + "/wiki/Kimchi"];
      && UnvisitedAsWritten(["/wiki/Kimchi"], visited) == ["/wiki/Kimchi"]
      && Unvisited(["/wiki/Kimchi"], visited) == []
  {
    var visited := [Base + "/wiki/Kimchi"];
    assert "/wiki/Kimchi" !in visited by {
      assert |"/wiki/Kimchi"| != |Base + "/wiki/Kimchi"|;
    }
    assert ["/wiki/Kimchi"][..0] == [];
  }

  // ---------------------------------------------------------------------------
  // Refill

  /** `Base + u` for every taken link whose URL was not visited, in order. */
  function FreshUrls(taken: seq<string>, visited: seq<string>): (r: seq<string>)
    ensures |r| <= |taken|
    ensures forall v :: v in r <==> exists u :: u in taken && v == Base + u && v !in visited
  {
    if taken == [] then []
    else
      var prev := FreshUrls(taken[..|taken| - 1], visited);
      var last := taken[|taken| - 1];
      assert taken == taken[..|taken| - 1] + [last];
      if Base + last in visited then prev else prev + [Base + last]
  }

  /** Every taken link made absolute, unless it already starts with "https://". */
  function AbsoluteUrls(taken: seq<string>): (r: seq<string>)
    ensures |r| == |taken|
    ensures forall i :: 0 <= i < |taken| ==>
      r[i] == (if StartsWith(taken[i], "https://") then taken[i] else Base + taken[i])
  {
    seq(|taken|, i requires 0 <= i < |taken| =>
      if StartsWith(taken[i], "https://") then taken[i] else Base + taken[i])
  }

  /** The new queue made from the first links of the overflow. */
  function RefillUrls(taken: seq<string>, visited: seq<string>): seq<string> {
    if visited != [] then FreshUrls(taken, visited) else AbsoluteUrls(taken)
  }

  function Min(a: nat, b: nat): nat {
    if a <= b then a else b
  }

  /** Every URL a refill produces can be split on "//". */
  lemma RefillSeparated(taken: seq<string>, visited: seq<string>)
    ensures forall v :: v in RefillUrls(taken, visited) ==> HasSeparator(v)
  {
    if visited != [] {
      FreshSeparated(taken, visited);
    } else {
      AbsoluteUrlsSeparated(taken);
    }
  }

  lemma FreshSeparated(taken: seq<string>, visited: seq<string>)
    ensures forall v :: v in FreshUrls(taken, visited) ==> HasSeparator(v)
  {
    forall v | v in FreshUrls(taken, visited)
      ensures HasSeparator(v)
    {
      var u :| u in taken && v == Base + u && v !in visited;
      BaseSeparated(u);
    }
  }

  lemma AbsoluteUrlsSeparated(taken: seq<string>)
    ensures forall v :: v in AbsoluteUrls(taken) ==> HasSeparator(v)
  {
    forall v | v in AbsoluteUrls(taken)
      ensures HasSeparator(v)
    {
      var i :| 0 <= i < |taken| && AbsoluteUrls(taken)[i] == v;
      if StartsWith(taken[i], "https://") {
        AbsoluteSeparated(taken[i]);
      } else {
        BaseSeparated(taken[i]);
      }
    }
  }


  lemma BaseSeparated(u: string)
    ensures HasSeparator(Base + u)
  {
    var v := Base + u;
    assert v[6] == Base[6] == '/' && v[7] == Base[7] == '/';
    SlashesSeparated(v, 6);
  }

  lemma SlashesSeparated(v: string, k: nat)
    requires k + 1 < |v| && v[k] == '/' && v[k + 1] == '/'
    ensures HasSeparator(v)
  {
  }

  /** Every URL the refill builds on `Base` has the language code "en", so the link
      extraction of the next page scans its links up to the "References" section. */
  lemma BaseLanguageCode(u: string)
    ensures HasSeparator(Base + u) && LanguageCode(Base + u) == "en"
  {
    var v := Base + u;
    BaseSeparated(u);
    assert v[..10] == "https://en";
    assert FindSeparator(v, 0) == 6 by {
      var r := FindSeparator(v, 0);
      assert forall k :: 0 <= k < 8 ==> v[k] == v[..10][k];
      assert v[6] == '/' && v[7] == '/';
      assert r <= 6;
    }
    var b := FindSeparator(v, 8);
    assert b >= 10 by {
      assert v[8] == v[..10][8] && v[9] == v[..10][9];
    }
    assert v[8..b][..2] == "en" by {
      assert v[8..b][0] == v[8] == 'e' && v[8..b][1] == v[9] == 'n';
    }
  }

  /** An absolute URL has its "//" right after the scheme. */
  lemma AbsoluteSeparated(v: string)
    requires StartsWith(v, "https://")
    ensures HasSeparator(v)
  {
    assert v[6] == '/' && v[7] == '/';
  }


  // ---------------------------------------------------------------------------
  // One iteration

  /** What a fetched page must offer for the iteration to complete: a URL that can be
      split on "//" and a title on every kept link before the cutoff. */
  predicate Fetchable(page: Page, url: string) {
    && HasSeparator(url)
    && TitlesPresent(ScannedAnchors(page.anchors, page.nextAnchorHref, url))
  }

  function ImageRows(pairs: seq<(string, string)>, culture: string, field: string): (r: seq<ImageRow>)
    ensures |r| == |pairs|
  {
    seq(|pairs|, i requires 0 <= i < |pairs| => ImageRow(pairs[i].0, pairs[i].1, culture, field))
  }

  /** The queue after the head is popped, refilled from the overflow when it runs empty. */
  function PopAndRefill(s: CrawlState): CrawlState
    requires s.nextUrls != []
  {
    var rest := s.nextUrls[1..];
    if rest != [] then s.(nextUrls := rest)
    else
      var n := Min(RefillSize, |s.overflow|);
      s.(nextUrls := RefillUrls(s.overflow[..n], s.visited), overflow := s.overflow[n..])
  }

  /** The page's default culture and semantic field, from its lowercased heading. */
  function PageDefaults(p: Page, cultures: Entries, fields: Entries): (string, string) {
    DefaultAssignment(cultures, fields, Lower(p.heading))
  }

  /** The rows a page contributes to the image table. */
  function PageImages(p: Page, persons: seq<string>, cultures: Entries, fields: Entries): seq<ImageRow> {
    var (culture, field) := PageDefaults(p, cultures, fields);
    ImageRows(CaptionedImages(p.figures, p.images, persons), culture, field)
  }

  /** The rows a page contributes to the concept table: the link concepts merged with the
      italic terms, with the page defaults, refined by their paragraphs. */
  function PageConceptRows(p: Page, linkConcepts: seq<string>, italics: seq<string>,
                           cultures: Entries, fields: Entries): seq<Concept> {
    var (culture, field) := PageDefaults(p, cultures, fields);
    PageConcepts(MergeRows(linkConcepts, italics), culture, field, p.paragraphs, cultures, fields)
  }

  /** What a fetched page adds to the state: the interlanguage link to the queue, the
      links whose URL was not visited to the overflow, and its images and concepts to
      their stores. `s.visited` already holds the page's URL. */
  function Harvest(s: CrawlState, p: Page, links: seq<string>, linkConcepts: seq<string>,
                   italics: seq<string>, persons: seq<string>, cultures: Entries, fields: Entries): CrawlState
  {
    var multi := MultilingualLink(PageDefaults(p, cultures, fields).0, p.interlanguage, s.visited);
    CrawlState(s.nextUrls + (if multi.Some? then [multi.value] else []),
               s.visited,
               MergeRows(s.overflow, Unvisited(links, s.visited)),
               MergeRows(s.images, PageImages(p, persons, cultures, fields)),
               MergeRows(s.concepts, PageConceptRows(p, linkConcepts, italics, cultures, fields)))
  }

  /** One iteration of the crawl, given the page the head URL yields (None when the
      request fails) and the order in which the page's link, link-title and italic sets
      are listed. */
  function Step(s: CrawlState, page: Option<Page>, links: seq<string>, linkConcepts: seq<string>,
                italics: seq<string>, persons: seq<string>, cultures: Entries, fields: Entries): CrawlState
    requires s.nextUrls != []
  {
    var s1 := s.(visited := s.visited + [s.nextUrls[0]]);
    PopAndRefill(if page.Some? then Harvest(s1, page.value, links, linkConcepts, italics, persons, cultures, fields) else s1)
  }

  /** The image rows of a page, with the page defaults in their culture and field columns. */
  method CollectImages(p: Page, culture: string, field: string, persons: seq<string>) returns (rows: seq<ImageRow>)
    ensures rows == ImageRows(CaptionedImages(p.figures, p.images, persons), culture, field)
  {
    var sources, captions := GetCaptionedImages(p.figures, p.images, persons);
    rows := seq(|sources|, i requires 0 <= i < |sources| => ImageRow(sources[i], captions[i], culture, field));
    assert forall i :: 0 <= i < |sources| ==> Zip(sources, captions)[i] == (sources[i], captions[i]);
  }

  /** The concept rows of a page: merge of the link concepts and the italic terms, with the
      page defaults, annotated with their paragraphs and refined. */
  method CollectConcepts(p: Page, linkConcepts: seq<string>, italics: seq<string>, culture: string, field: string,
                         cultures: Entries, fields: Entries) returns (refined: seq<Concept>)
    ensures refined == PageConcepts(MergeRows(linkConcepts, italics), culture, field, p.paragraphs, cultures, fields)
  {
    var terms := MergeRows(linkConcepts, italics);
    var rows := seq(|terms|, i requires 0 <= i < |terms| => Concept(terms[i], culture, field));
    var annotated := FindParagraphsForConcepts(rows, p.paragraphs);
    refined := AssignCultureAndSemanticFields(annotated, cultures, fields);
  }

  /** Everything the extractors take from one page, before any store is touched. */
  method ExtractPage(p: Page, url: string, persons: seq<string>, cultures: Entries, fields: Entries)
    returns (culture: string, field: string, pageImages: seq<ImageRow>, links: seq<string>,
             linkConcepts: seq<string>, italics: seq<string>, refined: seq<Concept>)
    requires Fetchable(p, url)
    ensures (culture, field) == PageDefaults(p, cultures, fields)
    ensures pageImages == PageImages(p, persons, cultures, fields)
    ensures refined == PageConceptRows(p, linkConcepts, italics, cultures, fields)
    ensures NoDuplicates(links) && NoDuplicates(linkConcepts) && NoDuplicates(italics)
    ensures ListsLinks(ScannedAnchors(p.anchors, p.nextAnchorHref, url), links, linkConcepts)
    ensures ListsItalics(p.italics, italics)
  {
    culture, field := GetDefaultCultureAndSemanticField(cultures, fields, Lower(p.heading));
    pageImages := CollectImages(p, culture, field, persons);
    links, linkConcepts := ExtractLinkConceptsAndUrls(p.anchors, p.nextAnchorHref, url);
    italics := GetAllItalicWords(p.italics);
    refined := CollectConcepts(p, linkConcepts, italics, culture, field, cultures, fields);
  }

  // ---------------------------------------------------------------------------
  // The crawler

  class Crawler {
    var nextUrls: seq<string>
    var visited: seq<string>
    var overflow: seq<string>
    var images: seq<ImageRow>
    var concepts: seq<Concept>
    const persons: seq<string>
    const locations: seq<Cell>
    const cultures: Entries
    const fields: Entries

    function State(): CrawlState
      reads this
    {
      CrawlState(nextUrls, visited, overflow, images, concepts)
    }

    /** The overflow store never holds a link twice. */
    predicate Valid()
      reads this
    {
      NoDuplicates(overflow)
    }

    /** Start of the crawl: the first `SeedLimit` seeds in the shuffled order `shuffled`,
        nothing visited, an emptied overflow, and the image and concept stores as they
        were left by earlier runs. The lexicons are the two dict literals of the source. */
    constructor (seeds: seq<string>, shuffled: seq<string>, storedImages: seq<ImageRow>, storedConcepts: seq<Concept>,
                 persons: seq<string>, locations: seq<Cell>)
      requires multiset(shuffled) == multiset(seeds[..Min(SeedLimit, |seeds|)])
      ensures Valid()
      ensures State() == CrawlState(shuffled, [], [], storedImages, storedConcepts)
      ensures this.persons == persons && this.locations == locations
      ensures this.cultures == Cultures() && this.fields == SemanticFields()
    {
      nextUrls := shuffled;
      visited := [];
      overflow := [];
      images := storedImages;
      concepts := storedConcepts;
      this.persons := persons;
      this.locations := locations;
      this.cultures := Cultures();
      this.fields := SemanticFields();
    }

    /** `append_multilingual_url`: builds the language-to-href dict from the page's
        interlanguage links and queues the link for the culture's language when it was not
        visited. */
    method AppendMultilingualUrl(culture: string, links: seq<(string, string)>)
      modifies this
      ensures nextUrls == old(nextUrls) + (var m := MultilingualLink(culture, links, visited); if m.Some? then [m.value] else [])
      ensures visited == old(visited) && overflow == old(overflow)
      ensures images == old(images) && concepts == old(concepts)
    {
      var langDict: Entries := [];
      var i := 0;
      while i < |links|
        invariant 0 <= i <= |links|
        invariant langDict == DictFromPairs(links[..i])
      {
        assert links[..i + 1][..i] == links[..i];
        langDict := Put(langDict, links[i].0, links[i].1);
        i := i + 1;
      }
      assert links[..i] == links;
      if culture in LanguagePrefixes {
        DictLastValue(links, LanguagePrefixes[culture]);
        var found := Lookup(langDict, LanguagePrefixes[culture]);
        if found.Some? && found.value !in visited {
          nextUrls := nextUrls + [found.value];
        }
      }
    }

    /** `select_next_urls_to_jump_to`: the queue becomes the refill of the first
        `RefillSize` overflow links, which leave the overflow. */
    method SelectNextUrls()
      requires Valid()
      modifies this
      ensures Valid()
      ensures var n := Min(RefillSize, |old(overflow)|);
        && nextUrls == RefillUrls(old(overflow)[..n], visited)
        && overflow == old(overflow)[n..]
      ensures visited == old(visited) && images == old(images) && concepts == old(concepts)
    {
      var n := Min(RefillSize, |overflow|);
      nextUrls := RefillUrls(overflow[..n], visited);
      overflow := overflow[n..];
    }

    /** The page-processing part of an iteration on the page fetched from `url`. */
    method ProcessPage(p: Page, url: string) returns (links: seq<string>, linkConcepts: seq<string>, italics: seq<string>)
      requires Valid() && Fetchable(p, url)
      modifies this
      ensures Valid()
      ensures State() == Harvest(old(State()), p, links, linkConcepts, italics, persons, cultures, fields)
      ensures NoDuplicates(links) && NoDuplicates(linkConcepts) && NoDuplicates(italics)
      ensures ListsLinks(ScannedAnchors(p.anchors, p.nextAnchorHref, url), links, linkConcepts)
      ensures ListsItalics(p.italics, italics)
    {
      var culture, field, pageImages, refined;
      culture, field, pageImages, links, linkConcepts, italics, refined := ExtractPage(p, url, persons, cultures, fields);
      AppendMultilingualUrl(culture, p.interlanguage);
      images := MergeRows(images, pageImages);
      MergeRowsProperties(overflow, Unvisited(links, visited));
      overflow := MergeRows(overflow, Unvisited(links, visited));
      concepts := MergeRows(concepts, refined);
    }

    /** One iteration of the crawl loop on the head URL, given what fetching it yields.
        Returns the link, link-title and italic lists in the order they were listed. */
    method Visit(page: Option<Page>) returns (links: seq<string>, linkConcepts: seq<string>, italics: seq<string>)
      requires Valid() && nextUrls != []
      requires page.Some? ==> Fetchable(page.value, nextUrls[0])
      modifies this
      ensures Valid()
      ensures State() == Step(old(State()), page, links, linkConcepts, italics, persons, cultures, fields)
      ensures page.None? ==> links == [] && linkConcepts == [] && italics == []
      ensures NoDuplicates(links) && NoDuplicates(linkConcepts) && NoDuplicates(italics)
      ensures page.Some? ==> ListsLinks(ScannedAnchors(page.value.anchors, page.value.nextAnchorHref, old(nextUrls)[0]), links, linkConcepts)
      ensures page.Some? ==> ListsItalics(page.value.italics, italics)
      ensures NoDuplicates(old(images)) && NoDuplicates(old(concepts)) ==>
                old(images) <= images && old(concepts) <= concepts
      ensures page.Some? ==> NoDuplicates(images) && NoDuplicates(concepts)
    {
      ghost var start := State();
      var url := nextUrls[0];
      visited := visited + [url];
      links, linkConcepts, italics := [], [], [];
      if page.Some? {
        links, linkConcepts, italics := ProcessPage(page.value, url);
      }
      assert State().nextUrls[0] == url;
      nextUrls := nextUrls[1..];
      if nextUrls == [] {
        SelectNextUrls();
      }
      if NoDuplicates(start.images) && NoDuplicates(start.concepts) {
        StepStoresGrow(start, page, links, linkConcepts, italics, persons, cultures, fields);
      }
      if page.Some? {
        StepStoresDistinct(start, page.value, links, linkConcepts, italics, persons, cultures, fields);
      }
    }

    /** The crawl loop for `iterations` iterations, fetching through `fetch`. It stops
        early, with the iteration it reached, when the queue is empty at the start of an
        iteration (indexing the empty queue raises). */
    method Run(fetch: string -> Option<Page>, iterations: nat) returns (outcome: Outcome)
      requires Valid()
      requires forall u :: fetch(u).Some? ==> Fetchable(fetch(u).value, u)
      modifies this
      ensures Valid()
      ensures old(visited) <= visited
      ensures outcome.Completed? ==> |visited| == |old(visited)| + iterations
      ensures outcome.Exhausted? ==> outcome.at < iterations && nextUrls == []
                                     && |visited| == |old(visited)| + outcome.at
      ensures NoDuplicates(old(images)) && NoDuplicates(old(concepts)) ==>
                old(images) <= images && old(concepts) <= concepts
    {
      var i := 0;
      while i < iterations
        invariant 0 <= i <= iterations
        invariant Valid()
        invariant old(visited) <= visited
        invariant |visited| == |old(visited)| + i
        invariant NoDuplicates(old(images)) && NoDuplicates(old(concepts)) ==>
                    NoDuplicates(images) && NoDuplicates(concepts)
                    && old(images) <= images && old(concepts) <= concepts
      {
        if nextUrls == [] {
          return Exhausted(i);
        }
        var page := fetch(nextUrls[0]);
        var _, _, _ := Visit(page);
        i := i + 1;
      }
      return Completed;
    }
  }

  // ---------------------------------------------------------------------------
  // Properties of one iteration

  /** Each iteration records exactly the head URL as visited. */
  lemma StepVisits(s: CrawlState, page: Option<Page>, links: seq<string>, linkConcepts: seq<string>,
                   italics: seq<string>, persons: seq<string>, cultures: Entries, fields: Entries)
    requires s.nextUrls != []
    ensures Step(s, page, links, linkConcepts, italics, persons, cultures, fields).visited == s.visited + [s.nextUrls[0]]
  {
  }

  /** The stores only grow: when a store holds no duplicate row, its rows stay in place at
      the front and new rows are appended after them. */
  lemma StepStoresGrow(s: CrawlState, page: Option<Page>, links: seq<string>, linkConcepts: seq<string>,
                       italics: seq<string>, persons: seq<string>, cultures: Entries, fields: Entries)
    requires s.nextUrls != []
    requires NoDuplicates(s.images) && NoDuplicates(s.concepts)
    ensures var t := Step(s, page, links, linkConcepts, italics, persons, cultures, fields);
      s.images <= t.images && s.concepts <= t.concepts
  {
    if page.Some? {
      MergeRowsProperties(s.images, PageImages(page.value, persons, cultures, fields));
      MergeRowsProperties(s.concepts, PageConceptRows(page.value, linkConcepts, italics, cultures, fields));
    }
  }

  /** After an iteration with a page, neither the image store nor the concept store holds
      a row twice, and each holds every row of the page. */
  lemma StepStoresDistinct(s: CrawlState, p: Page, links: seq<string>, linkConcepts: seq<string>,
                           italics: seq<string>, persons: seq<string>, cultures: Entries, fields: Entries)
    requires s.nextUrls != []
    ensures var t := Step(s, Some(p), links, linkConcepts, italics, persons, cultures, fields);
      && NoDuplicates(t.images) && NoDuplicates(t.concepts)
      && (forall r :: r in PageImages(p, persons, cultures, fields) ==> r in t.images)
      && (forall r :: r in PageConceptRows(p, linkConcepts, italics, cultures, fields) ==> r in t.concepts)
  {
    MergeRowsProperties(s.images, PageImages(p, persons, cultures, fields));
    MergeRowsProperties(s.concepts, PageConceptRows(p, linkConcepts, italics, cultures, fields));
  }

  /** The interlanguage link an iteration queues: none when the request failed. */
  function QueuedLink(s: CrawlState, page: Option<Page>, cultures: Entries, fields: Entries): seq<string>
    requires s.nextUrls != []
  {
    if page.None? then []
    else
      var p := page.value;
      var m := MultilingualLink(PageDefaults(p, cultures, fields).0, p.interlanguage, s.visited + [s.nextUrls[0]]);
      if m.Some? then [m.value] else []
  }

  /** The overflow once a fetched page's unvisited links were merged into it. */
  function HarvestedOverflow(s: CrawlState, page: Option<Page>, links: seq<string>): seq<string>
    requires s.nextUrls != []
  {
    if page.None? then s.overflow else MergeRows(s.overflow, Unvisited(links, s.visited + [s.nextUrls[0]]))
  }

  /** The queue after an iteration. The head is dropped after the multilingual link was
      appended (lines 363 and 386). When that leaves URLs, they are the new queue and the
      overflow is the harvested one. Otherwise the queue is refilled: it holds exactly the
      unvisited URLs of the first `RefillSize` harvested overflow links, which leave the
      overflow. */
  lemma StepQueue(s: CrawlState, page: Option<Page>, links: seq<string>, linkConcepts: seq<string>,
                  italics: seq<string>, persons: seq<string>, cultures: Entries, fields: Entries)
    requires s.nextUrls != []
    ensures var t := Step(s, page, links, linkConcepts, italics, persons, cultures, fields);
      var queue := s.nextUrls[1..] + QueuedLink(s, page, cultures, fields);
      var ov := HarvestedOverflow(s, page, links);
      var taken := ov[..Min(RefillSize, |ov|)];
      && (queue != [] ==> t.nextUrls == queue && t.overflow == ov)
      && (queue == [] ==> (forall v :: v in t.nextUrls <==> exists u :: u in taken && v == Base + u && v !in t.visited)
                          && ov == taken + t.overflow && |t.nextUrls| <= RefillSize)
  {
    var s1 := s.(visited := s.visited + [s.nextUrls[0]]);
    var h := if page.Some? then Harvest(s1, page.value, links, linkConcepts, italics, persons, cultures, fields) else s1;
    assert h.nextUrls == s.nextUrls + QueuedLink(s, page, cultures, fields);
    assert h.nextUrls[1..] == s.nextUrls[1..] + QueuedLink(s, page, cultures, fields);
    assert h.overflow == HarvestedOverflow(s, page, links);
    if h.nextUrls[1..] == [] {
      StepRefill(h);
    }
  }

  /** A link enters the overflow only when its URL was not visited, even across a refill;
      and when the iteration does not refill, every such link of the page is in the
      overflow. */
  lemma StepOverflowFresh(s: CrawlState, p: Page, links: seq<string>, linkConcepts: seq<string>,
                          italics: seq<string>, persons: seq<string>, cultures: Entries, fields: Entries)
    requires s.nextUrls != []
    ensures var t := Step(s, Some(p), links, linkConcepts, italics, persons, cultures, fields);
      && (forall u :: u in t.overflow && u !in s.overflow ==> u in links && Base + u !in t.visited)
      && (s.nextUrls[1..] + QueuedLink(s, Some(p), cultures, fields) != [] ==>
            forall u :: u in links && Base + u !in t.visited ==> u in t.overflow)
  {
    var visited := s.visited + [s.nextUrls[0]];
    MergeRowsProperties(s.overflow, Unvisited(links, visited));
    StepQueue(s, Some(p), links, linkConcepts, italics, persons, cultures, fields);
  }

  /** When the queue runs empty and something was visited, the refilled queue holds exactly
      the unvisited URLs of the first `RefillSize` overflow links, and those links leave the
      overflow. */
  lemma StepRefill(s: CrawlState)
    requires |s.nextUrls| == 1 && s.visited != []
    ensures var t := PopAndRefill(s);
      var taken := s.overflow[..Min(RefillSize, |s.overflow|)];
      && (forall v :: v in t.nextUrls <==> exists u :: u in taken && v == Base + u && v !in s.visited)
      && s.overflow == taken + t.overflow
      && |t.nextUrls| <= RefillSize
  {
    var n := Min(RefillSize, |s.overflow|);
    assert s.overflow == s.overflow[..n] + s.overflow[n..];
  }
}
