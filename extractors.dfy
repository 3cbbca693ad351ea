/** The per-page extractors of the crawl and the per-concept annotation steps. A fetched
    page is given as plain records: the parsed document itself is not modelled. */
module Extractors {
  import opened Text
  import opened Wrappers
  import opened Store
  import opened NameMatch
  import opened Lexicon

  /** A `<figure>`: the `src` of its first `<img>` (None when it has none) and the text of
      its `<figcaption>`. */
  datatype Figure = Figure(imgSrc: Option<string>, caption: string)

  /** An `<img>` of the body content with its `src` and `alt` attributes. */
  datatype Image = Image(src: string, alt: Option<string>)

  /** An `<a>` of the body content with its `href` and `title` attributes. */
  datatype Anchor = Anchor(href: Option<string>, title: Option<string>)

  /** A fetched page: the text of its first heading; the figures, images, italic texts and
      anchors of its body content in document order; for every element id of the body
      content, the `href` of the first anchor after that element; the texts of all its
      paragraphs; and its interlanguage links as (lang, href) pairs. */
  datatype Page = Page(
    heading: string,
    figures: seq<Figure>,
    images: seq<Image>,
    italics: seq<string>,
    anchors: seq<Anchor>,
    nextAnchorHref: map<string, Option<string>>,
    paragraphs: seq<string>,
    interlanguage: seq<(string, string)>)

  /** A concept row before the paragraph lookup, and after refinement. */
  datatype Concept = Concept(concept: string, culture: string, semanticField: string)

  /** A concept row carrying the `information` column. */
  datatype Annotated = Annotated(concept: string, culture: string, semanticField: string, information: string)

  /** `list(s)` for a set of strings: every element once, in some order. */
  method ListOf(s: set<string>) returns (r: seq<string>)
    ensures NoDuplicates(r)
    ensures forall x :: x in r <==> x in s
  {
    r := [];
    var rest := s;
    while rest != {}
      invariant rest <= s
      invariant forall x :: x in r <==> x in s && x !in rest
      invariant NoDuplicates(r)
      decreases |rest|
    {
      var x :| x in rest;
      r := r + [x];
      rest := rest - {x};
    }
  }

  // ---------------------------------------------------------------------------
  // Italic terms

  predicate KeepsItalic(text: string) {
    IsAlpha(Strip(text)) && |Strip(text)| > 1
  }

  /** `terms` lists exactly the lowercased stripped texts of the kept italics. */
  ghost predicate ListsItalics(italics: seq<string>, terms: seq<string>) {
    forall w :: w in terms <==> exists t :: t in italics && KeepsItalic(t) && w == Lower(Strip(t))
  }

  /** `get_all_italic_words`: the lowercased stripped italic texts that are alphabetic and
      longer than one character, each once. */
  method GetAllItalicWords(italics: seq<string>) returns (terms: seq<string>)
    ensures NoDuplicates(terms)
    ensures ListsItalics(italics, terms)
    ensures forall w :: w in terms ==> IsAlpha(w) && |w| > 1 && IsLowerCase(w)
  {
    var words: set<string> := {};
    var i := 0;
    while i < |italics|
      invariant 0 <= i <= |italics|
      invariant forall w :: w in words <==> exists t :: t in italics[..i] && KeepsItalic(t) && w == Lower(Strip(t))
    {
      var phrase := Strip(italics[i]);
      if IsAlpha(phrase) && |phrase| > 1 {
        words := words + {Lower(phrase)};
      }
      assert italics[..i + 1] == italics[..i] + [italics[i]];
      i := i + 1;
    }
    assert italics[..i] == italics;
    terms := ListOf(words);
    forall w | w in terms
      ensures IsAlpha(w) && |w| > 1 && IsLowerCase(w)
    {
      var t :| t in italics && KeepsItalic(t) && w == Lower(Strip(t));
      LowerKeepsLetters(Strip(t));
      LowerIsLowerCase(Strip(t));
    }
  }

  // ---------------------------------------------------------------------------
  // Captioned images

  predicate ImageExtension(src: string) {
    EndsWith(src, "jpg") || EndsWith(src, "jpeg") || EndsWith(src, "gif")
  }

  /** A caption is kept when it holds a digit or names no person. */
  predicate KeepCaption(caption: string, persons: seq<string>) {
    HasDigit(caption) || !ContainsPersonName(Str(caption), persons)
  }

  function Sources(pairs: seq<(string, string)>): seq<string> {
    seq(|pairs|, i requires 0 <= i < |pairs| => pairs[i].0)
  }

  function Zip(a: seq<string>, b: seq<string>): seq<(string, string)>
    requires |a| == |b|
  {
    seq(|a|, i requires 0 <= i < |a| => (a[i], b[i]))
  }

  lemma ZipSnoc(a: seq<string>, b: seq<string>, x: string, y: string)
    requires |a| == |b|
    ensures Zip(a + [x], b + [y]) == Zip(a, b) + [(x, y)]
  {
  }

  lemma SourcesSnoc(pairs: seq<(string, string)>, x: (string, string))
    ensures Sources(pairs + [x]) == Sources(pairs) + [x.0]
  {
  }

  lemma SourcesZip(a: seq<string>, b: seq<string>)
    requires |a| == |b|
    ensures Sources(Zip(a, b)) == a
  {
  }

  /** The figure pass: (src, caption) of every figure with an image whose caption is kept
      and whose source has an image extension. */
  function FigurePass(figures: seq<Figure>, persons: seq<string>): seq<(string, string)> {
    if figures == [] then []
    else
      var prev := FigurePass(figures[..|figures| - 1], persons);
      var f := figures[|figures| - 1];
      var caption := Lower(Strip(f.caption));
      if f.imgSrc.Some? && KeepCaption(caption, persons) && ImageExtension(f.imgSrc.value)
      then prev + [(f.imgSrc.value, caption)]
      else prev
  }

  /** An image the alt-text pass adds, given the sources collected so far. */
  predicate AltKeeps(img: Image, seen: seq<string>, persons: seq<string>) {
    && img.src !in seen
    && ImageExtension(img.src)
    && img.alt.Some? && img.alt.value != ""
    && KeepCaption(Lower(Strip(img.alt.value)), persons)
  }

  /** The alt-text pass over all images, after the figure pass collected `figureSources`. */
  function AltPass(images: seq<Image>, figureSources: seq<string>, persons: seq<string>): seq<(string, string)> {
    if images == [] then []
    else
      var prev := AltPass(images[..|images| - 1], figureSources, persons);
      var img := images[|images| - 1];
      if AltKeeps(img, figureSources + Sources(prev), persons)
      then prev + [(img.src, Lower(Strip(img.alt.value)))]
      else prev
  }

  function CaptionedImages(figures: seq<Figure>, images: seq<Image>, persons: seq<string>): seq<(string, string)> {
    var figs := FigurePass(figures, persons);
    figs + AltPass(images, Sources(figs), persons)
  }

  /** The first loop of `get_captioned_images`, over the `<figure>` elements. */
  method FigureColumns(figures: seq<Figure>, persons: seq<string>) returns (sources: seq<string>, captions: seq<string>)
    ensures |sources| == |captions|
    ensures Zip(sources, captions) == FigurePass(figures, persons)
  {
    sources, captions := [], [];
    var i := 0;
    while i < |figures|
      invariant 0 <= i <= |figures|
      invariant |sources| == |captions|
      invariant Zip(sources, captions) == FigurePass(figures[..i], persons)
    {
      var fig := figures[i];
      if fig.imgSrc.Some? {
        var caption := Lower(Strip(fig.caption));
        var src := fig.imgSrc.value;
        if HasDigit(caption) || !ContainsPersonName(Str(caption), persons) {
          if ImageExtension(src) {
            ZipSnoc(sources, captions, src, caption);
            captions := captions + [caption];
            sources := sources + [src];
          }
        }
      }
      assert figures[..i + 1][..i] == figures[..i];
      i := i + 1;
    }
    assert figures[..i] == figures;
  }

  /** `get_captioned_images`: the two parallel columns `img_source` and `img_captions`. */
  method GetCaptionedImages(figures: seq<Figure>, images: seq<Image>, persons: seq<string>)
    returns (sources: seq<string>, captions: seq<string>)
    ensures |sources| == |captions|
    ensures Zip(sources, captions) == CaptionedImages(figures, images, persons)
    ensures forall i :: 0 <= i < |sources| ==> ImageExtension(sources[i]) && KeepCaption(captions[i], persons)
  {
    sources, captions := FigureColumns(figures, persons);
    ghost var figs := FigurePass(figures, persons);
    SourcesZip(sources, captions);
    var j := 0;
    while j < |images|
      invariant 0 <= j <= |images|
      invariant |sources| == |captions|
      invariant Zip(sources, captions) == figs + AltPass(images[..j], Sources(figs), persons)
      invariant sources == Sources(figs) + Sources(AltPass(images[..j], Sources(figs), persons))
    {
      var img := images[j];
      ghost var prev := AltPass(images[..j], Sources(figs), persons);
      assert images[..j + 1][..j] == images[..j];
      assert images[..j + 1][j] == img;
      ghost var next := AltPass(images[..j + 1], Sources(figs), persons);
      if img.src !in sources && ImageExtension(img.src) && img.alt.Some? && img.alt.value != "" {
        var title := Lower(Strip(img.alt.value));
        if HasDigit(title) || !ContainsPersonName(Str(title), persons) {
          assert next == prev + [(img.src, title)];
          ZipSnoc(sources, captions, img.src, title);
          SourcesSnoc(prev, (img.src, title));
          captions := captions + [title];
          sources := sources + [img.src];
        } else {
          assert next == prev;
        }
      } else {
        assert next == prev;
      }
      j := j + 1;
    }
    assert images[..j] == images;
    CaptionedImagesKept(figures, images, persons);
    ZipKept(sources, captions, persons);
  }

  lemma ZipKept(sources: seq<string>, captions: seq<string>, persons: seq<string>)
    requires |sources| == |captions|
    requires forall p :: p in Zip(sources, captions) ==> ImageExtension(p.0) && KeepCaption(p.1, persons)
    ensures forall i :: 0 <= i < |sources| ==> ImageExtension(sources[i]) && KeepCaption(captions[i], persons)
  {
    forall k | 0 <= k < |sources|
      ensures ImageExtension(sources[k]) && KeepCaption(captions[k], persons)
    {
      assert Zip(sources, captions)[k] == (sources[k], captions[k]);
    }
  }

  lemma {:induction false} FigurePassKept(figures: seq<Figure>, persons: seq<string>)
    ensures forall p :: p in FigurePass(figures, persons) ==> ImageExtension(p.0) && KeepCaption(p.1, persons)
  {
    if figures != [] {
      FigurePassKept(figures[..|figures| - 1], persons);
    }
  }

  lemma {:induction false} AltPassKept(images: seq<Image>, seen: seq<string>, persons: seq<string>)
    ensures forall p :: p in AltPass(images, seen, persons) ==>
      && ImageExtension(p.0) && KeepCaption(p.1, persons) && p.0 !in seen
      && exists img :: img in images && img.src == p.0 && img.alt.Some? && img.alt.value != ""
  {
    if images != [] {
      var init := images[..|images| - 1];
      AltPassKept(init, seen, persons);
      forall p | p in AltPass(init, seen, persons)
        ensures exists img :: img in images && img.src == p.0 && img.alt.Some? && img.alt.value != ""
      {
        var img :| img in init && img.src == p.0 && img.alt.Some? && img.alt.value != "";
        assert img in images;
      }
    }
  }

  /** Every kept image has an image extension and a kept caption. */
  lemma CaptionedImagesKept(figures: seq<Figure>, images: seq<Image>, persons: seq<string>)
    ensures forall p :: p in CaptionedImages(figures, images, persons) ==> ImageExtension(p.0) && KeepCaption(p.1, persons)
  {
    FigurePassKept(figures, persons);
    AltPassKept(images, Sources(FigurePass(figures, persons)), persons);
  }

  /** The alt-text pass never adds a source already collected: its sources are outside the
      figure pass and distinct among themselves. */
  lemma {:induction false} AltPassFresh(images: seq<Image>, seen: seq<string>, persons: seq<string>)
    ensures var alt := Sources(AltPass(images, seen, persons));
      && (forall s :: s in alt ==> s !in seen)
      && NoDuplicates(alt)
  {
    if images != [] {
      var init := images[..|images| - 1];
      var prev := AltPass(init, seen, persons);
      var img := images[|images| - 1];
      AltPassFresh(init, seen, persons);
      if AltKeeps(img, seen + Sources(prev), persons) {
        var caption := Lower(Strip(img.alt.value));
        assert Sources(prev + [(img.src, caption)]) == Sources(prev) + [img.src];
      }
    }
  }

  // ---------------------------------------------------------------------------
  // Outbound links and link-title concepts

  /** The id of the reference section, by language code. */
  const ReferenceSectionIds: map<string, string> :=
    map["en" := "References", "es" := "Referencias", "de" := "Weblinks", "zh" := "參考來源", "ko" := "참고 문헌"]

  /** The first index at or after `i` where "//" starts, or |s| when there is none. */
  function FindSeparator(s: string, i: nat): (r: nat)
    requires i <= |s|
    ensures i <= r <= |s|
    ensures r < |s| ==> r + 1 < |s| && s[r] == '/' && s[r + 1] == '/'
    ensures forall k :: i <= k < r && k + 1 < |s| ==> !(s[k] == '/' && s[k + 1] == '/')
    decreases |s| - i
  {
    if i + 1 >= |s| then |s|
    else if s[i] == '/' && s[i + 1] == '/' then i
    else FindSeparator(s, i + 1)
  }

  predicate HasSeparator(url: string) {
    FindSeparator(url, 0) < |url|
  }

  /** `url.split('//')[1][:2]`: at most two characters of the piece between the first
      "//" and the next one. The code starts right after the first "//" and is two
      characters long unless the next "//" or the end comes sooner. */
  function LanguageCode(url: string): (code: string)
    requires HasSeparator(url)
    ensures var a := FindSeparator(url, 0) + 2;
      && a <= |url| && code <= url[a..]
      && |code| == (if FindSeparator(url, a) - a < 2 then FindSeparator(url, a) - a else 2)
  {
    var a := FindSeparator(url, 0) + 2;
    var b := FindSeparator(url, a);
    var piece := url[a..b];
    if |piece| <= 2 then piece else piece[..2]
  }

  /** The href of the anchor after the reference section, when the body has that section. */
  function Cutoff(nextAnchorHref: map<string, Option<string>>, sectionId: string): Option<Option<string>> {
    if sectionId in nextAnchorHref then Some(nextAnchorHref[sectionId]) else None
  }

  /** Index of the first anchor whose href equals the cutoff href, or |anchors|. */
  function ScanEnd(anchors: seq<Anchor>, cutoff: Option<Option<string>>): (n: nat)
    ensures n <= |anchors|
    ensures forall j :: 0 <= j < n ==> !(cutoff.Some? && anchors[j].href == cutoff.value)
    ensures n < |anchors| ==> cutoff.Some? && anchors[n].href == cutoff.value
  {
    if anchors == [] then 0
    else if cutoff.Some? && anchors[0].href == cutoff.value then 0
    else
      var n := 1 + ScanEnd(anchors[1..], cutoff);
      assert forall j :: 1 <= j < |anchors| ==> anchors[j] == anchors[1..][j - 1];
      n
  }

  /** An internal content link: under /wiki/, no namespace colon, no "(identifier)". */
  predicate WikiLink(href: Option<string>) {
    href.Some? && StartsWith(href.value, "/wiki/") && !Contains(href.value, ":") && !Contains(href.value, "(identifier)")
  }

  predicate TitleConcept(title: string) {
    IsAlpha(title) && |title| > 1
  }

  /** The anchors the scan reaches: those before the cutoff anchor. */
  function ScannedAnchors(anchors: seq<Anchor>, nextAnchorHref: map<string, Option<string>>, url: string): seq<Anchor>
    requires HasSeparator(url)
  {
    var code := LanguageCode(url);
    if code in ReferenceSectionIds
    then anchors[..ScanEnd(anchors, Cutoff(nextAnchorHref, ReferenceSectionIds[code]))]
    else []
  }

  /** Every kept link the scan reaches has a title (a missing one raises). */
  predicate TitlesPresent(anchors: seq<Anchor>) {
    forall j :: 0 <= j < |anchors| && WikiLink(anchors[j].href) ==> anchors[j].title.Some?
  }

  /** `urls` lists exactly the kept links among `scanned`, and `concepts` the lowercased
      titles of those whose title is a concept. */
  ghost predicate ListsLinks(scanned: seq<Anchor>, urls: seq<string>, concepts: seq<string>)
    requires TitlesPresent(scanned)
  {
    && (forall u :: u in urls <==> exists j :: 0 <= j < |scanned| && WikiLink(scanned[j].href) && u == scanned[j].href.value)
    && (forall c :: c in concepts <==> exists j :: 0 <= j < |scanned| && WikiLink(scanned[j].href)
                                             && TitleConcept(scanned[j].title.value) && c == Lower(scanned[j].title.value))
  }

  /** `extract_link_concepts_and_urls`: both tables are empty for an unsupported language;
      otherwise the kept links before the cutoff anchor, and the lowercased titles of those
      whose title is alphabetic and longer than one character. */
  method ExtractLinkConceptsAndUrls(anchors: seq<Anchor>, nextAnchorHref: map<string, Option<string>>, url: string)
    returns (urls: seq<string>, concepts: seq<string>)
    requires HasSeparator(url)
    requires TitlesPresent(ScannedAnchors(anchors, nextAnchorHref, url))
    ensures NoDuplicates(urls) && NoDuplicates(concepts)
    ensures LanguageCode(url) !in ReferenceSectionIds ==> urls == [] && concepts == []
    ensures ListsLinks(ScannedAnchors(anchors, nextAnchorHref, url), urls, concepts)
    ensures forall u :: u in urls ==> StartsWith(u, "/wiki/") && !Contains(u, ":") && !Contains(u, "(identifier)")
  {
    var code := LanguageCode(url);
    if code !in ReferenceSectionIds {
      return [], [];
    }
    var cutoff := Cutoff(nextAnchorHref, ReferenceSectionIds[code]);
    ghost var n := ScanEnd(anchors, cutoff);
    ghost var scanned := ScannedAnchors(anchors, nextAnchorHref, url);
    var urlSet: set<string> := {};
    var conceptSet: set<string> := {};
    var i := 0;
    while i < |anchors|
      invariant 0 <= i <= n
      invariant forall u :: u in urlSet <==> exists j :: 0 <= j < i && WikiLink(anchors[j].href) && u == anchors[j].href.value
      invariant forall c :: c in conceptSet <==> exists j :: 0 <= j < i && WikiLink(anchors[j].href)
                                                  && TitleConcept(anchors[j].title.value) && c == Lower(anchors[j].title.value)
    {
      var link := anchors[i];
      if cutoff.Some? && link.href == cutoff.value {
        break;
      }
      assert i < n;
      assert scanned[i] == link;
      if link.href.Some? && StartsWith(link.href.value, "/wiki/") && !Contains(link.href.value, ":")
         && !Contains(link.href.value, "(identifier)") {
        var title := link.title.value;
        if IsAlpha(title) && |title| > 1 {
          conceptSet := conceptSet + {Lower(title)};
        }
        urlSet := urlSet + {link.href.value};
      }
      i := i + 1;
    }
    assert i == n;
    assert forall j :: 0 <= j < n ==> scanned[j] == anchors[j];
    urls := ListOf(urlSet);
    concepts := ListOf(conceptSet);
  }

  /** No anchor at or after the cutoff anchor contributes a link. */
  lemma CutoffBoundsLinks(anchors: seq<Anchor>, nextAnchorHref: map<string, Option<string>>, url: string, k: nat)
    requires HasSeparator(url) && LanguageCode(url) in ReferenceSectionIds
    requires var id := ReferenceSectionIds[LanguageCode(url)];
      id in nextAnchorHref && k < |anchors| && anchors[k].href == nextAnchorHref[id]
    ensures |ScannedAnchors(anchors, nextAnchorHref, url)| <= k
  {
  }

  // ---------------------------------------------------------------------------
  // Paragraph provenance

  /** The comma-joined lowercased texts of the paragraphs that contain `concept`. */
  function Provenance(concept: string, paragraphs: seq<string>): string {
    if paragraphs == [] then ""
    else
      var prev := Provenance(concept, paragraphs[..|paragraphs| - 1]);
      var text := Lower(paragraphs[|paragraphs| - 1]);
      if Contains(text, concept) then (if prev == "" then text else prev + ", " + text) else prev
  }

  /** `find_paragraphs_for_concepts`: adds the `information` column, initially "", and
      extends it with every paragraph containing the concept. */
  method FindParagraphsForConcepts(concepts: seq<Concept>, paragraphs: seq<string>) returns (rows: seq<Annotated>)
    ensures |rows| == |concepts|
    ensures forall i :: 0 <= i < |rows| ==>
      rows[i] == Annotated(concepts[i].concept, concepts[i].culture, concepts[i].semanticField,
                           Provenance(concepts[i].concept, paragraphs))
  {
    rows := seq(|concepts|, i requires 0 <= i < |concepts| =>
      Annotated(concepts[i].concept, concepts[i].culture, concepts[i].semanticField, ""));
    var idx := 0;
    while idx < |rows|
      invariant 0 <= idx <= |rows| == |concepts|
      invariant forall i :: 0 <= i < idx ==>
        rows[i] == Annotated(concepts[i].concept, concepts[i].culture, concepts[i].semanticField,
                             Provenance(concepts[i].concept, paragraphs))
      invariant forall i :: idx <= i < |rows| ==>
        rows[i] == Annotated(concepts[i].concept, concepts[i].culture, concepts[i].semanticField, "")
    {
      var k := 0;
      while k < |paragraphs|
        invariant 0 <= k <= |paragraphs|
        invariant |rows| == |concepts|
        invariant forall i :: 0 <= i < idx ==>
          rows[i] == Annotated(concepts[i].concept, concepts[i].culture, concepts[i].semanticField,
                               Provenance(concepts[i].concept, paragraphs))
        invariant forall i :: idx < i < |rows| ==>
          rows[i] == Annotated(concepts[i].concept, concepts[i].culture, concepts[i].semanticField, "")
        invariant rows[idx] == Annotated(concepts[idx].concept, concepts[idx].culture, concepts[idx].semanticField,
                                         Provenance(concepts[idx].concept, paragraphs[..k]))
      {
        var text := Lower(paragraphs[k]);
        if Contains(text, rows[idx].concept) {
          if rows[idx].information == "" {
            rows := rows[idx := rows[idx].(information := text)];
          } else {
            rows := rows[idx := rows[idx].(information := rows[idx].information + ", " + text)];
          }
        }
        assert paragraphs[..k + 1][..k] == paragraphs[..k];
        k := k + 1;
      }
      assert paragraphs[..k] == paragraphs;
      idx := idx + 1;
    }
  }

  /** The provenance is "" exactly when every paragraph containing the concept is empty;
      for a non-empty concept, exactly when no paragraph contains it. */
  lemma {:induction false} ProvenanceEmpty(concept: string, paragraphs: seq<string>)
    ensures Provenance(concept, paragraphs) == "" <==>
      forall p :: p in paragraphs && Contains(Lower(p), concept) ==> p == ""
    ensures concept != "" ==>
      (Provenance(concept, paragraphs) == "" <==> forall p :: p in paragraphs ==> !Contains(Lower(p), concept))
  {
    if paragraphs != [] {
      var init := paragraphs[..|paragraphs| - 1];
      var last := paragraphs[|paragraphs| - 1];
      ProvenanceEmpty(concept, init);
      assert paragraphs == init + [last];
      assert |Lower(last)| == |last|;
      if concept != "" && Contains(Lower(last), concept) {
        var i :| 0 <= i <= |Lower(last)| && StartsWith(Lower(last)[i..], concept);
      }
    }
  }

  /** Every paragraph containing the concept is part of its provenance. */
  lemma {:induction false} ProvenanceIncludes(concept: string, paragraphs: seq<string>, p: string)
    requires p in paragraphs && Contains(Lower(p), concept)
    ensures Contains(Provenance(concept, paragraphs), Lower(p))
  {
    var init := paragraphs[..|paragraphs| - 1];
    var last := paragraphs[|paragraphs| - 1];
    var prev := Provenance(concept, init);
    var text := Lower(last);
    assert paragraphs == init + [last];
    if p in init {
      ProvenanceIncludes(concept, init, p);
      if Contains(text, concept) && prev != "" {
        var i :| 0 <= i <= |prev| && StartsWith(prev[i..], Lower(p));
        ContainsInPrefix(prev, ", " + text, i, Lower(p));
        assert prev + ", " + text == prev + (", " + text);
      }
    } else {
      assert p == last;
      if prev != "" {
        var whole := prev + ", " + text;
        assert whole[|prev| + 2..] == text;
        assert StartsWith(whole[|prev| + 2..], text);
      } else {
        assert StartsWith(text[0..], text);
      }
    }
  }

  lemma ContainsInPrefix(a: string, b: string, i: nat, sub: string)
    requires i <= |a| && StartsWith(a[i..], sub)
    ensures StartsWith((a + b)[i..], sub)
  {
    assert (a + b)[i..][..|sub|] == a[i..][..|sub|];
  }

  // ---------------------------------------------------------------------------
  // Culture and semantic-field refinement

  /** `assign_culture_and_semantic_fields_to_concepts`: per row, the first culture key and
      the first field key found in the provenance overwrite the page default; the
      `information` column is dropped. */
  /** A row after the first loop: the culture of the first culture key in its text. */
  function WithCulture(r: Annotated, cultures: Entries): Annotated {
    r.(culture := FirstMatch(cultures, r.information).GetOr(r.culture))
  }

  /** A row after the second loop: the field of the first field key in its text. */
  function WithField(r: Annotated, fields: Entries): Annotated {
    r.(semanticField := FirstMatch(fields, r.information).GetOr(r.semanticField))
  }

  /** The first loop of `assign_culture_and_semantic_fields_to_concepts`, over the cultures. */
  method AssignCultures(rows: seq<Annotated>, cultures: Entries) returns (table: seq<Annotated>)
    ensures |table| == |rows|
    ensures forall i :: 0 <= i < |rows| ==> table[i] == WithCulture(rows[i], cultures)
  {
    table := rows;
    var idx := 0;
    while idx < |table|
      invariant 0 <= idx <= |table| == |rows|
      invariant forall i :: 0 <= i < idx ==> table[i] == WithCulture(rows[i], cultures)
      invariant forall i :: idx <= i < |rows| ==> table[i] == rows[i]
    {
      var found := ScanLexicon(cultures, table[idx].information);
      ghost var before := table;
      if found.Some? {
        table := table[idx := table[idx].(culture := found.value)];
      }
      assert table[idx] == WithCulture(rows[idx], cultures);
      assert forall i :: 0 <= i < |rows| && i != idx ==> table[i] == before[i] by {
        if found.Some? {
          assert table == before[idx := before[idx].(culture := found.value)];
        }
      }
      idx := idx + 1;
    }
  }

  /** The second loop, over the semantic fields. */
  method AssignFields(rows: seq<Annotated>, fields: Entries) returns (table: seq<Annotated>)
    ensures |table| == |rows|
    ensures forall i :: 0 <= i < |rows| ==> table[i] == WithField(rows[i], fields)
  {
    table := rows;
    var idx := 0;
    while idx < |table|
      invariant 0 <= idx <= |table| == |rows|
      invariant forall i :: 0 <= i < idx ==> table[i] == WithField(rows[i], fields)
      invariant forall i :: idx <= i < |rows| ==> table[i] == rows[i]
    {
      var found := ScanLexicon(fields, table[idx].information);
      ghost var before := table;
      if found.Some? {
        table := table[idx := table[idx].(semanticField := found.value)];
      }
      assert table[idx] == WithField(rows[idx], fields);
      assert forall i :: 0 <= i < |rows| && i != idx ==> table[i] == before[i] by {
        if found.Some? {
          assert table == before[idx := before[idx].(semanticField := found.value)];
        }
      }
      idx := idx + 1;
    }
  }

  method AssignCultureAndSemanticFields(rows: seq<Annotated>, cultures: Entries, fields: Entries)
    returns (out: seq<Concept>)
    ensures |out| == |rows|
    ensures forall i :: 0 <= i < |rows| ==> out[i].concept == rows[i].concept
    ensures forall i :: 0 <= i < |rows| ==>
      out[i].culture == FirstMatch(cultures, rows[i].information).GetOr(rows[i].culture)
    ensures forall i :: 0 <= i < |rows| ==>
      out[i].semanticField == FirstMatch(fields, rows[i].information).GetOr(rows[i].semanticField)
  {
    var withCultures := AssignCultures(rows, cultures);
    var table := AssignFields(withCultures, fields);
    out := seq(|table|, i requires 0 <= i < |table| => Concept(table[i].concept, table[i].culture, table[i].semanticField));
  }

  /** The rows a page contributes to the concept table: the link concepts merged with the
      italic terms, given the page defaults, then annotated and refined. */
  function PageConcepts(terms: seq<string>, culture: string, field: string, paragraphs: seq<string>,
                        cultures: Entries, fields: Entries): seq<Concept>
  {
    seq(|terms|, i requires 0 <= i < |terms| =>
      var info := Provenance(terms[i], paragraphs);
      Concept(terms[i], FirstMatch(cultures, info).GetOr(culture), FirstMatch(fields, info).GetOr(field)))
  }

  // ---------------------------------------------------------------------------
  // Crawl-time location filter

  /** `remove_people_and_locations_from_concepts` of the crawl: keeps, in order, the rows
      whose concept contains no location (persons are not filtered here). */
  function RemoveLocations(rows: seq<Concept>, locations: seq<Cell>): (r: seq<Concept>)
    ensures forall x :: x in r <==> x in rows && !ContainsLocation(Str(x.concept), locations)
  {
    if rows == [] then []
    else
      var prev := RemoveLocations(rows[..|rows| - 1], locations);
      var last := rows[|rows| - 1];
      assert rows == rows[..|rows| - 1] + [last];
      if ContainsLocation(Str(last.concept), locations) then prev else prev + [last]
  }

  /** The filter keeps order: it distributes over concatenation. */
  lemma {:induction false} RemoveLocationsAppend(a: seq<Concept>, b: seq<Concept>, locations: seq<Cell>)
    ensures RemoveLocations(a + b, locations) == RemoveLocations(a, locations) + RemoveLocations(b, locations)
    decreases |b|
  {
    if b == [] {
      assert a + b == a;
    } else {
      var b' := b[..|b| - 1];
      assert (a + b)[..|a + b| - 1] == a + b';
      RemoveLocationsAppend(a, b', locations);
    }
  }
}
