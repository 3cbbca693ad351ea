/** Whole-token name matching against the reference sets. The crawl uses an
    all-tokens rule (every token of an entry must be among the caption's tokens); the
    offline filtering stage uses an any-token rule (one shared token suffices). */
module NameMatch {
  import opened Text
  import opened Store

  /** `all(word in caption_words for word in entry.split())` */
  predicate AllTokensIn(entry: string, caption: string) {
    forall w :: w in Split(entry) ==> w in Split(caption)
  }

  /** `any(subname in caption_words for subname in entry.split())` */
  predicate AnyTokenIn(entry: string, caption: string) {
    exists w :: w in Split(entry) && w in Split(caption)
  }

  /** Scan of the person entries with the all-tokens rule. */
  function ScanAllTokens(caption: string, entries: seq<string>): (r: bool)
    ensures r <==> exists i :: 0 <= i < |entries| && AllTokensIn(entries[i], caption)
  {
    if entries == [] then false
    else if AllTokensIn(entries[0], caption) then true
    else
      var rest := ScanAllTokens(caption, entries[1..]);
      assert forall i :: 1 <= i < |entries| ==> entries[i] == entries[1..][i - 1];
      rest
  }

  /** `contains_person_name` of the crawl: a NaN caption matches nothing. */
  function ContainsPersonName(caption: Cell, persons: seq<string>): (r: bool)
    ensures r <==> caption.Str? && exists i :: 0 <= i < |persons| && AllTokensIn(persons[i], caption.s)
  {
    match caption
    case NaN => false
    case Str(s) => ScanAllTokens(s, persons)
  }

  /** Scan of the location entries: entries that are not strings are skipped. */
  function ScanLocations(caption: string, locations: seq<Cell>): (r: bool)
    ensures r <==> exists i :: 0 <= i < |locations| && locations[i].Str? && AllTokensIn(locations[i].s, caption)
  {
    if locations == [] then false
    else if locations[0].Str? && AllTokensIn(locations[0].s, caption) then true
    else
      var rest := ScanLocations(caption, locations[1..]);
      assert forall i :: 1 <= i < |locations| ==> locations[i] == locations[1..][i - 1];
      rest
  }

  /** `contains_location` (identical in both pipeline files). */
  function ContainsLocation(caption: Cell, locations: seq<Cell>): (r: bool)
    ensures r <==> caption.Str? && exists i :: 0 <= i < |locations| && locations[i].Str? && AllTokensIn(locations[i].s, caption.s)
  {
    match caption
    case NaN => false
    case Str(s) => ScanLocations(s, locations)
  }

  function ScanAnyToken(caption: string, entries: seq<string>): (r: bool)
    ensures r <==> exists i :: 0 <= i < |entries| && AnyTokenIn(entries[i], caption)
  {
    if entries == [] then false
    else if AnyTokenIn(entries[0], caption) then true
    else
      var rest := ScanAnyToken(caption, entries[1..]);
      assert forall i :: 1 <= i < |entries| ==> entries[i] == entries[1..][i - 1];
      rest
  }

  /** `contains_person_name` of the filtering stage: one shared token suffices. */
  function ContainsPersonNameAnyToken(caption: Cell, persons: seq<string>): (r: bool)
    ensures r <==> caption.Str? && exists i :: 0 <= i < |persons| && AnyTokenIn(persons[i], caption.s)
  {
    match caption
    case NaN => false
    case Str(s) => ScanAnyToken(s, persons)
  }

  /** For entries with at least one token the all-tokens rule implies the any-token rule. */
  lemma AllTokensImpliesAnyToken(caption: Cell, persons: seq<string>)
    requires forall i :: 0 <= i < |persons| ==> Split(persons[i]) != []
    requires ContainsPersonName(caption, persons)
    ensures ContainsPersonNameAnyToken(caption, persons)
  {
    var i :| 0 <= i < |persons| && AllTokensIn(persons[i], caption.s);
    var w := Split(persons[i])[0];
    assert w in Split(persons[i]);
  }

  /** A blank entry has no tokens: it matches every string under the all-tokens rule and
      nothing under the any-token rule. */
  lemma BlankEntryRules(caption: string)
    ensures ContainsPersonName(Str(caption), [" "])
    ensures !ContainsPersonNameAnyToken(Str(caption), [" "])
  {
    assert StripLeft(" ") == [];
    assert Split(" ") == [];
  }

  /** On captions and entries that are single-space-joined words, the two rules read as
      "every word of the entry is a caption word" and "some word of the entry is". */
  lemma WordListRules(caption: seq<string>, entry: seq<string>)
    requires forall i :: 0 <= i < |caption| ==> IsWord(caption[i])
    requires forall i :: 0 <= i < |entry| ==> IsWord(entry[i])
    ensures ContainsPersonName(Str(JoinWords(caption)), [JoinWords(entry)])
            <==> forall w :: w in entry ==> w in caption
    ensures ContainsPersonNameAnyToken(Str(JoinWords(caption)), [JoinWords(entry)])
            <==> exists w :: w in entry && w in caption
  {
    SplitJoinWords(caption);
    SplitJoinWords(entry);
  }

  /** A multi-word name: "leonardo da vinci" is found in a caption that holds all three
      words, and not in one that holds "leonardo's" instead. */
  lemma MultiWordExample()
    ensures ContainsPersonName(Str(JoinWords(["the", "painting", "by", "leonardo", "da", "vinci"])),
                               [JoinWords(["leonardo", "da", "vinci"])])
    ensures !ContainsPersonName(Str(JoinWords(["leonardo's", "cafe"])),
                                [JoinWords(["leonardo", "da", "vinci"])])
  {
    FullNameMatches();
    PossessiveMisses();
  }

  lemma FullNameMatches()
    ensures ContainsPersonName(Str(JoinWords(["the", "painting", "by", "leonardo", "da", "vinci"])),
                               [JoinWords(["leonardo", "da", "vinci"])])
  {
    WordListRules(["the", "painting", "by", "leonardo", "da", "vinci"], ["leonardo", "da", "vinci"]);
  }

  lemma PossessiveMisses()
    ensures !ContainsPersonName(Str(JoinWords(["leonardo's", "cafe"])), [JoinWords(["leonardo", "da", "vinci"])])
  {
    WordListRules(["leonardo's", "cafe"], ["leonardo", "da", "vinci"]);
    assert "da" !in ["leonardo's", "cafe"];
  }
}
