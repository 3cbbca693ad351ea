# Cultural concept collection pipeline: a Dafny model

This project models the decision logic of a two-stage pipeline that collects culturally
specific concepts from Wikipedia.

**Crawl stage** (`concept_extraction.py`):
- It walks a frontier of article URLs: an active queue, the visited list, and a persisted
  overflow of discovered links.
- From every fetched page it extracts:
  - italic terms;
  - captioned images that show no notable person;
  - outgoing article links, and concepts taken from their titles.
- Each page gets a default culture and semantic field, taken from the first lexicon key
  found in its heading.
- Each concept is refined by the paragraphs it occurs in.
- Everything is merged into persisted tables by concatenation followed by keep-first
  de-duplication.

**Filtering stage** (`concept_filtering.py`):
- de-duplicates the concept table by concept;
- removes concepts that share a token with a person name;
- parses language-model replies with the pattern `:\s(.*?)(?=,|$)` and sorts each concept
  into a gold, candidate, dropped or unassigned file by counting empty ("None") answers;
- trims the written lines;
- sorts files by country, semantic field and concept;
- partitions rows by language and by how many preassigned fields they carry.

**Reference-set preparation** (`location_person_db_filtering.py`): normalises the person
names, and builds the place-name table from two sources.

The modules are:

| module | file | contents |
|---|---|---|
| `Text` | `text.dfy` | The string primitives: `split`, `strip`, `lower`, `isalpha`, substring. |
| `Store` | `store.dfy` | Keep-first de-duplication and the incremental merge. |
| `Wrappers` | `wrappers.dfy` | `Option`. |
| `Lexicon` | `lexicon.dfy` | Dict literals with Python's duplicate-key rule, and the first-match classifier. |
| `NameMatch` | `name_match.dfy` | The all-token and any-token name rules. |
| `Extractors` | `extractors.dfy` | The per-page extractors and the per-concept annotation. |
| `Frontier` | `frontier.dfy` | The crawl loop as a class `Crawler`, specified by a pure one-iteration function `Step`. |
| `Filtering` | `filtering.dfy` | The filtering stage. |
| `Sorting` | `sorting.dfy` | `sort_csv`. |
| `ReferenceSets` | `reference_sets.dfy` | The reference-set preparation. |

A fetched page is given as plain records (`Extractors.Page`):
- its heading;
- its figures, images, italic texts and anchors, in document order;
- for each element id, the href of the first anchor after that element;
- its paragraph texts;
- its interlanguage links.

Fetching is a parameter of `Crawler.Run`. The language-model replies are inputs of
`Filtering.EvaluateConcepts`. The persisted tables are sequences held in fields or passed in.

Python `set`s that the source turns into lists (`list(italic_words)`, `list(scraped_urls)`)
have no defined order. So the methods that build them return the list they produced and
state its contents and uniqueness. `Frontier.Step` takes those lists as parameters.

Two behaviours of the crawl loop are stated as the code has them:
- Indexing the empty queue raises at concept_extraction.py:354. `Crawler.Run` reports this case
  as `Exhausted(i)`.
- Repeated seeds and interlanguage links can queue an already visited URL, so the model claims
  no disjointness between the visited list and the queue.

The three defects listed under "## Findings" are each modelled twice: once as written, with a
lemma that exhibits the defect, and once corrected. The operations that use these rules
(`Frontier.Harvest` and so `Crawler.ProcessPage`, `Crawler.Visit` and `Step`;
`Filtering.EvaluateConcepts`; `Filtering.CleanupFormat`) run the corrected rule. Their rows say
"corrected", and "## Left out" names each of them.

## Model

| member | source | states |
|---|---|---|
| Store.ConcatAndFilterUniqueValues | concept_collection_pipeline/concept_extraction.py:56-67 | The merged table has the columns of both tables, the first table's columns first, and only rows from either input. |
| Store.DedupDistinct | concept_collection_pipeline/concept_extraction.py:67 | After `drop_duplicates`, no two rows share a key. |
| Store.DedupCovers | concept_collection_pipeline/concept_extraction.py:67 | Every input row's key is still present after `drop_duplicates`. |
| Store.DedupKeepsFirst | concept_collection_pipeline/concept_extraction.py:67 | A row whose key no earlier row has is kept. |
| Store.DedupOfDistinct | concept_collection_pipeline/concept_extraction.py:67 | A duplicate-free table is left unchanged. |
| Store.DedupAppendSeen | concept_collection_pipeline/concept_extraction.py:66-67 | Appending rows whose keys were already present changes nothing. |
| Store.DedupPrefix | concept_collection_pipeline/concept_extraction.py:66-67 | The de-duplicated first table is a prefix of the de-duplicated concatenation. |
| Store.DedupIdempotent | concept_collection_pipeline/concept_extraction.py:67 | De-duplicating twice is the same as once. |
| Store.MergeIdempotent | concept_collection_pipeline/concept_extraction.py:56-67 | Merging the same new rows a second time leaves the merge unchanged. |
| Store.NoExtraColumns | concept_collection_pipeline/concept_extraction.py:66 | When the second table's columns are all in the first, the concatenation adds no column. |
| Store.TableMergeIdempotent | concept_collection_pipeline/concept_extraction.py:56-67 | Table merge is idempotent in the new rows when the stored schema covers them. |
| Store.TableMergeKeys | concept_collection_pipeline/concept_extraction.py:56-67 | Table merge: every input row has a key-equal row in the result, and no two result rows share a key. |
| Store.MergeRowsProperties | concept_collection_pipeline/concept_extraction.py:66-67 | Whole-row merge: no duplicates, a duplicate-free store stays a prefix, and the result holds exactly the rows of either input. |
| Extractors.FindParagraphsForConcepts | concept_collection_pipeline/concept_extraction.py:83-104 | One row per concept, in order, each with its provenance: the comma-joined lowercased paragraphs containing the concept. |
| Extractors.Provenance | concept_collection_pipeline/concept_extraction.py:96-103 | (No contract of its own.) The comma-join, in paragraph order, of the lowercased texts of the paragraphs that contain the concept; `ProvenanceEmpty` and `ProvenanceIncludes` state its properties. |
| Extractors.ProvenanceEmpty | concept_collection_pipeline/concept_extraction.py:96-104 | For a non-empty concept, the provenance is "" exactly when no lowercased paragraph contains it. |
| Extractors.ProvenanceIncludes | concept_collection_pipeline/concept_extraction.py:97-103 | Every lowercased paragraph that contains the concept occurs in its provenance. This holds of the comma-join model; see "## Left out". |
| Extractors.ListOf | concept_collection_pipeline/concept_extraction.py:121 | `list(set)`: each element of the set exactly once. |
| Extractors.GetAllItalicWords | concept_collection_pipeline/concept_extraction.py:106-121 | Duplicate-free; holds exactly the lowercased stripped texts that are alphabetic and longer than one character. |
| NameMatch.ScanAllTokens | concept_collection_pipeline/concept_extraction.py:127-131 | True iff some entry has all of its tokens among the caption's tokens. |
| NameMatch.ContainsPersonName | concept_collection_pipeline/concept_extraction.py:123-131 | A NaN caption gives false; otherwise true iff some person entry has all its tokens in the caption. |
| NameMatch.ScanLocations | concept_collection_pipeline/concept_extraction.py:137-142 | True iff some string entry has all of its tokens among the caption's tokens; non-strings are skipped. |
| NameMatch.ContainsLocation | concept_collection_pipeline/concept_extraction.py:133-142 | A NaN caption gives false; otherwise the all-tokens rule over the string location entries. |
| NameMatch.WordListRules | concept_collection_pipeline/concept_extraction.py:126-131 | On single-space-joined words, the all-token rule is word-list inclusion, and the any-token rule is a shared word. |
| NameMatch.MultiWordExample | concept_collection_pipeline/concept_extraction.py:128-130 | "leonardo da vinci" matches "the painting by leonardo da vinci" but not "leonardo's cafe": tokens must be whole words. |
| NameMatch.BlankEntryRules | concept_collection_pipeline/concept_extraction.py:128-129 | A blank entry matches every caption under the all-token rule, and none under the any-token rule. |
| Extractors.GetCaptionedImages | concept_collection_pipeline/concept_extraction.py:144-180 | Equal-length columns matching the figure pass followed by the alt-text pass; every source has an image extension, and every caption holds a digit or names no person. |
| Extractors.FigureColumns | concept_collection_pipeline/concept_extraction.py:156-165 | The figure loop builds the parallel columns of exactly the figure pass. |
| Extractors.FigurePass | concept_collection_pipeline/concept_extraction.py:156-165 | (No contract of its own.) The (source, caption) pairs of the figures that hold an image, whose stripped lowercased caption the person rule keeps and whose source ends in an image extension, in order; `FigurePassKept` states it. |
| Extractors.AltPass | concept_collection_pipeline/concept_extraction.py:167-178 | (No contract of its own.) The (source, alt text) pairs of the images whose source is new, ends in an image extension and has a non-empty alt text that the person rule keeps; `AltPassKept` and `AltPassFresh` state it. |
| Extractors.CaptionedImages | concept_collection_pipeline/concept_extraction.py:156-178 | (No contract of its own.) The figure pass followed by the alt-text pass, which skips every source the figure pass collected; `CaptionedImagesKept` states it. |
| Extractors.FigurePassKept | concept_collection_pipeline/concept_extraction.py:156-165 | Figure-pass rows have an image extension and a kept caption. |
| Extractors.AltPassKept | concept_collection_pipeline/concept_extraction.py:167-178 | Alt-pass rows come from an image with a non-empty alt, have an image extension and a kept caption, and a source not collected before. |
| Extractors.CaptionedImagesKept | concept_collection_pipeline/concept_extraction.py:156-178 | Every collected row has an image extension and a kept caption. |
| Extractors.AltPassFresh | concept_collection_pipeline/concept_extraction.py:171-178 | The alt pass never adds a source the figure pass collected, and never adds one twice. |
| Extractors.FindSeparator | concept_collection_pipeline/concept_extraction.py:196 | The first "//" at or after a position, or the end of the string. |
| Extractors.LanguageCode | concept_collection_pipeline/concept_extraction.py:196 | The code starts right after the first "//" of the URL and has two characters, unless the next "//" or the end of the URL comes sooner. |
| Extractors.ScanEnd | concept_collection_pipeline/concept_extraction.py:202-208 | The index of the first anchor whose href equals the cutoff href, or the number of anchors. |
| Extractors.ExtractLinkConceptsAndUrls | concept_collection_pipeline/concept_extraction.py:182-213 | An unsupported language gives two empty lists. Otherwise: exactly the "/wiki/" links before the cutoff with neither ':' nor "(identifier)", each once, and the lowercased alphabetic titles of those links. |
| Extractors.CutoffBoundsLinks | concept_collection_pipeline/concept_extraction.py:202-208 | No anchor at or after the cutoff anchor is scanned. |
| Lexicon.FirstMatch | concept_collection_pipeline/concept_extraction.py:226-229 | None iff no key is a substring; otherwise the value of the first key, in order, that is one. |
| Lexicon.ScanLexicon | concept_collection_pipeline/concept_extraction.py:226-229 | The early-exit loop returns the first match. |
| Lexicon.FirstMatchAt | concept_collection_pipeline/concept_extraction.py:226-229 | The first key found decides the value. |
| Lexicon.GetDefaultCultureAndSemanticField | concept_collection_pipeline/concept_extraction.py:215-236 | Each default is "" when no key occurs in the title, and otherwise the value of the first key that does. |
| Extractors.AssignCultureAndSemanticFields | concept_collection_pipeline/concept_extraction.py:238-262 | Same count, order and concepts. Culture or field is overwritten by the first key found in the provenance, and kept otherwise. The information column is removed. |
| Extractors.AssignCultures | concept_collection_pipeline/concept_extraction.py:250-254 | The first loop overwrites each culture with the value of the first culture key in the row's text, and leaves every other cell alone. |
| Extractors.AssignFields | concept_collection_pipeline/concept_extraction.py:256-260 | The second loop does the same for the semantic field. |
| Extractors.RemoveLocations | concept_collection_pipeline/concept_extraction.py:264-279 | Keeps exactly the rows whose concept contains no location; persons are not filtered. |
| Extractors.RemoveLocationsAppend | concept_collection_pipeline/concept_extraction.py:276-277 | The filter keeps order: it distributes over concatenation. |
| Lexicon.PutKeys | concept_collection_pipeline/concept_extraction.py:292 | `d[k] = v` keeps the key order, and appends a new key at the end. |
| Lexicon.PutLookup | concept_collection_pipeline/concept_extraction.py:292 | After `d[k] = v`, `d[k]` is `v`, and every other key is unchanged. |
| Lexicon.DictKeysFirstPositions | concept_collection_pipeline/concept_extraction.py:323-338 | A dict literal's keys are the keys of its pairs in order of first occurrence. |
| Lexicon.DedupSameKeys | concept_collection_pipeline/concept_extraction.py:323-338 | The de-duplicated key list holds exactly the keys written. |
| Lexicon.LastValueAt | concept_collection_pipeline/concept_extraction.py:323-338 | The last pair written with a key gives its value. |
| Lexicon.DictLastValue | concept_collection_pipeline/concept_extraction.py:323-338 | A dict literal maps each key to the value of its last occurrence. |
| Lexicon.RepeatedCelebrationKey | concept_collection_pipeline/concept_extraction.py:337 | "축하 " maps to "food". |
| Frontier.LastValueFound | concept_collection_pipeline/concept_extraction.py:291-295 | The looked-up href is the href of the last interlanguage link with that language. |
| Frontier.MultilingualLink | concept_collection_pipeline/concept_extraction.py:289-297 | (No contract of its own.) The href of the last interlanguage link whose language is the culture's code, unless that href was visited; `LastValueFound` and `MultilingualLinkMeaning` state it. |
| Frontier.MultilingualLinkMeaning | concept_collection_pipeline/concept_extraction.py:289-297 | At most one link, only for the four cultures, never a visited one; present and unvisited implies queued. |
| Frontier.Crawler.AppendMultilingualUrl | concept_collection_pipeline/concept_extraction.py:281-297 | The dict-building loop appends exactly the multilingual link, if any, to the queue, and changes nothing else. |
| Frontier.UnvisitedAsWritten | concept_collection_pipeline/concept_extraction.py:373 | The filter as written keeps exactly the links not literally among the visited URLs. |
| Frontier.Unvisited | concept_collection_pipeline/concept_extraction.py:373 | The corrected filter keeps exactly the links whose absolute URL was not visited. |
| Frontier.UnvisitedAsWrittenKeepsVisited | concept_collection_pipeline/concept_extraction.py:373 | A visited article link passes the filter as written, and is removed by the corrected one. |
| Frontier.FreshUrls | concept_collection_pipeline/concept_extraction.py:310 | At most one URL per taken link; exactly the unvisited absolute URLs of the taken links. |
| Frontier.AbsoluteUrls | concept_collection_pipeline/concept_extraction.py:312 | One URL per taken link, made absolute unless it already starts with "https://". |
| Frontier.RefillSeparated | concept_collection_pipeline/concept_extraction.py:309-312 | Every refilled URL can be split on "//". |
| Frontier.Crawler.SelectNextUrls | concept_collection_pipeline/concept_extraction.py:299-315 | The queue becomes the refill of the first 100 overflow links, which leave the overflow. |
| Frontier.StepRefill | concept_collection_pipeline/concept_extraction.py:305-315 | A refill holds at most 100 URLs: exactly the unvisited URLs of the first 100 overflow links. The overflow keeps the rest. |
| Frontier.BaseLanguageCode | concept_collection_pipeline/concept_extraction.py:196 | Every URL the refill builds on "https://en.wikipedia.org/" has the language code "en", so its page passes the language gate of the link extraction. |
| Frontier.CollectImages | concept_collection_pipeline/concept_extraction.py:366-368 | The page's image rows carry the page defaults. |
| Frontier.CollectConcepts | concept_collection_pipeline/concept_extraction.py:378-382 | The page's concept rows are the link concepts merged with the italic terms, given the page defaults, then annotated and refined. |
| Frontier.ExtractPage | concept_collection_pipeline/concept_extraction.py:358-382 | Everything extracted from one page, with the duplicate-free lists of links, link concepts and italic terms. |
| Frontier.PopAndRefill | concept_collection_pipeline/concept_extraction.py:386-389 | (No contract of its own.) The queue loses its head; when it is then empty, it is refilled from the first 100 overflow links, which leave the overflow; `StepQueue` and `StepRefill` state it. |
| Frontier.Harvest | concept_collection_pipeline/concept_extraction.py:358-384 | (No contract of its own.) Corrected: what a fetched page adds. The multilingual link goes to the queue; the images and concepts are merged into their stores; the links go to the overflow after the corrected filter `Unvisited` (first Findings row), not the line-373 filter as written. `StepQueue`, `StepOverflowFresh` and `StepStoresGrow` state it. |
| Frontier.Step | concept_collection_pipeline/concept_extraction.py:353-389 | (No contract of its own.) Corrected: one iteration. The head URL is appended to visited; a fetched page is harvested with the corrected overflow filter; then the queue is popped and refilled. `StepVisits`, `StepQueue`, `StepOverflowFresh`, `StepStoresGrow` and `StepStoresDistinct` state it. |
| Frontier.Crawler.constructor | concept_collection_pipeline/concept_extraction.py:346-351 | The queue is the given permutation of the first 200 seeds; nothing is visited; the overflow is empty; the stores are as persisted; the lexicons are the `CULTURES` and `SEMANTIC_FIELDS` dict literals. |
| Frontier.Crawler.ProcessPage | concept_collection_pipeline/concept_extraction.py:358-384 | Corrected: the state after processing a page is `Harvest` of the old state, whose overflow filter is the corrected `Unvisited` of the first Findings row; the overflow stays duplicate-free. |
| Frontier.Crawler.Visit | concept_collection_pipeline/concept_extraction.py:353-389 | Corrected: one iteration moves the state exactly as `Step` says, whether or not the fetch succeeded; `Step` filters the overflow with the corrected `Unvisited` of the first Findings row. Duplicate-free stores keep their rows as a prefix, and after a fetched page both stores are duplicate-free. |
| Frontier.Crawler.Run | concept_collection_pipeline/concept_extraction.py:353-391 | Visited only grows. A completed run adds exactly `iterations` URLs; an empty queue stops the run early with the queue empty and one URL added per iteration done. Stores that start duplicate-free keep their rows as a prefix. |
| Frontier.StepVisits | concept_collection_pipeline/concept_extraction.py:354-355 | Each iteration appends exactly the head URL to visited. |
| Frontier.StepStoresGrow | concept_collection_pipeline/concept_extraction.py:369-384 | The image and concept stores keep their rows in place at the front. |
| Frontier.StepStoresDistinct | concept_collection_pipeline/concept_extraction.py:369-384 | After a page, neither store holds a row twice, and each holds every row of the page. |
| Frontier.StepQueue | concept_collection_pipeline/concept_extraction.py:363-389 | The head is dropped after the multilingual link was appended. When the tail plus that link is non-empty, it is the new queue and the overflow is the harvested one. Otherwise the queue is refilled with exactly the unvisited URLs of the first 100 harvested overflow links, which leave the overflow. |
| Frontier.StepOverflowFresh | concept_collection_pipeline/concept_extraction.py:372-374 | Corrected filter (first Findings row). A link enters the overflow only when its URL is unvisited, even when the queue is refilled. When the iteration does not refill (the tail of the queue plus the multilingual link is non-empty), every unvisited link of the page is in the overflow. |
| Filtering.DedupByConcept | concept_collection_pipeline/concept_filtering.py:251-253 | (No contract of its own.) Keeps the first row of each concept; `DedupByConceptDistinct`, `DedupByConceptCovers` and `DedupByConceptKeepsFirst` state it. |
| Filtering.DedupByConceptDistinct | concept_collection_pipeline/concept_filtering.py:251-253 | No two kept rows share a concept. |
| Filtering.DedupByConceptCovers | concept_collection_pipeline/concept_filtering.py:251-253 | Every concept of the input survives. |
| Filtering.DedupByConceptKeepsFirst | concept_collection_pipeline/concept_filtering.py:251-253 | The first row of each concept is the one kept. |
| NameMatch.ScanAnyToken | concept_collection_pipeline/concept_filtering.py:40-45 | True iff some entry shares a token with the caption. |
| NameMatch.ContainsPersonNameAnyToken | concept_collection_pipeline/concept_filtering.py:36-45 | A NaN caption gives false; otherwise true iff some single token of some name is a caption token. |
| NameMatch.AllTokensImpliesAnyToken | concept_collection_pipeline/concept_filtering.py:36-45 | For entries with a token, the all-token match implies the any-token match. |
| Filtering.RemovePersons | concept_collection_pipeline/concept_filtering.py:47-61 | Keeps exactly the rows whose concept shares no token with a person name; locations are not removed. |
| Filtering.RemovePersonsAppend | concept_collection_pipeline/concept_filtering.py:58-59 | The filter keeps order: it distributes over concatenation. |
| Filtering.Captures | concept_collection_pipeline/concept_filtering.py:116-117 | (No contract of its own.) `re.findall` of the capture pattern: each match starts at ": " and the scan resumes after it; `CapturesSkip`, `CapturesValue`, `CapturesFields` and `ReplyCaptures` state it. |
| Filtering.CaptureEnd | concept_collection_pipeline/concept_filtering.py:116-117 | The lazy capture ends before the first ',' or at the end; it never spans a comma or newline. |
| Filtering.CapturesSkip | concept_collection_pipeline/concept_filtering.py:116-117 | Text without ':' contributes no capture. |
| Filtering.CaptureEndPlain | concept_collection_pipeline/concept_filtering.py:116-117 | A value without ',' or newline extends the capture by its length. |
| Filtering.CapturesValue | concept_collection_pipeline/concept_filtering.py:116-117 | ": value" followed by a delimiter yields that value as the next capture. |
| Filtering.CapturesFields | concept_collection_pipeline/concept_filtering.py:116-117 | The fields of a reply yield their values in order, the last with the closing brace. |
| Filtering.ReplyCaptures | concept_collection_pipeline/concept_filtering.py:116-117 | A reply in the requested format yields its values, and the last keeps the "}". |
| Filtering.ValuesWithBraceFour | concept_collection_pipeline/concept_filtering.py:124-129 | The four captures of a four-field reply. |
| Filtering.NoneCountFour | concept_collection_pipeline/concept_filtering.py:132-133 | The count over four captures is the sum of their weights. |
| Filtering.BracedValue | concept_collection_pipeline/concept_filtering.py:132-133 | A braced last value never equals "none", and equals "none}" exactly when the value is "none". |
| Filtering.ReplyNoneCount | concept_collection_pipeline/concept_filtering.py:116-139 | For a well-formed reply, the corrected count includes the last value, and the count as written never does. |
| Filtering.EvaluateConcepts | concept_collection_pipeline/concept_filtering.py:113-139 | Corrected: fewer than four captures go to unassigned; otherwise the row is captures 1-3, bucketed by `BucketOf`, which also counts "none}" as empty (third Findings row), where line 133 counts only an exact "none". Each reply lands in exactly one file. |
| Filtering.BucketCounts | concept_collection_pipeline/concept_filtering.py:118-139 | The gold, candidate, dropped and unassigned files together hold one line per reply. |
| Filtering.BucketOfAsWritten | concept_collection_pipeline/concept_filtering.py:118-139 | (No contract of its own.) As written: unassigned below four captures; otherwise gold, dropped or candidate by the number of captures that are exactly "none"; `AllNoneReplyIsCandidateAsWritten` and `AnsweredReplyBuckets` state it. |
| Filtering.BucketOf | concept_collection_pipeline/concept_filtering.py:118-139 | (No contract of its own.) Corrected (third Findings row): the same rule, with "none}" also counted as an empty answer; `AllNoneReplyIsDropped` and `AnsweredReplyBuckets` state it. |
| Filtering.AllNoneReplyIsCandidateAsWritten | concept_collection_pipeline/concept_filtering.py:132-139 | As written, a reply answering None three times is a candidate, not dropped. |
| Filtering.AllNoneReplyIsDropped | concept_collection_pipeline/concept_filtering.py:132-139 | With the brace counted, a reply answering None three times is dropped. |
| Filtering.AnsweredReplyBuckets | concept_collection_pipeline/concept_filtering.py:132-139 | For a reply in the requested format, both rules. Corrected: gold iff no field is None, dropped iff all three are, candidate otherwise. As written: only the country and category answers count, so the reply is gold iff both are answered, a candidate otherwise, and never dropped. |
| Filtering.SliceToLastTwo | concept_collection_pipeline/concept_filtering.py:149-151 | Python's `s[lo:-2]` length, including the empty cases. |
| Filtering.TrimLineAsWritten | concept_collection_pipeline/concept_filtering.py:148-151 | (No contract of its own.) As written: a line starting with "{" loses its first 10 and last 2 characters, any other line its last 2; `TrimLineAsWrittenBreaksHeader` and `TrimLineRoundTrip` state it. |
| Filtering.TrimLine | concept_collection_pipeline/concept_filtering.py:143-151 | (No contract of its own.) Corrected (second Findings row): drops a leading "{concept: " and a closing "}" where present and keeps every other character; `TrimLineRoundTrip` states it. |
| Filtering.TrimLineAsWrittenBreaksHeader | concept_collection_pipeline/concept_filtering.py:151 | As written, the header's last column "language" becomes "languag". |
| Filtering.TrimLineRoundTrip | concept_collection_pipeline/concept_filtering.py:143-151 | Both trims turn a data row ending "}\n" into the row and a newline; the corrected trim leaves a line without the brace, header included, unchanged. |
| Filtering.CleanupFormat | concept_collection_pipeline/concept_filtering.py:141-151 | Corrected: one trimmed line per input line, appended after the existing content; the trim is `TrimLine` of the second Findings row, not the line-151 slice as written. |
| Sorting.StrLeTotal | concept_collection_pipeline/concept_filtering.py:163 | String order is total. |
| Sorting.StrLeAntisymmetric | concept_collection_pipeline/concept_filtering.py:163 | String order is antisymmetric. |
| Sorting.StrLeTransitive | concept_collection_pipeline/concept_filtering.py:163 | String order is transitive. |
| Sorting.StrLtTransitive | concept_collection_pipeline/concept_filtering.py:163 | The strict order chains with the non-strict one. |
| Sorting.KeyLeTotal | concept_collection_pipeline/concept_filtering.py:163 | The three-column row order is total. |
| Sorting.KeyLeTransitive | concept_collection_pipeline/concept_filtering.py:163 | The three-column row order is transitive. |
| Sorting.NormalizeCell | concept_collection_pipeline/concept_filtering.py:157-160 | Every normalised cell is lowercase. |
| Sorting.NormalizeAll | concept_collection_pipeline/concept_filtering.py:157-160 | One normalised row per input row, in the same order. |
| Sorting.InsertPermutes | concept_collection_pipeline/concept_filtering.py:163 | Inserting adds exactly the row. |
| Sorting.InsertSorted | concept_collection_pipeline/concept_filtering.py:163 | Inserting keeps the rows ordered. |
| Sorting.SortRowsCorrect | concept_collection_pipeline/concept_filtering.py:163 | The sort result is ordered, and is a permutation of its input. |
| Sorting.SortCsv | concept_collection_pipeline/concept_filtering.py:153-166 | (No contract of its own.) Every cell normalised, then the rows sorted by column 1, then 2, then 0; `SortCsvCorrect` states it. |
| Sorting.SortCsvCorrect | concept_collection_pipeline/concept_filtering.py:153-166 | Same number of rows; ordered by column 1, then 2, then 0; a permutation of the normalised rows; every cell lowercase. |
| Sorting.SortedFileName | concept_collection_pipeline/concept_filtering.py:166 | "x.csv" becomes "x_sorted.csv". |
| Sorting.NormalizeCellExample | concept_collection_pipeline/concept_filtering.py:157-160 | Padding and case disappear. |
| Filtering.RewriteLanguage | concept_collection_pipeline/concept_filtering.py:185-204 | (No contract of its own.) The chain of substring tests against "german", "korean", "chinese", "spanish" and "english"; `RewriteLanguageMeaning` and `RewriteExamples` state it. |
| Filtering.RewriteLanguageMeaning | concept_collection_pipeline/concept_filtering.py:185-204 | A language is rewritten iff it is a substring of some target language, and it becomes the first such target. |
| Filtering.GoldRows | concept_collection_pipeline/concept_filtering.py:182-202 | A row is gold exactly when it is the rewrite, to the first target language containing its language, of a normalized input row with a target country, a target field and a rewritable language. The gold and general rows together number exactly the input rows. |
| Filtering.GeneralRows | concept_collection_pipeline/concept_filtering.py:179-206 | A row is general exactly when it is the normalized form of some input row and it does not have a target country, a target field and a rewritable language. |
| Filtering.SeparateIncorrectAssignments | concept_collection_pipeline/concept_filtering.py:168-206 | Every row goes to exactly one of gold and general, in order. The gold rows are exactly the rewrites of the qualifying input rows, each with a listed country, a listed field and a target language. The general rows are exactly the normalized input rows that do not qualify. |
| Filtering.GoldRowsInTargets | concept_collection_pipeline/concept_filtering.py:183-202 | Every gold row has a target country, a target semantic field and one of the five target languages. |
| Filtering.FirstCharAbsent | concept_collection_pipeline/concept_filtering.py:185 | A string is not a substring of a word that lacks its first character. |
| Filtering.RewriteExamples | concept_collection_pipeline/concept_filtering.py:185-204 | "" and "man" become "german"; "french" stays general. |
| Filtering.RowsOfClass | concept_collection_pipeline/concept_filtering.py:223-231 | Exactly the rows of the given class. |
| Filtering.SeparatePreassigned | concept_collection_pipeline/concept_filtering.py:213-238 | Double, single and noisy rows in order. Together with the "indian" rows skipped, every row is counted once. |
| Filtering.ClassCounts | concept_collection_pipeline/concept_filtering.py:223-231 | The skipped, double, single and noisy rows together are all the rows, each once. |
| Filtering.PreassignmentMeaning | concept_collection_pipeline/concept_filtering.py:224-231 | Single means exactly one of country and field is filled; noisy means neither; double means both. |
| ReferenceSets.NormalizeNames | concept_collection_pipeline/location_person_db_filtering.py:6 | Count, order and NaN positions are kept; every name is lowercase, free of '_', and of the same length. |
| ReferenceSets.NormalizeNamesIdempotent | concept_collection_pipeline/location_person_db_filtering.py:6 | Normalising twice is normalising once. |
| ReferenceSets.NormalizeNameExample | concept_collection_pipeline/location_person_db_filtering.py:6 | "Leonardo_da_Vinci" becomes "leonardo da vinci"; NaN stays NaN. |
| ReferenceSets.DropNaN | concept_collection_pipeline/location_person_db_filtering.py:16 | Keeps exactly the strings. |
| ReferenceSets.DedupBeforeConcat | concept_collection_pipeline/location_person_db_filtering.py:10-14 | De-duplicating the first source before the concatenation gives the same result. |
| ReferenceSets.Places | concept_collection_pipeline/location_person_db_filtering.py:10-16 | (No contract of its own.) The de-duplicated GeoNames names followed by the city names, de-duplicated again, cleaned and stripped of missing entries; `PlacesMeaning` and `CaseVariantsSurvive` state it. |
| ReferenceSets.PlacesMeaning | concept_collection_pipeline/location_person_db_filtering.py:14-16 | The table holds exactly the lowercased kept names of either source; each entry is lowercase, and alphabetic once spaces are removed. |
| ReferenceSets.KeepsPlaceWithoutSpaces | concept_collection_pipeline/location_person_db_filtering.py:15 | A name without spaces is kept iff it is alphabetic. |
| ReferenceSets.RemoveSpacesLower | concept_collection_pipeline/location_person_db_filtering.py:15 | Removing spaces commutes with lowercasing. |
| ReferenceSets.CaseVariantsSurvive | concept_collection_pipeline/location_person_db_filtering.py:14-15 | "Paris" and "paris" both survive, as "paris" twice. |

## Left out

- Network fetching and HTML parsing are not modelled. A page is the record `Extractors.Page`.
- The file system is not modelled: reading and writing CSV files, file-existence checks, and progress output. The persisted tables are sequences.
  - `get_data_from_db` is not modelled. Person names arrive as strings and locations as cells.
  - `overwrite_file`'s read-back (`read_csv` never returns None) is not modelled.
  - `merge_csvs`, `create_empty_csv` and `convert_to_xlsx` are not modelled.
- The CSV round trip is not modelled: an empty string written out is read back as NaN.
- The language-model call is not modelled; the reply texts are inputs. Multi-line replies are covered by `Filtering.CaptureEnd`.
- `random.shuffle` is not modelled. The constructor takes any permutation of the seeds.
- Unicode is approximated. `isalpha` covers ASCII letters and code points from U+00C0 on, except × and ÷. `lower` maps ASCII only. `strip` and `split` use the six ASCII whitespace characters.
- pandas index labels are not modelled. Rows are positional, so repeated index labels after `concat` have no counterpart.
- Extractors.ProvenanceIncludes: holds of the comma-join model only. Under pandas' `iterrows` copies, `concept["information"]` stays "" at line 100, each match overwrites the last at line 101, and only the last matching paragraph would remain.
- Extractors.FindParagraphsForConcepts: models the comma-join of the matching paragraphs. Whether pandas' `iterrows` snapshot makes later matches overwrite earlier ones is not modelled.
- Store.MergeRows: the image, concept and overflow stores are merged on whole rows, which assumes the stored schema covers the new rows. `Store.ConcatAndFilterUniqueValues` covers the general `subset=` case.
- Crash paths are preconditions or assumed absent:
  - a URL without "//" and a `None` link title before the cutoff are excluded by `Frontier.Fetchable`;
  - a figure with an image is assumed to have a caption, and every `<img>` a `src`;
  - a NaN person name would crash `name.split()`;
  - a reference section with no anchor after it: `find_next("a")` returns None at concept_extraction.py:207 and `.get` raises. `Extractors.Cutoff` can only say whether the next anchor has an href.
- `pd.read_csv_file` (concept_extraction.py:305) is modelled as `read_csv`.
- The `.iloc[:, 1]` applied to a Series at location_person_db_filtering.py:14 is modelled as the Series itself.
- Frontier.Crawler.ProcessPage: filters the overflow with `Frontier.Unvisited`, the corrected rule of the first Findings row (concept_extraction.py:373). The line as written removes no link.
- Frontier.Crawler.Visit: runs `Frontier.Step`, which uses the corrected overflow filter of the first Findings row, not line 373 as written.
- Frontier.Harvest: uses the corrected overflow filter of the first Findings row, not line 373 as written. `Frontier.Step` inherits it.
- Frontier.Step: uses the corrected overflow filter of the first Findings row, through `Frontier.Harvest`, not line 373 as written. So do `Frontier.StepQueue` and `Frontier.StepOverflowFresh`.
- Filtering.EvaluateConcepts: buckets with `Filtering.BucketOf`, the corrected rule of the third Findings row. It counts "none}" as an empty answer, where line 133 counts only an exact "none".
- Filtering.AnsweredReplyBuckets: its first clause states the corrected rule of the third Findings row, the one `Filtering.EvaluateConcepts` uses. Its second clause states the rule as written.
- Filtering.CleanupFormat: writes `Filtering.TrimLine`, the corrected trim of the second Findings row, instead of the slice of line 151 as written.
- Frontier.Crawler.Run: stops with `Exhausted` where the source raises on an empty queue.
- Sorting.SortCsvCorrect: states ordered-plus-permutation. The relative order pandas gives to rows equal on all three sort columns is not stated.
- Sorting.NormalizeCell: models string and NaN cells only. A column pandas parses as numbers, where every cell becomes `str(x)`, is not modelled.

## Findings

| source | as written | input that shows it | evidently intended | confidence | as-written member | corrected member |
|---|---|---|---|---|---|---|
| concept_collection_pipeline/concept_extraction.py:373 | The outgoing links are relative ("/wiki/X"), but `isin(visited_urls)` compares them with absolute URLs, so no link is ever filtered out. | visited = ["https://en.wikipedia.org//wiki/Kimchi"], links = ["/wiki/Kimchi"]: the link is kept | Drop a link whose URL, built the way the refill builds it, was visited. | high, not executed | Frontier.UnvisitedAsWritten (Frontier.UnvisitedAsWrittenKeepsVisited) | Frontier.Unvisited (Frontier.StepOverflowFresh) |
| concept_collection_pipeline/concept_filtering.py:151 | Every line not starting with "{" loses its last two characters, the header included. | "concept,country,semantic_field,language\n" becomes "concept,country,semantic_field,languag\n", so the `language` column that line 185 reads is gone | Remove only the closing "}" of data rows, together with the newline, and then write the newline back. | medium, not executed | Filtering.TrimLineAsWritten (Filtering.TrimLineAsWrittenBreaksHeader) | Filtering.TrimLine (Filtering.TrimLineRoundTrip) |
| concept_collection_pipeline/concept_filtering.py:132-133 | Only captures that are exactly "none" are counted, but the last capture of a reply in the requested format carries the closing "}". | "{Concept: kimchi, Country: None, Category: None, Language: None}" gives captures [kimchi, None, None, None}], a count of 2, and lands among the candidates | A reply with all three answers None is dropped. | medium, not executed | Filtering.BucketOfAsWritten (Filtering.AllNoneReplyIsCandidateAsWritten) | Filtering.BucketOf (Filtering.AllNoneReplyIsDropped) |
