/** The culture and semantic-field lexicons and the first-match classifier. The
    lexicons are Python dict literals: a key written twice keeps the position of its
    first occurrence and the value of its last one. */
module Lexicon {
  import opened Text
  import opened Wrappers
  import Store

  /** A dict as its ordered list of (key, value) entries. */
  type Entries = seq<(string, string)>

  function Keys(d: Entries): seq<string> {
    seq(|d|, i requires 0 <= i < |d| => d[i].0)
  }

  /** `d[k]`, or None when `k` is not a key */
  function Lookup(d: Entries, k: string): Option<string> {
    if d == [] then None
    else if d[0].0 == k then Some(d[0].1)
    else Lookup(d[1..], k)
  }

  /** `d[k] = v`: overwrite in place when `k` is a key, otherwise append. */
  function Put(d: Entries, k: string, v: string): Entries {
    if d == [] then [(k, v)]
    else if d[0].0 == k then [(k, v)] + d[1..]
    else [d[0]] + Put(d[1..], k, v)
  }

  /** The dict a literal `{k1: v1, k2: v2, ...}` builds: one assignment per pair, in order. */
  function DictFromPairs(pairs: Entries): Entries {
    if pairs == [] then []
    else
      var last := pairs[|pairs| - 1];
      Put(DictFromPairs(pairs[..|pairs| - 1]), last.0, last.1)
  }

  /** Value of the last pair with key `k`. */
  function LastValue(pairs: Entries, k: string): Option<string> {
    if pairs == [] then None
    else if pairs[|pairs| - 1].0 == k then Some(pairs[|pairs| - 1].1)
    else LastValue(pairs[..|pairs| - 1], k)
  }

  /** The value of the first key, in order, that is a substring of `text`. */
  function FirstMatch(d: Entries, text: string): (r: Option<string>)
    ensures r.None? <==> forall i :: 0 <= i < |d| ==> !Contains(text, d[i].0)
    ensures r.Some? ==> exists i :: 0 <= i < |d| && Contains(text, d[i].0) && r.value == d[i].1
                         && forall j :: 0 <= j < i ==> !Contains(text, d[j].0)
  {
    if d == [] then None
    else if Contains(text, d[0].0) then Some(d[0].1)
    else
      var r := FirstMatch(d[1..], text);
      assert forall i :: 1 <= i < |d| ==> d[i] == d[1..][i - 1];
      if r.Some? then
        var i :| 0 <= i < |d[1..]| && Contains(text, d[1..][i].0) && r.value == d[1..][i].1
                 && forall j :: 0 <= j < i ==> !Contains(text, d[1..][j].0);
        assert Contains(text, d[i + 1].0) && forall j :: 0 <= j < i + 1 ==> !Contains(text, d[j].0);
        r
      else r
  }

  /** The loop of `assign_culture_and_semantic_fields_to_concepts` over the keys of one
      lexicon, leaving at the first key found in `text`. */
  method ScanLexicon(d: Entries, text: string) returns (found: Option<string>)
    ensures found == FirstMatch(d, text)
  {
    found := None;
    var i := 0;
    while i < |d|
      invariant 0 <= i <= |d|
      invariant FirstMatch(d, text) == FirstMatch(d[i..], text)
    {
      if Contains(text, d[i].0) {
        found := Some(d[i].1);
        return;
      }
      assert d[i..][1..] == d[i + 1..];
      i := i + 1;
    }
  }

  /** The defaults a page title receives: the value of the first key of each lexicon
      found in the title, or "". */
  function DefaultAssignment(cultures: Entries, fields: Entries, title: string): (string, string) {
    (FirstMatch(cultures, title).GetOr(""), FirstMatch(fields, title).GetOr(""))
  }

  /** The first key found in `text` decides: its value is the result. */
  predicate FirstKeyAt(d: Entries, text: string, i: int) {
    0 <= i < |d| && Contains(text, d[i].0) && forall j :: 0 <= j < i ==> !Contains(text, d[j].0)
  }

  lemma FirstMatchAt(d: Entries, text: string, i: int)
    requires FirstKeyAt(d, text, i)
    ensures FirstMatch(d, text) == Some(d[i].1)
  {
    var r := FirstMatch(d, text);
    var k :| 0 <= k < |d| && Contains(text, d[k].0) && r.value == d[k].1
             && forall j :: 0 <= j < k ==> !Contains(text, d[j].0);
    assert k == i;
  }

  /** `get_default_culture_and_semantic_field(title)`: one loop per lexicon, leaving at
      the first key found in the title. */
  method GetDefaultCultureAndSemanticField(cultures: Entries, fields: Entries, title: string)
    returns (culture: string, field: string)
    ensures (culture, field) == DefaultAssignment(cultures, fields, title)
    ensures (forall i :: 0 <= i < |cultures| ==> !Contains(title, cultures[i].0)) ==> culture == ""
    ensures forall i :: FirstKeyAt(cultures, title, i) ==> culture == cultures[i].1
    ensures (forall i :: 0 <= i < |fields| ==> !Contains(title, fields[i].0)) ==> field == ""
    ensures forall i :: FirstKeyAt(fields, title, i) ==> field == fields[i].1
  {
    var c := ScanLexicon(cultures, title);
    var f := ScanLexicon(fields, title);
    culture := c.GetOr("");
    field := f.GetOr("");
    forall i | FirstKeyAt(cultures, title, i)
      ensures culture == cultures[i].1
    {
      FirstMatchAt(cultures, title, i);
    }
    forall i | FirstKeyAt(fields, title, i)
      ensures field == fields[i].1
    {
      FirstMatchAt(fields, title, i);
    }
  }

  // ---------------------------------------------------------------------------
  // Dict literal resolution

  lemma {:induction false} PutKeys(d: Entries, k: string, v: string)
    ensures Keys(Put(d, k, v)) == if k in Keys(d) then Keys(d) else Keys(d) + [k]
  {
    if d != [] {
      PutKeys(d[1..], k, v);
      assert Keys(d) == [d[0].0] + Keys(d[1..]);
      if d[0].0 != k {
        assert Keys(Put(d, k, v)) == [d[0].0] + Keys(Put(d[1..], k, v));
      }
    }
  }

  lemma {:induction false} PutLookup(d: Entries, k: string, v: string, k': string)
    ensures Lookup(Put(d, k, v), k') == if k' == k then Some(v) else Lookup(d, k')
  {
    if d != [] && d[0].0 != k {
      PutLookup(d[1..], k, v, k');
    }
  }

  /** The keys of a dict literal, in order, are the distinct keys of its pairs in order of
      first occurrence: the keep-first dedup of the key list. */
  lemma {:induction false} DictKeysFirstPositions(pairs: Entries)
    ensures Keys(DictFromPairs(pairs)) == Store.Dedup(Keys(pairs), Identity)
  {
    if pairs != [] {
      var init := pairs[..|pairs| - 1];
      var last := pairs[|pairs| - 1];
      var key := Identity;
      DictKeysFirstPositions(init);
      PutKeys(DictFromPairs(init), last.0, last.1);
      var ks := Keys(pairs);
      assert ks[..|ks| - 1] == Keys(init);
      assert ks[|ks| - 1] == last.0;
      DedupSameKeys(Keys(init));
      assert (last.0 in Keys(DictFromPairs(init))) == Store.KeySeen(Keys(init), key, last.0);
    }
  }

  function Identity(x: string): string {
    x
  }

  lemma DedupSameKeys(ks: seq<string>)
    ensures forall k :: k in Store.Dedup(ks, Identity) <==> Store.KeySeen(ks, Identity, k)
  {
    var key := Identity;
    Store.DedupCovers(ks, key);
    forall k | k in Store.Dedup(ks, key)
      ensures Store.KeySeen(ks, key, k)
    {
      assert k in ks;
      var j :| 0 <= j < |ks| && ks[j] == k;
    }
    forall k | Store.KeySeen(ks, key, k)
      ensures k in Store.Dedup(ks, key)
    {
      var j :| 0 <= j < |ks| && key(ks[j]) == k;
      var i :| 0 <= i < |Store.Dedup(ks, key)| && key(Store.Dedup(ks, key)[i]) == key(ks[j]);
    }
  }

  lemma {:induction false} LastValueAt(pairs: Entries, i: nat, k: string)
    requires i < |pairs| && pairs[i].0 == k
    requires forall j :: i < j < |pairs| ==> pairs[j].0 != k
    ensures LastValue(pairs, k) == Some(pairs[i].1)
  {
    if i < |pairs| - 1 {
      LastValueAt(pairs[..|pairs| - 1], i, k);
    }
  }

  /** Every key of a dict literal is bound to the value of its last pair. */
  lemma {:induction false} DictLastValue(pairs: Entries, k: string)
    ensures Lookup(DictFromPairs(pairs), k) == LastValue(pairs, k)
  {
    if pairs != [] {
      var last := pairs[|pairs| - 1];
      DictLastValue(pairs[..|pairs| - 1], k);
      PutLookup(DictFromPairs(pairs[..|pairs| - 1]), last.0, last.1, k);
    }
  }

  // ---------------------------------------------------------------------------
  // The two lexicons of the crawl, as written (with their repeated keys)

  const CulturePairs: Entries := [
    ("german", "german"), ("germany", "german"), ("spanish", "spanish"), ("spain", "spanish"),
    ("chinese", "chinese"), ("china", "chinese"), ("korean", "korean"), ("korea", "korean"),
    ("deutsch", "german"), ("deutschland", "german"), ("spanisch", "spanish"),
    ("spanien", "spanish"), ("chinesisch", "chinese"), ("china", "chinese"),
    ("koreanisch", "korean"), ("korea", "korean"), ("alemán", "german"),
    ("alemania", "german"), ("español", "spanish"), ("españa", "spanish"),
    ("chino", "chinese"), ("china", "chinese"), ("coreano", "korean"), ("德语", "german"),
    ("德国", "german"), ("西班牙", "spanish"), ("中文", "chinese"), ("中国", "chinese"),
    ("汉语", "chinese"), ("韩语", "korean"), ("韩国", "korean"), ("andalusia", "spanish"),
    ("aragon", "spanish"), ("asturias", "spanish"), ("balearic islands", "spanish"),
    ("basque country", "spanish"), ("canary islands", "spanish"), ("cantabria", "spanish"),
    ("castile and león", "spanish"), ("castilla-la mancha", "spanish"),
    ("catalonia", "spanish"), ("extremadura", "spanish"), ("galicia", "spanish"),
    ("la rioja", "spanish"), ("madrid", "spanish"), ("murcia", "spanish"),
    ("navarre", "spanish"), ("baden-württemberg", "german"), ("bavaria", "german"),
    ("berlin", "german"), ("brandenburg", "german"), ("bremen", "german"),
    ("hamburg", "german"), ("hesse", "german"), ("lower saxony", "german"),
    ("mecklenburg-vorpommern", "german"), ("north rhine-westphalia", "german"),
    ("rhineland-palatinate", "german"), ("saarland", "german"), ("saxony", "german"),
    ("saxony-anhalt", "german"), ("schleswig-holstein", "german"), ("thuringia", "german"),
    ("hebei", "chinese"), ("shanxi", "chinese"), ("liaoning", "chinese"), ("jilin", "chinese"),
    ("heilongjiang", "chinese"), ("jiangsu", "chinese"), ("zhejiang", "chinese"),
    ("anhui", "chinese"), ("fujian", "chinese"), ("jiangxi", "chinese"),
    ("shangdong", "chinese"), ("henan", "chinese"), ("hunan", "chinese"),
    ("guangdong", "chinese"), ("hainan", "chinese"), ("sichuan", "chinese"),
    ("guizhuo", "chinese"), ("yunnan", "chinese"), ("shanxi", "chinese"), ("gansu", "chinese"),
    ("qinghai", "chinese"), ("chungcheong", "korean"), ("gangwon", "korean"),
    ("gyeonggi", "korean"), ("gyeongsang", "korean"), ("jeonbuk", "korean"),
    ("jeolla", "korean"), ("jeju", "korean")
  ]

  const SemanticFieldPairs: Entries := [
    ("beverage", "beverages"), ("alcohol", "beverages"), ("beer", "beverages"),
    ("wine", "beverages"), ("celebration", "celebration"), ("dish", "food"),
    ("cuisine", "food"), ("food", "food"), ("clothing", "clothing"), ("fruit", "fruit"),
    ("houses", "houses"), ("instrument", "music"), ("religion", "religion"),
    ("sport", "sport"), ("utensil", "utensil"), ("tool", "utensil"),
    ("vegetable", "vegetable"), ("visual arts", "visual arts"), ("getränk", "beverages"),
    ("feier", "celebration"), ("essen", "food"), ("kleidung", "clothing"), ("obst", "fruit"),
    ("haus", "houses"), ("häuser", "houses"), ("werkzeug", "utensil"), ("gemüse", "vegetable"),
    ("bildende kunst", "visual arts"), ("bebida", "beverages"), ("celebración", "celebration"),
    ("cocina", "food"), ("comida", "food"), ("ropa", "clothing"), ("fruta", "fruit"),
    ("casa", "houses"), ("instrumento", "music"), ("religión", "religion"),
    ("deporte", "sport"), ("utensilio", "utensil"), ("herramienta", "utensil"),
    ("verdura", "vegetable"), ("artes visuales", "visual arts"), ("饮料", "beverages"),
    ("庆祝", "celebration"), ("食物", "food"), ("衣服", "clothing"), ("水果", "fruit"),
    ("房子", "houses"), ("乐器", "music"), ("宗教", "religion"), ("运动", "sport"), ("器具", "utensil"),
    ("工具", "utensil"), ("蔬菜", "vegetable"), ("视觉艺术", "visual arts"), ("음료", "beverages"),
    ("축하 ", "celebration"), ("축하 ", "food"), ("옷", "clothing"), ("과일", "fruit"),
    ("집", "houses"), ("악기", "music"), ("종교", "religion"), ("스포츠", "sport"), ("도구", "utensil"),
    ("도구", "utensil"), ("채소", "vegetable"), ("시각 예술", "visual arts")
  ]

  function Cultures(): Entries {
    DictFromPairs(CulturePairs)
  }

  function SemanticFields(): Entries {
    DictFromPairs(SemanticFieldPairs)
  }

  /** "축하 " is written twice, first with "celebration" and then with "food": the dict
      keeps the second value. */
  lemma RepeatedCelebrationKey()
    ensures Lookup(SemanticFields(), "축하 ") == Some("food")
  {
    DictLastValue(SemanticFieldPairs, "축하 ");
    LastValueAt(SemanticFieldPairs, 57, "축하 ");
  }
}
