/** The offline filtering stage over the crawled concept table: de-duplication by concept,
    removal of person names (any-token rule), bucketing of the language-model replies,
    line trimming, and the two row partitions. The replies are inputs. */
module Filtering {
  import opened Text
  import opened Store
  import opened NameMatch
  import opened Wrappers

  // ---------------------------------------------------------------------------
  // De-duplication by concept and the person filter

  /** A row of the crawled concept table. */
  datatype Crawled = Crawled(concept: Cell, culture: Cell, semanticField: Cell)

  function ConceptOf(r: Crawled): Cell {
    r.concept
  }

  /** `df[~df["concepts"].duplicated()]`: the first row of each concept. */
  function DedupByConcept(rows: seq<Crawled>): seq<Crawled> {
    Dedup(rows, ConceptOf)
  }

  /** No two kept rows share a concept. */
  lemma DedupByConceptDistinct(rows: seq<Crawled>)
    ensures var r := DedupByConcept(rows);
      forall i, j :: 0 <= i < j < |r| ==> r[i].concept != r[j].concept
  {
    DedupDistinct(rows, ConceptOf);
  }

  /** Every concept of the input is still present. */
  lemma DedupByConceptCovers(rows: seq<Crawled>, x: Crawled)
    requires x in rows
    ensures exists y :: y in DedupByConcept(rows) && y.concept == x.concept
  {
    var r := DedupByConcept(rows);
    DedupCovers(rows, ConceptOf);
    var j :| 0 <= j < |r| && ConceptOf(r[j]) == ConceptOf(x);
    assert r[j] in r;
  }

  /** The first row of each concept is the one kept. */
  lemma DedupByConceptKeepsFirst(rows: seq<Crawled>, i: nat)
    requires i < |rows|
    requires forall j :: 0 <= j < i ==> rows[j].concept != rows[i].concept
    ensures rows[i] in DedupByConcept(rows)
  {
    DedupKeepsFirst(rows, ConceptOf, i);
  }

  /** `remove_people_and_locations_from_concepts` of the filtering stage: keeps, in order,
      the rows whose concept shares no token with any person name. */
  function RemovePersons(rows: seq<Crawled>, persons: seq<string>): (r: seq<Crawled>)
    ensures forall x :: x in r <==> x in rows && !ContainsPersonNameAnyToken(x.concept, persons)
  {
    if rows == [] then []
    else
      var prev := RemovePersons(rows[..|rows| - 1], persons);
      var last := rows[|rows| - 1];
      assert rows == rows[..|rows| - 1] + [last];
      if ContainsPersonNameAnyToken(last.concept, persons) then prev else prev + [last]
  }

  /** The person filter keeps order: it distributes over concatenation. */
  lemma {:induction false} RemovePersonsAppend(a: seq<Crawled>, b: seq<Crawled>, persons: seq<string>)
    ensures RemovePersons(a + b, persons) == RemovePersons(a, persons) + RemovePersons(b, persons)
    decreases |b|
  {
    if b == [] {
      assert a + b == a;
    } else {
      var b' := b[..|b| - 1];
      assert (a + b)[..|a + b| - 1] == a + b';
      RemovePersonsAppend(a, b', persons);
    }
  }

  // ---------------------------------------------------------------------------
  // Reply parsing: `re.findall(r':\s(.*?)(?=,|$)', reply)`

  /** Length of the shortest capture at the start of `t`: it ends before the first ',', at
      the end of `t`, or before a final newline; `.` does not cross any other newline, so
      the capture fails there. */
  function CaptureEnd(t: string): (r: Option<nat>)
    ensures r.Some? ==> r.value <= |t|
    ensures r.Some? ==> forall k :: 0 <= k < r.value ==> t[k] != ',' && t[k] != '\n'
  {
    if t == [] then Some(0)
    else if t[0] == ',' then Some(0)
    else if t[0] == '\n' then (if |t| == 1 then Some(0) else None)
    else
      match CaptureEnd(t[1..])
      case None => None
      case Some(e) => Some(e + 1)
  }

  /** All captures, left to right; the scan resumes where each match ends. */
  function Captures(s: string): seq<string>
    decreases |s|
  {
    if |s| < 2 then []
    else if s[0] == ':' && IsSpace(s[1]) && CaptureEnd(s[2..]).Some? then
      var e := CaptureEnd(s[2..]).value;
      [s[2..2 + e]] + Captures(s[2 + e..])
    else Captures(s[1..])
  }

  // The reply format the prompt asks for: {Key: value, Key: value, ...}

  function Fields(pairs: seq<(string, string)>): string
    requires |pairs| >= 1
  {
    pairs[0].0 + ": " + pairs[0].1 + (if |pairs| == 1 then "" else ", " + Fields(pairs[1..]))
  }

  function Reply(pairs: seq<(string, string)>): string
    requires |pairs| >= 1
  {
    "{" + Fields(pairs) + "}"
  }

  /** Keys without ':' and values without ',' or newline. */
  predicate PlainPairs(pairs: seq<(string, string)>) {
    forall i :: 0 <= i < |pairs| ==> ':' !in pairs[i].0 && ',' !in pairs[i].1 && '\n' !in pairs[i].1
  }

  /** The values of the pairs, the last one followed by the closing brace. */
  function ValuesWithBrace(pairs: seq<(string, string)>): (r: seq<string>)
    requires |pairs| >= 1
    ensures |r| == |pairs|
  {
    if |pairs| == 1 then [pairs[0].1 + "}"] else [pairs[0].1] + ValuesWithBrace(pairs[1..])
  }

  lemma {:induction false} CapturesSkip(a: string, b: string)
    requires ':' !in a
    ensures Captures(a + b) == Captures(b)
  {
    if a != [] {
      assert a[0] in a;
      assert ':' !in a[1..] by {
        forall c | c in a[1..]
          ensures c in a
        {
        }
      }
      CapturesSkip(a[1..], b);
      var s := a + b;
      if |s| >= 2 {
        assert s[0] == a[0] && s[0] != ':';
        assert s[1..] == a[1..] + b;
        assert Captures(s) == Captures(s[1..]);
      } else {
        assert |b| < 2;
        assert Captures(s) == [] && Captures(b) == [];
      }
    } else {
      assert a + b == b;
    }
  }

  lemma {:induction false} CaptureEndPlain(v: string, t: string)
    requires ',' !in v && '\n' !in v
    ensures CaptureEnd(v + t) == (match CaptureEnd(t) case None => None case Some(e) => Some(e + |v|))
  {
    if v != [] {
      assert (v + t)[0] == v[0];
      assert (v + t)[1..] == v[1..] + t;
      CaptureEndPlain(v[1..], t);
    } else {
      assert v + t == t;
    }
  }

  lemma CapturesValue(v: string, rest: string, e: nat)
    requires ',' !in v && '\n' !in v
    requires CaptureEnd(rest) == Some(e)
    ensures Captures(": " + v + rest) == [v + rest[..e]] + Captures(rest[e..])
  {
    var s := ": " + v + rest;
    var end := e + |v|;
    assert s[2..2 + end] == v + rest[..e] && s[2 + end..] == rest[e..] by {
      PrefixSlices(v, rest, e);
    }
    assert Captures(s) == [s[2..2 + end]] + Captures(s[2 + end..]) by {
      PrefixSlices(v, rest, e);
      CaptureEndPlain(v, rest);
      CapturesAt(s, end);
    }
  }

  /** The slices of `": " + v + rest` around a capture that ends `e` characters into `rest`. */
  lemma PrefixSlices(v: string, rest: string, e: nat)
    requires e <= |rest|
    ensures var s := ": " + v + rest;
      && s[0] == ':' && s[1] == ' ' && s[2..] == v + rest
      && s[2..2 + (e + |v|)] == v + rest[..e] && s[2 + (e + |v|)..] == rest[e..]
  {
  }

  /** A ": " whose capture ends at `e` yields that capture first. */
  lemma CapturesAt(s: string, e: nat)
    requires |s| >= 2 && s[0] == ':' && IsSpace(s[1]) && CaptureEnd(s[2..]) == Some(e)
    ensures Captures(s) == [s[2..2 + e]] + Captures(s[2 + e..])
  {
  }

  lemma {:induction false} CapturesFields(pairs: seq<(string, string)>)
    requires |pairs| >= 1 && PlainPairs(pairs)
    ensures Captures(Fields(pairs) + "}") == ValuesWithBrace(pairs)
  {
    var k := pairs[0].0;
    var v := pairs[0].1;
    if |pairs| == 1 {
      assert Fields(pairs) + "}" == k + (": " + v + "}");
      CapturesSkip(k, ": " + v + "}");
      assert CaptureEnd("}"[1..]) == Some(0);
      CapturesValue(v, "}", 1);
      assert "}"[..1] == "}" && "}"[1..] == [];
    } else {
      var tail := Fields(pairs[1..]) + "}";
      assert Fields(pairs) + "}" == k + (": " + v + (", " + tail));
      CapturesSkip(k, ": " + v + (", " + tail));
      CapturesValue(v, ", " + tail, 0);
      assert (", " + tail)[..0] == [] && (", " + tail)[0..] == ", " + tail;
      assert v + [] == v;
      CapturesSkip(", ", tail);
      assert PlainPairs(pairs[1..]) by {
        forall i | 0 <= i < |pairs[1..]|
          ensures ':' !in pairs[1..][i].0 && ',' !in pairs[1..][i].1 && '\n' !in pairs[1..][i].1
        {
          assert pairs[1..][i] == pairs[i + 1];
        }
      }
      CapturesFields(pairs[1..]);
    }
  }

  /** A reply in the requested format yields its values in order; the closing brace stays
      attached to the last one. */
  lemma ReplyCaptures(pairs: seq<(string, string)>)
    requires |pairs| >= 1 && PlainPairs(pairs)
    ensures Captures(Reply(pairs)) == ValuesWithBrace(pairs)
  {
    assert Reply(pairs) == "{" + (Fields(pairs) + "}");
    CapturesSkip("{", Fields(pairs) + "}");
    CapturesFields(pairs);
  }

  // ---------------------------------------------------------------------------
  // Bucketing

  datatype Bucket = Unassigned | Gold | Drop | Candidates

  /** Line 133 as written: a capture counts as an empty answer when it lowercases to
      "none". */
  predicate ExactNone(c: string) {
    Lower(c) == "none"
  }

  /** The empty answer with the closing brace the last capture of a well-formed reply
      carries also counts. */
  predicate NoneAnswer(c: string) {
    Lower(c) == "none" || Lower(c) == "none}"
  }

  function Weight(c: string, isNone: string -> bool): nat {
    if isNone(c) then 1 else 0
  }

  /** Number of captures that `isNone` accepts. */
  function NoneCount(caps: seq<string>, isNone: string -> bool): (n: nat)
    ensures n <= |caps|
  {
    if caps == [] then 0
    else NoneCount(caps[..|caps| - 1], isNone) + Weight(caps[|caps| - 1], isNone)
  }

  /** Fewer than four captures: unassigned; no empty answer: gold; three: dropped;
      otherwise a candidate. */
  function BucketBy(caps: seq<string>, isNone: string -> bool): Bucket {
    if |caps| < 4 then Unassigned
    else if NoneCount(caps, isNone) == 0 then Gold
    else if NoneCount(caps, isNone) == 3 then Drop
    else Candidates
  }

  /** The bucket of lines 119-139 as written. */
  function BucketOfAsWritten(caps: seq<string>): Bucket {
    BucketBy(caps, ExactNone)
  }

  /** The bucket with the closing brace taken into account. */
  function BucketOf(caps: seq<string>): Bucket {
    BucketBy(caps, NoneAnswer)
  }

  /** A row of the gold, candidate and drop files. */
  datatype Assessed = Assessed(concept: string, country: string, semanticField: string, language: string)

  /** The row a reply with at least four captures gives: captures 1, 2 and 3. */
  function Assess(concept: string, caps: seq<string>): Assessed
    requires |caps| >= 4
  {
    Assessed(concept, caps[1], caps[2], caps[3])
  }

  /** `", ".join(parts)` */
  function JoinComma(parts: seq<string>): string {
    if parts == [] then []
    else if |parts| == 1 then parts[0]
    else parts[0] + ", " + JoinComma(parts[1..])
  }

  /** The rows of the parsed replies that land in bucket `b`, in order. */
  function BucketRows(concepts: seq<string>, replies: seq<string>, b: Bucket): (r: seq<Assessed>)
    requires |concepts| == |replies| && b != Unassigned
    ensures |r| <= |concepts|
    ensures forall x :: x in r ==> exists i :: 0 <= i < |concepts| && BucketOf(Captures(replies[i])) == b
                                              && x == Assess(concepts[i], Captures(replies[i]))
  {
    if concepts == [] then []
    else
      var n := |concepts| - 1;
      var prev := BucketRows(concepts[..n], replies[..n], b);
      var caps := Captures(replies[n]);
      if BucketOf(caps) == b then prev + [Assess(concepts[n], caps)] else prev
  }

  /** The lines of the unassigned file: the concept directly followed by its captures. */
  function UnassignedLines(concepts: seq<string>, replies: seq<string>): (r: seq<string>)
    requires |concepts| == |replies|
    ensures |r| <= |concepts|
  {
    if concepts == [] then []
    else
      var n := |concepts| - 1;
      var prev := UnassignedLines(concepts[..n], replies[..n]);
      var caps := Captures(replies[n]);
      if BucketOf(caps) == Unassigned then prev + [concepts[n] + JoinComma(caps) + "\n"] else prev
  }

  /** The bucketing loop of `evaluate_concepts_GPT`: `replies[i]` is the model's reply for
      `concepts[i]`. Returns what is appended to each of the four files. Empty answers are
      counted with `NoneAnswer`, so that the brace-carrying last capture counts too. */
  method EvaluateConcepts(concepts: seq<string>, replies: seq<string>)
    returns (gold: seq<Assessed>, candidates: seq<Assessed>, drop: seq<Assessed>, unassigned: seq<string>)
    requires |concepts| == |replies|
    ensures gold == BucketRows(concepts, replies, Gold)
    ensures candidates == BucketRows(concepts, replies, Candidates)
    ensures drop == BucketRows(concepts, replies, Drop)
    ensures unassigned == UnassignedLines(concepts, replies)
    ensures |gold| + |candidates| + |drop| + |unassigned| == |concepts|
  {
    gold, candidates, drop, unassigned := [], [], [], [];
    var i := 0;
    while i < |concepts|
      invariant 0 <= i <= |concepts|
      invariant gold == BucketRows(concepts[..i], replies[..i], Gold)
      invariant candidates == BucketRows(concepts[..i], replies[..i], Candidates)
      invariant drop == BucketRows(concepts[..i], replies[..i], Drop)
      invariant unassigned == UnassignedLines(concepts[..i], replies[..i])
    {
      BucketStep(concepts, replies, i, Gold);
      BucketStep(concepts, replies, i, Candidates);
      BucketStep(concepts, replies, i, Drop);
      UnassignedStep(concepts, replies, i);
      var concept := concepts[i];
      var matches := Captures(replies[i]);
      if |matches| < 4 {
        unassigned := unassigned + [concept + JoinComma(matches) + "\n"];
      } else {
        var row := Assessed(concept, matches[1], matches[2], matches[3]);
        var count := NoneCount(matches, NoneAnswer);
        if count == 0 {
          gold := gold + [row];
        } else if count == 3 {
          drop := drop + [row];
        } else {
          candidates := candidates + [row];
        }
      }
      i := i + 1;
    }
    assert concepts[..i] == concepts;
    assert replies[..i] == replies;
    BucketCounts(concepts, replies);
  }

  /** One more reply extends exactly the file of its bucket. */
  lemma BucketStep(concepts: seq<string>, replies: seq<string>, i: nat, b: Bucket)
    requires |concepts| == |replies| && i < |concepts| && b != Unassigned
    ensures BucketRows(concepts[..i + 1], replies[..i + 1], b)
            == BucketRows(concepts[..i], replies[..i], b)
               + (if BucketOf(Captures(replies[i])) == b then [Assess(concepts[i], Captures(replies[i]))] else [])
  {
    assert concepts[..i + 1][..i] == concepts[..i];
    assert replies[..i + 1][..i] == replies[..i];
  }

  lemma UnassignedStep(concepts: seq<string>, replies: seq<string>, i: nat)
    requires |concepts| == |replies| && i < |concepts|
    ensures UnassignedLines(concepts[..i + 1], replies[..i + 1])
            == UnassignedLines(concepts[..i], replies[..i])
               + (if BucketOf(Captures(replies[i])) == Unassigned then [concepts[i] + JoinComma(Captures(replies[i])) + "\n"] else [])
  {
    assert concepts[..i + 1][..i] == concepts[..i];
    assert replies[..i + 1][..i] == replies[..i];
  }

  /** Every reply lands in exactly one of the four files. */
  lemma {:induction false} BucketCounts(concepts: seq<string>, replies: seq<string>)
    requires |concepts| == |replies|
    ensures |BucketRows(concepts, replies, Gold)| + |BucketRows(concepts, replies, Candidates)|
            + |BucketRows(concepts, replies, Drop)| + |UnassignedLines(concepts, replies)| == |concepts|
  {
    if concepts != [] {
      var n := |concepts| - 1;
      BucketCounts(concepts[..n], replies[..n]);
    }
  }

  lemma ValuesWithBraceFour(pairs: seq<(string, string)>)
    requires |pairs| == 4
    ensures ValuesWithBrace(pairs) == [pairs[0].1, pairs[1].1, pairs[2].1, pairs[3].1 + "}"]
  {
    var p1 := pairs[1..];
    var p2 := p1[1..];
    var p3 := p2[1..];
    assert p3 == [pairs[3]];
    assert ValuesWithBrace(p3) == [pairs[3].1 + "}"];
    assert ValuesWithBrace(p2) == [pairs[2].1, pairs[3].1 + "}"];
    assert ValuesWithBrace(p1) == [pairs[1].1, pairs[2].1, pairs[3].1 + "}"];
  }

  lemma NoneCountFour(caps: seq<string>, isNone: string -> bool)
    requires |caps| == 4
    ensures NoneCount(caps, isNone)
            == Weight(caps[0], isNone) + Weight(caps[1], isNone) + Weight(caps[2], isNone) + Weight(caps[3], isNone)
  {
    var c1, c2, c3 := caps[..1], caps[..2], caps[..3];
    assert c1[..0] == [] && c2[..1] == c1 && c3[..2] == c2 && caps[..3] == c3;
    assert NoneCount(c1, isNone) == Weight(caps[0], isNone);
    assert NoneCount(c2, isNone) == Weight(caps[0], isNone) + Weight(caps[1], isNone);
    assert NoneCount(c3, isNone) == Weight(caps[0], isNone) + Weight(caps[1], isNone) + Weight(caps[2], isNone);
  }

  /** A value followed by the closing brace never lowercases to "none", and lowercases to
      "none}" exactly when the value itself lowercases to "none". */
  lemma BracedValue(v: string)
    ensures !ExactNone(v + "}")
    ensures NoneAnswer(v + "}") <==> ExactNone(v)
  {
    LowerAppend(v, "}");
    assert Lower("}") == "}";
    var l := Lower(v + "}");
    assert l == Lower(v) + "}";
    assert l[|v|] == '}';
    if |v| == 3 {
      assert "none"[3] == 'e';
    }
    if l == "none}" {
      assert Lower(v) == l[..|v|];
    }
  }

  /** For a reply in the requested format, the empty answers counted are those among the
      first three values plus the last value when it is itself "none"; as written, the
      last value never counts. */
  lemma ReplyNoneCount(pairs: seq<(string, string)>)
    requires |pairs| == 4 && PlainPairs(pairs)
    ensures var caps := Captures(Reply(pairs));
      && |caps| == 4
      && NoneCount(caps, NoneAnswer)
         == Weight(pairs[0].1, NoneAnswer) + Weight(pairs[1].1, NoneAnswer) + Weight(pairs[2].1, NoneAnswer)
            + Weight(pairs[3].1, ExactNone)
      && NoneCount(caps, ExactNone)
         == Weight(pairs[0].1, ExactNone) + Weight(pairs[1].1, ExactNone) + Weight(pairs[2].1, ExactNone)
  {
    ReplyCaptures(pairs);
    ValuesWithBraceFour(pairs);
    var caps := Captures(Reply(pairs));
    BracedValue(pairs[3].1);
    NoneCountFour(caps, NoneAnswer);
    NoneCountFour(caps, ExactNone);
  }

  /** As written, a reply in the requested format that answers "None" for country,
      category and language yields "None}" as its last capture, counts two empty answers
      and lands among the candidates instead of the dropped concepts. */
  lemma AllNoneReplyIsCandidateAsWritten(concept: string)
    requires ',' !in concept && '\n' !in concept && !ExactNone(concept)
    ensures var pairs := [("Concept", concept), ("Country", "None"), ("Category", "None"), ("Language", "None")];
      && Captures(Reply(pairs)) == [concept, "None", "None", "None}"]
      && BucketOfAsWritten(Captures(Reply(pairs))) == Candidates
  {
    var pairs := [("Concept", concept), ("Country", "None"), ("Category", "None"), ("Language", "None")];
    ReplyCaptures(pairs);
    ValuesWithBraceFour(pairs);
    assert "None" + "}" == "None}";
    assert Lower("None") == "none";
    ReplyNoneCount(pairs);
  }

  /** With the brace taken into account the same reply is dropped. */
  lemma AllNoneReplyIsDropped(concept: string)
    requires ',' !in concept && '\n' !in concept && !NoneAnswer(concept)
    ensures var pairs := [("Concept", concept), ("Country", "None"), ("Category", "None"), ("Language", "None")];
      BucketOf(Captures(Reply(pairs))) == Drop
  {
    var pairs := [("Concept", concept), ("Country", "None"), ("Category", "None"), ("Language", "None")];
    assert Lower("None") == "none";
    ReplyNoneCount(pairs);
  }

  /** Corrected rule: a reply in the requested format with a real answer for every field
      is gold, one with all three answers empty is dropped, any other is a candidate. As
      written, only the country and category answers are counted: the reply is gold when
      both are answered, whatever the language answer, a candidate otherwise, and never
      dropped. */
  lemma AnsweredReplyBuckets(pairs: seq<(string, string)>)
    requires |pairs| == 4 && PlainPairs(pairs) && !NoneAnswer(pairs[0].1)
    ensures var b := BucketOf(Captures(Reply(pairs)));
      var empty := Weight(pairs[1].1, NoneAnswer) + Weight(pairs[2].1, NoneAnswer) + Weight(pairs[3].1, ExactNone);
      && (b == Gold <==> empty == 0)
      && (b == Drop <==> empty == 3)
      && (b == Candidates <==> 0 < empty < 3)
    ensures var b := BucketOfAsWritten(Captures(Reply(pairs)));
      var empty := Weight(pairs[1].1, ExactNone) + Weight(pairs[2].1, ExactNone);
      && (b == Gold <==> empty == 0)
      && b != Drop
      && (b == Candidates <==> empty > 0)
  {
    ReplyNoneCount(pairs);
  }

  // ---------------------------------------------------------------------------
  // Line trimming

  /** Python's `s[lo:-2]` for `lo` >= 0. */
  function SliceToLastTwo(s: string, lo: nat): (r: string)
    ensures |r| == if lo + 2 <= |s| then |s| - 2 - lo else 0
  {
    if lo + 2 <= |s| then s[lo..|s| - 2] else []
  }

  /** Line 151 as written: a line starting with "{" loses its first 10 and last 2
      characters, any other line its last 2. */
  function TrimLineAsWritten(line: string): string
    requires line != []
  {
    var l := Lower(line);
    (if l[0] == '{' then SliceToLastTwo(l, 10) else SliceToLastTwo(l, 0)) + "\n"
  }

  /** The header of the file being trimmed loses the last letter of its last column. */
  lemma TrimLineAsWrittenBreaksHeader(prefix: string)
    requires prefix == [] || prefix[0] != '{'
    requires IsLowerCase(prefix)
    ensures TrimLineAsWritten(prefix + "language\n") == prefix + "languag\n"
  {
    var line := prefix + "language\n";
    LowerAppend(prefix, "language\n");
    assert Lower(prefix) == prefix;
    assert Lower("language\n") == "language\n";
    assert Lower(line)[..|line| - 2] == prefix + "languag";
  }

  /** The trimming the comment at line 143 states: drop a leading "{concept: " and a
      trailing "}" where present, keep every other character. */
  function TrimLine(line: string): string {
    var l := Lower(line);
    var body := if EndsWith(l, "\n") then l[..|l| - 1] else l;
    var front := if StartsWith(body, "{") then body[if |body| < 10 then |body| else 10..] else body;
    (if EndsWith(front, "}") then front[..|front| - 1] else front) + "\n"
  }

  /** `cleanup_format`: one trimmed line per input line, appended to what `written`
      already holds. */
  method CleanupFormat(lines: seq<string>, written: seq<string>) returns (out: seq<string>)
    ensures |out| == |written| + |lines|
    ensures out[..|written|] == written
    ensures forall i :: 0 <= i < |lines| ==> out[|written| + i] == TrimLine(lines[i])
  {
    out := written;
    var i := 0;
    while i < |lines|
      invariant 0 <= i <= |lines|
      invariant |out| == |written| + i
      invariant out[..|written|] == written
      invariant forall k :: 0 <= k < i ==> out[|written| + k] == TrimLine(lines[k])
    {
      out := out + [TrimLine(lines[i])];
      i := i + 1;
    }
  }

  /** Trimming a data row closed by "}" removes the brace and keeps the rest, as the
      line-151 trimming does; a line without braces is kept whole. */
  lemma TrimLineRoundTrip(row: string)
    requires '\n' !in row && (row == [] || row[0] != '{') && IsLowerCase(row)
    ensures TrimLine(row + "}\n") == row + "\n"
    ensures TrimLineAsWritten(row + "}\n") == row + "\n"
    ensures (row == [] || row[|row| - 1] != '}') ==> TrimLine(row + "\n") == row + "\n"
  {
    TrimBracedRow(row);
    TrimPlainRow(row);
  }

  /** A line that ends in "}\n" and has no other upper-case letters is its own lowercase form. */
  lemma LowerBracedLine(row: string, tail: string)
    requires IsLowerCase(row) && IsLowerCase(tail)
    ensures Lower(row + tail) == row + tail
  {
    var line := row + tail;
    forall i | 0 <= i < |line|
      ensures !IsUpper(line[i])
    {
      if i < |row| {
        assert line[i] == row[i];
      } else {
        assert line[i] == tail[i - |row|];
      }
    }
    LowerOfLowerCase(line);
  }

  lemma TrimBracedRow(row: string)
    requires (row == [] || row[0] != '{') && IsLowerCase(row)
    ensures TrimLine(row + "}\n") == row + "\n"
    ensures TrimLineAsWritten(row + "}\n") == row + "\n"
  {
    var line := row + "}\n";
    LowerBracedLine(row, "}\n");
    var body := row + "}";
    assert line[..|line| - 1] == body;
    assert body[0] != '{';
    assert body[..|body| - 1] == row;
    assert line[0] != '{';
    assert line[0..|line| - 2] == row;
  }

  lemma TrimPlainRow(row: string)
    requires (row == [] || row[0] != '{') && IsLowerCase(row)
    ensures (row == [] || row[|row| - 1] != '}') ==> TrimLine(row + "\n") == row + "\n"
  {
    var line := row + "\n";
    LowerBracedLine(row, "\n");
    assert line[..|line| - 1] == row;
  }


  // ---------------------------------------------------------------------------
  // Language-based partition

  /** A row read back from a trimmed file. */
  datatype Candidate = Candidate(concept: Cell, country: Cell, semanticField: Cell, language: Cell)

  /** A row after every cell was lowercased, NaN becoming "nan". */
  datatype Normalized = Normalized(concept: string, country: string, semanticField: string, language: string)

  function CellText(c: Cell): string {
    match c
    case Str(s) => Lower(s)
    case NaN => "nan"
  }

  function NormalizeRow(r: Candidate): Normalized {
    Normalized(CellText(r.concept), CellText(r.country), CellText(r.semanticField), CellText(r.language))
  }

  const TargetCountries: seq<string> := ["germany", "south korea", "china", "spain"]

  const TargetFields: seq<string> :=
    ["beverages", "celebration", "food", "clothing", "fruit", "houses", "music", "religion", "sport",
     "utensil", "vegetable", "visual arts"]

  const Languages: seq<string> := ["german", "korean", "chinese", "spanish", "english"]

  /** The language a row is rewritten to: the first target language of which the row's
      language is a substring. */
  function RewriteLanguage(language: string): Option<string> {
    if Contains("german", language) then Some("german")
    else if Contains("korean", language) then Some("korean")
    else if Contains("chinese", language) then Some("chinese")
    else if Contains("spanish", language) then Some("spanish")
    else if Contains("english", language) then Some("english")
    else None
  }

  /** The rewrite happens exactly when the language is a substring of some target
      language, and picks the first such one. */
  lemma RewriteLanguageMeaning(language: string)
    ensures var r := RewriteLanguage(language);
      && (r.None? <==> forall k :: 0 <= k < |Languages| ==> !Contains(Languages[k], language))
      && (r.Some? ==> exists k :: 0 <= k < |Languages| && r.value == Languages[k] && Contains(Languages[k], language)
                                && forall j :: 0 <= j < k ==> !Contains(Languages[j], language))
  {
    assert Languages[0] == "german" && Languages[1] == "korean" && Languages[2] == "chinese";
    assert Languages[3] == "spanish" && Languages[4] == "english";
  }

  predicate InTargets(r: Normalized) {
    r.country in TargetCountries && r.semanticField in TargetFields
  }

  /** A normalized row goes to the gold file: target country and field, and a language that
      rewrites. */
  predicate GoesGold(n: Normalized) {
    InTargets(n) && RewriteLanguage(n.language).Some?
  }

  /** The row written to the gold file for a row that goes gold. */
  function GoldRow(n: Normalized): Normalized
    requires GoesGold(n)
  {
    n.(language := RewriteLanguage(n.language).value)
  }

  /** The gold rows: exactly the rewrites of the input rows that go gold; together with the
      general rows they account for every input row. */
  function GoldRows(rows: seq<Candidate>): (r: seq<Normalized>)
    ensures |r| + |GeneralRows(rows)| == |rows|
    ensures forall x :: x in r <==> exists c :: c in rows && GoesGold(NormalizeRow(c)) && x == GoldRow(NormalizeRow(c))
  {
    if rows == [] then []
    else
      var prev := GoldRows(rows[..|rows| - 1]);
      var last := rows[|rows| - 1];
      var n := NormalizeRow(last);
      assert rows == rows[..|rows| - 1] + [last];
      if GoesGold(n) then prev + [GoldRow(n)] else prev
  }

  /** All other rows, normalized: exactly the normalized input rows that do not go gold. */
  function GeneralRows(rows: seq<Candidate>): (r: seq<Normalized>)
    ensures forall x :: x in r <==> !GoesGold(x) && exists c :: c in rows && x == NormalizeRow(c)
  {
    if rows == [] then []
    else
      var prev := GeneralRows(rows[..|rows| - 1]);
      var last := rows[|rows| - 1];
      var n := NormalizeRow(last);
      assert rows == rows[..|rows| - 1] + [last];
      if GoesGold(n) then prev else prev + [n]
  }

  /** `seperate_incorrect_gpt_assignments` */
  method SeparateIncorrectAssignments(rows: seq<Candidate>) returns (gold: seq<Normalized>, general: seq<Normalized>)
    ensures gold == GoldRows(rows) && general == GeneralRows(rows)
    ensures |gold| + |general| == |rows|
    ensures forall x :: x in gold ==> x.country in TargetCountries && x.semanticField in TargetFields && x.language in Languages
    ensures forall x :: x in gold <==> exists c :: c in rows && GoesGold(NormalizeRow(c)) && x == GoldRow(NormalizeRow(c))
    ensures forall x :: x in general <==> !GoesGold(x) && exists c :: c in rows && x == NormalizeRow(c)
  {
    gold, general := [], [];
    var i := 0;
    while i < |rows|
      invariant 0 <= i <= |rows|
      invariant gold == GoldRows(rows[..i]) && general == GeneralRows(rows[..i])
    {
      PartitionStep(rows, i);
      var row := NormalizeRow(rows[i]);
      // the chain of `in "german"`, `in "korean"`, ... tests of lines 185-202
      var target := RewriteLanguage(row.language);
      if InTargets(row) && target.Some? {
        gold := gold + [row.(language := target.value)];
      } else {
        general := general + [row];
      }
      i := i + 1;
    }
    assert rows[..i] == rows;
    GoldRowsInTargets(rows);
  }

  /** Every gold row has a target country, a target field and a target language. */
  lemma {:induction false} GoldRowsInTargets(rows: seq<Candidate>)
    ensures forall x :: x in GoldRows(rows) ==>
              x.country in TargetCountries && x.semanticField in TargetFields && x.language in Languages
  {
    if rows != [] {
      GoldRowsInTargets(rows[..|rows| - 1]);
      RewriteLanguageMeaning(NormalizeRow(rows[|rows| - 1]).language);
    }
  }

  /** One more row extends exactly one of the two partitions. */
  lemma PartitionStep(rows: seq<Candidate>, i: nat)
    requires i < |rows|
    ensures var n := NormalizeRow(rows[i]);
      && GoldRows(rows[..i + 1]) == GoldRows(rows[..i])
           + (if GoesGold(n) then [GoldRow(n)] else [])
      && GeneralRows(rows[..i + 1]) == GeneralRows(rows[..i])
           + (if GoesGold(n) then [] else [n])
  {
    assert rows[..i + 1][..i] == rows[..i];
  }

  /** A string whose first character occurs nowhere in `w` is no substring of `w`. */
  lemma FirstCharAbsent(w: string, sub: string)
    requires sub != [] && sub[0] !in w
    ensures !Contains(w, sub)
  {
  }

  /** The empty language and "man" are both substrings of "german", so both are rewritten
      to "german"; "french" is a substring of no target and stays general. */
  lemma RewriteExamples()
    ensures RewriteLanguage("") == Some("german")
    ensures RewriteLanguage("man") == Some("german")
    ensures RewriteLanguage("french") == None
  {
    assert StartsWith("german"[0..], "");
    assert StartsWith("german"[3..], "man");
    FirstCharAbsent("german", "french");
    FirstCharAbsent("korean", "french");
    FirstCharAbsent("chinese", "french");
    FirstCharAbsent("spanish", "french");
    FirstCharAbsent("english", "french");
  }

  // ---------------------------------------------------------------------------
  // Preassignment partition

  /** A cell that is present and not blank after stripping. */
  predicate Filled(c: Cell) {
    c.Str? && Strip(c.s) != ""
  }

  predicate Skipped(r: Candidate) {
    r.country.Str? && Strip(r.country.s) == "indian"
  }

  datatype Preassignment = Skip | Double | Single | Noisy

  function Classify(r: Candidate): Preassignment {
    if Skipped(r) then Skip
    else if Filled(r.country) && Filled(r.semanticField) then Double
    else if Filled(r.country) || Filled(r.semanticField) then Single
    else Noisy
  }

  /** The rows of class `c`, in order. */
  /** One more row extends exactly the partition of its class. */
  lemma ClassStep(rows: seq<Candidate>, i: nat)
    requires i < |rows|
    ensures forall c :: RowsOfClass(rows[..i + 1], c)
                          == RowsOfClass(rows[..i], c) + (if Classify(rows[i]) == c then [rows[i]] else [])
  {
    assert rows[..i + 1][..i] == rows[..i];
  }

  function RowsOfClass(rows: seq<Candidate>, c: Preassignment): (r: seq<Candidate>)
    ensures forall x :: x in r <==> x in rows && Classify(x) == c
  {
    if rows == [] then []
    else
      var prev := RowsOfClass(rows[..|rows| - 1], c);
      var last := rows[|rows| - 1];
      assert rows == rows[..|rows| - 1] + [last];
      if Classify(last) == c then prev + [last] else prev
  }

  /** `seperate_preassigned_concepts` */
  method SeparatePreassigned(rows: seq<Candidate>) returns (double: seq<Candidate>, single: seq<Candidate>, noisy: seq<Candidate>)
    ensures double == RowsOfClass(rows, Double)
    ensures single == RowsOfClass(rows, Single)
    ensures noisy == RowsOfClass(rows, Noisy)
    ensures |double| + |single| + |noisy| + |RowsOfClass(rows, Skip)| == |rows|
  {
    double, single, noisy := [], [], [];
    var i := 0;
    while i < |rows|
      invariant 0 <= i <= |rows|
      invariant double == RowsOfClass(rows[..i], Double)
      invariant single == RowsOfClass(rows[..i], Single)
      invariant noisy == RowsOfClass(rows[..i], Noisy)
    {
      ClassStep(rows, i);
      var row := rows[i];
      if Skipped(row) {
        // the "indian" rows are skipped
      } else if Filled(row.country) && Filled(row.semanticField) {
        double := double + [row];
      } else if Filled(row.country) || Filled(row.semanticField) {
        single := single + [row];
      } else {
        noisy := noisy + [row];
      }
      i := i + 1;
    }
    assert rows[..i] == rows;
    ClassCounts(rows);
  }

  /** The four classes partition the rows. */
  lemma {:induction false} ClassCounts(rows: seq<Candidate>)
    ensures |RowsOfClass(rows, Double)| + |RowsOfClass(rows, Single)| + |RowsOfClass(rows, Noisy)|
            + |RowsOfClass(rows, Skip)| == |rows|
  {
    if rows != [] {
      ClassCounts(rows[..|rows| - 1]);
    }
  }

  /** A single row has exactly one of country and field filled; a noisy row has neither. */
  lemma PreassignmentMeaning(r: Candidate)
    ensures Classify(r) == Single ==> (Filled(r.country) <==> !Filled(r.semanticField))
    ensures Classify(r) == Noisy ==> !Filled(r.country) && !Filled(r.semanticField)
    ensures Classify(r) == Double ==> Filled(r.country) && Filled(r.semanticField) && !Skipped(r)
  {
  }
}
