/** `sort_csv`: every cell of a four-column assessment file is stripped and lowercased (a
    missing cell becomes "nan"), and the rows are ordered by country, then semantic field,
    then concept, comparing strings code point by code point as Python does. */
module Sorting {
  import opened Text
  import opened Store
  import opened Filtering

  /** Python's `a <= b` on strings: lexicographic by code point, a prefix first. */
  predicate StrLe(a: string, b: string) {
    a == [] || (b != [] && (a[0] < b[0] || (a[0] == b[0] && StrLe(a[1..], b[1..]))))
  }

  predicate StrLt(a: string, b: string) {
    StrLe(a, b) && a != b
  }

  lemma {:induction false} StrLeTotal(a: string, b: string)
    ensures StrLe(a, b) || StrLe(b, a)
  {
    if a != [] && b != [] && a[0] == b[0] {
      StrLeTotal(a[1..], b[1..]);
    }
  }

  lemma {:induction false} StrLeAntisymmetric(a: string, b: string)
    requires StrLe(a, b) && StrLe(b, a)
    ensures a == b
  {
    if a != [] && b != [] {
      StrLeAntisymmetric(a[1..], b[1..]);
      assert a == [a[0]] + a[1..] && b == [b[0]] + b[1..];
    }
  }

  lemma {:induction false} StrLeTransitive(a: string, b: string, c: string)
    requires StrLe(a, b) && StrLe(b, c)
    ensures StrLe(a, c)
  {
    if a != [] && a[0] == b[0] && b[0] == c[0] {
      StrLeTransitive(a[1..], b[1..], c[1..]);
    }
  }

  /** A cell after the strip of line 157 and the lowercasing of line 160. */
  function NormalizeCell(c: Cell): (r: string)
    ensures IsLowerCase(r)
  {
    match c
    case Str(s) => LowerIsLowerCase(Strip(s)); Lower(Strip(s))
    case NaN => "nan"
  }

  function NormalizeForSort(r: Candidate): Normalized {
    Normalized(NormalizeCell(r.concept), NormalizeCell(r.country), NormalizeCell(r.semanticField),
               NormalizeCell(r.language))
  }

  function NormalizeAll(rows: seq<Candidate>): (r: seq<Normalized>)
    ensures |r| == |rows|
    ensures forall i :: 0 <= i < |rows| ==> r[i] == NormalizeForSort(rows[i])
  {
    if rows == [] then [] else [NormalizeForSort(rows[0])] + NormalizeAll(rows[1..])
  }

  /** The order of `sort_values(by=[columns 1, 2, 0])`: country, semantic field, concept. */
  predicate KeyLe(x: Normalized, y: Normalized) {
    StrLt(x.country, y.country)
    || (x.country == y.country
        && (StrLt(x.semanticField, y.semanticField)
            || (x.semanticField == y.semanticField && StrLe(x.concept, y.concept))))
  }

  lemma KeyLeTotal(x: Normalized, y: Normalized)
    ensures KeyLe(x, y) || KeyLe(y, x)
  {
    StrLeTotal(x.country, y.country);
    StrLeTotal(x.semanticField, y.semanticField);
    StrLeTotal(x.concept, y.concept);
  }

  lemma KeyLeTransitive(x: Normalized, y: Normalized, z: Normalized)
    requires KeyLe(x, y) && KeyLe(y, z)
    ensures KeyLe(x, z)
  {
    StrLtTransitive(x.country, y.country, z.country);
    StrLtTransitive(x.semanticField, y.semanticField, z.semanticField);
    if StrLe(x.concept, y.concept) && StrLe(y.concept, z.concept) {
      StrLeTransitive(x.concept, y.concept, z.concept);
    }
  }

  /** Strict order is transitive wherever its hypotheses hold. */
  lemma StrLtTransitive(a: string, b: string, c: string)
    ensures StrLt(a, b) && StrLe(b, c) ==> StrLt(a, c)
    ensures StrLe(a, b) && StrLt(b, c) ==> StrLt(a, c)
  {
    if StrLe(a, b) && StrLe(b, c) {
      StrLeTransitive(a, b, c);
      if a == c {
        StrLeAntisymmetric(a, b);
      }
    }
  }

  predicate Sorted(s: seq<Normalized>) {
    forall i, j :: 0 <= i < j < |s| ==> KeyLe(s[i], s[j])
  }

  /** Places `x` before the first element it does not follow. */
  function Insert(x: Normalized, s: seq<Normalized>): seq<Normalized> {
    if s == [] then [x]
    else if KeyLe(x, s[0]) then [x] + s
    else [s[0]] + Insert(x, s[1..])
  }

  function SortRows(s: seq<Normalized>): seq<Normalized> {
    if s == [] then [] else Insert(s[0], SortRows(s[1..]))
  }

  lemma {:induction false} InsertPermutes(x: Normalized, s: seq<Normalized>)
    ensures multiset(Insert(x, s)) == multiset(s) + multiset{x}
  {
    if s == [] {
    } else if KeyLe(x, s[0]) {
      assert Insert(x, s) == [x] + s;
    } else {
      InsertPermutes(x, s[1..]);
      assert Insert(x, s) == [s[0]] + Insert(x, s[1..]);
      assert s == [s[0]] + s[1..];
      assert multiset(Insert(x, s)) == multiset{s[0]} + multiset(Insert(x, s[1..]));
    }
  }

  lemma {:induction false} InsertSorted(x: Normalized, s: seq<Normalized>)
    requires Sorted(s)
    ensures Sorted(Insert(x, s))
  {
    if s == [] {
    } else if KeyLe(x, s[0]) {
      var r := [x] + s;
      forall i, j | 0 <= i < j < |r|
        ensures KeyLe(r[i], r[j])
      {
        if i == 0 && j > 1 {
          KeyLeTransitive(x, s[0], s[j - 1]);
        }
      }
    } else {
      InsertSorted(x, s[1..]);
      HeadBelowInsert(x, s);
      ConsSorted(s[0], Insert(x, s[1..]));
    }
  }

  /** The head of a sorted sequence that `x` does not precede stays below everything after
      inserting `x` into the tail. */
  lemma HeadBelowInsert(x: Normalized, s: seq<Normalized>)
    requires Sorted(s) && s != [] && !KeyLe(x, s[0])
    ensures forall j :: 0 <= j < |Insert(x, s[1..])| ==> KeyLe(s[0], Insert(x, s[1..])[j])
  {
    KeyLeTotal(x, s[0]);
    InsertPermutes(x, s[1..]);
    var t := Insert(x, s[1..]);
    forall j | 0 <= j < |t|
      ensures KeyLe(s[0], t[j])
    {
      assert t[j] in multiset(t);
      if t[j] != x {
        assert t[j] in multiset(s[1..]);
        var k :| 0 <= k < |s[1..]| && s[1..][k] == t[j];
        assert s[k + 1] == t[j];
      }
    }
  }

  lemma ConsSorted(y: Normalized, t: seq<Normalized>)
    requires Sorted(t)
    requires forall j :: 0 <= j < |t| ==> KeyLe(y, t[j])
    ensures Sorted([y] + t)
  {
    var r := [y] + t;
    forall i, j | 0 <= i < j < |r|
      ensures KeyLe(r[i], r[j])
    {
      if i == 0 {
        assert r[j] == t[j - 1];
      } else {
        assert r[i] == t[i - 1] && r[j] == t[j - 1];
      }
    }
  }

  /** The result is ordered by (country, semantic field, concept) and holds exactly the
      input rows, each as often as in the input. */
  lemma {:induction false} SortRowsCorrect(s: seq<Normalized>)
    ensures Sorted(SortRows(s))
    ensures multiset(SortRows(s)) == multiset(s)
  {
    if s != [] {
      SortRowsCorrect(s[1..]);
      InsertSorted(s[0], SortRows(s[1..]));
      InsertPermutes(s[0], SortRows(s[1..]));
      assert s == [s[0]] + s[1..];
    }
  }

  /** `sort_csv` on the rows of a file. */
  function SortCsv(rows: seq<Candidate>): seq<Normalized> {
    SortRows(NormalizeAll(rows))
  }

  /** Every row of the sorted file is an input row, normalized; the file is ordered; every
      cell is lowercase. */
  lemma SortCsvCorrect(rows: seq<Candidate>)
    ensures |SortCsv(rows)| == |rows|
    ensures Sorted(SortCsv(rows))
    ensures multiset(SortCsv(rows)) == multiset(NormalizeAll(rows))
    ensures forall x :: x in SortCsv(rows) ==>
              IsLowerCase(x.concept) && IsLowerCase(x.country) && IsLowerCase(x.semanticField) && IsLowerCase(x.language)
  {
    SortRowsCorrect(NormalizeAll(rows));
    var out := SortCsv(rows);
    assert |out| == |multiset(out)| == |multiset(NormalizeAll(rows))| == |rows|;
    forall x | x in out
      ensures IsLowerCase(x.concept) && IsLowerCase(x.country) && IsLowerCase(x.semanticField) && IsLowerCase(x.language)
    {
      assert x in multiset(NormalizeAll(rows));
      var i :| 0 <= i < |rows| && NormalizeAll(rows)[i] == x;
    }
  }

  /** The output name: `file_name[:-4] + "_sorted.csv"`. */
  function SortedFileName(name: string): (r: string)
    ensures EndsWith(name, ".csv") ==> r == name[..|name| - 4] + "_sorted.csv"
    ensures |name| < 4 ==> r == "_sorted.csv"
  {
    (if |name| >= 4 then name[..|name| - 4] else "") + "_sorted.csv"
  }

  /** Padding differences disappear: two cells that differ only in surrounding whitespace
      and letter case sort as the same string. */
  lemma NormalizeCellExample()
    ensures NormalizeCell(Str(" Germany ")) == NormalizeCell(Str("germany")) == "germany"
  {
    var padded := " Germany ";
    assert padded[1..] == "Germany ";
    assert StripLeft("Germany ") == "Germany ";
    assert StripLeft(padded) == "Germany ";
    assert "Germany "[..7] == "Germany";
    assert StripRight("Germany") == "Germany";
    assert StripRight("Germany ") == "Germany";
    assert Lower("Germany") == "germany";
    assert StripLeft("germany") == "germany";
    assert StripRight("germany") == "germany";
    assert Lower("germany") == "germany";
  }
}
