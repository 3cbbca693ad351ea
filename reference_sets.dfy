/** Preparation of the two reference sets the name filters read: the person names of the
    notable-persons database, and the place names of the GeoNames table together with the
    world-cities table. */
module ReferenceSets {
  import opened Text
  import opened Store

  // ---------------------------------------------------------------------------
  // Person names

  /** One person name: lowercased, underscores turned into spaces; a missing name stays
      missing. */
  function NormalizeName(c: Cell): Cell {
    match c
    case Str(s) => Str(ReplaceChar(Lower(s), '_', ' '))
    case NaN => NaN
  }

  /** The `name` column after the rewrite of every entry. */
  function NormalizeNames(names: seq<Cell>): (r: seq<Cell>)
    ensures |r| == |names|
    ensures forall i :: 0 <= i < |names| ==> (r[i].Str? <==> names[i].Str?)
    ensures forall i :: 0 <= i < |names| && r[i].Str? ==>
              |r[i].s| == |names[i].s| && IsLowerCase(r[i].s) && '_' !in r[i].s
  {
    seq(|names|, i requires 0 <= i < |names| => NormalizeName(names[i]))
  }

  /** A second pass changes nothing. */
  lemma NormalizeNamesIdempotent(names: seq<Cell>)
    ensures NormalizeNames(NormalizeNames(names)) == NormalizeNames(names)
  {
    var once := NormalizeNames(names);
    forall i | 0 <= i < |names|
      ensures NormalizeName(once[i]) == once[i]
    {
      if once[i].Str? {
        var s := once[i].s;
        assert Lower(s) == s;
        assert ReplaceChar(s, '_', ' ') == s;
      }
    }
  }

  /** A database name becomes the words the caption matching looks for. */
  lemma NormalizeNameExample()
    ensures NormalizeNames([Str("Leonardo_da_Vinci"), NaN]) == [Str("leonardo da vinci"), NaN]
  {
    assert Lower("Leonardo_da_Vinci") == "leonardo_da_vinci";
    assert ReplaceChar("leonardo_da_vinci", '_', ' ') == "leonardo da vinci";
  }

  // ---------------------------------------------------------------------------
  // Place names

  function Same(c: Cell): Cell {
    c
  }

  /** A place name survives the cleaning when it is present and is made of letters once its
      spaces are removed. */
  predicate KeepsPlace(c: Cell) {
    c.Str? && IsAlpha(RemoveSpaces(c.s))
  }

  /** Line 15: a kept name is lowercased, any other entry becomes NaN. */
  function CleanPlace(c: Cell): Cell {
    if KeepsPlace(c) then Str(Lower(c.s)) else NaN
  }

  /** `dropna()`: the strings, in order. */
  function DropNaN(cells: seq<Cell>): (r: seq<string>)
    ensures |r| <= |cells|
    ensures forall x :: x in r <==> Str(x) in cells
  {
    if cells == [] then []
    else
      var prev := DropNaN(cells[..|cells| - 1]);
      var last := cells[|cells| - 1];
      assert cells == cells[..|cells| - 1] + [last];
      match last
      case Str(s) => prev + [s]
      case NaN => prev
  }

  /** The place table: the GeoNames names without duplicates, followed by the city names,
      again without duplicates, then cleaned and stripped of missing entries. */
  function Places(geo: seq<Cell>, cities: seq<Cell>): seq<string> {
    DropNaN(CleanPlaces(Dedup(Dedup(geo, Same) + cities, Same)))
  }

  function CleanPlaces(cells: seq<Cell>): seq<Cell> {
    seq(|cells|, i requires 0 <= i < |cells| => CleanPlace(cells[i]))
  }

  /** Deduplication on the whole cell keeps exactly the cells of its input. */
  lemma DedupSameMembers(cells: seq<Cell>)
    ensures forall c :: c in Dedup(cells, Same) <==> c in cells
  {
    DedupCovers(cells, Same);
    forall c | c in cells
      ensures c in Dedup(cells, Same)
    {
      var d := Dedup(cells, Same);
      var k :| 0 <= k < |d| && Same(d[k]) == Same(c);
    }
  }

  /** The cleaned and NaN-free names are the lowercased kept names. */
  lemma CleanedMembers(cells: seq<Cell>)
    ensures forall x :: x in DropNaN(CleanPlaces(cells)) <==> exists c :: c in cells && KeepsPlace(c) && x == Lower(c.s)
  {
    var cleaned := CleanPlaces(cells);
    forall x
      ensures x in DropNaN(cleaned) <==> exists c :: c in cells && KeepsPlace(c) && x == Lower(c.s)
    {
      if x in DropNaN(cleaned) {
        assert Str(x) in cleaned;
        var i :| 0 <= i < |cleaned| && cleaned[i] == Str(x);
        assert cells[i] in cells;
      }
      if exists c :: c in cells && KeepsPlace(c) && x == Lower(c.s) {
        var c :| c in cells && KeepsPlace(c) && x == Lower(c.s);
        var k :| 0 <= k < |cells| && cells[k] == c;
        assert cleaned[k] == Str(x);
      }
    }
  }

  lemma {:induction false} RemoveSpacesLower(s: string)
    ensures RemoveSpaces(Lower(s)) == Lower(RemoveSpaces(s))
  {
    if s != [] {
      assert Lower(s)[1..] == Lower(s[1..]);
      RemoveSpacesLower(s[1..]);
      LowerAppend(if s[0] == ' ' then [] else [s[0]], RemoveSpaces(s[1..]));
    }
  }

  /** Deduplicating the first table before the concatenation does not change the result of
      deduplicating after it. */
  lemma {:induction false} DedupBeforeConcat(a: seq<Cell>, b: seq<Cell>)
    ensures Dedup(Dedup(a, Same) + b, Same) == Dedup(a + b, Same)
    decreases |b|
  {
    if b == [] {
      assert Dedup(a, Same) + b == Dedup(a, Same);
      assert a + b == a;
      DedupIdempotent(a, Same);
    } else {
      var b' := b[..|b| - 1];
      var y := b[|b| - 1];
      var d := Dedup(a, Same);
      assert (d + b)[..|d + b| - 1] == d + b' && (d + b)[|d + b| - 1] == y;
      assert (a + b)[..|a + b| - 1] == a + b' && (a + b)[|a + b| - 1] == y;
      DedupBeforeConcat(a, b');
      DedupSameMembers(a);
      KeySeenSame(d + b', y);
      KeySeenSame(a + b', y);
      assert y in d + b' <==> y in a + b';
    }
  }

  lemma KeySeenSame(cells: seq<Cell>, y: Cell)
    ensures KeySeen(cells, Same, y) <==> y in cells
  {
    if y in cells {
      var j :| 0 <= j < |cells| && cells[j] == y;
      assert Same(cells[j]) == y;
    }
  }

  /** The place table holds exactly the lowercased forms of the kept names of either table;
      every entry is lowercase and made of letters and spaces. */
  lemma PlacesMeaning(geo: seq<Cell>, cities: seq<Cell>)
    ensures forall x :: x in Places(geo, cities) <==>
              exists c :: c in geo + cities && KeepsPlace(c) && x == Lower(c.s)
    ensures forall x :: x in Places(geo, cities) ==> IsLowerCase(x) && IsAlpha(RemoveSpaces(x))
  {
    DedupBeforeConcat(geo, cities);
    DedupSameMembers(geo + cities);
    CleanedMembers(Dedup(geo + cities, Same));
    forall x | x in Places(geo, cities)
      ensures IsLowerCase(x) && IsAlpha(RemoveSpaces(x))
    {
      var c :| c in geo + cities && KeepsPlace(c) && x == Lower(c.s);
      LowerIsLowerCase(c.s);
      RemoveSpacesLower(c.s);
      LowerKeepsLetters(RemoveSpaces(c.s));
    }
  }


  lemma {:induction false} RemoveSpacesNone(s: string)
    requires ' ' !in s
    ensures RemoveSpaces(s) == s
  {
    if s != [] {
      assert s[0] in s;
      assert ' ' !in s[1..] by { forall c | c in s[1..] ensures c in s { } }
      RemoveSpacesNone(s[1..]);
      assert s == [s[0]] + s[1..];
    }
  }

  /** A name without spaces is kept exactly when it is made of letters. */
  lemma KeepsPlaceWithoutSpaces(s: string)
    requires ' ' !in s
    ensures KeepsPlace(Str(s)) <==> IsAlpha(s)
  {
    RemoveSpacesNone(s);
  }

  lemma ParisSpellings()
    ensures KeepsPlace(Str("Paris")) && KeepsPlace(Str("paris"))
    ensures Lower("Paris") == "paris" && Lower("paris") == "paris"
  {
    var up, low := "Paris", "paris";
    assert ' ' !in up && IsAlpha(up);
    assert ' ' !in low && IsAlpha(low);
    KeepsPlaceWithoutSpaces(up);
    KeepsPlaceWithoutSpaces(low);
    assert LowerChar('P') == 'p';
    assert Lower(up) == low;
    assert Lower(low) == low;
  }

  lemma ParisMerge()
    ensures Dedup(Dedup([Str("Paris")], Same) + [Str("paris")], Same) == [Str("Paris"), Str("paris")]
  {
    var a: seq<Cell> := [Str("Paris")];
    var ab: seq<Cell> := [Str("Paris"), Str("paris")];
    assert a[..0] == [];
    assert Dedup(a, Same) == a;
    assert a + [Str("paris")] == ab;
    assert ab[..1] == a;
    assert Str("Paris") != Str("paris") by { assert "Paris"[0] != "paris"[0]; }
    assert !KeySeen(a, Same, Str("paris"));
  }

  /** Duplicates are dropped before lowering, so names that differ only in case both
      survive as the same lowercase entry. */
  lemma CaseVariantsSurvive()
    ensures Places([Str("Paris")], [Str("paris")]) == ["paris", "paris"]
  {
    ParisMerge();
    ParisSpellings();
    var merged: seq<Cell> := [Str("Paris"), Str("paris")];
    var cleaned := CleanPlaces(merged);
    assert cleaned == [Str("paris"), Str("paris")];
    assert cleaned[..1] == [Str("paris")] && cleaned[..1][..0] == [];
    assert DropNaN(cleaned[..1]) == ["paris"];
  }
}
