/** build_sites.py: one `Business` per CSV row (columns by position), a slug
    per business from `slugify` and the `seen_slugs` set, and the decisions
    the index card, the detail page and the filter bar make about each field.

    Several literals in that file are Chinese text whose UTF-8 bytes were
    re-read as Windows-1252 before the file was saved; the program compares
    against and prints those code points, so the constants below keep them
    code point by code point. */
module BuildSites {
  import opened Wrappers
  import opened Text
  import opened Decimal
  import opened Lists
  import opened Slugs

  type Row = seq<string>

  datatype Business = Business(
    slug: string,
    name: string,
    mapUrl: string,
    rating: Option<real>,
    reviewCount: Option<nat>,
    category: string,
    address: string,
    status: Option<string>,
    hours: Option<string>,
    phone: Option<string>,
    imageUrl: Option<string>,
    features: seq<string>)

  /** The advertising marker `clean_feature` rejects (line 468). */
  const AdMarker: string := "\U{E5}\U{BB}\U{A3}\U{E5}\U{2018}\U{160}"
  /** The "open for business" marker `status_class` looks for (line 443). */
  const OpenMarker: string := "\U{E7}\U{2021}\U{178}\U{E6}\U{A5}\U{AD}"
  /** The two-character bullet removed from the hours cell (line 514). */
  const Bullet: string := "\U{C2}\U{B7}"
  /** The placeholder name of a row whose name cell is blank (line 487),
      followed there by the row number. */
  const UnnamedPrefix: string :=
    "\U{E6}\U{153}\U{AA}\U{E5}\U{2018}\U{BD}\U{E5}\U{E5}\U{BA}\U{2014}\U{E5}\U{AE}\U{B6} "
  const StatusMissing: string :=
    "\U{E7}\U{2021}\U{178}\U{E6}\U{A5}\U{AD}\U{E8}\U{B3}\U{2021}\U{E8}\U{A8}\U{160}\U{E6}\U{153}\U{AA}\U{E6}\U{E4}\U{BE}\U{203A}"
  const HoursMissing: string :=
    "\U{E7}\U{2021}\U{178}\U{E6}\U{A5}\U{AD}\U{E6}\U{2122}\U{201A}\U{E9}\U{2013}\U{201C}\U{E6}\U{153}\U{AA}\U{E6}\U{E4}\U{BE}\U{203A}"
  const FeaturesMissing: string :=
    "\U{E5}\U{B0}\U{161}\U{E6}\U{153}\U{AA}\U{E6}\U{E4}\U{BE}\U{203A}\U{E9}\U{A1}\U{E5}\U{A4}\U{2013}\U{E6}\U{153}\U{E5}\U{2039}\U{2122}\U{E8}\U{B3}\U{2021}\U{E8}\U{A8}\U{160}"
  const CardImagePlaceholder: string := "https://via.placeholder.com/400x250?text=Plumbing"
  const DetailImagePlaceholder: string := "https://via.placeholder.com/800x450?text=Plumbing"

  /** How many feature chips a card previews (line 614). */
  const ChipPreview: nat := 4

  predicate IsCjk(c: char) { '\U{4E00}' <= c <= '\U{9FFF}' }

  /** The class `[0-9A-Za-z一-鿿]` of line 457. */
  predicate IsSlugChar(c: char) { IsAsciiAlnum(c) || IsCjk(c) }

  // ---------------------------------------------------------------- slugs

  /** `slugify(name, fallback_index)`: the name with every run of other
      characters collapsed to `-` and the ends trimmed, or
      `business-{fallback_index}` when nothing is left. */
  function Slugify(name: string, fallbackIndex: nat): (r: string)
    ensures r != [] && IsSlugShaped(r, IsSlugChar)
    ensures (forall i :: 0 <= i < |name| ==> !IsSlugChar(name[i])) ==>
              r == Suffixed("business", fallbackIndex)
    ensures (exists i :: 0 <= i < |name| && IsSlugChar(name[i])) ==>
              Filter(r, IsSlugChar) == Filter(name, IsSlugChar)
  {
    var base := SlugBase(name, IsSlugChar);
    SlugBaseEmptyIff(name, IsSlugChar);
    if base != [] then base
    else
      assert IsSlugShaped("business", IsSlugChar);
      SuffixedShaped("business", fallbackIndex, IsSlugChar);
      Suffixed("business", fallbackIndex)
  }

  /** Lines 489-494: keep the slug when it is new, otherwise try `slug-2`,
      `slug-3`, ... until one is new; then record it in `seen_slugs`. */
  method ClaimSlug(reg: SlugRegistry, base: string) returns (slug: string)
    modifies reg
    ensures slug == Allocate(base, old(reg.used))
    ensures reg.used == old(reg.used) + {slug}
  {
    var used := reg.used;
    slug := base;
    if slug in used {
      var suffix: nat := 2;
      while Suffixed(base, suffix) in used
        invariant suffix >= 2
        invariant forall j: nat :: 2 <= j < suffix ==> Suffixed(base, j) in used
        invariant FreeSuffix(base, used, suffix) == FreeSuffix(base, used, 2)
        decreases |used| + 2 - suffix
      {
        ProbedBound(base, used, suffix + 1);
        suffix := suffix + 1;
      }
      slug := Suffixed(base, suffix);
    }
    reg.used := used + {slug};
  }

  // ------------------------------------------------------------- features

  /** The characters `strip("Â·")` removes (line 463). */
  predicate IsBulletChar(c: char) { c == '\U{C2}' || c == '\U{B7}' }

  /** What the three strips of line 463 may remove. */
  predicate IsSpaceOrBullet(c: char) { IsSpace(c) || IsBulletChar(c) }

  /** `cell.strip().strip("Â·").strip()`. */
  function FeatureText(cell: string): (t: string)
    ensures t != [] ==> !IsSpace(t[0]) && !IsSpace(t[|t| - 1])
  {
    Strip(Strip(Strip(cell, IsSpace), IsBulletChar), IsSpace)
  }

  /** The trimmed text is the cell with a run of whitespace, `Â` and `·`
      cut off each end: nothing inside it is touched. */
  lemma FeatureTextTrims(cell: string)
    ensures IsTrimOf(FeatureText(cell), cell, IsSpaceOrBullet)
  {
    StripThriceTrims(cell, IsSpace, IsBulletChar, IsSpaceOrBullet);
  }

  /** The reasons `clean_feature` drops a cell, in the order it tests them. */
  predicate IsDroppedFeature(text: string, uni: UnicodeDb) {
    || text == []
    || StartsWith(text, "http")
    || Contains(text, AdMarker)
    || (|text| <= 2 && forall i :: 0 <= i < |text| ==> !(uni.isAlnum(text[i]) || IsCjk(text[i])))
    || (forall i :: 0 <= i < |text| ==> uni.isSymbol(text[i]))
  }

  /** The tests `clean_feature` makes once the text is trimmed. */
  function KeepFeatureText(text: string, uni: UnicodeDb): Option<string> {
    if text == [] then None
    else if StartsWith(text, "http") then None
    else if Contains(text, AdMarker) then None
    else if |text| <= 2 && forall i :: 0 <= i < |text| ==> !(uni.isAlnum(text[i]) || IsCjk(text[i])) then None
    else if forall i :: 0 <= i < |text| ==> uni.isSymbol(text[i]) then None
    else Some(text)
  }

  /** `clean_feature(cell)`. */
  function CleanFeature(cell: string, uni: UnicodeDb): Option<string> {
    KeepFeatureText(FeatureText(cell), uni)
  }

  /** `clean_feature` keeps the trimmed text itself, and drops it exactly
      when it is empty, a link, an advertisement, a short run of
      punctuation or all symbols. */
  lemma CleanFeatureSpec(cell: string, uni: UnicodeDb)
    ensures CleanFeature(cell, uni).None? <==> IsDroppedFeature(FeatureText(cell), uni)
    ensures CleanFeature(cell, uni).Some? ==> CleanFeature(cell, uni).value == FeatureText(cell)
  {
  }

  /** A kept feature is never empty, never a link and never an
      advertisement, and has more than two characters or a letter or digit
      among them, and a character that is not a symbol. */
  lemma FeatureTextKept(text: string, uni: UnicodeDb)
    requires KeepFeatureText(text, uni).Some?
    ensures text != [] && !StartsWith(text, "http") && !Contains(text, AdMarker)
    ensures |text| > 2 || exists i :: 0 <= i < |text| && (uni.isAlnum(text[i]) || IsCjk(text[i]))
    ensures exists i :: 0 <= i < |text| && !uni.isSymbol(text[i])
  {
  }

  /** `clean_feature` as a value. */
  function Cleaner(uni: UnicodeDb): string -> Option<string> {
    (cell: string) => CleanFeature(cell, uni)
  }

  /** `clean_feature` applied to each cell. */
  function CleanAll(cells: seq<string>, uni: UnicodeDb): seq<Option<string>> {
    Map(cells, Cleaner(uni))
  }

  lemma CleanAllSnoc(cells: seq<string>, i: nat, uni: UnicodeDb)
    requires i < |cells|
    ensures CleanAll(cells[..i + 1], uni) == CleanAll(cells[..i], uni) + [CleanFeature(cells[i], uni)]
  {
    assert cells[..i + 1] == cells[..i] + [cells[i]];
    MapSnoc(cells[..i], cells[i], Cleaner(uni));
  }

  /** The feature list of a row (lines 508-512): the kept cells, each once,
      in the order first seen. */
  function Features(cells: seq<string>, uni: UnicodeDb): (r: seq<string>)
    ensures NoDup(r)
    ensures forall x :: x in r <==> exists i :: 0 <= i < |cells| && CleanFeature(cells[i], uni) == Some(x)
  {
    var cleaned := CleanAll(cells, uni);
    assert forall i :: 0 <= i < |cells| ==> cleaned[i] == CleanFeature(cells[i], uni);
    Dedup(Somes(cleaned))
  }

  /** The kept features come out in the order their first cells come in. */
  lemma FeaturesFirstSeenOrder(cells: seq<string>, uni: UnicodeDb)
    ensures var kept, r := Somes(CleanAll(cells, uni)), Features(cells, uni);
      forall i, j :: 0 <= i < j < |r| ==> FirstIndex(kept, r[i]) < FirstIndex(kept, r[j])
  {
    DedupFirstSeenOrder(Somes(CleanAll(cells, uni)));
  }

  /** The loop of lines 508-512. */
  method CollectFeatures(cells: seq<string>, uni: UnicodeDb) returns (features: seq<string>)
    ensures features == Features(cells, uni)
  {
    features := [];
    for i := 0 to |cells|
      invariant features == Dedup(Somes(CleanAll(cells[..i], uni)))
    {
      var cleaned := CleanFeature(cells[i], uni);
      CleanAllSnoc(cells, i, uni);
      SomesSnoc(CleanAll(cells[..i], uni), cleaned);
      if cleaned.Some? {
        DedupSnoc(Somes(CleanAll(cells[..i], uni)), cleaned.value);
        if cleaned.value !in features {
          features := features + [cleaned.value];
        }
      } else {
        assert Somes(CleanAll(cells[..i], uni)) + [] == Somes(CleanAll(cells[..i], uni));
      }
    }
    assert cells[..|cells|] == cells;
  }

  // --------------------------------------------------------- other fields

  /** Lines 502-506: the digits of the cell read as one number, or `None`
      when it has none. */
  function ReviewCount(cell: string): (r: Option<nat>)
    ensures r.None? <==> forall i :: 0 <= i < |cell| ==> !IsAsciiDigit(cell[i])
    ensures r.Some? ==> r.value == DigitsValue(Filter(cell, IsAsciiDigit))
  {
    var text := Strip(cell, IsSpace);
    StripKeepsFilter(cell, IsSpace, IsAsciiDigit);
    if text == [] then None
    else
      var digits := Filter(text, IsAsciiDigit);
      if digits == [] then None
      else
        assert Strip(digits, IsSpace) == digits;
        PyInt(digits)
  }

  /** A wrapped, comma-grouped count such as `(1,234)` reads as that count. */
  lemma ReviewCountGrouped(n: nat)
    ensures ReviewCount("(" + Grouped(n) + ")") == Some(n)
  {
    var g := Grouped(n);
    var cell := "(" + g + ")";
    FilterConcat("(" + g, ")", IsAsciiDigit);
    FilterConcat("(", g, IsAsciiDigit);
    assert Filter(cell, IsAsciiDigit) == Filter(g, IsAsciiDigit);
    GroupedDigits(n);
    assert IsAsciiDigit(cell[1]);
  }

  /** Line 498: a blank rating cell is no rating; otherwise `float()` decides,
      and a `ValueError` is no rating too. */
  function Rating(cell: string, parseFloat: string -> Option<real>): (r: Option<real>)
    ensures Strip(cell, IsSpace) == [] ==> r.None?
  {
    if Strip(cell, IsSpace) == [] then None else parseFloat(cell)
  }

  /** `text or None`. */
  function NonBlank(text: string): (r: Option<string>)
    ensures r.None? <==> text == []
    ensures r.Some? ==> r.value == text
  {
    if text == [] then None else Some(text)
  }

  /** Line 487: the trimmed name, or a placeholder with the row number. */
  function NameOf(nameCell: string, idx: nat): (name: string)
    ensures name != []
    ensures Strip(nameCell, IsSpace) != [] ==> name == Strip(nameCell, IsSpace)
  {
    var n := Strip(nameCell, IsSpace);
    if n != [] then n else UnnamedPrefix + NatStr(idx)
  }

  /** A blank name becomes a placeholder that shows the row number. */
  lemma BlankNameShowsOrdinal(nameCell: string, idx: nat)
    requires Strip(nameCell, IsSpace) == []
    ensures Contains(NameOf(nameCell, idx), NatStr(idx))
  {
    var name := NameOf(nameCell, idx);
    assert name[|UnnamedPrefix|..|UnnamedPrefix| + |NatStr(idx)|] == NatStr(idx);
    assert OccursAt(name, NatStr(idx), |UnnamedPrefix|);
  }

  /** Row guard as the program intends it: a row must reach column 10, the
      last column it reads by position (see the finding about line 484). */
  predicate RowFits(row: Row) { |row| >= 11 }

  /** The columns after the fixed ones, `row[11:]`. */
  function FeatureCells(row: Row): seq<string> {
    if |row| > 11 then row[11..] else []
  }

  /** Lines 514-528: the fields of a business, once its name, slug and
      features are known. */
  function BusinessFields(row: Row, name: string, slug: string, features: seq<string>,
                          parseFloat: string -> Option<real>): Business
    requires RowFits(row)
  {
    Business(
      slug := slug,
      name := name,
      mapUrl := Strip(row[0], IsSpace),
      rating := Rating(row[2], parseFloat),
      reviewCount := ReviewCount(row[3]),
      category := Strip(row[4], IsSpace),
      address := Strip(row[5], IsSpace),
      status := NonBlank(Strip(row[6], IsSpace)),
      hours := NonBlank(Strip(RemoveAll(row[7], Bullet), IsSpace)),
      phone := NonBlank(Strip(row[9], IsSpace)),
      imageUrl := NonBlank(Strip(row[10], IsSpace)),
      features := features)
  }

  /** The business a row becomes once its slug is settled (lines 496-528). */
  function RowBusiness(row: Row, idx: nat, slug: string,
                       parseFloat: string -> Option<real>, uni: UnicodeDb): (b: Business)
    requires RowFits(row)
    ensures b.slug == slug
  {
    BusinessFields(row, NameOf(row[1], idx), slug, Features(FeatureCells(row), uni), parseFloat)
  }

  /** A row that reaches column 10 together with its row number
      (`enumerate(reader, start=1)`, so the first data row is 1). */
  datatype KeptRow = KeptRow(row: Row, number: nat)

  predicate AllFit(kept: seq<KeptRow>) {
    forall k :: 0 <= k < |kept| ==> RowFits(kept[k].row)
  }

  /** The rows that reach column 10, in order. */
  function FitRows(rows: seq<Row>): (kept: seq<KeptRow>)
    ensures AllFit(kept)
    decreases |rows|
  {
    if rows == [] then []
    else
      var init := FitRows(rows[..|rows| - 1]);
      var last := rows[|rows| - 1];
      if RowFits(last) then init + [KeptRow(last, |rows|)] else init
  }

  /** Each kept row is the input row at its own number, and the numbers
      increase. */
  lemma {:induction false} FitRowsFrom(rows: seq<Row>)
    ensures forall k :: 0 <= k < |FitRows(rows)| ==>
      1 <= FitRows(rows)[k].number <= |rows| && rows[FitRows(rows)[k].number - 1] == FitRows(rows)[k].row
    ensures forall k, l :: 0 <= k < l < |FitRows(rows)| ==> FitRows(rows)[k].number < FitRows(rows)[l].number
    decreases |rows|
  {
    if rows != [] {
      var init := rows[..|rows| - 1];
      FitRowsFrom(init);
      var before := FitRows(init);
      assert forall k :: 0 <= k < |before| ==> 1 <= before[k].number <= |init|;
    }
  }

  predicate IsKept(rows: seq<Row>, n: nat) {
    exists k :: 0 <= k < |FitRows(rows)| && FitRows(rows)[k].number == n
  }

  /** Every row with at least eleven columns is kept. */
  lemma {:induction false} FitRowsCovers(rows: seq<Row>)
    ensures forall i :: 0 <= i < |rows| && RowFits(rows[i]) ==> IsKept(rows, i + 1)
    decreases |rows|
  {
    if rows != [] {
      var init := rows[..|rows| - 1];
      FitRowsCovers(init);
      var before := FitRows(init);
      var last := rows[|rows| - 1];
      var kept := FitRows(rows);
      assert kept == if RowFits(last) then before + [KeptRow(last, |rows|)] else before;
      forall i | 0 <= i < |rows| && RowFits(rows[i])
        ensures IsKept(rows, i + 1)
      {
        if i == |rows| - 1 {
          assert kept[|before|].number == i + 1;
        } else {
          assert init[i] == rows[i];
          assert IsKept(init, i + 1);
          var k :| 0 <= k < |before| && before[k].number == i + 1;
          assert kept[k] == before[k];
        }
      }
    }
  }

  /** There are as many kept rows as rows with at least eleven columns. */
  lemma {:induction false} FitRowsCount(rows: seq<Row>)
    ensures |FitRows(rows)| == |set i | 0 <= i < |rows| && RowFits(rows[i])|
    decreases |rows|
  {
    if rows != [] {
      var init := rows[..|rows| - 1];
      FitRowsCount(init);
      assert forall i :: 0 <= i < |init| ==> init[i] == rows[i];
      var fitsBefore := set i | 0 <= i < |init| && RowFits(init[i]);
      var fitsAll := set i | 0 <= i < |rows| && RowFits(rows[i]);
      if RowFits(rows[|rows| - 1]) {
        assert fitsAll == fitsBefore + {|rows| - 1};
      } else {
        assert fitsAll == fitsBefore;
      }
    }
  }

  /** Taking one more row extends the kept rows by at most that one. */
  lemma FitRowsStep(rows: seq<Row>, i: nat)
    requires i < |rows|
    ensures FitRows(rows[..i + 1]) == FitRows(rows[..i]) + if RowFits(rows[i]) then [KeptRow(rows[i], i + 1)] else []
  {
    assert rows[..i + 1][..i] == rows[..i];
  }

  /** The slug `slugify` proposes for a kept row (lines 487-488). */
  function KeptBase(r: KeptRow): string
    requires RowFits(r.row)
  {
    Slugify(NameOf(r.row[1], r.number), r.number)
  }

  /** The slug bases of the kept rows, in order. */
  function RowBases(kept: seq<KeptRow>): (bases: seq<string>)
    requires AllFit(kept)
    ensures |bases| == |kept|
    ensures forall k :: 0 <= k < |kept| ==> bases[k] != [] && IsSlugShaped(bases[k], IsSlugChar)
  {
    Map(kept, KeptBase)
  }

  /** `RowBusiness` as a value, for building all kept rows at once. */
  function RowParser(parseFloat: string -> Option<real>, uni: UnicodeDb): (KeptRow, string) --> Business {
    (r: KeptRow, slug: string) requires RowFits(r.row) => RowBusiness(r.row, r.number, slug, parseFloat, uni)
  }

  /** `parse_businesses` (lines 478-530): the kept rows, each with the slug
      that allocating the bases in row order against one `seen_slugs` set
      hands it. */
  function ParseRows(rows: seq<Row>, parseFloat: string -> Option<real>, uni: UnicodeDb): seq<Business> {
    var kept := FitRows(rows);
    Map2(kept, AllocateAll(RowBases(kept), {}).0, RowParser(parseFloat, uni))
  }

  /** The k-th business carries the k-th slug allocated. */
  lemma ParseRowsSlugs(rows: seq<Row>, parseFloat: string -> Option<real>, uni: UnicodeDb)
    ensures |ParseRows(rows, parseFloat, uni)| == |AllocateAll(RowBases(FitRows(rows)), {}).0|
    ensures forall i :: 0 <= i < |ParseRows(rows, parseFloat, uni)| ==>
      ParseRows(rows, parseFloat, uni)[i].slug == AllocateAll(RowBases(FitRows(rows)), {}).0[i]
  {
  }

  /** One business per row with at least eleven columns. */
  lemma ParseRowsCount(rows: seq<Row>, parseFloat: string -> Option<real>, uni: UnicodeDb)
    ensures |ParseRows(rows, parseFloat, uni)| == |set i | 0 <= i < |rows| && RowFits(rows[i])|
  {
    FitRowsCount(rows);
  }

  /** No two businesses share a slug, and every slug is a non-empty,
      dash-trimmed run of slug characters. */
  lemma ParseRowsDistinctSlugs(rows: seq<Row>, parseFloat: string -> Option<real>, uni: UnicodeDb)
    ensures forall i, j :: 0 <= i < j < |ParseRows(rows, parseFloat, uni)| ==>
      ParseRows(rows, parseFloat, uni)[i].slug != ParseRows(rows, parseFloat, uni)[j].slug
    ensures forall i :: 0 <= i < |ParseRows(rows, parseFloat, uni)| ==>
      ParseRows(rows, parseFloat, uni)[i].slug != [] && IsSlugShaped(ParseRows(rows, parseFloat, uni)[i].slug, IsSlugChar)
  {
    ParseRowsSlugs(rows, parseFloat, uni);
    AllocateAllFresh(RowBases(FitRows(rows)), {});
    AllocateAllShaped(RowBases(FitRows(rows)), {}, IsSlugChar);
  }

  /** `parse_businesses` as the loop of lines 483-529 does it, with one slug
      set for the whole run. */
  method ParseBusinesses(rows: seq<Row>, parseFloat: string -> Option<real>, uni: UnicodeDb)
    returns (bs: seq<Business>)
    ensures bs == ParseRows(rows, parseFloat, uni)
  {
    var reg := new SlugRegistry();
    bs := [];
    ghost var kept: seq<KeptRow> := [];
    ghost var slugs: seq<string> := [];
    for i := 0 to |rows|
      invariant kept == FitRows(rows[..i])
      invariant AllocateAll(RowBases(kept), {}) == (slugs, reg.used)
      invariant |slugs| == |kept| && bs == Map2(kept, slugs, RowParser(parseFloat, uni))
    {
      FitRowsStep(rows, i);
      var row := rows[i];
      if !RowFits(row) {
        continue;
      }
      var idx := i + 1;
      var name := NameOf(row[1], idx);
      var base := Slugify(name, idx);
      ghost var r := KeptRow(row, idx);
      assert base == KeptBase(r);
      AllocateAllSnoc(RowBases(kept), base, {});
      Map2Snoc(kept, slugs, r, Allocate(base, reg.used), RowParser(parseFloat, uni));
      MapSnoc(kept, r, KeptBase);
      var slug := ClaimSlug(reg, base);
      var features := CollectFeatures(FeatureCells(row), uni);
      var b := BusinessFields(row, name, slug, features, parseFloat);
      assert b == RowParser(parseFloat, uni)(r, slug);
      bs := bs + [b];
      kept := kept + [r];
      slugs := slugs + [slug];
    }
    assert rows[..|rows|] == rows;
  }

  // ------------------------------------------------------- the row guard

  datatype ParseError = RowTooShort(rowNumber: nat, column: nat)

  /** The number of the first row with exactly ten columns, if any; the
      first of `rows` is row number `idx`. */
  function FirstTenColumnRow(rows: seq<Row>, idx: nat): (n: Option<nat>)
    decreases |rows|
  {
    if rows == [] then None
    else if |rows[0]| == 10 then Some(idx)
    else FirstTenColumnRow(rows[1..], idx + 1)
  }

  /** None exactly when no row has ten columns; otherwise the earliest such
      row. */
  lemma {:induction false} FirstTenColumnRowSpec(rows: seq<Row>, idx: nat)
    ensures var n := FirstTenColumnRow(rows, idx);
      && (n.None? <==> forall i :: 0 <= i < |rows| ==> |rows[i]| != 10)
      && (n.Some? ==> idx <= n.value < idx + |rows| && |rows[n.value - idx]| == 10
                      && forall i :: 0 <= i < n.value - idx ==> |rows[i]| != 10)
    decreases |rows|
  {
    if rows != [] && |rows[0]| != 10 {
      FirstTenColumnRowSpec(rows[1..], idx + 1);
      assert forall i :: 1 <= i < |rows| ==> rows[i] == rows[1..][i - 1];
    }
  }

  /** `parse_businesses` as written: the guard `len(row) < 10` of line 484
      lets a row of exactly ten columns through, and `row[10]` (line 526) then
      raises `IndexError`, which aborts the whole run. */
  function ParseRowsAsWritten(rows: seq<Row>, parseFloat: string -> Option<real>, uni: UnicodeDb): (r: Result<seq<Business>, ParseError>)
  {
    match FirstTenColumnRow(rows, 1)
    case Some(n) => Err(RowTooShort(n, 10))
    case None => Ok(ParseRows(rows, parseFloat, uni))
  }

  /** A single ten-column row aborts the run as written. */
  lemma TenColumnRowAborts(parseFloat: string -> Option<real>, uni: UnicodeDb)
    ensures ParseRowsAsWritten([["", "", "", "", "", "", "", "", "", ""]], parseFloat, uni)
         == Err(RowTooShort(1, 10))
  {
  }

  /** The program as written fails exactly when some row has ten columns,
      naming the first; otherwise it agrees with the corrected guard. */
  lemma AsWrittenAgrees(rows: seq<Row>, parseFloat: string -> Option<real>, uni: UnicodeDb)
    ensures var r := ParseRowsAsWritten(rows, parseFloat, uni);
      && (r.Ok? <==> forall i :: 0 <= i < |rows| ==> |rows[i]| != 10)
      && (r.Ok? ==> r.value == ParseRows(rows, parseFloat, uni))
      && (r.Err? ==> 1 <= r.error.rowNumber <= |rows| && |rows[r.error.rowNumber - 1]| == 10)
  {
    FirstTenColumnRowSpec(rows, 1);
  }

  // ----------------------------------------------------------- rendering

  /** `Business.status_class` (lines 437-445). */
  function StatusClass(status: Option<string>): (r: string)
    ensures r == "neutral" || r == "open-24" || r == ""
    ensures IsMarkupSafe(r)
    ensures r == "open-24" <==> Present(status) && Contains(status.value, "24")
    ensures r == "" <==> Present(status) && !Contains(status.value, "24") && Contains(status.value, OpenMarker)
  {
    if !Present(status) then "neutral"
    else if Contains(status.value, "24") then "open-24"
    else if Contains(status.value, OpenMarker) then ""
    else "neutral"
  }

  /** What `formatted_rating` shows, without the float formatting: `--`
      without a rating; otherwise the rating, and a review suffix only for a
      non-zero count (`if self.review_count` treats 0 as absent). */
  datatype RatingText = NoRating | Rated(rating: real, reviewSuffix: Option<nat>)

  function FormattedRating(rating: Option<real>, reviewCount: Option<nat>): (r: RatingText)
    ensures r.NoRating? <==> rating.None?
    ensures r.Rated? ==> r.rating == rating.value
    ensures r.Rated? ==> (r.reviewSuffix.Some? <==> reviewCount.Some? && reviewCount.value != 0)
    ensures r.Rated? && r.reviewSuffix.Some? ==> r.reviewSuffix == reviewCount
  {
    if rating.None? then NoRating
    else Rated(rating.value, if reviewCount.Some? && reviewCount.value != 0 then reviewCount else None)
  }

  /** The feature chips of a card: the first four features, escaped, in
      order (line 614-617). */
  function CardChips(features: seq<string>): (chips: seq<string>)
    ensures |chips| == if |features| < ChipPreview then |features| else ChipPreview
    ensures forall i :: 0 <= i < |chips| ==> chips[i] == Escape(features[i])
  {
    EscapeAll(Prefix(features, ChipPreview))
  }

  /** The link to a business's own page (line 629), the one place a card
      embeds a value without escaping: the slug sits unchanged after the
      13-character prefix, and a slug-shaped slug keeps the link safe. */
  function DetailHref(slug: string): (h: string)
    ensures |h| == 13 + |slug| + 11 && h[13..13 + |slug|] == slug
    ensures IsSlugShaped(slug, IsSlugChar) ==> IsMarkupSafe(h)
  {
    var h := "./businesses/" + slug + "/index.html";
    assert forall i :: 13 <= i < 13 + |slug| ==> h[i] == slug[i - 13];
    h
  }

  /** The variable parts of a card (`render_card`, lines 613-629). */
  datatype Card = Card(
    name: string,
    category: string,
    address: string,
    featureData: string,
    statusData: string,
    statusText: string,
    statusClass: string,
    rating: RatingText,
    chips: seq<string>,
    detailHref: string,
    mapHref: string,
    callHref: Option<string>,     // the `tel:` target, lines 624 and 669
    image: string)

  function RenderCard(b: Business): Card {
    Card(
      name := Escape(b.name),
      category := Escape(b.category),
      address := Escape(b.address),
      featureData := Escape(Join(" ", b.features)),
      statusData := Escape(b.status.GetOr("")),
      statusText := Escape(OrElse(b.status, StatusMissing)),
      statusClass := StatusClass(b.status),
      rating := FormattedRating(b.rating, b.reviewCount),
      chips := CardChips(b.features),
      detailHref := DetailHref(b.slug),
      mapHref := Escape(b.mapUrl),
      callHref := EscapedIfPresent(b.phone),
      image := Escape(OrElse(b.imageUrl, CardImagePlaceholder)))
  }

  predicate CardIsSafe(c: Card) {
    && IsMarkupSafe(c.name) && IsMarkupSafe(c.category) && IsMarkupSafe(c.address)
    && IsMarkupSafe(c.featureData) && IsMarkupSafe(c.statusData)
    && IsMarkupSafe(c.statusText) && IsMarkupSafe(c.statusClass)
    && (forall i :: 0 <= i < |c.chips| ==> IsMarkupSafe(c.chips[i]))
    && IsMarkupSafe(c.detailHref) && IsMarkupSafe(c.mapHref)
    && (c.callHref.Some? ==> IsMarkupSafe(c.callHref.value))
    && IsMarkupSafe(c.image)
  }

  /** A card of a business with a slug-shaped slug can carry no character
      that ends an attribute or opens a tag. */
  lemma CardMarkupSafe(b: Business)
    requires IsSlugShaped(b.slug, IsSlugChar)
    ensures CardIsSafe(RenderCard(b))
  {
    var c := RenderCard(b);
    forall i | 0 <= i < |c.chips| ensures IsMarkupSafe(c.chips[i]) {
      assert c.chips[i] == Escape(b.features[i]);
    }
  }

  /** Each text slot of a card shows the business's own value: unescaping
      it gives that value back, and the slug can be read off the link; the
      call button is there exactly when there is a phone, and dials it. */
  lemma CardShowsBusiness(b: Business)
    ensures Unescape(RenderCard(b).name) == b.name
    ensures Unescape(RenderCard(b).category) == b.category
    ensures Unescape(RenderCard(b).address) == b.address
    ensures Unescape(RenderCard(b).mapHref) == b.mapUrl
    ensures RenderCard(b).detailHref[13..13 + |b.slug|] == b.slug
    ensures RenderCard(b).callHref.Some? <==> Present(b.phone)
    ensures RenderCard(b).callHref.Some? ==> Unescape(RenderCard(b).callHref.value) == b.phone.value
  {
    EscapeRoundTrip(b.name);
    EscapeRoundTrip(b.category);
    EscapeRoundTrip(b.address);
    EscapeRoundTrip(b.mapUrl);
  }

  datatype PhoneRow = PhoneLink(phone: string) | NoPhone

  /** The variable parts of a detail page (`build_detail_page`, lines
      632-693). */
  datatype DetailPage = DetailPage(
    title: string,
    category: string,
    chips: seq<string>,
    phoneRow: PhoneRow,
    callHref: Option<string>,
    statusText: string,
    statusClass: string,
    hoursText: string,
    rating: RatingText,
    mapHref: string,
    address: string,
    image: string)

  /** `b.features or [placeholder]`. */
  function FeaturesOrPlaceholder(features: seq<string>): seq<string> {
    if features != [] then features else [FeaturesMissing]
  }

  /** The chips of a detail page: every feature, escaped, or the placeholder
      when there are none (lines 633-634). */
  function DetailChips(features: seq<string>): (chips: seq<string>)
    ensures chips != []
    ensures features == [] ==> chips == EscapeAll([FeaturesMissing])
    ensures features != [] ==> |chips| == |features| && forall i :: 0 <= i < |chips| ==> chips[i] == Escape(features[i])
  {
    EscapeAll(FeaturesOrPlaceholder(features))
  }

  function RenderDetail(b: Business): DetailPage {
    DetailPage(
      title := Escape(b.name),
      category := Escape(b.category),
      chips := DetailChips(b.features),
      phoneRow := if Present(b.phone) then PhoneLink(Escape(b.phone.value)) else NoPhone,
      callHref := EscapedIfPresent(b.phone),
      statusText := Escape(OrElse(b.status, StatusMissing)),
      statusClass := StatusClass(b.status),
      hoursText := Escape(OrElse(b.hours, HoursMissing)),
      rating := FormattedRating(b.rating, b.reviewCount),
      mapHref := Escape(b.mapUrl),
      address := Escape(b.address),
      image := Escape(OrElse(b.imageUrl, DetailImagePlaceholder)))
  }

  /** The detail page lists the phone exactly when there is one, links to it,
      and shows the same status wording and class as the business's card. */
  lemma DetailShowsBusiness(b: Business)
    ensures RenderDetail(b).phoneRow.NoPhone? <==> !Present(b.phone)
    ensures RenderDetail(b).phoneRow.PhoneLink? ==> Some(RenderDetail(b).phoneRow.phone) == RenderDetail(b).callHref
    ensures RenderDetail(b).callHref == RenderCard(b).callHref
    ensures RenderDetail(b).statusText == RenderCard(b).statusText
    ensures RenderDetail(b).statusClass == RenderCard(b).statusClass
    ensures Unescape(RenderDetail(b).title) == b.name
  {
    EscapeRoundTrip(b.name);
  }

  /** `sorted({v for v in values if v})`. */
  function OptionList(values: seq<string>): (r: seq<string>)
    ensures StrictlySorted(r)
    ensures forall x :: x in r <==> x in values && x != []
  {
    SortedDistinct(NonEmpty(values))
  }

  function NonEmpty(values: seq<string>): (r: seq<string>)
    ensures forall x :: x in r <==> x in values && x != []
    decreases |values|
  {
    if values == [] then []
    else (if values[0] != [] then [values[0]] else []) + NonEmpty(values[1..])
  }

  function Categories(bs: seq<Business>): (r: seq<string>)
    ensures |r| == |bs| && forall i :: 0 <= i < |bs| ==> r[i] == bs[i].category
  {
    seq(|bs|, i requires 0 <= i < |bs| => bs[i].category)
  }

  function Statuses(bs: seq<Business>): (r: seq<string>)
    ensures |r| == |bs| && forall i :: 0 <= i < |bs| ==> r[i] == bs[i].status.GetOr("")
  {
    seq(|bs|, i requires 0 <= i < |bs| => bs[i].status.GetOr(""))
  }

  /** The variable parts of the index page (`build_index_page`, lines
      546-610): the count, the two filter option lists (values before
      escaping) and one card per business. */
  datatype IndexPage = IndexPage(
    count: nat,
    statusOptions: seq<string>,
    categoryOptions: seq<string>,
    cards: seq<Card>)

  function RenderIndex(bs: seq<Business>): IndexPage {
    IndexPage(
      count := |bs|,
      statusOptions := OptionList(Statuses(bs)),
      categoryOptions := OptionList(Categories(bs)),
      cards := seq(|bs|, i requires 0 <= i < |bs| => RenderCard(bs[i])))
  }

  /** The status filter offers each status some business has, once, in
      sorted order, and nothing else. */
  lemma IndexStatusOptions(bs: seq<Business>)
    ensures StrictlySorted(RenderIndex(bs).statusOptions)
    ensures forall s :: s in RenderIndex(bs).statusOptions <==>
      exists i :: 0 <= i < |bs| && Present(bs[i].status) && bs[i].status.value == s
  {
    var statuses := Statuses(bs);
    var opts := OptionList(statuses);
    assert RenderIndex(bs).statusOptions == opts;
    forall s | s in opts
      ensures exists i :: 0 <= i < |bs| && Present(bs[i].status) && bs[i].status.value == s
    {
      assert s in statuses && s != [];
      var i :| 0 <= i < |statuses| && statuses[i] == s;
      assert bs[i].status.GetOr("") == s;
    }
    forall s | exists i :: 0 <= i < |bs| && Present(bs[i].status) && bs[i].status.value == s
      ensures s in opts
    {
      var i :| 0 <= i < |bs| && Present(bs[i].status) && bs[i].status.value == s;
      assert statuses[i] == s;
    }
  }

  /** The category filter offers each non-empty category once, sorted. */
  lemma IndexCategoryOptions(bs: seq<Business>)
    ensures StrictlySorted(RenderIndex(bs).categoryOptions)
    ensures forall c :: c in RenderIndex(bs).categoryOptions <==>
      exists i :: 0 <= i < |bs| && bs[i].category != [] && bs[i].category == c
  {
    var categories := Categories(bs);
    forall c | c in RenderIndex(bs).categoryOptions
      ensures exists i :: 0 <= i < |bs| && bs[i].category != [] && bs[i].category == c
    {
      var i :| 0 <= i < |categories| && categories[i] == c;
    }
    forall c | exists i :: 0 <= i < |bs| && bs[i].category != [] && bs[i].category == c
      ensures c in RenderIndex(bs).categoryOptions
    {
      var i :| 0 <= i < |bs| && bs[i].category != [] && bs[i].category == c;
      assert categories[i] == c;
    }
  }

  /** The index counts every business and shows one card per business, in
      order; when the slugs are slug-shaped (as `ParseRows` hands out), no
      card can break the page's markup. */
  lemma IndexCards(bs: seq<Business>)
    requires forall i :: 0 <= i < |bs| ==> IsSlugShaped(bs[i].slug, IsSlugChar)
    ensures RenderIndex(bs).count == |bs| == |RenderIndex(bs).cards|
    ensures forall i :: 0 <= i < |bs| ==> RenderIndex(bs).cards[i] == RenderCard(bs[i]) && CardIsSafe(RenderIndex(bs).cards[i])
  {
    forall i | 0 <= i < |bs| ensures CardIsSafe(RenderCard(bs[i])) {
      CardMarkupSafe(bs[i]);
    }
  }
}
