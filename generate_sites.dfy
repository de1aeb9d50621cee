/** generate_sites.py: the plumbing-shop generator. Each CSV row becomes a
    `Shop`, with a slug that is unique across the run, tidied fields and a
    de-duplicated highlight list; the index card and the shop page then show
    each optional field either as a link or button or as a placeholder. */
module GenerateSites {
  import opened Wrappers
  import opened Text
  import opened Decimal
  import opened Lists
  import opened Slugs

  type Row = seq<string>

  /** The name given to a row whose name cell is blank (line 102). */
  const UnnamedShop: string := "未命名店家-"
  /** The advertising marker of line 83. */
  const SponsorMarker: string := "贊助商廣告"
  /** `map_url` when the map cell is blank (line 109). */
  const NoMapUrl: string := "#"
  const PlaceholderImage: string := "https://placehold.co/800x500?text=Plumbing+Service"
  // Placeholders of the card (lines 383, 392) and of the shop page
  // (lines 447, 460, 475, 488, 490).
  const NoPhoneCard: string := "尚無電話"
  const NoAddressCard: string := "地址未提供"
  const NoPhonePage: string := "尚無電話資訊"
  const NoAddressHero: string := "尚無地址資料"
  const NoAddressStat: string := "尚無地址"
  const NoStatus: string := "營業資訊未提供"

  /** The `Shop` record of lines 19-33. */
  datatype Shop = Shop(
    slug: string,
    name: string,
    mapUrl: string,
    rating: Option<real>,
    reviewCount: Option<nat>,
    category: Option<string>,
    address: Option<string>,
    status: Option<string>,
    hours: Option<string>,
    phone: Option<string>,
    imageUrl: Option<string>,
    highlights: seq<string>,
    sponsored: bool)

  // ---------------------------------------------------------------- slugs

  /** Lines 38-40: the NFKD form with every run of characters other than
      ASCII letters and digits collapsed to `-`, trimmed of `-` and lowered;
      `shop-{fallback_index+1}` when nothing is left. */
  function ShopSlugBase(name: string, fallbackIndex: nat, uni: UnicodeDb): (base: string)
    ensures base != [] && IsSlugShaped(base, IsLowerAlnum)
  {
    var asciiSlug := Lower(SlugBase(uni.nfkd(name), IsAsciiAlnum));
    LowerShaped(SlugBase(uni.nfkd(name), IsAsciiAlnum));
    if asciiSlug != [] then asciiSlug
    else
      assert IsSlugShaped("shop", IsLowerAlnum);
      SuffixedShaped("shop", fallbackIndex + 1, IsLowerAlnum);
      Suffixed("shop", fallbackIndex + 1)
  }

  /** The base falls back to `shop-{fallback_index+1}` when the normalised
      name has no ASCII letter or digit; otherwise its letters and digits
      are those of the name, lowered and in order. */
  lemma ShopSlugBaseSpec(name: string, fallbackIndex: nat, uni: UnicodeDb)
    ensures (forall i :: 0 <= i < |uni.nfkd(name)| ==> !IsAsciiAlnum(uni.nfkd(name)[i])) ==>
              ShopSlugBase(name, fallbackIndex, uni) == Suffixed("shop", fallbackIndex + 1)
    ensures (exists i :: 0 <= i < |uni.nfkd(name)| && IsAsciiAlnum(uni.nfkd(name)[i])) ==>
              Filter(ShopSlugBase(name, fallbackIndex, uni), IsLowerAlnum) ==
              Lower(Filter(uni.nfkd(name), IsAsciiAlnum))
  {
    var normalized := uni.nfkd(name);
    var stripped := SlugBase(normalized, IsAsciiAlnum);
    SlugBaseEmptyIff(normalized, IsAsciiAlnum);
    LowerFilter(stripped);
  }

  /** `slugify(name, fallback_index, existing)` (lines 36-49). */
  method Slugify(name: string, fallbackIndex: nat, existing: SlugRegistry, uni: UnicodeDb)
    returns (slug: string)
    modifies existing
    ensures slug == Allocate(ShopSlugBase(name, fallbackIndex, uni), old(existing.used))
    ensures existing.used == old(existing.used) + {slug}
  {
    var base := ShopSlugBase(name, fallbackIndex, uni);
    slug := existing.Claim(base);
  }

  // ------------------------------------------------------- field cleanup

  /** `tidy(text)` (lines 69-73): trim whitespace, then leading bullets,
      then whitespace again; nothing left is `None`. */
  function Tidy(text: string): (r: Option<string>)
    ensures text == [] ==> r.None?
    ensures r.Some? ==> r.value != [] && !IsSpace(r.value[0]) && !IsSpace(r.value[|r.value| - 1])
  {
    if text == [] then None
    else
      var cleaned := Strip(LStrip(Strip(text, IsSpace), IsMiddleDot), IsSpace);
      if cleaned == [] then None else Some(cleaned)
  }

  /** The three trims of line 72 together cut only whitespace and bullets,
      and only from the ends. */
  lemma TidyCutsTrim(text: string)
    ensures IsTrimOf(Strip(LStrip(Strip(text, IsSpace), IsMiddleDot), IsSpace), text, IsSpaceOrDot)
  {
    var a := Strip(text, IsSpace);
    var b := LStrip(a, IsMiddleDot);
    var r := Strip(b, IsSpace);
    var i, j := LeadingRun(text, IsSpace), |a| - |b|;
    StripTrims(text, IsSpace);
    StripTrims(b, IsSpace);
    LStripTrimmed(a, IsMiddleDot);
    TrimmedAtTrans(b, a, text, IsMiddleDot, IsSpace, IsSpaceOrDot, i, j);
    TrimmedAtTrans(r, b, text, IsSpace, IsSpaceOrDot, IsSpaceOrDot, i + j, LeadingRun(b, IsSpace));
  }

  /** `tidy` removes only whitespace and bullets, and only from the ends:
      what it returns is the text with such a run cut off each end. */
  lemma TidyTrims(text: string)
    ensures Tidy(text).Some? ==> IsTrimOf(Tidy(text).value, text, IsSpaceOrDot)
  {
    TidyCutsTrim(text);
  }

  /** So every character other than whitespace and bullets survives, in
      order, and text with such a character is never `None`. */
  lemma TidyKeepsContent(text: string)
    ensures Filter(Tidy(text).GetOr([]), IsContent) == Filter(text, IsContent)
    ensures (exists i :: 0 <= i < |text| && IsContent(text[i])) ==> Tidy(text).Some?
  {
    if text != [] {
      var a := Strip(text, IsSpace);
      var b := LStrip(a, IsMiddleDot);
      StripKeepsFilter(text, IsSpace, IsContent);
      LStripKeepsFilter(a, IsMiddleDot, IsContent);
      StripKeepsFilter(b, IsSpace, IsContent);
    }
  }

  /** Only leading bullets go, so a second bullet behind a space stays:
      `tidy` can return the bullet itself, which is why line 81 tests for
      it. */
  lemma TidyCanLeaveBullet()
    ensures Tidy("\U{B7} \U{B7}") == Some(MiddleDot)
  {
    var s := "\U{B7} \U{B7}";
    assert Strip(s, IsSpace) == s;
    assert LStrip(s, IsMiddleDot) == " \U{B7}";
    assert Strip(" \U{B7}", IsSpace) == "\U{B7}";
  }

  /** `parse_reviews(value)` (lines 59-66): trim whitespace and brackets,
      drop the commas, and read what is left with `int()`. */
  function ParseReviews(value: string): (r: Option<nat>)
    ensures value == [] ==> r.None?
  {
    if value == [] then None
    else PyInt(RemoveAll(Strip(Strip(value, IsSpace), IsParen), ","))
  }

  /** A count that parses is the number the digits of the cell spell, in
      order: brackets, commas and whitespace are all `parse_reviews` lets
      through, and it drops them. */
  lemma ParseReviewsDigits(value: string)
    ensures ParseReviews(value).Some? ==> ParseReviews(value).value == DigitsValue(Filter(value, IsAsciiDigit))
  {
    if ParseReviews(value).Some? {
      var a := Strip(Strip(value, IsSpace), IsParen);
      var b := RemoveAll(a, ",");
      var t := Strip(b, IsSpace);
      StripKeepsFilter(value, IsSpace, IsAsciiDigit);
      StripKeepsFilter(Strip(value, IsSpace), IsParen, IsAsciiDigit);
      RemoveAllKeepsFilter(a, ",", IsAsciiDigit);
      StripKeepsFilter(b, IsSpace, IsAsciiDigit);
      assert Filter(t, IsAsciiDigit) == t;
    }
  }

  /** The characters a review cell may hold besides its digits: what the
      whitespace and bracket strips and the comma removal can take out. */
  predicate IsCountDecoration(c: char) { c == ',' || IsParen(c) || IsSpace(c) }

  /** A character that can be neither a digit nor decoration. */
  predicate IsForeignToCount(c: char) { !IsAsciiDigit(c) && !IsCountDecoration(c) }

  /** The text `parse_reviews` hands to `int()`, once `int()` has trimmed
      it: the cell without surrounding whitespace and brackets, and without
      commas. */
  function CountText(value: string): string {
    Strip(RemoveAll(Strip(Strip(value, IsSpace), IsParen), ","), IsSpace)
  }

  /** The trims and the comma removal take out nothing of a class that holds
      no whitespace, bracket or comma. */
  lemma CountTextKeepsFilter(value: string, keep: char -> bool)
    requires forall x :: IsSpace(x) ==> !keep(x)
    requires forall x :: IsParen(x) ==> !keep(x)
    requires !keep(',')
    ensures Filter(CountText(value), keep) == Filter(value, keep)
  {
    var a := Strip(Strip(value, IsSpace), IsParen);
    var b := RemoveAll(a, ",");
    StripKeepsFilter(value, IsSpace, keep);
    StripKeepsFilter(Strip(value, IsSpace), IsParen, keep);
    RemoveAllKeepsFilter(a, ",", keep);
    StripKeepsFilter(b, IsSpace, keep);
  }

  /** Malformed cells raise `ValueError` inside `int()`, which line 66 turns
      into `None`: a cell without an ASCII digit, or with any character that
      is neither a digit nor a comma, bracket or whitespace, has no count. */
  lemma ParseReviewsMalformed(value: string)
    ensures (forall i :: 0 <= i < |value| ==> !IsAsciiDigit(value[i])) ==> ParseReviews(value).None?
    ensures (exists i :: 0 <= i < |value| && IsForeignToCount(value[i])) ==> ParseReviews(value).None?
  {
    if ParseReviews(value).Some? {
      var t := CountText(value);
      assert t != [] && AllDigits(t);
      CountTextKeepsFilter(value, IsAsciiDigit);
      CountTextKeepsFilter(value, IsForeignToCount);
      assert Filter(t, IsAsciiDigit) == t;
      assert Filter(t, IsForeignToCount) == [];
    }
  }

  /** A wrapped, comma-grouped count such as `(1,234)` reads as that count. */
  lemma ParseReviewsGrouped(n: nat)
    ensures ParseReviews("(" + Grouped(n) + ")") == Some(n)
  {
    var g := Grouped(n);
    var cell := "(" + g + ")";
    assert !IsParen(g[|g| - 1]);
    StripBrackets(g);
    RemoveCommasKeepsDigits(g);
    var d := Filter(g, IsAsciiDigit);
    assert RemoveAll(Strip(Strip(cell, IsSpace), IsParen), ",") == d;
    GroupedDigits(n);
    assert d != [] by { assert IsAsciiDigit(g[0]); }
    StripNoop(d, IsSpace);
    assert PyInt(d) == Some(n);
    assert cell != [];
  }

  // ---------------------------------------------------------- highlights

  /** What the loop of lines 79-87 does with one raw value. */
  datatype Verdict = Skipped | SponsorCell | Highlight(text: string)

  function Judge(value: string): Verdict {
    var cleaned := Tidy(value);
    if !Present(cleaned) || cleaned.value == MiddleDot then Skipped
    else if Contains(cleaned.value, SponsorMarker) then SponsorCell
    else Highlight(cleaned.value)
  }

  /** A value flags the shop as sponsored exactly when its tidied text
      contains the marker; a highlight is the tidied text itself, and it is
      neither the bullet nor an advertisement. */
  lemma JudgeSpec(value: string)
    ensures Judge(value) == SponsorCell <==>
              Tidy(value).Some? && Contains(Tidy(value).value, SponsorMarker)
    ensures Judge(value).Highlight? ==>
              && Tidy(value) == Some(Judge(value).text)
              && Judge(value).text != MiddleDot
              && !Contains(Judge(value).text, SponsorMarker)
  {
    if Tidy(value).Some? && Tidy(value).value == MiddleDot {
      assert !Contains(MiddleDot, SponsorMarker) by {
        assert |SponsorMarker| > |MiddleDot|;
      }
    }
  }

  /** The texts of the highlight verdicts, in order. */
  function HighlightTexts(vs: seq<Verdict>): (r: seq<string>)
    ensures forall x :: x in r <==> Highlight(x) in vs
    decreases |vs|
  {
    if vs == [] then []
    else
      var v := vs[|vs| - 1];
      HighlightTexts(vs[..|vs| - 1]) + (if v.Highlight? then [v.text] else [])
  }

  lemma HighlightTextsSnoc(vs: seq<Verdict>, v: Verdict)
    ensures HighlightTexts(vs + [v]) == HighlightTexts(vs) + (if v.Highlight? then [v.text] else [])
  {
    assert (vs + [v])[..|vs|] == vs;
  }

  /** The highlight list of `collect_highlights`: each highlight once, in
      the order first seen. */
  function Highlights(values: seq<string>): seq<string> {
    Dedup(HighlightTexts(Map(values, Judge)))
  }

  /** The `sponsored` flag of `collect_highlights`. */
  predicate Sponsored(values: seq<string>) {
    SponsorCell in Map(values, Judge)
  }

  /** What one more value does to the list and the flag. */
  lemma CollectStep(values: seq<string>, i: nat)
    requires i < |values|
    ensures var v, before := Judge(values[i]), Map(values[..i], Judge);
      && Dedup(HighlightTexts(Map(values[..i + 1], Judge))) ==
           (if v.Highlight? then AppendNew(Dedup(HighlightTexts(before)), v.text)
            else Dedup(HighlightTexts(before)))
      && (SponsorCell in Map(values[..i + 1], Judge)) == (SponsorCell in before || v == SponsorCell)
  {
    var v, before := Judge(values[i]), Map(values[..i], Judge);
    assert values[..i + 1] == values[..i] + [values[i]];
    MapSnoc(values[..i], values[i], Judge);
    HighlightTextsSnoc(before, v);
    if v.Highlight? {
      DedupSnoc(HighlightTexts(before), v.text);
    } else {
      assert HighlightTexts(before) + [] == HighlightTexts(before);
    }
  }

  /** `collect_highlights(raw_values)` (lines 76-88). */
  method CollectHighlights(values: seq<string>) returns (highlights: seq<string>, sponsored: bool)
    ensures highlights == Highlights(values)
    ensures sponsored == Sponsored(values)
  {
    highlights := [];
    sponsored := false;
    for i := 0 to |values|
      invariant highlights == Dedup(HighlightTexts(Map(values[..i], Judge)))
      invariant sponsored == (SponsorCell in Map(values[..i], Judge))
    {
      var value := values[i];
      CollectStep(values, i);
      var cleaned := Tidy(value);
      if !Present(cleaned) || cleaned.value == MiddleDot {
        assert Judge(value) == Skipped;
        continue;
      }
      if Contains(cleaned.value, SponsorMarker) {
        assert Judge(value) == SponsorCell;
        sponsored := true;
        continue;
      }
      assert Judge(value) == Highlight(cleaned.value);
      if cleaned.value !in highlights {
        highlights := highlights + [cleaned.value];
      }
    }
    assert values[..|values|] == values;
  }

  /** No highlight twice; a text is a highlight exactly when some value
      tidies to it and is kept; none is the bullet or an advertisement. */
  lemma HighlightsSpec(values: seq<string>)
    ensures NoDup(Highlights(values))
    ensures forall x :: x in Highlights(values) <==>
              exists i :: 0 <= i < |values| && Judge(values[i]) == Highlight(x)
    ensures forall k :: 0 <= k < |Highlights(values)| ==>
              Highlights(values)[k] != MiddleDot && !Contains(Highlights(values)[k], SponsorMarker)
  {
    var m := Map(values, Judge);
    assert forall x :: x in Highlights(values) <==> Highlight(x) in m;
    forall k | 0 <= k < |Highlights(values)|
      ensures Highlights(values)[k] != MiddleDot && !Contains(Highlights(values)[k], SponsorMarker)
    {
      var x := Highlights(values)[k];
      assert Highlight(x) in m;
      var i :| 0 <= i < |m| && m[i] == Highlight(x);
      JudgeSpec(values[i]);
    }
  }

  /** Highlights come out in the order their first values come in. */
  lemma HighlightsFirstSeenOrder(values: seq<string>)
    ensures forall i, j :: 0 <= i < j < |Highlights(values)| ==>
              FirstIndex(HighlightTexts(Map(values, Judge)), Highlights(values)[i])
              < FirstIndex(HighlightTexts(Map(values, Judge)), Highlights(values)[j])
  {
    DedupFirstSeenOrder(HighlightTexts(Map(values, Judge)));
  }

  /** The shop is sponsored exactly when some tidied value contains the
      marker. */
  lemma SponsoredSpec(values: seq<string>)
    ensures Sponsored(values) <==>
              exists i :: 0 <= i < |values| && Tidy(values[i]).Some? && Contains(Tidy(values[i]).value, SponsorMarker)
  {
    var m := Map(values, Judge);
    forall i | 0 <= i < |values| {
      JudgeSpec(values[i]);
    }
    if Sponsored(values) {
      var i :| 0 <= i < |m| && m[i] == SponsorCell;
      assert Judge(values[i]) == SponsorCell;
    }
  }

  // ---------------------------------------------------------------- rows

  /** Line 102: the trimmed name cell, or a placeholder with the 1-based
      row number. */
  function ShopName(row: Row, index: nat): (name: string)
    ensures name != []
    ensures |row| > 1 && Strip(row[1], IsSpace) != [] ==> name == Strip(row[1], IsSpace)
  {
    if |row| > 1 && Strip(row[1], IsSpace) != [] then Strip(row[1], IsSpace)
    else UnnamedShop + NatStr(index + 1)
  }

  /** A blank name becomes the placeholder, and the number it ends with
      reads back as the 1-based row number. */
  lemma BlankShopNameShowsNumber(row: Row, index: nat)
    requires |row| <= 1 || Strip(row[1], IsSpace) == []
    ensures StartsWith(ShopName(row, index), UnnamedShop)
    ensures AllDigits(ShopName(row, index)[|UnnamedShop|..])
    ensures DigitsValue(ShopName(row, index)[|UnnamedShop|..]) == index + 1
  {
    var name := ShopName(row, index);
    assert name[|UnnamedShop|..] == NatStr(index + 1);
    assert name[..|UnnamedShop|] == UnnamedShop;
    NatStrRoundTrip(index + 1);
  }

  /** `row[11:]`: the highlight cells. */
  function HighlightCells(row: Row): seq<string> {
    if |row| > 11 then row[11..] else []
  }

  /** Lines 106-121: the shop a non-empty row becomes, given its name, its
      slug and its highlights. */
  function ShopFields(row: Row, name: string, slug: string, highlights: seq<string>,
                      sponsored: bool, parseFloat: string -> Option<real>): (s: Shop)
    requires row != []
    ensures s.slug == slug && s.name == name && s.mapUrl != []
  {
    Shop(
      slug := slug,
      name := name,
      mapUrl := Tidy(row[0]).GetOr(NoMapUrl),
      rating := if |row| > 2 then parseFloat(row[2]) else None,
      reviewCount := if |row| > 3 then ParseReviews(row[3]) else None,
      category := if |row| > 4 then Tidy(row[4]) else None,
      address := if |row| > 5 then Tidy(row[5]) else None,
      status := if |row| > 6 then Tidy(row[6]) else None,
      hours := if |row| > 7 then Tidy(row[7]) else None,
      phone := if |row| > 9 then Tidy(row[9]) else None,
      imageUrl := if |row| > 10 then Tidy(row[10]) else None,
      highlights := highlights,
      sponsored := sponsored)
  }

  /** What `float()` is known to do here: blank text, which it cannot read,
      raises `ValueError`, and `parse_rating` (lines 52-56) turns that into
      `None`. */
  ghost predicate RejectsBlank(parseFloat: string -> Option<real>) {
    forall text :: Strip(text, IsSpace) == [] ==> parseFloat(text).None?
  }

  /** A missing or blank rating cell gives no rating, so the card and the
      page show `尚無評分`, never a zero rating. */
  lemma BlankRatingUnrated(row: Row, name: string, slug: string, highlights: seq<string>,
                           sponsored: bool, parseFloat: string -> Option<real>)
    requires row != [] && RejectsBlank(parseFloat)
    requires |row| <= 2 || Strip(row[2], IsSpace) == []
    ensures ShopFields(row, name, slug, highlights, sponsored, parseFloat).rating.None?
    ensures RenderCard(ShopFields(row, name, slug, highlights, sponsored, parseFloat)).rating == Unrated
    ensures RenderPage(ShopFields(row, name, slug, highlights, sponsored, parseFloat)).rating == Unrated
  {
  }

  /** `tidy(row[k]) if len(row) > k else None`, described by what it
      means: missing exactly when the column is absent or tidies to
      nothing; otherwise non-empty text cut from the cell by trimming only
      whitespace and bullets off its ends, every other character kept. */
  ghost predicate IsTidiedFrom(field: Option<string>, row: Row, k: nat) {
    && (field.None? <==> |row| <= k || Tidy(row[k]).None?)
    && (field.Some? ==>
          && |row| > k
          && field.value != []
          && IsTrimOf(field.value, row[k], IsSpaceOrDot)
          && Filter(field.value, IsContent) == Filter(row[k], IsContent)
          && !IsSpace(field.value[0]) && !IsSpace(field.value[|field.value| - 1]))
  }

  /** Column `k` read through `tidy` when the row reaches it. */
  lemma TidiedColumn(row: Row, k: nat)
    ensures IsTidiedFrom(if |row| > k then Tidy(row[k]) else None, row, k)
  {
    if |row| > k {
      TidyTrims(row[k]);
      TidyKeepsContent(row[k]);
    }
  }

  /** The field mapping of lines 106-121: each optional field comes from its
      own column (4 category, 5 address, 6 status, 7 hours, 9 phone, 10
      image) through `tidy`; the map URL is the tidied `row[0]` or `#`; the
      rating and review count are parsed from columns 2 and 3 when present;
      the highlights are passed through. */
  lemma ShopFieldsSpec(row: Row, name: string, slug: string, highlights: seq<string>,
                       sponsored: bool, parseFloat: string -> Option<real>)
    requires row != []
    ensures var s := ShopFields(row, name, slug, highlights, sponsored, parseFloat);
      && IsTidiedFrom(s.category, row, 4) && IsTidiedFrom(s.address, row, 5)
      && IsTidiedFrom(s.status, row, 6) && IsTidiedFrom(s.hours, row, 7)
      && IsTidiedFrom(s.phone, row, 9) && IsTidiedFrom(s.imageUrl, row, 10)
    ensures var s := ShopFields(row, name, slug, highlights, sponsored, parseFloat);
      && (Tidy(row[0]).None? ==> s.mapUrl == NoMapUrl)
      && (Tidy(row[0]).Some? ==> IsTidiedFrom(Some(s.mapUrl), row, 0))
    ensures var s := ShopFields(row, name, slug, highlights, sponsored, parseFloat);
      && s.rating == (if |row| > 2 then parseFloat(row[2]) else None)
      && s.reviewCount == (if |row| > 3 then ParseReviews(row[3]) else None)
      && s.highlights == highlights && s.sponsored == sponsored
  {
    TidiedColumn(row, 0);
    TidiedColumn(row, 4);
    TidiedColumn(row, 5);
    TidiedColumn(row, 6);
    TidiedColumn(row, 7);
    TidiedColumn(row, 9);
    TidiedColumn(row, 10);
  }

  /** The slug base of row `index` (lines 102-103), as a value. */
  function RowBase(uni: UnicodeDb): (Row, nat) -> string {
    (row: Row, index: nat) => ShopSlugBase(ShopName(row, index), index, uni)
  }

  /** What row `index` becomes once its slug is settled (lines 104-121):
      its shop, or nothing when `row[0]` raises `IndexError` on an empty
      row (line 109). */
  function RowShop(parseFloat: string -> Option<real>): (Row, nat, string) -> Option<Shop> {
    (row: Row, index: nat, slug: string) =>
      if row == [] then None
      else Some(ShopFields(row, ShopName(row, index), slug, Highlights(HighlightCells(row)),
                           Sponsored(HighlightCells(row)), parseFloat))
  }

  /** What stops `build_shops`: the `IndexError` of an empty row. */
  datatype BuildError = EmptyRow(index: nat)

  /** The position of the first empty row, if any. */
  function FirstEmptyRow(rows: seq<Row>): (r: Option<nat>)
    ensures r.None? <==> forall i :: 0 <= i < |rows| ==> rows[i] != []
    ensures r.Some? ==> r.value < |rows| && rows[r.value] == []
    ensures r.Some? ==> forall i :: 0 <= i < r.value ==> rows[i] != []
    decreases |rows|
  {
    if rows == [] then None
    else
      var init := rows[..|rows| - 1];
      match FirstEmptyRow(init)
      case Some(i) => Some(i)
      case None => if rows[|rows| - 1] == [] then Some(|rows| - 1) else None
  }

  /** `build_shops()` (lines 91-122): the rows in order, each allocated its
      slug against one `used_slugs` set and made into a shop. */
  function Shops(rows: seq<Row>, parseFloat: string -> Option<real>, uni: UnicodeDb): Result<seq<Shop>, BuildError> {
    match AllocateEach(rows, |rows|, RowBase(uni), RowShop(parseFloat))
    case Ok(run) => Ok(run.0)
    case Err(i) => Err(EmptyRow(i))
  }

  /** The loop of `build_shops`, over one `used_slugs` registry. */
  method BuildShops(rows: seq<Row>, parseFloat: string -> Option<real>, uni: UnicodeDb)
    returns (result: Result<seq<Shop>, BuildError>)
    ensures result == Shops(rows, parseFloat, uni)
  {
    var run := ClaimEach(rows, RowBase(uni), RowShop(parseFloat));
    if run.Err? {
      return Err(EmptyRow(run.error));
    }
    return Ok(run.value);
  }

  /** The first empty row aborts the run, and the error names it. */
  lemma ShopsAbort(rows: seq<Row>, i: nat, parseFloat: string -> Option<real>, uni: UnicodeDb)
    requires i < |rows| && rows[i] == [] && forall j :: 0 <= j < i ==> rows[j] != []
    ensures Shops(rows, parseFloat, uni) == Err(EmptyRow(i))
  {
    AllocateEachFirstStop(rows, |rows|, i, RowBase(uni), RowShop(parseFloat));
  }

  /** The run aborts exactly when some row is empty. */
  lemma ShopsError(rows: seq<Row>, parseFloat: string -> Option<real>, uni: UnicodeDb)
    ensures Shops(rows, parseFloat, uni).Err? <==> exists i :: 0 <= i < |rows| && rows[i] == []
  {
    match FirstEmptyRow(rows)
    case Some(i) =>
      ShopsAbort(rows, i, parseFloat, uni);
    case None =>
      AllocateEachRuns(rows, |rows|, RowBase(uni), RowShop(parseFloat));
  }

  /** Otherwise there is one shop per row, made from that row with its
      slug and named after it. */
  lemma ShopsRows(rows: seq<Row>, parseFloat: string -> Option<real>, uni: UnicodeDb)
    requires forall i :: 0 <= i < |rows| ==> rows[i] != []
    ensures Shops(rows, parseFloat, uni).Ok?
    ensures |Shops(rows, parseFloat, uni).value| == |rows|
    ensures forall i :: 0 <= i < |rows| ==>
              Some(Shops(rows, parseFloat, uni).value[i]) ==
                RowShop(parseFloat)(rows[i], i, Shops(rows, parseFloat, uni).value[i].slug)
    ensures forall i :: 0 <= i < |rows| ==>
              Shops(rows, parseFloat, uni).value[i].name == ShopName(rows[i], i)
  {
    AllocateEachRuns(rows, |rows|, RowBase(uni), RowShop(parseFloat));
  }

  /** The slugs are pairwise distinct, non-empty and lower-case
      slug-shaped. */
  lemma ShopsSlugs(rows: seq<Row>, parseFloat: string -> Option<real>, uni: UnicodeDb)
    requires forall i :: 0 <= i < |rows| ==> rows[i] != []
    ensures Shops(rows, parseFloat, uni).Ok?
    ensures forall i, j :: 0 <= i < j < |Shops(rows, parseFloat, uni).value| ==>
              Shops(rows, parseFloat, uni).value[i].slug != Shops(rows, parseFloat, uni).value[j].slug
    ensures forall i :: 0 <= i < |Shops(rows, parseFloat, uni).value| ==>
              Shops(rows, parseFloat, uni).value[i].slug != [] &&
              IsSlugShaped(Shops(rows, parseFloat, uni).value[i].slug, IsLowerAlnum)
  {
    AllocateEachDistinct(rows, |rows|, RowBase(uni), RowShop(parseFloat), (s: Shop) => s.slug, IsLowerAlnum);
  }

  // ------------------------------------------------------------ rendering

  /** One badge of `render_badges`: a field's escaped text, or the sponsor
      badge. */
  datatype Badge = FieldBadge(text: string) | SponsorBadge

  /** One badge for a present field, none for a missing or empty one. */
  function FieldBadges(field: Option<string>): (bs: seq<Badge>)
    ensures |bs| <= 1 && forall b :: b in bs ==> b.FieldBadge? && IsMarkupSafe(b.text)
    ensures |bs| == 1 <==> Present(field)
    ensures bs != [] ==> Unescape(bs[0].text) == field.value
  {
    if Present(field) then
      EscapeRoundTrip(field.value);
      [FieldBadge(Escape(field.value))]
    else []
  }

  /** How many badges a present field adds. */
  function FieldCount(field: Option<string>): nat {
    if Present(field) then 1 else 0
  }

  /** `render_badges(shop)` (lines 357-367): category, status and hours when
      present, then the sponsor badge when sponsored. */
  function Badges(shop: Shop): (bs: seq<Badge>)
    ensures SponsorBadge in bs <==> shop.sponsored
    ensures |bs| == FieldCount(shop.category) + FieldCount(shop.status) + FieldCount(shop.hours)
                    + (if shop.sponsored then 1 else 0)
    ensures shop.sponsored ==> bs[|bs| - 1] == SponsorBadge
    ensures bs[..|bs| - (if shop.sponsored then 1 else 0)]
              == FieldBadges(shop.category) + FieldBadges(shop.status) + FieldBadges(shop.hours)
    ensures forall b :: b in bs && b.FieldBadge? ==> IsMarkupSafe(b.text)
    ensures Present(shop.category) ==> FieldBadge(Escape(shop.category.value)) in bs
    ensures Present(shop.status) ==> FieldBadge(Escape(shop.status.value)) in bs
    ensures Present(shop.hours) ==> FieldBadge(Escape(shop.hours.value)) in bs
  {
    var fields := FieldBadges(shop.category) + FieldBadges(shop.status) + FieldBadges(shop.hours);
    assert SponsorBadge !in fields;
    fields + (if shop.sponsored then [SponsorBadge] else [])
  }

  /** The tag row of `render_tags`: nothing (`""`), or the escaped tags. */
  datatype TagRow = NoTags | TagRow(tags: seq<string>)

  /** `render_tags(shop, limit)` (lines 370-375). */
  function RenderTags(shop: Shop, limit: Option<nat>): (t: TagRow)
    ensures t.NoTags? <==> shop.highlights == [] || limit == Some(0)
    ensures t.TagRow? ==> |t.tags| <= |shop.highlights| && (limit.Some? ==> |t.tags| <= limit.value)
    ensures t.TagRow? && limit.None? ==> |t.tags| == |shop.highlights|
    ensures t.TagRow? && limit.Some? ==>
              |t.tags| == if |shop.highlights| < limit.value then |shop.highlights| else limit.value
    ensures t.TagRow? ==> forall i :: 0 <= i < |t.tags| ==> t.tags[i] == Escape(shop.highlights[i])
  {
    var tags := if limit.None? then shop.highlights else Prefix(shop.highlights, limit.value);
    if tags == [] then NoTags else TagRow(EscapeAll(tags))
  }

  /** The rating label: `⭐ x.x`, or `尚無評分`. */
  datatype RatingLabel = Stars(value: real) | Unrated

  /** The review label: `{n} 則評論` for any count, zero included, or
      `評論數未知`. */
  datatype ReviewLabel = ReviewTotal(count: nat) | ReviewsUnknown

  function RatingLabelOf(rating: Option<real>): (l: RatingLabel)
    ensures l.Unrated? <==> rating.None?
  {
    match rating
    case Some(v) => Stars(v)
    case None => Unrated
  }

  function ReviewLabelOf(count: Option<nat>): (l: ReviewLabel)
    ensures l.ReviewsUnknown? <==> count.None?
    ensures count.Some? ==> l == ReviewTotal(count.value)
  {
    match count
    case Some(n) => ReviewTotal(n)
    case None => ReviewsUnknown
  }

  /** The pieces of the index card `render_card` fills in (lines 378-403). */
  datatype ShopCard = ShopCard(
    image: string,
    name: string,
    rating: RatingLabel,
    reviews: ReviewLabel,
    address: string,
    badges: seq<Badge>,
    tags: TagRow,
    detailHref: string,
    mapHref: string,
    phoneLabel: string)

  /** `shops/{slug}/index.html`; the slug goes in unescaped. */
  function ShopHref(slug: string): (h: string)
    ensures |h| == 6 + |slug| + 11 && h[6..6 + |slug|] == slug
    ensures IsSlugShaped(slug, IsLowerAlnum) ==> IsMarkupSafe(h)
  {
    var h := "shops/" + slug + "/index.html";
    assert forall i :: 6 <= i < 6 + |slug| ==> h[i] == slug[i - 6];
    h
  }

  function RenderCard(shop: Shop): ShopCard {
    ShopCard(
      image := Escape(OrElse(shop.imageUrl, PlaceholderImage)),
      name := Escape(shop.name),
      rating := RatingLabelOf(shop.rating),
      reviews := ReviewLabelOf(shop.reviewCount),
      address := Escape(OrElse(shop.address, NoAddressCard)),
      badges := Badges(shop),
      tags := RenderTags(shop, Some(3)),
      detailHref := ShopHref(shop.slug),
      mapHref := Escape(shop.mapUrl),
      phoneLabel := if Present(shop.phone) then Escape(shop.phone.value) else NoPhoneCard)
  }

  /** The card previews at most three highlights, the first three; it shows
      the phone when there is one (escaped, losing nothing) and the
      placeholder otherwise; its detail link holds the slug. */
  lemma CardDecisions(shop: Shop)
    ensures RenderCard(shop).tags.TagRow? ==>
              |RenderCard(shop).tags.tags| == if |shop.highlights| < 3 then |shop.highlights| else 3
    ensures RenderCard(shop).tags.TagRow? ==>
              forall i :: 0 <= i < |RenderCard(shop).tags.tags| ==>
                RenderCard(shop).tags.tags[i] == Escape(shop.highlights[i])
    ensures RenderCard(shop).tags.NoTags? <==> shop.highlights == []
    ensures !Present(shop.phone) ==> RenderCard(shop).phoneLabel == NoPhoneCard
    ensures Present(shop.phone) ==> Unescape(RenderCard(shop).phoneLabel) == shop.phone.value
    ensures RenderCard(shop).detailHref[6..6 + |shop.slug|] == shop.slug
    ensures Unescape(RenderCard(shop).name) == shop.name
  {
    if Present(shop.phone) {
      EscapeRoundTrip(shop.phone.value);
    }
    EscapeRoundTrip(shop.name);
  }

  /** Every text a card interpolates is safe inside markup, the unescaped
      slug included, provided it is slug-shaped. */
  lemma CardMarkupSafe(shop: Shop)
    requires IsSlugShaped(shop.slug, IsLowerAlnum)
    ensures IsMarkupSafe(RenderCard(shop).image) && IsMarkupSafe(RenderCard(shop).name)
    ensures IsMarkupSafe(RenderCard(shop).address) && IsMarkupSafe(RenderCard(shop).detailHref)
    ensures IsMarkupSafe(RenderCard(shop).mapHref)
    ensures RenderCard(shop).tags.TagRow? ==>
              forall i :: 0 <= i < |RenderCard(shop).tags.tags| ==> IsMarkupSafe(RenderCard(shop).tags.tags[i])
  {
  }

  // -------------------------------------------------------- the shop page

  /** The call link of line 446 as written: the phone goes into the
      `href` attribute unescaped. */
  function CallHrefAsWritten(phone: string): string {
    "tel:" + phone
  }

  /** A phone cell holding a double quote ends the attribute early. */
  lemma CallHrefAsWrittenUnsafe()
    ensures !IsMarkupSafe(CallHrefAsWritten("\""))
  {
    assert CallHrefAsWritten("\"")[4] == '"';
  }

  /** The call link escaped like every other interpolated field. It is safe
      in the attribute and reads back as `tel:` and the phone. */
  function CallHref(phone: string): (h: string)
    ensures IsMarkupSafe(h)
    ensures |h| >= 4 && h[..4] == "tel:" && Unescape(h[4..]) == phone
  {
    var e := Escape(phone);
    EscapeRoundTrip(phone);
    var h := "tel:" + e;
    assert h[4..] == e;
    assert forall i :: 4 <= i < |h| ==> h[i] == e[i - 4];
    h
  }

  /** The buttons of the action row (lines 452-457). */
  datatype Action = Call(href: string) | OpenMap(href: string)

  /** The action row: a call button when there is a phone, then the map
      button. */
  function PageActions(phone: Option<string>, mapUrl: string): (acts: seq<Action>)
    ensures |acts| == if Present(phone) then 2 else 1
    ensures (exists i :: 0 <= i < |acts| && acts[i].Call?) <==> Present(phone)
    ensures Present(phone) ==> acts[0] == Call(CallHref(phone.value))
    ensures acts[|acts| - 1] == OpenMap(Escape(mapUrl))
    ensures forall i :: 0 <= i < |acts| ==> IsMarkupSafe(acts[i].href)
  {
    var mapButton := OpenMap(Escape(mapUrl));
    if Present(phone) then
      var acts := [Call(CallHref(phone.value)), mapButton];
      assert acts[0].Call?;
      acts
    else
      assert forall i :: 0 <= i < |[mapButton]| ==> [mapButton][i] == mapButton;
      [mapButton]
  }

  /** The pieces `write_shop_page` fills in (lines 441-509). */
  datatype ShopPage = ShopPage(
    title: string,
    heroAddress: string,
    rating: RatingLabel,
    reviews: ReviewLabel,
    categoryChip: Option<string>,
    image: string,
    status: string,
    badges: seq<Badge>,
    statAddress: string,
    phoneLabel: string,
    mapHref: string,
    actions: seq<Action>,
    highlights: TagRow)   // NoTags shows the paragraph 尚無特色資料

  function RenderPage(shop: Shop): ShopPage {
    ShopPage(
      title := Escape(shop.name),
      heroAddress := Escape(OrElse(shop.address, NoAddressHero)),
      rating := RatingLabelOf(shop.rating),
      reviews := ReviewLabelOf(shop.reviewCount),
      categoryChip := EscapedIfPresent(shop.category),   // lines 449-451
      image := Escape(OrElse(shop.imageUrl, PlaceholderImage)),
      status := Escape(OrElse(shop.status, NoStatus)),
      badges := Badges(shop),
      statAddress := Escape(OrElse(shop.address, NoAddressStat)),
      phoneLabel := if Present(shop.phone) then Escape(shop.phone.value) else NoPhonePage,
      mapHref := Escape(shop.mapUrl),
      actions := PageActions(shop.phone, shop.mapUrl),
      highlights := RenderTags(shop, None))
  }

  /** The page has a call button exactly when the shop has a phone, and
      then it comes first and dials that phone; the map button is always
      last; the category chip is there exactly when there is a category; the
      whole highlight list is shown, or the placeholder when it is empty. */
  lemma PageDecisions(shop: Shop)
    ensures (exists i :: 0 <= i < |RenderPage(shop).actions| && RenderPage(shop).actions[i].Call?)
              <==> Present(shop.phone)
    ensures Present(shop.phone) ==> RenderPage(shop).actions[0] == Call(CallHref(shop.phone.value))
    ensures RenderPage(shop).actions[|RenderPage(shop).actions| - 1] == OpenMap(Escape(shop.mapUrl))
    ensures RenderPage(shop).categoryChip.Some? <==> Present(shop.category)
    ensures RenderPage(shop).categoryChip.Some? ==> Unescape(RenderPage(shop).categoryChip.value) == shop.category.value
    ensures RenderPage(shop).highlights.NoTags? <==> shop.highlights == []
    ensures RenderPage(shop).highlights.TagRow? ==> |RenderPage(shop).highlights.tags| == |shop.highlights|
    ensures !Present(shop.phone) ==> RenderPage(shop).phoneLabel == NoPhonePage
  {
    assert RenderPage(shop).actions == PageActions(shop.phone, shop.mapUrl);
  }

  /** Every text the page interpolates is safe inside markup, the call link
      included. */
  lemma PageMarkupSafe(shop: Shop)
    ensures IsMarkupSafe(RenderPage(shop).title) && IsMarkupSafe(RenderPage(shop).heroAddress)
    ensures IsMarkupSafe(RenderPage(shop).image) && IsMarkupSafe(RenderPage(shop).status)
    ensures IsMarkupSafe(RenderPage(shop).statAddress) && IsMarkupSafe(RenderPage(shop).mapHref)
    ensures RenderPage(shop).categoryChip.Some? ==> IsMarkupSafe(RenderPage(shop).categoryChip.value)
    ensures forall i :: 0 <= i < |RenderPage(shop).actions| ==> IsMarkupSafe(RenderPage(shop).actions[i].href)
  {
  }
}
