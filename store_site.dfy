/** scripts/generate_sites.py: the store generator. Each CSV record, read as
    a dictionary from column name to cell, becomes a `Store` with a slug that
    is unique across the run and cleaned fields; the index shows one card per
    store and each store page shows every optional link either as a button
    or not at all, and every missing detail as a placeholder. */
module StoreSite {
  import opened Wrappers
  import opened Text
  import opened Decimal
  import opened Lists
  import opened Slugs

  /** A `csv.DictReader` record: column name to cell. The columns a short
      record lacks map to `None`, the reader's `restval`. */
  type Row = map<string, Option<string>>

  /** `row.get(key)`. */
  function Get(row: Row, key: string): Option<string> {
    if key in row then row[key] else None
  }

  // The columns `_parse_stores` reads (lines 81-117).
  const NameKey: string := "qBF1Pd"
  const MapKey: string := "hfpxzc href"
  const RatingKey: string := "MW4etd"
  const ReviewsKey: string := "UY7F9"
  const CategoryKey: string := "W4Efsd"
  const AddressKey: string := "W4Efsd (3)"
  const StatusKey: string := "W4Efsd (4)"
  const HoursKey: string := "W4Efsd (5)"
  const PhoneKey: string := "UsdlK"
  const ImageKey: string := "FQ2IWe src"
  const AdKey: string := "bm892c href"
  const BadgeKeys: seq<string> := ["ah5Ghc", "M4A5Cf", "ah5Ghc (2)", "M4A5Cf (2)", "ah5Ghc (3)"]
  const HighlightKeys: seq<string> :=
    ["LDHnMb", "c2ePGf", "c2ePGf (2)", "c2ePGf (3)", "W4Efsd (7)", "doJOZc"]

  /** The name of a record whose name cell is blank (line 81), followed by
      the 1-based record number. */
  const UnnamedStore: string := "未命名店家 "
  // Placeholders of the index card and the store page (lines 158-162,
  // 327-349).
  const NoCategory: string := "服務類別未提供"
  const NoAddress: string := "未提供地址"
  const NoRating: string := "無評分"
  const NoReviews: string := "0"
  const NoStatus: string := "營業資訊未提供"
  const NotProvided: string := "未提供"

  /** The `Store` record of lines 25-40. */
  datatype Store = Store(
    slug: string,
    name: string,
    mapUrl: Option<string>,
    rating: Option<string>,
    reviews: string,
    category: Option<string>,
    address: Option<string>,
    status: Option<string>,
    hours: Option<string>,
    phone: Option<string>,
    imageUrl: Option<string>,
    badges: seq<string>,
    highlights: seq<string>,
    adLink: Option<string>)

  // ------------------------------------------------------- field cleanup

  /** `_clean(value)` (lines 43-48): `""` for `None` or `""`; otherwise every
      `·` removed and the whitespace at both ends trimmed. */
  function Clean(value: Option<string>): (r: string)
    ensures !Present(value) ==> r == []
    ensures forall i :: 0 <= i < |r| ==> !IsMiddleDot(r[i])
    ensures r != [] ==> !IsSpace(r[0]) && !IsSpace(r[|r| - 1])
  {
    if !Present(value) then []
    else
      var noDots := RemoveAll(value.value, MiddleDot);
      assert forall i :: 0 <= i < |noDots| ==> !IsMiddleDot(noDots[i]);
      StripKeepsFilter(noDots, IsSpace, IsMiddleDot);
      Strip(noDots, IsSpace)
  }

  /** `_clean` removes only bullets and the whitespace at the ends: the
      result is the text without its bullets, with a run of whitespace cut
      off each end, so every other character, interior whitespace included,
      survives in order. */
  lemma CleanKeepsContent(value: string)
    ensures IsTrimOf(Clean(Some(value)), Filter(value, IsNotMiddleDot), IsSpace)
    ensures Filter(Clean(Some(value)), IsContent) == Filter(value, IsContent)
  {
    RemoveDotsIsFilter(value);
    if value == [] {
      assert TrimmedAt([], [], IsSpace, 0);
    } else {
      var noDots := RemoveAll(value, MiddleDot);
      StripTrims(noDots, IsSpace);
      RemoveAllKeepsFilter(value, MiddleDot, IsContent);
      StripKeepsFilter(noDots, IsSpace, IsContent);
    }
  }

  /** The result is empty exactly when there is no value or it holds
      nothing but bullets and whitespace. */
  lemma CleanEmptyIff(value: Option<string>)
    ensures Clean(value) == [] <==>
              !Present(value) || forall i :: 0 <= i < |value.value| ==> !IsContent(value.value[i])
  {
    if Present(value) {
      CleanKeepsContent(value.value);
      var r := Clean(value);
      if r != [] {
        assert IsContent(r[0]);
      }
    }
  }

  /** Cleaning twice is cleaning once. */
  lemma CleanIdempotent(value: Option<string>)
    ensures Clean(Some(Clean(value))) == Clean(value)
  {
    var c := Clean(value);
    if c != [] {
      var noDots := RemoveAll(value.value, MiddleDot);
      RemoveCharIsFilter(c, '\U{B7}');
      assert RemoveAll(c, MiddleDot) == c;
      StripIdempotent(noDots, IsSpace);
    }
  }

  /** `_clean(value) or None`. */
  function CleanField(value: Option<string>): Option<string> {
    var cleaned := Clean(value);
    if cleaned != [] then Some(cleaned) else None
  }

  /** `field` is what `_clean(cell) or None` makes of `cell`: nothing exactly
      when the cell is missing or holds only bullets and whitespace, and
      otherwise non-empty text holding the cell's other characters in
      order, with no bullet and no whitespace at its ends. */
  ghost predicate IsCleanedFrom(field: Option<string>, cell: Option<string>) {
    && (field.None? <==>
          !Present(cell) || forall i :: 0 <= i < |cell.value| ==> !IsContent(cell.value[i]))
    && (field.Some? ==>
          && Present(cell)
          && field.value != []
          && Filter(field.value, IsContent) == Filter(cell.value, IsContent)
          && (forall i :: 0 <= i < |field.value| ==> !IsMiddleDot(field.value[i]))
          && !IsSpace(field.value[0]) && !IsSpace(field.value[|field.value| - 1]))
  }

  lemma CleanFieldSpec(cell: Option<string>)
    ensures IsCleanedFrom(CleanField(cell), cell)
  {
    CleanEmptyIff(cell);
    if Present(cell) {
      CleanKeepsContent(cell.value);
    }
  }

  /** `_clean(row.get(key)) or None` for each key. */
  function CleanCells(row: Row, keys: seq<string>): (r: seq<Option<string>>)
    ensures |r| == |keys|
  {
    seq(|keys|, i requires 0 <= i < |keys| => CleanField(Get(row, keys[i])))
  }

  lemma CleanCellsConcat(row: Row, a: seq<string>, b: seq<string>)
    ensures CleanCells(row, a + b) == CleanCells(row, a) + CleanCells(row, b)
  {
    var l, r := CleanCells(row, a + b), CleanCells(row, a) + CleanCells(row, b);
    forall i | 0 <= i < |l| ensures l[i] == r[i] {
      if i < |a| {
        assert (a + b)[i] == a[i];
      } else {
        assert (a + b)[i] == b[i - |a|];
      }
    }
  }

  /** The values `_collect(row, keys)` gathers: the cleaned cells of the
      keys, in key order, the empty ones left out. */
  function Collected(row: Row, keys: seq<string>): (r: seq<string>)
    ensures |r| <= |keys|
  {
    Somes(CleanCells(row, keys))
  }

  /** `_collect(row, keys)` (lines 51-57). */
  method Collect(row: Row, keys: seq<string>) returns (values: seq<string>)
    ensures values == Collected(row, keys)
  {
    values := [];
    for i := 0 to |keys|
      invariant values == Somes(CleanCells(row, keys[..i]))
    {
      var cleaned := Clean(Get(row, keys[i]));
      assert keys[..i + 1] == keys[..i] + [keys[i]];
      CleanCellsConcat(row, keys[..i], [keys[i]]);
      assert CleanCells(row, [keys[i]]) == [CleanField(Get(row, keys[i]))];
      SomesSnoc(CleanCells(row, keys[..i]), CleanField(Get(row, keys[i])));
      if cleaned != [] {
        values := values + [cleaned];
      } else {
        assert values + [] == values;
      }
    }
    assert keys[..|keys|] == keys;
  }

  /** A text is collected exactly when it is the non-empty cleaned cell of
      one of the keys. */
  lemma CollectedSpec(row: Row, keys: seq<string>)
    ensures forall x :: x in Collected(row, keys) <==>
              x != [] && exists i :: 0 <= i < |keys| && Clean(Get(row, keys[i])) == x
  {
    var cells := CleanCells(row, keys);
    forall x ensures Some(x) in cells <==> x != [] && exists i :: 0 <= i < |keys| && Clean(Get(row, keys[i])) == x {
      if Some(x) in cells {
        var i :| 0 <= i < |cells| && cells[i] == Some(x);
        assert Clean(Get(row, keys[i])) == x;
      }
      if x != [] && exists i :: 0 <= i < |keys| && Clean(Get(row, keys[i])) == x {
        var i :| 0 <= i < |keys| && Clean(Get(row, keys[i])) == x;
        assert cells[i] == Some(x);
      }
    }
  }

  /** Collecting over two runs of keys is collecting over each in turn: the
      values keep the order of their keys. */
  lemma CollectedConcat(row: Row, a: seq<string>, b: seq<string>)
    ensures Collected(row, a + b) == Collected(row, a) + Collected(row, b)
  {
    CleanCellsConcat(row, a, b);
    SomesConcat(CleanCells(row, a), CleanCells(row, b));
  }

  // ---------------------------------------------------------------- slugs

  /** Lines 61-64: the NFKD form with its non-ASCII characters dropped,
      lowered, every run of characters other than `a`-`z` and `0`-`9`
      collapsed to `-` and trimmed of `-`; `fallback` when nothing is
      left. */
  function StoreSlugBase(name: string, fallback: string, uni: UnicodeDb): (base: string)
    ensures base == fallback || (base != [] && IsSlugShaped(base, IsLowerAlnum))
  {
    var slug := SlugBase(Lower(Filter(uni.nfkd(name), IsAscii)), IsLowerAlnum);
    if slug != [] then slug else fallback
  }

  /** The base is the fallback when the normalised name has no ASCII
      letter or digit; otherwise it is a non-empty slug whose letters and
      digits are those of the name, lowered and in order. */
  lemma StoreSlugBaseSpec(name: string, fallback: string, uni: UnicodeDb)
    ensures (forall i :: 0 <= i < |uni.nfkd(name)| ==> !IsAsciiAlnum(uni.nfkd(name)[i])) ==>
              StoreSlugBase(name, fallback, uni) == fallback
    ensures (exists i :: 0 <= i < |uni.nfkd(name)| && IsAsciiAlnum(uni.nfkd(name)[i])) ==>
              && StoreSlugBase(name, fallback, uni) != []
              && IsSlugShaped(StoreSlugBase(name, fallback, uni), IsLowerAlnum)
              && Filter(StoreSlugBase(name, fallback, uni), IsLowerAlnum) ==
                   Lower(Filter(uni.nfkd(name), IsAsciiAlnum))
  {
    var normalized := uni.nfkd(name);
    var lowered := Lower(Filter(normalized, IsAscii));
    AsciiLowered(normalized);
    SlugBaseEmptyIff(lowered, IsLowerAlnum);
    var kept := Filter(normalized, IsAsciiAlnum);
    if kept == [] {
      assert Filter(lowered, IsLowerAlnum) == [];
    } else {
      assert |Lower(kept)| > 0;
    }
  }

  /** Dropping the non-ASCII characters and lowering keeps the name's ASCII
      letters and digits, lowered and in order. */
  lemma AsciiLowered(normalized: string)
    ensures Filter(Lower(Filter(normalized, IsAscii)), IsLowerAlnum) == Lower(Filter(normalized, IsAsciiAlnum))
  {
    LowerFilter(Filter(normalized, IsAscii));
    FilterFilter(normalized, IsAscii, IsAsciiAlnum);
  }

  /** `_slugify(name, existing, fallback)` (lines 60-71). */
  method Slugify(name: string, existing: SlugRegistry, fallback: string, uni: UnicodeDb)
    returns (slug: string)
    modifies existing
    ensures slug == Allocate(StoreSlugBase(name, fallback, uni), old(existing.used))
    ensures existing.used == old(existing.used) + {slug}
  {
    var base := StoreSlugBase(name, fallback, uni);
    slug := existing.Claim(base);
  }

  // ---------------------------------------------------------- the records

  /** Line 81: `row.get("qBF1Pd", "").strip() or f"未命名店家 {index}"`.
      Nothing when the cell is `None`, on which `.strip()` raises. */
  function StoreName(row: Row, index: nat): (name: Option<string>)
    ensures name.None? <==> NameKey in row && row[NameKey].None?
    ensures name.Some? ==> name.value != []
  {
    var cell := if NameKey in row then row[NameKey] else Some("");
    match cell
    case None => None
    case Some(text) =>
      var trimmed := Strip(text, IsSpace);
      Some(if trimmed != [] then trimmed else UnnamedStore + NatStr(index))
  }

  /** A name cell with text gives that text trimmed; a blank or missing one
      gives the placeholder, whose number reads back as the record
      number. */
  lemma StoreNameSpec(row: Row, index: nat)
    ensures NameKey in row && row[NameKey].Some? && Strip(row[NameKey].value, IsSpace) != [] ==>
              StoreName(row, index) == Some(Strip(row[NameKey].value, IsSpace))
    ensures NameKey !in row || (row[NameKey].Some? && Strip(row[NameKey].value, IsSpace) == []) ==>
              && StoreName(row, index).Some?
              && StartsWith(StoreName(row, index).value, UnnamedStore)
              && AllDigits(StoreName(row, index).value[|UnnamedStore|..])
              && DigitsValue(StoreName(row, index).value[|UnnamedStore|..]) == index
  {
    if NameKey !in row || (row[NameKey].Some? && Strip(row[NameKey].value, IsSpace) == []) {
      var name := StoreName(row, index).value;
      assert name == UnnamedStore + NatStr(index);
      assert name[|UnnamedStore|..] == NatStr(index);
      assert name[..|UnnamedStore|] == UnnamedStore;
      NatStrRoundTrip(index);
    }
  }

  /** The slug base of record `index` (1-based, line 82): its name's base,
      falling back to `store-{index}`. */
  function RecordSlugBase(row: Row, index: nat, uni: UnicodeDb): (base: string)
    ensures base != [] && IsSlugShaped(base, IsLowerAlnum)
  {
    assert IsSlugShaped("store", IsLowerAlnum);
    SuffixedShaped("store", index, IsLowerAlnum);
    StoreSlugBase(StoreName(row, index).GetOr([]), Suffixed("store", index), uni)
  }

  /** Lines 84-118: the store a record becomes, given its name and slug. */
  function StoreFields(row: Row, name: string, slug: string): (s: Store)
    ensures s.slug == slug && s.name == name
    ensures |s.badges| <= |BadgeKeys| && |s.highlights| <= |HighlightKeys|
    ensures s.reviews != [] ==> !IsParen(s.reviews[0]) && !IsParen(s.reviews[|s.reviews| - 1])
  {
    Store(
      slug := slug,
      name := name,
      mapUrl := CleanField(Get(row, MapKey)),
      rating := CleanField(Get(row, RatingKey)),
      reviews := Strip(Clean(Get(row, ReviewsKey)), IsParen),
      category := CleanField(Get(row, CategoryKey)),
      address := CleanField(Get(row, AddressKey)),
      status := CleanField(Get(row, StatusKey)),
      hours := CleanField(Get(row, HoursKey)),
      phone := CleanField(Get(row, PhoneKey)),
      imageUrl := CleanField(Get(row, ImageKey)),
      badges := Collected(row, BadgeKeys),
      highlights := Collected(row, HighlightKeys),
      adLink := CleanField(Get(row, AdKey)))
  }

  /** Every optional field is its cell as `_clean(...) or None` leaves it,
      and the review text is the cleaned cell without its brackets. */
  lemma StoreFieldsSpec(row: Row, name: string, slug: string)
    ensures IsCleanedFrom(StoreFields(row, name, slug).mapUrl, Get(row, MapKey))
    ensures IsCleanedFrom(StoreFields(row, name, slug).rating, Get(row, RatingKey))
    ensures IsCleanedFrom(StoreFields(row, name, slug).category, Get(row, CategoryKey))
    ensures IsCleanedFrom(StoreFields(row, name, slug).address, Get(row, AddressKey))
    ensures IsCleanedFrom(StoreFields(row, name, slug).status, Get(row, StatusKey))
    ensures IsCleanedFrom(StoreFields(row, name, slug).hours, Get(row, HoursKey))
    ensures IsCleanedFrom(StoreFields(row, name, slug).phone, Get(row, PhoneKey))
    ensures IsCleanedFrom(StoreFields(row, name, slug).imageUrl, Get(row, ImageKey))
    ensures IsCleanedFrom(StoreFields(row, name, slug).adLink, Get(row, AdKey))
  {
    CleanFieldSpec(Get(row, MapKey));
    CleanFieldSpec(Get(row, RatingKey));
    CleanFieldSpec(Get(row, CategoryKey));
    CleanFieldSpec(Get(row, AddressKey));
    CleanFieldSpec(Get(row, StatusKey));
    CleanFieldSpec(Get(row, HoursKey));
    CleanFieldSpec(Get(row, PhoneKey));
    CleanFieldSpec(Get(row, ImageKey));
    CleanFieldSpec(Get(row, AdKey));
  }

  /** A review cell in one pair of brackets, such as `(1,234)`, gives the
      text between them. */
  lemma ReviewsUnwrapped(g: string)
    requires g != [] && forall i :: 0 <= i < |g| ==> IsAsciiDigit(g[i]) || g[i] == ','
    ensures StoreFields(map[ReviewsKey := Some("(" + g + ")")], UnnamedStore, "store").reviews == g
  {
    var cell := "(" + g + ")";
    var row := map[ReviewsKey := Some(cell)];
    assert Get(row, ReviewsKey) == Some(cell);
    assert forall i :: 0 <= i < |cell| ==> cell[i] != '\U{B7}';
    RemoveCharIsFilter(cell, '\U{B7}');
    assert RemoveAll(cell, MiddleDot) == cell;
    assert !IsParen(g[0]) && !IsParen(g[|g| - 1]);
    StripBrackets(g);
  }

  /** What record `index` (0-based) becomes once its slug is settled
      (lines 81-118): its store, or nothing when its name cell is `None`. */
  function MakeStore(row: Row, index: nat, slug: string): Option<Store> {
    match StoreName(row, index + 1)
    case None => None
    case Some(name) => Some(StoreFields(row, name, slug))
  }

  /** A store carries the slug it was made with. */
  lemma MakeStoreKeepsSlug()
    ensures forall row, index, slug :: MakeStore(row, index, slug).Some? ==> MakeStore(row, index, slug).value.slug == slug
  {
  }

  /** The slug base of the record at position `index` of the file. */
  function RowBase(uni: UnicodeDb): (Row, nat) -> string {
    (row: Row, index: nat) => RecordSlugBase(row, index + 1, uni)
  }

  lemma RowBaseShaped(uni: UnicodeDb)
    ensures forall row, index :: RowBase(uni)(row, index) != [] && IsSlugShaped(RowBase(uni)(row, index), IsLowerAlnum)
  {
  }

  /** What stops `_parse_stores`: the `AttributeError` of `None.strip()`. */
  datatype ParseError = NameIsNone(index: nat)

  predicate NameCellIsNone(row: Row) {
    NameKey in row && row[NameKey].None?
  }

  /** The position of the first record whose name cell is `None`, if any. */
  function FirstNoneName(rows: seq<Row>): (r: Option<nat>)
    ensures r.None? <==> forall i :: 0 <= i < |rows| ==> !NameCellIsNone(rows[i])
    ensures r.Some? ==> r.value < |rows| && NameCellIsNone(rows[r.value])
    ensures r.Some? ==> forall i :: 0 <= i < r.value ==> !NameCellIsNone(rows[i])
    decreases |rows|
  {
    if rows == [] then None
    else
      match FirstNoneName(rows[..|rows| - 1])
      case Some(i) => Some(i)
      case None => if NameCellIsNone(rows[|rows| - 1]) then Some(|rows| - 1) else None
  }

  /** `_parse_stores()` (lines 74-122): the records in order, each allocated
      its slug against one `existing_slugs` set and made into a store. */
  function Stores(rows: seq<Row>, uni: UnicodeDb): Result<seq<Store>, ParseError> {
    match AllocateEach(rows, |rows|, RowBase(uni), MakeStore)
    case Ok(run) => Ok(run.0)
    case Err(i) => Err(NameIsNone(i))
  }

  /** The loop of `_parse_stores`, over one `existing_slugs` registry. */
  method ParseStores(rows: seq<Row>, uni: UnicodeDb) returns (result: Result<seq<Store>, ParseError>)
    ensures result == Stores(rows, uni)
  {
    var run := ClaimEach(rows, RowBase(uni), MakeStore);
    if run.Err? {
      return Err(NameIsNone(run.error));
    }
    return Ok(run.value);
  }

  /** The first record with a `None` name cell aborts the run, and the
      error names it. */
  lemma StoresAbort(rows: seq<Row>, i: nat, uni: UnicodeDb)
    requires i < |rows| && NameCellIsNone(rows[i])
    requires forall j :: 0 <= j < i ==> !NameCellIsNone(rows[j])
    ensures Stores(rows, uni) == Err(NameIsNone(i))
  {
    AllocateEachFirstStop(rows, |rows|, i, RowBase(uni), MakeStore);
  }

  /** The run aborts exactly when some name cell is `None`. */
  lemma StoresError(rows: seq<Row>, uni: UnicodeDb)
    ensures Stores(rows, uni).Err? <==> exists i :: 0 <= i < |rows| && NameCellIsNone(rows[i])
  {
    match FirstNoneName(rows)
    case Some(i) =>
      StoresAbort(rows, i, uni);
    case None =>
      AllocateEachRuns(rows, |rows|, RowBase(uni), MakeStore);
  }

  /** Otherwise there is one store per record, made from that record with
      its slug and named after it with its 1-based number. */
  lemma StoresRows(rows: seq<Row>, uni: UnicodeDb)
    requires forall i :: 0 <= i < |rows| ==> !NameCellIsNone(rows[i])
    ensures Stores(rows, uni).Ok?
    ensures |Stores(rows, uni).value| == |rows|
    ensures forall i :: 0 <= i < |rows| ==>
              Some(Stores(rows, uni).value[i]) == MakeStore(rows[i], i, Stores(rows, uni).value[i].slug)
    ensures forall i :: 0 <= i < |rows| ==>
              Some(Stores(rows, uni).value[i].name) == StoreName(rows[i], i + 1)
  {
    AllocateEachRuns(rows, |rows|, RowBase(uni), MakeStore);
  }

  /** The slugs are pairwise distinct, non-empty and lower-case
      slug-shaped. */
  lemma StoresSlugs(rows: seq<Row>, uni: UnicodeDb)
    requires forall i :: 0 <= i < |rows| ==> !NameCellIsNone(rows[i])
    ensures Stores(rows, uni).Ok?
    ensures forall i, j :: 0 <= i < j < |Stores(rows, uni).value| ==>
              Stores(rows, uni).value[i].slug != Stores(rows, uni).value[j].slug
    ensures forall i :: 0 <= i < |Stores(rows, uni).value| ==>
              Stores(rows, uni).value[i].slug != [] && IsSlugShaped(Stores(rows, uni).value[i].slug, IsLowerAlnum)
  {
    MakeStoreKeepsSlug();
    RowBaseShaped(uni);
    AllocateEachDistinct(rows, |rows|, RowBase(uni), MakeStore, (s: Store) => s.slug, IsLowerAlnum);
    AllocateEachShaped(rows, |rows|, RowBase(uni), MakeStore, (s: Store) => s.slug, IsLowerAlnum);
  }

  // ------------------------------------------------------- the store page

  /** `html.escape(field or placeholder)`: the escaped field when present,
      and otherwise the placeholder, which escaping leaves alone
      (`PlaceholdersPlain`). */
  function Shown(field: Option<string>, placeholder: string): (r: string)
    ensures IsMarkupSafe(placeholder) ==> IsMarkupSafe(r)
  {
    if Present(field) then Escape(field.value) else placeholder
  }

  /** No placeholder holds a character `html.escape` rewrites. */
  lemma PlaceholdersSafe()
    ensures IsMarkupSafe(NoCategory) && '&' !in NoCategory
    ensures IsMarkupSafe(NoAddress) && '&' !in NoAddress
    ensures IsMarkupSafe(NoRating) && '&' !in NoRating
    ensures IsMarkupSafe(NoReviews) && '&' !in NoReviews
    ensures IsMarkupSafe(NoStatus) && '&' !in NoStatus
    ensures IsMarkupSafe(NotProvided) && '&' !in NotProvided
  {
  }

  /** So showing a placeholder is showing it escaped, as the source
      does. */
  lemma PlaceholdersPlain(field: Option<string>)
    ensures Shown(field, NoCategory) == Escape(OrElse(field, NoCategory))
    ensures Shown(field, NoAddress) == Escape(OrElse(field, NoAddress))
    ensures Shown(field, NoRating) == Escape(OrElse(field, NoRating))
    ensures Shown(field, NoReviews) == Escape(OrElse(field, NoReviews))
    ensures Shown(field, NoStatus) == Escape(OrElse(field, NoStatus))
    ensures Shown(field, NotProvided) == Escape(OrElse(field, NotProvided))
    ensures Shown(field, "") == Escape(OrElse(field, ""))
  {
    PlaceholdersSafe();
    EscapeSafeIdentity(NoCategory);
    EscapeSafeIdentity(NoAddress);
    EscapeSafeIdentity(NoRating);
    EscapeSafeIdentity(NoReviews);
    EscapeSafeIdentity(NoStatus);
    EscapeSafeIdentity(NotProvided);
  }

  /** An entry of the contact panel: a link, or the text `未提供`. */
  datatype Entry = LinkEntry(href: string) | TextEntry(text: string)

  function EntryFor(field: Option<string>): Entry {
    if Present(field) then LinkEntry(Escape(field.value)) else TextEntry(NotProvided)
  }

  /** The highlight block: the list of escaped highlights, or the paragraph
      尚無補充描述。 when there are none (line 338). */
  datatype HighlightBlock = HighlightList(items: seq<string>) | NoHighlights

  /** The pieces `_render_store` fills in (lines 247-350). */
  datatype StorePage = StorePage(
    title: string,
    category: string,
    address: string,
    image: string,
    rating: string,
    reviews: string,
    status: string,
    hours: string,
    phoneButton: Option<string>,   // the escaped phone, in `tel:` and in the label
    mapButton: Option<string>,     // the escaped map URL
    adButton: Option<string>,      // the escaped advertising URL
    badges: seq<string>,
    highlights: HighlightBlock,
    phone: string,
    mapLink: Entry,
    adLinkShort: Entry)

  function RenderStore(store: Store): StorePage {
    StorePage(
      title := Escape(store.name),
      category := Shown(store.category, NoCategory),
      address := Shown(store.address, NoAddress),
      image := Shown(store.imageUrl, ""),
      rating := Shown(store.rating, NoRating),
      reviews := Shown(Some(store.reviews), NoReviews),
      status := Shown(store.status, NoStatus),
      hours := Shown(store.hours, ""),
      phoneButton := EscapedIfPresent(store.phone),
      mapButton := EscapedIfPresent(store.mapUrl),
      adButton := EscapedIfPresent(store.adLink),
      badges := EscapeAll(store.badges),
      highlights := if store.highlights != [] then HighlightList(EscapeAll(store.highlights)) else NoHighlights,
      phone := Shown(store.phone, NotProvided),
      mapLink := EntryFor(store.mapUrl),
      adLinkShort := EntryFor(store.adLink))
  }

  /** Each button of the action row is there exactly when its field is,
      and reads back as that field; the highlight block is the placeholder
      exactly when there are no highlights, and otherwise lists each one;
      a missing phone, map URL or advertising URL shows `未提供`. */
  lemma StorePageDecisions(store: Store)
    ensures RenderStore(store).phoneButton.Some? <==> Present(store.phone)
    ensures RenderStore(store).mapButton.Some? <==> Present(store.mapUrl)
    ensures RenderStore(store).adButton.Some? <==> Present(store.adLink)
    ensures Present(store.phone) ==> Unescape(RenderStore(store).phoneButton.value) == store.phone.value
    ensures Present(store.mapUrl) ==> Unescape(RenderStore(store).mapButton.value) == store.mapUrl.value
    ensures Present(store.adLink) ==> Unescape(RenderStore(store).adButton.value) == store.adLink.value
    ensures RenderStore(store).highlights.NoHighlights? <==> store.highlights == []
    ensures RenderStore(store).highlights.HighlightList? ==>
              |RenderStore(store).highlights.items| == |store.highlights| &&
              forall i :: 0 <= i < |store.highlights| ==>
                Unescape(RenderStore(store).highlights.items[i]) == store.highlights[i]
    ensures !Present(store.phone) ==> RenderStore(store).phone == NotProvided
    ensures RenderStore(store).mapLink.TextEntry? <==> !Present(store.mapUrl)
    ensures !Present(store.mapUrl) ==> RenderStore(store).mapLink == TextEntry(NotProvided)
    ensures RenderStore(store).adLinkShort.TextEntry? <==> !Present(store.adLink)
    ensures !Present(store.adLink) ==> RenderStore(store).adLinkShort == TextEntry(NotProvided)
  {
    if store.highlights != [] {
      forall i | 0 <= i < |store.highlights|
        ensures Unescape(RenderStore(store).highlights.items[i]) == store.highlights[i]
      {
        EscapeRoundTrip(store.highlights[i]);
      }
    }
  }

  /** Missing details show their placeholders. */
  lemma StorePagePlaceholders(store: Store)
    ensures !Present(store.category) ==> RenderStore(store).category == NoCategory
    ensures !Present(store.address) ==> RenderStore(store).address == NoAddress
    ensures !Present(store.rating) ==> RenderStore(store).rating == NoRating
    ensures store.reviews == [] ==> RenderStore(store).reviews == NoReviews
    ensures !Present(store.status) ==> RenderStore(store).status == NoStatus
    ensures !Present(store.hours) ==> RenderStore(store).hours == []
  {
  }

  /** Every text the page interpolates is safe inside markup. */
  lemma StorePageMarkupSafe(store: Store)
    ensures IsMarkupSafe(RenderStore(store).title) && IsMarkupSafe(RenderStore(store).category)
    ensures IsMarkupSafe(RenderStore(store).address) && IsMarkupSafe(RenderStore(store).image)
    ensures IsMarkupSafe(RenderStore(store).rating) && IsMarkupSafe(RenderStore(store).reviews)
    ensures IsMarkupSafe(RenderStore(store).status) && IsMarkupSafe(RenderStore(store).hours)
    ensures IsMarkupSafe(RenderStore(store).phone)
    ensures forall i :: 0 <= i < |RenderStore(store).badges| ==> IsMarkupSafe(RenderStore(store).badges[i])
    ensures RenderStore(store).highlights.HighlightList? ==>
              forall i :: 0 <= i < |RenderStore(store).highlights.items| ==>
                IsMarkupSafe(RenderStore(store).highlights.items[i])
    ensures RenderStore(store).mapLink.LinkEntry? ==> IsMarkupSafe(RenderStore(store).mapLink.href)
    ensures RenderStore(store).adLinkShort.LinkEntry? ==> IsMarkupSafe(RenderStore(store).adLinkShort.href)
  {
    PlaceholdersSafe();
  }

  // ------------------------------------------------------------ the index

  /** `stores/{slug}.html`; the slug goes in unescaped. */
  function StoreHref(slug: string): (h: string)
    ensures |h| == 7 + |slug| + 5 && h[7..7 + |slug|] == slug
    ensures IsSlugShaped(slug, IsLowerAlnum) ==> IsMarkupSafe(h)
  {
    var h := "stores/" + slug + ".html";
    assert forall i :: 7 <= i < 7 + |slug| ==> h[i] == slug[i - 7];
    h
  }

  /** The pieces of one index card (lines 133-170). */
  datatype StoreCard = StoreCard(
    name: string,
    category: string,        // data-category
    address: string,         // data-address
    image: string,
    categoryLabel: string,
    rating: string,
    reviews: string,
    addressLabel: string,
    status: string,
    hours: string,
    detailHref: string,
    mapButton: Option<string>)

  function IndexCard(store: Store): StoreCard {
    StoreCard(
      name := Escape(store.name),
      category := Shown(store.category, ""),
      address := Shown(store.address, ""),
      image := Shown(store.imageUrl, ""),
      categoryLabel := Shown(store.category, NoCategory),
      rating := Shown(store.rating, NoRating),
      reviews := Shown(Some(store.reviews), NoReviews),
      addressLabel := Shown(store.address, NoAddress),
      status := Shown(store.status, NoStatus),
      hours := Shown(store.hours, ""),
      detailHref := StoreHref(store.slug),
      mapButton := EscapedIfPresent(store.mapUrl))
  }

  /** The card has the map button exactly when there is a map URL; missing
      details show their placeholders, and the search attributes are empty
      instead; the detail link holds the slug. */
  lemma IndexCardDecisions(store: Store)
    ensures IndexCard(store).mapButton.Some? <==> Present(store.mapUrl)
    ensures Present(store.mapUrl) ==> Unescape(IndexCard(store).mapButton.value) == store.mapUrl.value
    ensures !Present(store.category) ==> IndexCard(store).categoryLabel == NoCategory && IndexCard(store).category == []
    ensures !Present(store.address) ==> IndexCard(store).addressLabel == NoAddress && IndexCard(store).address == []
    ensures !Present(store.rating) ==> IndexCard(store).rating == NoRating
    ensures store.reviews == [] ==> IndexCard(store).reviews == NoReviews
    ensures !Present(store.status) ==> IndexCard(store).status == NoStatus
    ensures IndexCard(store).detailHref[7..7 + |store.slug|] == store.slug
    ensures Unescape(IndexCard(store).name) == store.name
  {
    EscapeRoundTrip(store.name);
  }

  /** Every text a card interpolates is safe inside markup, the unescaped
      slug included, provided it is slug-shaped. */
  lemma IndexCardMarkupSafe(store: Store)
    requires IsSlugShaped(store.slug, IsLowerAlnum)
    ensures IsMarkupSafe(IndexCard(store).name) && IsMarkupSafe(IndexCard(store).category)
    ensures IsMarkupSafe(IndexCard(store).address) && IsMarkupSafe(IndexCard(store).image)
    ensures IsMarkupSafe(IndexCard(store).detailHref)
    ensures IndexCard(store).mapButton.Some? ==> IsMarkupSafe(IndexCard(store).mapButton.value)
  {
    PlaceholdersSafe();
  }

  /** The index page: the number of stores and their cards. */
  datatype IndexPage = IndexPage(count: nat, cards: seq<StoreCard>)

  /** `_render_index(stores)` (lines 130-244). */
  method RenderIndex(stores: seq<Store>) returns (page: IndexPage)
    ensures page.count == |stores| && |page.cards| == |stores|
    ensures forall i :: 0 <= i < |stores| ==> page.cards[i] == IndexCard(stores[i])
  {
    var cards := AppendEach(stores, IndexCard);
    page := IndexPage(|stores|, cards);
  }
}
