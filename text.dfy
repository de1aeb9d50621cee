/** String primitives shared by the three generators: Python's `str.strip`,
    `str.lstrip`, `str.replace(pat, "")`, character filtering, substring tests
    and `html.escape`. */
module Text {
  import opened Wrappers

  /** Python truthiness of an optional string: present and not empty. */
  predicate Present(o: Option<string>) {
    o.Some? && o.value != []
  }

  /** Python's `o or default` on an optional string. */
  function OrElse(o: Option<string>, default: string): string {
    if Present(o) then o.value else default
  }

  /** The characters Python's `str.isspace()` accepts, i.e. those that
      `str.strip()` without arguments removes. */
  predicate IsSpace(c: char) {
    c == ' ' || '\t' <= c <= '\r' || '\U{1C}' <= c <= '\U{1F}'
    || c == '\U{85}' || c == '\U{A0}' || c == '\U{1680}'
    || '\U{2000}' <= c <= '\U{200A}' || c == '\U{2028}' || c == '\U{2029}'
    || c == '\U{202F}' || c == '\U{205F}' || c == '\U{3000}'
  }

  predicate IsAscii(c: char) { c < '\U{80}' }

  predicate IsAsciiDigit(c: char) { '0' <= c <= '9' }

  predicate IsAsciiAlnum(c: char) {
    '0' <= c <= '9' || 'A' <= c <= 'Z' || 'a' <= c <= 'z'
  }

  predicate IsLowerAlnum(c: char) { '0' <= c <= '9' || 'a' <= c <= 'z' }

  /** The middle dot `·`, the bullet the scraped cells carry. */
  const MiddleDot: string := "\U{B7}"

  predicate IsMiddleDot(c: char) { c == '\U{B7}' }

  /** The characters that trimming whitespace and bullets never removes. */
  predicate IsContent(c: char) { !IsSpace(c) && !IsMiddleDot(c) }

  /** What trimming whitespace and bullets may remove. */
  predicate IsSpaceOrDot(c: char) { IsSpace(c) || IsMiddleDot(c) }

  predicate IsNotMiddleDot(c: char) { !IsMiddleDot(c) }

  predicate IsParen(c: char) { c == '(' || c == ')' }

  /** The Unicode database the generators consult through `unicodedata` and
      `str.isalnum`; it is foreign library behaviour, so it is a parameter. */
  datatype UnicodeDb = UnicodeDb(
    nfkd: string -> string,        // unicodedata.normalize("NFKD", _)
    isAlnum: char -> bool,         // str.isalnum on one character
    isSymbol: char -> bool)        // unicodedata.category(_).startswith("S")

  /** `str.lower()` on one character, for the ASCII text the slug code
      lowers: `A`-`Z` become `a`-`z`, everything else is left alone. */
  function LowerChar(c: char): (d: char)
    ensures IsLowerAlnum(d) <==> IsAsciiAlnum(c)
    ensures d == '-' <==> c == '-'
  {
    if 'A' <= c <= 'Z' then (c as int + 32) as char else c
  }

  /** `s.lower()` on ASCII text. */
  function Lower(s: string): (r: string)
    ensures |r| == |s| && forall i :: 0 <= i < |s| ==> r[i] == LowerChar(s[i])
    decreases |s|
  {
    if s == [] then [] else [LowerChar(s[0])] + Lower(s[1..])
  }

  /** Python's `s.lstrip(chars)`, the set of characters given as a predicate. */
  function LStrip(s: string, strip: char -> bool): (r: string)
    ensures |r| <= |s|
    ensures r == [] || !strip(r[0])
    decreases |s|
  {
    if s != [] && strip(s[0]) then LStrip(s[1..], strip) else s
  }

  lemma {:induction false} LeadingRunLStrip(s: string, strip: char -> bool)
    ensures LeadingRun(s, strip) == |s| - |LStrip(s, strip)|
    decreases |s|
  {
    if s != [] && strip(s[0]) {
      LeadingRunLStrip(s[1..], strip);
    }
  }

  /** `lstrip` removes a prefix, and only stripped characters. */
  lemma {:induction false} LStripSuffix(s: string, strip: char -> bool)
    ensures var r := LStrip(s, strip);
      r == s[|s| - |r|..] && forall i :: 0 <= i < |s| - |r| ==> strip(s[i])
    decreases |s|
  {
    if s != [] && strip(s[0]) {
      LStripSuffix(s[1..], strip);
      assert forall i :: 1 <= i < |s| ==> s[i] == s[1..][i - 1];
    }
  }

  /** Python's `s.rstrip(chars)`. */
  function RStrip(s: string, strip: char -> bool): (r: string)
    ensures |r| <= |s|
    ensures r == [] || !strip(r[|r| - 1])
    decreases |s|
  {
    if s != [] && strip(s[|s| - 1]) then RStrip(s[..|s| - 1], strip) else s
  }

  /** `rstrip` removes a suffix, and only stripped characters. */
  lemma {:induction false} RStripPrefix(s: string, strip: char -> bool)
    ensures var r := RStrip(s, strip);
      r == s[..|r|] && forall i :: |r| <= i < |s| ==> strip(s[i])
    decreases |s|
  {
    if s != [] && strip(s[|s| - 1]) {
      RStripPrefix(s[..|s| - 1], strip);
    }
  }

  /** `r` is the slice `s[i..i + |r|]`, and everything of `s` before and
      after it is a stripped character. */
  predicate TrimmedAt(r: string, s: string, strip: char -> bool, i: nat) {
    i + |r| <= |s| && r == s[i..i + |r|]
    && (forall k :: 0 <= k < i ==> strip(s[k]))
    && (forall k :: i + |r| <= k < |s| ==> strip(s[k]))
  }

  /** `r` is what is left of `s` once runs of stripped characters are cut
      off both ends. */
  ghost predicate IsTrimOf(r: string, s: string, strip: char -> bool) {
    exists i: nat :: TrimmedAt(r, s, strip, i)
  }

  /** Trimming a trim, with a class that covers both stripped classes, is a
      trim. */
  lemma TrimmedAtTrans(r: string, m: string, s: string, inner: char -> bool, outer: char -> bool,
                       every: char -> bool, i: nat, j: nat)
    requires TrimmedAt(m, s, outer, i) && TrimmedAt(r, m, inner, j)
    requires forall c :: outer(c) ==> every(c)
    requires forall c :: inner(c) ==> every(c)
    ensures TrimmedAt(r, s, every, i + j)
  {
    assert forall k :: 0 <= k < |m| ==> m[k] == s[i + k];
    forall k | 0 <= k < i + j ensures every(s[k]) {
      if k >= i { assert s[k] == m[k - i]; }
    }
    forall k | i + j + |r| <= k < |s| ensures every(s[k]) {
      if k < i + |m| { assert s[k] == m[k - i]; }
    }
  }

  /** `lstrip` is a trim at the front only. */
  lemma LStripTrimmed(s: string, strip: char -> bool)
    ensures TrimmedAt(LStrip(s, strip), s, strip, |s| - |LStrip(s, strip)|)
  {
    LStripSuffix(s, strip);
  }

  /** How many characters `lstrip` cuts off the front of `s`. */
  function LeadingRun(s: string, strip: char -> bool): (n: nat)
    ensures n <= |s|
    decreases |s|
  {
    if s != [] && strip(s[0]) then 1 + LeadingRun(s[1..], strip) else 0
  }

  /** Python's `s.strip(chars)`: both ends, as `str.strip` does. */
  function Strip(s: string, strip: char -> bool): (r: string)
    ensures |r| <= |s|
    ensures r != [] ==> !strip(r[0]) && !strip(r[|r| - 1])
  {
    var l := LStrip(s, strip);
    RStripPrefix(l, strip);
    RStrip(l, strip)
  }

  /** The result of `strip` is the slice of `s` left once a run of stripped
      characters is cut off each end: nothing inside it is touched. */
  lemma StripTrims(s: string, strip: char -> bool)
    ensures TrimmedAt(Strip(s, strip), s, strip, LeadingRun(s, strip))
  {
    var l := LStrip(s, strip);
    LStripSuffix(s, strip);
    RStripPrefix(l, strip);
    var r := RStrip(l, strip);
    var i := |s| - |l|;
    LeadingRunLStrip(s, strip);
    assert r == s[i..i + |r|];
    assert forall k :: i + |r| <= k < |s| ==> s[k] == l[k - i];
  }

  /** Stripping one class, then a second, then the first again, cuts a run
      of characters of either class off each end. */
  lemma StripThriceTrims(s: string, outer: char -> bool, inner: char -> bool, every: char -> bool)
    requires forall c :: outer(c) ==> every(c)
    requires forall c :: inner(c) ==> every(c)
    ensures IsTrimOf(Strip(Strip(Strip(s, outer), inner), outer), s, every)
  {
    var a := Strip(s, outer);
    var b := Strip(a, inner);
    var r := Strip(b, outer);
    var i, j, k := LeadingRun(s, outer), LeadingRun(a, inner), LeadingRun(b, outer);
    StripTrims(s, outer);
    StripTrims(a, inner);
    StripTrims(b, outer);
    TrimmedAtTrans(b, a, s, inner, outer, every, i, j);
    TrimmedAtTrans(r, b, s, outer, every, every, i + j, k);
  }

  /** Text with nothing to strip is left as it is. */
  lemma StripNoop(s: string, strip: char -> bool)
    requires forall i :: 0 <= i < |s| ==> !strip(s[i])
    ensures Strip(s, strip) == s
  {
  }

  lemma StripIdempotent(s: string, strip: char -> bool)
    ensures Strip(Strip(s, strip), strip) == Strip(s, strip)
  {
    var r := Strip(s, strip);
    if r != [] {
      assert LStrip(r, strip) == r;
      assert RStrip(r, strip) == r;
    }
  }

  /** A text in one pair of brackets, neither end of it a bracket: the
      brackets are what `strip("()")` removes, and whitespace stripping
      before it removes nothing. */
  lemma StripBrackets(g: string)
    requires g != [] && !IsParen(g[0]) && !IsParen(g[|g| - 1])
    ensures Strip(Strip("(" + g + ")", IsSpace), IsParen) == g
  {
    var cell := "(" + g + ")";
    var tail := g + ")";
    assert cell[0] == '(' && cell[|cell| - 1] == ')';
    assert LStrip(cell, IsSpace) == cell;
    assert RStrip(cell, IsSpace) == cell;
    assert cell[1..] == tail;
    assert LStrip(tail, IsParen) == tail by { assert tail[0] == g[0]; }
    assert LStrip(cell, IsParen) == tail;
    assert tail[..|g|] == g;
    assert RStrip(tail, IsParen) == g;
  }

  /** Python's `s.replace(pat, "")`: occurrences are removed left to right and
      without overlap, exactly as `str.replace` scans. */
  function RemoveAll(s: string, pat: string): (r: string)
    requires pat != []
    ensures |r| <= |s|
    ensures |pat| == 1 ==> pat[0] !in r
    decreases |s|
  {
    if |s| < |pat| then s
    else if s[..|pat|] == pat then RemoveAll(s[|pat|..], pat)
    else [s[0]] + RemoveAll(s[1..], pat)
  }

  /** The characters of `s` satisfying `keep`, in order (`re.sub` of the
      complement class with "", or `encode("ascii", "ignore")`). */
  function Filter(s: string, keep: char -> bool): (r: string)
    ensures |r| <= |s|
    ensures forall i :: 0 <= i < |r| ==> keep(r[i])
    ensures (forall i :: 0 <= i < |s| ==> keep(s[i])) ==> r == s
    ensures r == [] <==> forall i :: 0 <= i < |s| ==> !keep(s[i])
    decreases |s|
  {
    if s == [] then []
    else (if keep(s[0]) then [s[0]] else []) + Filter(s[1..], keep)
  }

  lemma {:induction false} FilterConcat(a: string, b: string, keep: char -> bool)
    ensures Filter(a + b, keep) == Filter(a, keep) + Filter(b, keep)
  {
    if a != [] {
      var head := if keep(a[0]) then [a[0]] else [];
      assert (a + b)[0] == a[0] && (a + b)[1..] == a[1..] + b;
      assert Filter(a + b, keep) == head + Filter(a[1..] + b, keep);
      FilterConcat(a[1..], b, keep);
      assert Filter(a, keep) == head + Filter(a[1..], keep);
    } else {
      assert a + b == b;
    }
  }

  /** Filtering by a class and then by a finer one is filtering by the
      finer one. */
  lemma {:induction false} FilterFilter(s: string, outer: char -> bool, inner: char -> bool)
    requires forall c :: inner(c) ==> outer(c)
    ensures Filter(Filter(s, outer), inner) == Filter(s, inner)
    decreases |s|
  {
    if s != [] {
      FilterFilter(s[1..], outer, inner);
      var head := if outer(s[0]) then [s[0]] else [];
      FilterConcat(head, Filter(s[1..], outer), inner);
    }
  }

  lemma {:induction false} LStripKeepsFilter(s: string, strip: char -> bool, keep: char -> bool)
    requires forall x :: strip(x) ==> !keep(x)
    ensures Filter(LStrip(s, strip), keep) == Filter(s, keep)
    decreases |s|
  {
    if s != [] && strip(s[0]) {
      LStripKeepsFilter(s[1..], strip, keep);
    }
  }

  lemma {:induction false} RStripKeepsFilter(s: string, strip: char -> bool, keep: char -> bool)
    requires forall x :: strip(x) ==> !keep(x)
    ensures Filter(RStrip(s, strip), keep) == Filter(s, keep)
    decreases |s|
  {
    if s != [] && strip(s[|s| - 1]) {
      var init := s[..|s| - 1];
      RStripKeepsFilter(init, strip, keep);
      assert s == init + [s[|s| - 1]];
      FilterConcat(init, [s[|s| - 1]], keep);
    }
  }

  /** Stripping removes no character of a class disjoint from the stripped
      characters. */
  lemma StripKeepsFilter(c: string, strip: char -> bool, keep: char -> bool)
    requires forall x :: strip(x) ==> !keep(x)
    ensures Filter(Strip(c, strip), keep) == Filter(c, keep)
  {
    LStripKeepsFilter(c, strip, keep);
    RStripKeepsFilter(LStrip(c, strip), strip, keep);
  }

  /** Removing every bullet is keeping everything else. */
  lemma {:induction false} RemoveDotsIsFilter(s: string)
    ensures RemoveAll(s, MiddleDot) == Filter(s, IsNotMiddleDot)
    decreases |s|
  {
    if s != [] {
      RemoveDotsIsFilter(s[1..]);
    }
  }

  /** Removing a single character is filtering out that character. */
  lemma {:induction false} RemoveCharIsFilter(s: string, c: char)
    ensures RemoveAll(s, [c]) == Filter(s, x => x != c)
    decreases |s|
  {
    if s != [] {
      RemoveCharIsFilter(s[1..], c);
    }
  }

  /** `replace(pat, "")` removes no character outside the pattern: those
      survive, in order. */
  lemma {:induction false} RemoveAllKeepsFilter(s: string, pat: string, keep: char -> bool)
    requires pat != []
    requires forall i :: 0 <= i < |pat| ==> !keep(pat[i])
    ensures Filter(RemoveAll(s, pat), keep) == Filter(s, keep)
    decreases |s|
  {
    if |s| >= |pat| {
      if s[..|pat|] == pat {
        RemoveAllKeepsFilter(s[|pat|..], pat, keep);
        assert s == pat + s[|pat|..];
        FilterConcat(pat, s[|pat|..], keep);
      } else {
        RemoveAllKeepsFilter(s[1..], pat, keep);
        var rest := RemoveAll(s[1..], pat);
        assert ([s[0]] + rest)[0] == s[0] && ([s[0]] + rest)[1..] == rest;
      }
    }
  }

  /** One left-to-right pass, as `str.replace` makes: removing an inner
      occurrence can join two halves into a new one, which stays. */
  lemma RemoveAllCanRejoin()
    ensures RemoveAll("\U{C2}\U{C2}\U{B7}\U{B7}", "\U{C2}\U{B7}") == "\U{C2}\U{B7}"
  {
    var s, pat := "\U{C2}\U{C2}\U{B7}\U{B7}", "\U{C2}\U{B7}";
    assert s[..2][1] != pat[1];
    assert RemoveAll(s, pat) == [s[0]] + RemoveAll(s[1..], pat);
    assert s[1..][..2] == pat;
    assert s[1..][2..] == "\U{B7}";
    assert RemoveAll("\U{B7}", pat) == "\U{B7}";
  }

  /** Lowering keeps exactly the letters and digits, lowered: filtering
      the lowered text by lower-case class is lowering the ASCII letters
      and digits of the original. */
  lemma {:induction false} LowerFilter(s: string)
    ensures Filter(Lower(s), IsLowerAlnum) == Lower(Filter(s, IsAsciiAlnum))
    decreases |s|
  {
    if s != [] {
      var t := Filter(s[1..], IsAsciiAlnum);
      LowerFilter(s[1..]);
      if IsAsciiAlnum(s[0]) {
        assert ([s[0]] + t)[0] == s[0] && ([s[0]] + t)[1..] == t;
      }
    }
  }

  predicate StartsWith(s: string, prefix: string) {
    |prefix| <= |s| && s[..|prefix|] == prefix
  }

  /** Python's `sub in s`. */
  predicate Contains(s: string, sub: string) {
    exists i | 0 <= i <= |s| - |sub| :: OccursAt(s, sub, i)
  }

  predicate OccursAt(s: string, sub: string, i: int) {
    0 <= i && i + |sub| <= |s| && s[i..i + |sub|] == sub
  }

  /** Characters that would break out of markup text or a quoted attribute. */
  predicate IsMarkupSpecial(c: char) {
    c == '<' || c == '>' || c == '"' || c == '\''
  }

  predicate IsMarkupSafe(s: string) {
    forall i :: 0 <= i < |s| ==> !IsMarkupSpecial(s[i])
  }

  function EscapeChar(c: char): string {
    if c == '&' then "&amp;"
    else if c == '<' then "&lt;"
    else if c == '>' then "&gt;"
    else if c == '"' then "&quot;"
    else if c == '\'' then "&#x27;"
    else [c]
  }

  /** Python's `html.escape(s)` (with `quote=True`, its default). */
  function Escape(s: string): (r: string)
    ensures IsMarkupSafe(r)
    ensures |r| >= |s|
    decreases |s|
  {
    if s == [] then [] else EscapeChar(s[0]) + Escape(s[1..])
  }

  /** Text that holds no special character is left as it is by escaping. */
  lemma {:induction false} EscapeSafeIdentity(s: string)
    requires IsMarkupSafe(s) && '&' !in s
    ensures Escape(s) == s
    decreases |s|
  {
    if s != [] {
      assert s[0] != '&' && !IsMarkupSpecial(s[0]);
      EscapeSafeIdentity(s[1..]);
    }
  }

  /** The reading a browser makes of the five entities `html.escape` writes:
      the inverse used to state that escaping loses nothing. */
  function Unescape(s: string): string
    decreases |s|
  {
    if s == [] then []
    else if StartsWith(s, "&amp;") then "&" + Unescape(s[5..])
    else if StartsWith(s, "&lt;") then "<" + Unescape(s[4..])
    else if StartsWith(s, "&gt;") then ">" + Unescape(s[4..])
    else if StartsWith(s, "&quot;") then "\"" + Unescape(s[6..])
    else if StartsWith(s, "&#x27;") then "'" + Unescape(s[6..])
    else [s[0]] + Unescape(s[1..])
  }

  /** One entity followed by more text: whichever earlier-tested entity the
      text does not start with, `Unescape` reads this one. */
  lemma UnescapeEntity(entity: string, c: char, t: string)
    requires entity == EscapeChar(c) && |entity| > 1
    ensures Unescape(entity + t) == [c] + Unescape(t)
  {
    var e := entity + t;
    var n := |entity|;
    assert e[..n] == entity && e[n..] == t;
    assert e[1] == entity[1];
    if c == '<' {
      assert !StartsWith(e, "&amp;") by { if |e| >= 5 { assert e[..5][1] == e[1]; } }
    } else if c == '>' {
      assert !StartsWith(e, "&amp;") by { if |e| >= 5 { assert e[..5][1] == e[1]; } }
      assert !StartsWith(e, "&lt;") by { assert e[..4][1] == e[1]; }
    } else if c == '"' {
      assert !StartsWith(e, "&amp;") by { assert e[..5][1] == e[1]; }
      assert !StartsWith(e, "&lt;") by { assert e[..4][1] == e[1]; }
      assert !StartsWith(e, "&gt;") by { assert e[..4][1] == e[1]; }
    } else if c == '\'' {
      assert !StartsWith(e, "&amp;") by { assert e[..5][1] == e[1]; }
      assert !StartsWith(e, "&lt;") by { assert e[..4][1] == e[1]; }
      assert !StartsWith(e, "&gt;") by { assert e[..4][1] == e[1]; }
      assert !StartsWith(e, "&quot;") by { assert e[..6][1] == e[1]; }
    }
  }

  /** A character `html.escape` leaves alone, followed by more text. */
  lemma UnescapePlain(c: char, t: string)
    requires |EscapeChar(c)| == 1
    ensures Unescape([c] + t) == [c] + Unescape(t)
  {
    var e := [c] + t;
    assert e[0] == c && e[1..] == t;
    assert c != '&';
    assert !StartsWith(e, "&amp;") && !StartsWith(e, "&lt;") && !StartsWith(e, "&gt;");
    assert !StartsWith(e, "&quot;") && !StartsWith(e, "&#x27;");
  }

  lemma UnescapeStep(c: char, t: string)
    ensures Unescape(EscapeChar(c) + t) == [c] + Unescape(t)
  {
    if |EscapeChar(c)| > 1 {
      UnescapeEntity(EscapeChar(c), c, t);
    } else {
      UnescapePlain(c, t);
    }
  }

  /** Escaping is lossless: unescaping its output gives back the input. */
  lemma {:induction false} EscapeRoundTrip(s: string)
    ensures Unescape(Escape(s)) == s
    decreases |s|
  {
    if s != [] {
      UnescapeStep(s[0], Escape(s[1..]));
      EscapeRoundTrip(s[1..]);
    }
  }

  /** `html.escape(field)` when the field is present and nothing
      otherwise: the optional buttons, links and chips of the pages, which
      are left out (`""`) when their field is missing. */
  function EscapedIfPresent(field: Option<string>): (e: Option<string>)
    ensures e.Some? <==> Present(field)
    ensures e.Some? ==> IsMarkupSafe(e.value) && Unescape(e.value) == field.value
  {
    if Present(field) then
      EscapeRoundTrip(field.value);
      Some(Escape(field.value))
    else None
  }

  /** `[html.escape(x) for x in xs]`. */
  function EscapeAll(xs: seq<string>): (r: seq<string>)
    ensures |r| == |xs|
    ensures forall i :: 0 <= i < |r| ==> r[i] == Escape(xs[i])
  {
    seq(|xs|, i requires 0 <= i < |xs| => Escape(xs[i]))
  }

  /** Python's `sep.join(xs)`. */
  function Join(sep: string, xs: seq<string>): string
    decreases |xs|
  {
    if xs == [] then []
    else if |xs| == 1 then xs[0]
    else xs[0] + sep + Join(sep, xs[1..])
  }
}
