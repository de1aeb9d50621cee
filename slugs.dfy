/** URL slugs: the regular-expression collapse `re.sub(r"[^...]+", "-", s)`
    followed by `.strip("-")`, the shape every slug has, and the allocation of
    a unique slug against the set of slugs already handed out. */
module Slugs {
  import opened Wrappers
  import opened Text
  import opened Decimal

  predicate IsDash(c: char) { c == '-' }

  predicate NoDoubleDash(s: string) {
    forall i :: 0 <= i < |s| - 1 ==> !(s[i] == '-' && s[i + 1] == '-')
  }

  /** Only `-` and characters of the kept class, no `-` at either end and
      never `--`. */
  predicate IsSlugShaped(s: string, keep: char -> bool) {
    && (forall i :: 0 <= i < |s| ==> s[i] == '-' || keep(s[i]))
    && (s != [] ==> s[0] != '-' && s[|s| - 1] != '-')
    && NoDoubleDash(s)
  }

  /** The rest of a run of characters outside the kept class. */
  function DropRun(s: string, keep: char -> bool): (r: string)
    ensures |r| <= |s| && (r == [] || keep(r[0]))
    decreases |s|
  {
    if s != [] && !keep(s[0]) then DropRun(s[1..], keep) else s
  }

  /** The dropped run holds no class character. */
  lemma {:induction false} DropRunKeepsFilter(s: string, keep: char -> bool)
    ensures Filter(DropRun(s, keep), keep) == Filter(s, keep)
    decreases |s|
  {
    if s != [] && !keep(s[0]) {
      DropRunKeepsFilter(s[1..], keep);
    }
  }

  /** `re.sub(r"[^K]+", "-", s)` for the character class K given by `keep`:
      every maximal run of characters outside K becomes one `-`. */
  function Collapse(s: string, keep: char -> bool): (r: string)
    requires !keep('-')
    ensures forall i :: 0 <= i < |r| ==> r[i] == '-' || keep(r[i])
    ensures NoDoubleDash(r)
    ensures s == [] <==> r == []
    ensures s != [] ==> (keep(s[0]) ==> r[0] == s[0]) && (!keep(s[0]) ==> r[0] == '-')
    decreases |s|
  {
    if s == [] then []
    else if keep(s[0]) then [s[0]] + Collapse(s[1..], keep)
    else "-" + Collapse(DropRun(s[1..], keep), keep)
  }

  /** The collapse keeps the class characters of `s`, in order. */
  lemma {:induction false} CollapseKeepsFilter(s: string, keep: char -> bool)
    requires !keep('-')
    ensures Filter(Collapse(s, keep), keep) == Filter(s, keep)
    decreases |s|
  {
    if s != [] {
      if keep(s[0]) {
        CollapseKeepsFilter(s[1..], keep);
        assert Filter([s[0]] + Collapse(s[1..], keep), keep) == [s[0]] + Filter(Collapse(s[1..], keep), keep) by {
          FilterConcat([s[0]], Collapse(s[1..], keep), keep);
        }
      } else {
        var d := DropRun(s[1..], keep);
        DropRunKeepsFilter(s[1..], keep);
        CollapseKeepsFilter(d, keep);
        FilterConcat("-", Collapse(d, keep), keep);
      }
    }
  }

  /** Text made only of class characters is left as it is. */
  lemma {:induction false} CollapseClassRun(s: string, keep: char -> bool)
    requires !keep('-')
    requires forall i :: 0 <= i < |s| ==> keep(s[i])
    ensures Collapse(s, keep) == s
    decreases |s|
  {
    if s != [] {
      CollapseClassRun(s[1..], keep);
    }
  }

  /** A run outside the class ends at the first class character, so what
      follows that character is not touched. */
  lemma {:induction false} DropRunConcat(a: string, b: string, keep: char -> bool)
    requires a != [] && keep(a[|a| - 1])
    ensures DropRun(a + b, keep) == DropRun(a, keep) + b
    decreases |a|
  {
    assert (a + b)[0] == a[0];
    if !keep(a[0]) {
      assert (a + b)[1..] == a[1..] + b;
      DropRunConcat(a[1..], b, keep);
    }
  }

  /** The rest of a run is a suffix of the text. */
  lemma {:induction false} DropRunSuffix(s: string, keep: char -> bool)
    ensures DropRun(s, keep) == s[|s| - |DropRun(s, keep)|..]
    decreases |s|
  {
    if s != [] && !keep(s[0]) {
      DropRunSuffix(s[1..], keep);
    }
  }

  /** A whole run outside the class is dropped, up to what follows it. */
  lemma {:induction false} DropRunSkips(sep: string, b: string, keep: char -> bool)
    requires forall i :: 0 <= i < |sep| ==> !keep(sep[i])
    requires b == [] || keep(b[0])
    ensures DropRun(sep + b, keep) == b
    decreases |sep|
  {
    if sep != [] {
      assert (sep + b)[0] == sep[0] && (sep + b)[1..] == sep[1..] + b;
      DropRunSkips(sep[1..], b, keep);
    } else {
      assert sep + b == b;
    }
  }

  /** A leading class character is copied, whatever follows. */
  lemma CollapseClassHead(a: string, b: string, keep: char -> bool)
    requires !keep('-')
    requires a != [] && keep(a[0])
    ensures Collapse(a + b, keep) == [a[0]] + Collapse(a[1..] + b, keep)
  {
    assert (a + b)[0] == a[0] && (a + b)[1..] == a[1..] + b;
  }

  /** A leading run outside the class that ends inside `a` becomes one `-`,
      and collapsing goes on after it. */
  lemma CollapseRunHead(a: string, b: string, keep: char -> bool)
    requires !keep('-')
    requires a != [] && !keep(a[0]) && keep(a[|a| - 1])
    ensures Collapse(a + b, keep) == "-" + Collapse(DropRun(a[1..], keep) + b, keep)
  {
    assert (a + b)[0] == a[0] && (a + b)[1..] == a[1..] + b;
    DropRunConcat(a[1..], b, keep);
  }

  /** Text that ends in a class character collapses apart from what
      follows it: no run is cut in two there. */
  lemma {:induction false} CollapseConcat(a: string, b: string, keep: char -> bool)
    requires !keep('-')
    requires a == [] || keep(a[|a| - 1])
    ensures Collapse(a + b, keep) == Collapse(a, keep) + Collapse(b, keep)
    decreases |a|
  {
    if a == [] {
      assert a + b == b;
    } else if keep(a[0]) {
      var rest := a[1..];
      assert rest == [] || keep(rest[|rest| - 1]);
      CollapseConcat(rest, b, keep);
      CollapseClassHead(a, b, keep);
    } else {
      var rest := a[1..];
      var d := DropRun(rest, keep);
      DropRunSuffix(rest, keep);
      assert d == [] || d[|d| - 1] == rest[|rest| - 1];
      CollapseConcat(d, b, keep);
      CollapseRunHead(a, b, keep);
    }
  }

  /** A run outside the class in front of a class character collapses to
      one `-`. */
  lemma CollapseRunFirst(sep: string, b: string, keep: char -> bool)
    requires !keep('-')
    requires sep != [] && forall i :: 0 <= i < |sep| ==> !keep(sep[i])
    requires b == [] || keep(b[0])
    ensures Collapse(sep + b, keep) == "-" + Collapse(b, keep)
  {
    var tail := sep + b;
    assert tail[0] == sep[0] && tail[1..] == sep[1..] + b;
    DropRunSkips(sep[1..], b, keep);
  }

  /** The separator between two runs of class characters becomes exactly
      one `-`, in its place: `Collapse(a + sep + b)` is
      `Collapse(a) + "-" + Collapse(b)`. */
  lemma {:induction false} CollapseSeparator(a: string, sep: string, b: string, keep: char -> bool)
    requires !keep('-')
    requires a == [] || keep(a[|a| - 1])
    requires sep != [] && forall i :: 0 <= i < |sep| ==> !keep(sep[i])
    requires b == [] || keep(b[0])
    ensures Collapse(a + sep + b, keep) == Collapse(a, keep) + "-" + Collapse(b, keep)
  {
    assert a + sep + b == a + (sep + b);
    CollapseConcat(a, sep + b, keep);
    CollapseRunFirst(sep, b, keep);
  }

  /** Cutting a piece out of dash-separated text keeps it dash-separated. */
  lemma SliceKeepsClass(c: string, a: nat, b: nat, keep: char -> bool)
    requires a <= b <= |c|
    requires forall i :: 0 <= i < |c| ==> c[i] == '-' || keep(c[i])
    requires NoDoubleDash(c)
    ensures forall i :: 0 <= i < b - a ==> c[a..b][i] == '-' || keep(c[a..b][i])
    ensures NoDoubleDash(c[a..b])
  {
    assert forall i :: 0 <= i < b - a ==> c[a..b][i] == c[a + i];
  }

  lemma StripDashShaped(c: string, keep: char -> bool)
    requires forall i :: 0 <= i < |c| ==> c[i] == '-' || keep(c[i])
    requires NoDoubleDash(c)
    ensures IsSlugShaped(Strip(c, IsDash), keep)
  {
    var l := LStrip(c, IsDash);
    LStripSuffix(c, IsDash);
    RStripPrefix(l, IsDash);
    SliceKeepsClass(c, |c| - |l|, |c|, keep);
    assert c[|c| - |l|..|c|] == l;
    SliceKeepsClass(l, 0, |RStrip(l, IsDash)|, keep);
    assert l[0..|RStrip(l, IsDash)|] == RStrip(l, IsDash);
  }

  /** The collapse followed by `.strip("-")`. */
  function SlugBase(s: string, keep: char -> bool): (r: string)
    requires !keep('-')
    ensures IsSlugShaped(r, keep)
    ensures Filter(r, keep) == Filter(s, keep)
  {
    var c := Collapse(s, keep);
    CollapseKeepsFilter(s, keep);
    StripDashShaped(c, keep);
    StripKeepsFilter(c, IsDash, keep);
    Strip(c, IsDash)
  }

  /** Two words of class characters with a separator between them give the
      words joined by one `-`, as `"a b"` gives `"a-b"`. */
  lemma SlugBaseJoin(a: string, sep: string, b: string, keep: char -> bool)
    requires !keep('-')
    requires a != [] && forall i :: 0 <= i < |a| ==> keep(a[i])
    requires sep != [] && forall i :: 0 <= i < |sep| ==> !keep(sep[i])
    requires b != [] && forall i :: 0 <= i < |b| ==> keep(b[i])
    ensures SlugBase(a + sep + b, keep) == a + "-" + b
  {
    CollapseSeparator(a, sep, b, keep);
    CollapseClassRun(a, keep);
    CollapseClassRun(b, keep);
    var c := a + "-" + b;
    assert c[0] == a[0] && c[|c| - 1] == b[|b| - 1];
    assert LStrip(c, IsDash) == c;
    assert RStrip(c, IsDash) == c;
  }

  /** The base is empty exactly when the name has no character of the kept
      class; only then does a generator fall back to its numbered default. */
  lemma SlugBaseEmptyIff(s: string, keep: char -> bool)
    requires !keep('-')
    ensures SlugBase(s, keep) == [] <==> forall i :: 0 <= i < |s| ==> !keep(s[i])
  {
    var r := SlugBase(s, keep);
    if r != [] {
      assert keep(r[0]);
      assert Filter(r, keep) != [];
    }
  }

  /** `f"{base}-{k}"`. */
  function Suffixed(base: string, k: nat): string {
    base + "-" + NatStr(k)
  }

  /** Appending `-` and a number to a non-empty slug gives a slug, provided
      digits belong to the kept class. */
  lemma SuffixedShaped(base: string, k: nat, keep: char -> bool)
    requires base != [] && IsSlugShaped(base, keep)
    requires forall c :: IsAsciiDigit(c) ==> keep(c)
    ensures IsSlugShaped(Suffixed(base, k), keep) && Suffixed(base, k) != []
  {
    var s, d := Suffixed(base, k), NatStr(k);
    assert forall i :: |base| < i < |s| ==> s[i] == d[i - |base| - 1];
  }

  lemma SuffixedInjective(base: string, j: nat, k: nat)
    ensures Suffixed(base, j) == Suffixed(base, k) ==> j == k
  {
    if Suffixed(base, j) == Suffixed(base, k) {
      assert NatStr(j) == Suffixed(base, j)[|base| + 1..];
      assert NatStr(k) == Suffixed(base, k)[|base| + 1..];
      NatStrInjective(j, k);
    }
  }

  /** The suffixed candidates tried before suffix `k`. */
  ghost function Probed(base: string, k: nat): set<string> {
    set j: nat | 2 <= j < k :: Suffixed(base, j)
  }

  lemma {:induction false} ProbedSize(base: string, k: nat)
    requires k >= 2
    ensures |Probed(base, k)| == k - 2
    decreases k
  {
    if k == 2 {
      assert Probed(base, k) == {};
    } else {
      ProbedSize(base, k - 1);
      var last := Suffixed(base, k - 1);
      assert Probed(base, k) == Probed(base, k - 1) + {last};
      forall j: nat | 2 <= j < k - 1 ensures Suffixed(base, j) != last {
        SuffixedInjective(base, j, k - 1);
      }
    }
  }

  /** A run of taken candidates can be no longer than the set of taken slugs;
      this is why the suffix search stops. */
  lemma ProbedBound(base: string, used: set<string>, k: nat)
    requires k >= 2
    requires forall j: nat :: 2 <= j < k ==> Suffixed(base, j) in used
    ensures k - 2 <= |used|
  {
    ProbedSize(base, k);
    var p := Probed(base, k);
    assert p <= used;
    assert used == p + (used - p) && p * (used - p) == {};
  }

  /** The first free suffix from `k` on, when every suffix from 2 up to `k`
      is taken. */
  function FreeSuffix(base: string, used: set<string>, k: nat): (m: nat)
    requires k >= 2
    requires forall j: nat :: 2 <= j < k ==> Suffixed(base, j) in used
    ensures m >= k && Suffixed(base, m) !in used
    ensures forall j: nat :: 2 <= j < m ==> Suffixed(base, j) in used
    decreases |used| + 2 - k
  {
    if Suffixed(base, k) !in used then k
    else
      ProbedBound(base, used, k + 1);
      FreeSuffix(base, used, k + 1)
  }

  /** `k` is the smallest suffix of at least 2 whose candidate is free. */
  ghost predicate IsLeastFreeSuffix(base: string, used: set<string>, k: nat) {
    && k >= 2
    && Suffixed(base, k) !in used
    && forall j: nat :: 2 <= j < k ==> Suffixed(base, j) in used
  }

  /** The slug handed out for `base` when `used` holds the slugs handed out so
      far: the base itself when free, otherwise `base-k` for the least free
      `k >= 2`. */
  function Allocate(base: string, used: set<string>): (r: string)
    ensures r !in used
    ensures base !in used ==> r == base
    ensures base in used ==> exists k :: IsLeastFreeSuffix(base, used, k) && r == Suffixed(base, k)
  {
    if base !in used then base
    else
      var k := FreeSuffix(base, used, 2);
      assert IsLeastFreeSuffix(base, used, k);
      Suffixed(base, k)
  }

  lemma LeastFreeSuffixUnique(base: string, used: set<string>, k: nat, m: nat)
    requires IsLeastFreeSuffix(base, used, k) && IsLeastFreeSuffix(base, used, m)
    ensures k == m
  {
  }

  /** A slug handed out for a well-formed base is itself well formed. */
  lemma AllocateShaped(base: string, used: set<string>, keep: char -> bool)
    requires base != [] && IsSlugShaped(base, keep)
    requires forall c :: IsAsciiDigit(c) ==> keep(c)
    ensures Allocate(base, used) != [] && IsSlugShaped(Allocate(base, used), keep)
  {
    if base in used {
      SuffixedShaped(base, FreeSuffix(base, used, 2), keep);
    }
  }

  /** Lowering ASCII text keeps a slug's shape, moving it into the
      lower-case class. */
  lemma LowerShaped(s: string)
    requires IsSlugShaped(s, IsAsciiAlnum)
    ensures IsSlugShaped(Lower(s), IsLowerAlnum)
  {
  }

  /** The slugs handed out to `bases` in turn, starting from the slugs
      `used`, and the set of slugs handed out afterwards. */
  function AllocateAll(bases: seq<string>, used: set<string>): (r: (seq<string>, set<string>))
    ensures |r.0| == |bases|
    decreases |bases|
  {
    if bases == [] then ([], used)
    else
      var slug := Allocate(bases[0], used);
      var rest := AllocateAll(bases[1..], used + {slug});
      ([slug] + rest.0, rest.1)
  }

  /** Allocating one more base extends the run by that base's slug, taken
      against everything handed out before it. */
  lemma {:induction false} AllocateAllSnoc(bases: seq<string>, base: string, used: set<string>)
    ensures var (slugs, after) := AllocateAll(bases, used);
      AllocateAll(bases + [base], used) == (slugs + [Allocate(base, after)], after + {Allocate(base, after)})
    decreases |bases|
  {
    if bases == [] {
      assert bases + [base] == [base];
      assert [base][1..] == [];
      var slug := Allocate(base, used);
      assert AllocateAll([base], used) == ([slug] + [], used + {slug});
      assert [slug] + [] == [] + [slug];
    } else {
      var slug := Allocate(bases[0], used);
      AllocateAllSnoc(bases[1..], base, used + {slug});
      assert (bases + [base])[0] == bases[0];
      assert (bases + [base])[1..] == bases[1..] + [base];
      var rest := AllocateAll(bases[1..], used + {slug});
      var next := Allocate(base, rest.1);
      assert AllocateAll(bases, used) == ([slug] + rest.0, rest.1);
      assert AllocateAll(bases + [base], used) == ([slug] + (rest.0 + [next]), rest.1 + {next});
      assert [slug] + (rest.0 + [next]) == ([slug] + rest.0) + [next];
    }
  }

  /** One slug per base; each is new, no two are equal, and the slug set
      grows by exactly these slugs. */
  lemma {:induction false} AllocateAllFresh(bases: seq<string>, used: set<string>)
    ensures var (slugs, after) := AllocateAll(bases, used);
      && (forall x :: x in after <==> x in used || x in slugs)
      && (forall i :: 0 <= i < |slugs| ==> slugs[i] !in used)
      && (forall i, j :: 0 <= i < j < |slugs| ==> slugs[i] != slugs[j])
    decreases |bases|
  {
    if bases != [] {
      var slug := Allocate(bases[0], used);
      AllocateAllFresh(bases[1..], used + {slug});
      var rest := AllocateAll(bases[1..], used + {slug}).0;
      var slugs := AllocateAll(bases, used).0;
      assert slugs == [slug] + rest;
      assert forall i :: 1 <= i < |slugs| ==> slugs[i] == rest[i - 1];
    }
  }

  /** Well-formed bases give well-formed slugs. */
  lemma {:induction false} AllocateAllShaped(bases: seq<string>, used: set<string>, keep: char -> bool)
    requires forall c :: IsAsciiDigit(c) ==> keep(c)
    ensures var slugs := AllocateAll(bases, used).0;
      forall i :: 0 <= i < |slugs| && bases[i] != [] && IsSlugShaped(bases[i], keep) ==>
        slugs[i] != [] && IsSlugShaped(slugs[i], keep)
    decreases |bases|
  {
    if bases != [] {
      var slug := Allocate(bases[0], used);
      if bases[0] != [] && IsSlugShaped(bases[0], keep) {
        AllocateShaped(bases[0], used, keep);
      }
      AllocateAllShaped(bases[1..], used + {slug}, keep);
      var rest := AllocateAll(bases[1..], used + {slug}).0;
      var slugs := AllocateAll(bases, used).0;
      assert slugs == [slug] + rest;
      assert forall i :: 1 <= i < |slugs| ==> slugs[i] == rest[i - 1] && bases[i] == bases[1..][i - 1];
    }
  }

  /** The set of slugs a generator has handed out in one run (`seen_slugs`,
      `used_slugs`, `existing_slugs`), which the allocation steps update. */
  class SlugRegistry {
    var used: set<string>

    constructor ()
      ensures used == {}
    {
      used := {};
    }

    /** The probing loop of `slugify` and `_slugify`: try the base, then
        `base-2`, `base-3`, ... while the candidate is taken, and record the
        first free one. */
    method Claim(base: string) returns (slug: string)
      modifies this
      ensures slug == Allocate(base, old(used))
      ensures used == old(used) + {slug}
    {
      var existing := used;
      var candidate := base;
      var suffix: nat := 2;
      while candidate in existing
        invariant suffix >= 2
        invariant suffix == 2 ==> candidate == base
        invariant suffix > 2 ==> base in existing && candidate == Suffixed(base, suffix - 1)
        invariant forall j: nat :: 2 <= j < suffix - 1 ==> Suffixed(base, j) in existing
        invariant suffix <= |existing| + 3
        decreases |existing| + 3 - suffix
      {
        ProbedBound(base, existing, suffix);
        candidate := Suffixed(base, suffix);
        suffix := suffix + 1;
      }
      if suffix > 2 {
        var k := suffix - 1;
        assert IsLeastFreeSuffix(base, existing, k);
        assert IsLeastFreeSuffix(base, existing, FreeSuffix(base, existing, 2));
        LeastFreeSuffixUnique(base, existing, k, FreeSuffix(base, existing, 2));
      }
      used := existing + {candidate};
      slug := candidate;
    }
  }
  // ------------------------------------------------- one generator's loop

  /** The bases of the first `n` items, in order. */
  function BasesOf<T>(items: seq<T>, n: nat, base: (T, nat) -> string): (bs: seq<string>)
    requires n <= |items|
    ensures |bs| == n
    ensures forall i :: 0 <= i < n ==> bs[i] == base(items[i], i)
    decreases n
  {
    if n == 0 then [] else BasesOf(items, n - 1, base) + [base(items[n - 1], n - 1)]
  }

  /** A generator's loop over its first `n` items: item `i` gets the slug
      its base is allocated against every slug handed out before it, and
      then becomes a record, or stops the loop (`None`: the source raises).
      The result is the records with the slug set, or the position that
      stopped the loop. */
  function AllocateEach<T, R>(items: seq<T>, n: nat, base: (T, nat) -> string,
                              make: (T, nat, string) -> Option<R>): (r: Result<(seq<R>, set<string>), nat>)
    requires n <= |items|
    ensures r.Ok? ==> |r.value.0| == n
    ensures r.Err? ==> r.error < n
    decreases n
  {
    if n == 0 then Ok(([], {}))
    else
      match AllocateEach(items, n - 1, base, make)
      case Err(i) => Err(i)
      case Ok(prev) =>
        var slug := Allocate(base(items[n - 1], n - 1), prev.1);
        match make(items[n - 1], n - 1, slug)
        case None => Err(n - 1)
        case Some(x) => Ok((prev.0 + [x], prev.1 + {slug}))
  }

  /** Once the loop has stopped, later items change nothing. */
  lemma {:induction false} AllocateEachStopped<T, R>(items: seq<T>, m: nat, n: nat, base: (T, nat) -> string,
                                                     make: (T, nat, string) -> Option<R>)
    requires m <= n <= |items| && AllocateEach(items, m, base, make).Err?
    ensures AllocateEach(items, n, base, make) == AllocateEach(items, m, base, make)
    decreases n
  {
    if n > m {
      AllocateEachStopped(items, m, n - 1, base, make);
    }
  }

  /** When every item makes a record, the loop runs through: record `i` is
      made with the `i`-th slug `AllocateAll` hands the bases, and the slug
      set is the one `AllocateAll` ends with. */
  lemma {:induction false} AllocateEachRuns<T, R>(items: seq<T>, n: nat, base: (T, nat) -> string,
                                                  make: (T, nat, string) -> Option<R>)
    requires n <= |items|
    requires forall j, s :: 0 <= j < n ==> make(items[j], j, s).Some?
    ensures AllocateEach(items, n, base, make).Ok?
    ensures AllocateEach(items, n, base, make).value.1 == AllocateAll(BasesOf(items, n, base), {}).1
    ensures forall i :: 0 <= i < n ==>
              Some(AllocateEach(items, n, base, make).value.0[i]) ==
                make(items[i], i, AllocateAll(BasesOf(items, n, base), {}).0[i])
    decreases n
  {
    if n > 0 {
      AllocateEachRuns(items, n - 1, base, make);
      AllocateAllSnoc(BasesOf(items, n - 1, base), base(items[n - 1], n - 1), {});
    }
  }

  /** The first item that makes no record stops the loop, and the loop
      reports its position. */
  lemma AllocateEachFirstStop<T, R>(items: seq<T>, n: nat, i: nat, base: (T, nat) -> string,
                                    make: (T, nat, string) -> Option<R>)
    requires i < n <= |items|
    requires forall j, s :: 0 <= j < i ==> make(items[j], j, s).Some?
    requires forall s :: make(items[i], i, s).None?
    ensures AllocateEach(items, n, base, make) == Err(i)
  {
    AllocateEachRuns(items, i, base, make);
    AllocateEachStopped(items, i + 1, n, base, make);
  }

  /** The records carry pairwise distinct slugs, and well-formed bases give
      well-formed ones, when `slugOf` reads back the slug a record was made
      with. */
  lemma AllocateEachDistinct<T, R>(items: seq<T>, n: nat, base: (T, nat) -> string,
                                   make: (T, nat, string) -> Option<R>, slugOf: R -> string,
                                   keep: char -> bool)
    requires n <= |items|
    requires forall j, s :: 0 <= j < n ==> make(items[j], j, s).Some?
    requires forall t, j, s :: make(t, j, s).Some? ==> slugOf(make(t, j, s).value) == s
    requires forall c :: IsAsciiDigit(c) ==> keep(c)
    ensures AllocateEach(items, n, base, make).Ok?
    ensures forall i, j :: 0 <= i < j < n ==>
              slugOf(AllocateEach(items, n, base, make).value.0[i]) !=
                slugOf(AllocateEach(items, n, base, make).value.0[j])
    ensures forall i :: 0 <= i < n && base(items[i], i) != [] && IsSlugShaped(base(items[i], i), keep) ==>
              slugOf(AllocateEach(items, n, base, make).value.0[i]) != [] &&
              IsSlugShaped(slugOf(AllocateEach(items, n, base, make).value.0[i]), keep)
  {
    AllocateEachRuns(items, n, base, make);
    AllocateAllFresh(BasesOf(items, n, base), {});
    AllocateAllShaped(BasesOf(items, n, base), {}, keep);
    var records := AllocateEach(items, n, base, make).value.0;
    var slugs := AllocateAll(BasesOf(items, n, base), {}).0;
    assert forall i :: 0 <= i < n ==> slugOf(records[i]) == slugs[i] by {
      forall i | 0 <= i < n
        ensures slugOf(records[i]) == slugs[i]
      {
        assert Some(records[i]) == make(items[i], i, slugs[i]);
      }
    }
  }

  /** When every base is well formed, so is every slug handed out. */
  lemma AllocateEachShaped<T, R>(items: seq<T>, n: nat, base: (T, nat) -> string,
                                 make: (T, nat, string) -> Option<R>, slugOf: R -> string,
                                 keep: char -> bool)
    requires n <= |items|
    requires forall j, s :: 0 <= j < n ==> make(items[j], j, s).Some?
    requires forall t, j, s :: make(t, j, s).Some? ==> slugOf(make(t, j, s).value) == s
    requires forall t, j :: base(t, j) != [] && IsSlugShaped(base(t, j), keep)
    requires forall c :: IsAsciiDigit(c) ==> keep(c)
    ensures AllocateEach(items, n, base, make).Ok?
    ensures forall i :: 0 <= i < n ==>
              slugOf(AllocateEach(items, n, base, make).value.0[i]) != [] &&
              IsSlugShaped(slugOf(AllocateEach(items, n, base, make).value.0[i]), keep)
  {
    AllocateEachDistinct(items, n, base, make, slugOf, keep);
  }

  /** The loop of a generator, claiming every slug from one registry. */
  method ClaimEach<T, R>(items: seq<T>, base: (T, nat) -> string, make: (T, nat, string) -> Option<R>)
    returns (r: Result<seq<R>, nat>)
    ensures r.Ok? <==> AllocateEach(items, |items|, base, make).Ok?
    ensures r.Ok? ==> r.value == AllocateEach(items, |items|, base, make).value.0
    ensures r.Err? ==> r.error == AllocateEach(items, |items|, base, make).error
  {
    var registry := new SlugRegistry();
    var records: seq<R> := [];
    for i := 0 to |items|
      invariant AllocateEach(items, i, base, make) == Ok((records, registry.used))
    {
      var slug := registry.Claim(base(items[i], i));
      var record := make(items[i], i, slug);
      if record.None? {
        AllocateEachStopped(items, i + 1, |items|, base, make);
        return Err(i);
      }
      records := records + [record.value];
    }
    r := Ok(records);
  }
}
