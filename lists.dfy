/** List idioms the generators use: "append if not already present" (an
    ordered, de-duplicated list) and `sorted({...})` of a set of strings. */
module Lists {
  import opened Wrappers

  predicate NoDup<T(==)>(xs: seq<T>) {
    forall i, j :: 0 <= i < j < |xs| ==> xs[i] != xs[j]
  }

  /** `if x not in acc: acc.append(x)`. */
  function AppendNew<T(==)>(acc: seq<T>, x: T): seq<T> {
    if x in acc then acc else acc + [x]
  }

  /** The list a loop builds by `AppendNew` over `xs` from left to right. */
  function Dedup<T(==,!new)>(xs: seq<T>): (r: seq<T>)
    ensures NoDup(r)
    ensures forall x :: x in r <==> x in xs
    ensures |r| <= |xs|
    decreases |xs|
  {
    if xs == [] then [] else AppendNew(Dedup(xs[..|xs| - 1]), xs[|xs| - 1])
  }

  lemma DedupSnoc<T(!new)>(xs: seq<T>, y: T)
    ensures Dedup(xs + [y]) == AppendNew(Dedup(xs), y)
  {
    assert (xs + [y])[..|xs|] == xs;
  }

  /** The values of the `Some` entries, in order: the list a loop builds by
      appending each result that is not `None`. */
  function Somes<T(==,!new)>(xs: seq<Option<T>>): (r: seq<T>)
    ensures |r| <= |xs|
    ensures forall x :: x in r <==> Some(x) in xs
    decreases |xs|
  {
    if xs == [] then []
    else
      var o := xs[|xs| - 1];
      Somes(xs[..|xs| - 1]) + (if o.Some? then [o.value] else [])
  }

  lemma SomesSnoc<T(!new)>(xs: seq<Option<T>>, o: Option<T>)
    ensures Somes(xs + [o]) == Somes(xs) + (if o.Some? then [o.value] else [])
  {
    assert (xs + [o])[..|xs|] == xs;
  }

  /** The `Some` values of two lists in turn are those of the first, then
      those of the second. */
  lemma {:induction false} SomesConcat<T(!new)>(xs: seq<Option<T>>, ys: seq<Option<T>>)
    ensures Somes(xs + ys) == Somes(xs) + Somes(ys)
    decreases |ys|
  {
    if ys == [] {
      assert xs + ys == xs;
    } else {
      var init, o := ys[..|ys| - 1], ys[|ys| - 1];
      var tail := if o.Some? then [o.value] else [];
      SomesConcat(xs, init);
      assert (xs + ys)[..|xs + ys| - 1] == xs + init;
      assert (xs + ys)[|xs + ys| - 1] == o;
      assert Somes(xs + ys) == Somes(xs + init) + tail;
      assert Somes(ys) == Somes(init) + tail;
      assert Somes(xs) + (Somes(init) + tail) == (Somes(xs) + Somes(init)) + tail;
    }
  }

  /** `xs[:n]`: the first `n` elements, or all of them when there are fewer. */
  function Prefix<T>(xs: seq<T>, n: nat): (r: seq<T>)
    ensures |r| == if |xs| < n then |xs| else n
    ensures r == xs[..|r|]
  {
    if |xs| <= n then xs else xs[..n]
  }

  /** `[f(x) for x in xs]`. */
  function Map<A, B>(xs: seq<A>, f: A --> B): (r: seq<B>)
    requires forall i :: 0 <= i < |xs| ==> f.requires(xs[i])
    ensures |r| == |xs|
    ensures forall i :: 0 <= i < |xs| ==> r[i] == f(xs[i])
  {
    seq(|xs|, i requires 0 <= i < |xs| => f(xs[i]))
  }

  /** One more element adds one result at the end. */
  lemma MapSnoc<A, B>(xs: seq<A>, x: A, f: A --> B)
    requires forall i :: 0 <= i < |xs| ==> f.requires(xs[i])
    requires f.requires(x)
    ensures forall i :: 0 <= i < |xs + [x]| ==> f.requires((xs + [x])[i])
    ensures Map(xs + [x], f) == Map(xs, f) + [f(x)]
  {
    assert forall i :: 0 <= i < |xs| ==> (xs + [x])[i] == xs[i];
  }

  /** The loop `for x in xs: out.append(f(x))`, starting from an empty
      list. */
  method AppendEach<A, B>(xs: seq<A>, f: A -> B) returns (ys: seq<B>)
    ensures |ys| == |xs|
    ensures forall i :: 0 <= i < |xs| ==> ys[i] == f(xs[i])
  {
    ys := [];
    for k := 0 to |xs|
      invariant |ys| == k
      invariant forall i :: 0 <= i < k ==> ys[i] == f(xs[i])
    {
      ys := ys + [f(xs[k])];
    }
  }

  /** `[f(x, y) for x, y in zip(xs, ys)]` for sequences of equal length. */
  function Map2<A, B, C>(xs: seq<A>, ys: seq<B>, f: (A, B) --> C): (r: seq<C>)
    requires |xs| == |ys|
    requires forall i :: 0 <= i < |xs| ==> f.requires(xs[i], ys[i])
    ensures |r| == |xs|
    ensures forall i :: 0 <= i < |xs| ==> r[i] == f(xs[i], ys[i])
  {
    seq(|xs|, i requires 0 <= i < |xs| => f(xs[i], ys[i]))
  }

  /** One more pair adds one result at the end. */
  lemma Map2Snoc<A, B, C>(xs: seq<A>, ys: seq<B>, x: A, y: B, f: (A, B) --> C)
    requires |xs| == |ys|
    requires forall i :: 0 <= i < |xs| ==> f.requires(xs[i], ys[i])
    requires f.requires(x, y)
    ensures forall i :: 0 <= i < |xs + [x]| ==> f.requires((xs + [x])[i], (ys + [y])[i])
    ensures Map2(xs + [x], ys + [y], f) == Map2(xs, ys, f) + [f(x, y)]
  {
    assert forall i :: 0 <= i < |xs| ==> (xs + [x])[i] == xs[i] && (ys + [y])[i] == ys[i];
  }

  /** Position of the first occurrence of `x` in `xs`. */
  function FirstIndex<T(==)>(xs: seq<T>, x: T): (k: nat)
    requires x in xs
    ensures k < |xs| && xs[k] == x && x !in xs[..k]
    decreases |xs|
  {
    if xs[0] == x then 0 else 1 + FirstIndex(xs[1..], x)
  }

  lemma FirstIndexExtend<T(!new)>(xs: seq<T>, y: T, x: T)
    requires x in xs
    ensures x in xs + [y] && FirstIndex(xs + [y], x) == FirstIndex(xs, x)
  {
    var k := FirstIndex(xs, x);
    assert (xs + [y])[k] == x && (xs + [y])[..k] == xs[..k];
  }

  /** The de-duplicated list keeps the first-seen order of its input: earlier
      elements first occur earlier. */
  lemma {:induction false} DedupFirstSeenOrder<T(!new)>(xs: seq<T>)
    ensures forall i, j :: 0 <= i < j < |Dedup(xs)| ==>
      FirstIndex(xs, Dedup(xs)[i]) < FirstIndex(xs, Dedup(xs)[j])
    decreases |xs|
  {
    if xs != [] {
      var init, x := xs[..|xs| - 1], xs[|xs| - 1];
      assert xs == init + [x];
      DedupFirstSeenOrder(init);
      var d := Dedup(init);
      forall y | y in d ensures FirstIndex(xs, y) == FirstIndex(init, y) {
        FirstIndexExtend(init, x, y);
      }
      if x !in d {
        assert x !in init;
        assert FirstIndex(xs, x) == |init|;
      }
    }
  }

  /** Python's ordering of `str` values: code point by code point, a proper
      prefix first. */
  predicate LexLess(a: string, b: string)
    decreases |a|
  {
    if a == [] then b != []
    else if b == [] then false
    else if a[0] != b[0] then a[0] < b[0]
    else LexLess(a[1..], b[1..])
  }

  lemma {:induction false} LexLessIrreflexive(a: string)
    ensures !LexLess(a, a)
    decreases |a|
  {
    if a != [] {
      LexLessIrreflexive(a[1..]);
    }
  }

  lemma {:induction false} LexLessTransitive(a: string, b: string, c: string)
    requires LexLess(a, b) && LexLess(b, c)
    ensures LexLess(a, c)
    decreases |a|
  {
    if a != [] && b != [] && c != [] && a[0] == b[0] && b[0] == c[0] {
      LexLessTransitive(a[1..], b[1..], c[1..]);
    }
  }

  lemma {:induction false} LexLessTotal(a: string, b: string)
    requires a != b
    ensures LexLess(a, b) || LexLess(b, a)
    decreases |a|
  {
    if a != [] && b != [] && a[0] == b[0] {
      assert a == [a[0]] + a[1..] && b == [b[0]] + b[1..];
      LexLessTotal(a[1..], b[1..]);
    }
  }

  predicate StrictlySorted(s: seq<string>) {
    forall i, j :: 0 <= i < j < |s| ==> LexLess(s[i], s[j])
  }

  lemma StrictlySortedNoDup(s: seq<string>)
    requires StrictlySorted(s)
    ensures NoDup(s)
  {
    forall i, j | 0 <= i < j < |s| ensures s[i] != s[j] {
      LexLessIrreflexive(s[i]);
    }
  }

  /** Insert `x` into a strictly sorted list, keeping it strictly sorted and
      dropping `x` if it is already there. */
  function Insert(s: seq<string>, x: string): (r: seq<string>)
    requires StrictlySorted(s)
    ensures StrictlySorted(r)
    ensures forall y :: y in r <==> y in s || y == x
    decreases |s|
  {
    if s == [] then [x]
    else if x == s[0] then s
    else if LexLess(x, s[0]) then
      assert forall j :: 0 <= j < |s| ==> LexLess(x, s[j]) by {
        forall j | 0 <= j < |s| ensures LexLess(x, s[j]) {
          if j > 0 { LexLessTransitive(x, s[0], s[j]); }
        }
      }
      [x] + s
    else
      LexLessTotal(x, s[0]);
      var rest := Insert(s[1..], x);
      assert forall y :: y in rest ==> LexLess(s[0], y);
      [s[0]] + rest
  }

  /** `sorted(set(xs))`: the distinct values in ascending order. */
  function SortedDistinct(xs: seq<string>): (r: seq<string>)
    ensures StrictlySorted(r)
    ensures forall y :: y in r <==> y in xs
    decreases |xs|
  {
    if xs == [] then [] else Insert(SortedDistinct(xs[..|xs| - 1]), xs[|xs| - 1])
  }

  lemma SameElementsBothEmpty(s: seq<string>, t: seq<string>)
    requires forall y :: y in s <==> y in t
    ensures s == [] <==> t == []
  {
    if s != [] { assert s[0] in t; }
    if t != [] { assert t[0] in s; }
  }

  /** A strictly sorted list is determined by its elements, so any sorting of
      the same set of values gives the same list. */
  lemma {:induction false} SortedUnique(s: seq<string>, t: seq<string>)
    requires StrictlySorted(s) && StrictlySorted(t)
    requires forall y :: y in s <==> y in t
    ensures s == t
    decreases |s|
  {
    SameElementsBothEmpty(s, t);
    if s != [] && t != [] {
      if s[0] != t[0] {
        LexLessTotal(s[0], t[0]);
        assert s[0] in s && t[0] in t;
        var i :| 0 <= i < |t| && t[i] == s[0];
        var j :| 0 <= j < |s| && s[j] == t[0];
        assert LexLess(t[0], s[0]) && LexLess(s[0], t[0]);
        LexLessTransitive(s[0], t[0], s[0]);
        LexLessIrreflexive(s[0]);
      } else {
        forall y ensures y in s[1..] <==> y in t[1..] {
          if y in s[1..] {
            var k :| 0 <= k < |s| - 1 && s[1..][k] == y;
            assert s[k + 1] == y && LexLess(s[0], y);
            LexLessIrreflexive(y);
            assert y in t && y != t[0];
            var m :| 0 <= m < |t| && t[m] == y;
            assert t[1..][m - 1] == y;
          }
          if y in t[1..] {
            var k :| 0 <= k < |t| - 1 && t[1..][k] == y;
            assert t[k + 1] == y && LexLess(t[0], y);
            LexLessIrreflexive(y);
            assert y in s && y != s[0];
            var m :| 0 <= m < |s| && s[m] == y;
            assert s[1..][m - 1] == y;
          }
        }
        SortedUnique(s[1..], t[1..]);
      }
    }
  }
}
