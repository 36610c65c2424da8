/** The Array built-ins the catalogue code calls: `filter`, `map`, `reduce`
    over numbers, `Math.min`/`Math.max` over a spread, `slice(0, end)` and
    `sort` with a comparator of the form `(a, b) => key(b) - key(a)`.
    ECMAScript requires `sort` to be stable (since the 2019 edition); it is
    modelled here by a stable insertion sort whose result is non-increasing
    in the key and keeps, for every key value, the input order of the
    elements carrying it. Arrays are values here: `filter` and `map` already
    allocate fresh arrays in the source, so sorting never reorders a
    caller's array. */
module JsArray {

  /** `s.filter(keep)`. What it keeps is stated by FilterKeeps, called
      where needed, so that these facts are not in scope everywhere. */
  function Filter<T>(s: seq<T>, keep: T -> bool): (r: seq<T>)
    ensures |r| <= |s|
  {
    if s == [] then [] else (if keep(s[0]) then [s[0]] else []) + Filter(s[1..], keep)
  }

  /** The filter keeps only elements of `s` that pass, and every element
      that passes; FilterCounts adds that each is kept as often as it occurs. */
  lemma {:induction false} FilterKeeps<T>(s: seq<T>, keep: T -> bool)
    ensures forall i :: 0 <= i < |Filter(s, keep)| ==> keep(Filter(s, keep)[i]) && Filter(s, keep)[i] in s
    ensures forall i :: 0 <= i < |s| && keep(s[i]) ==> s[i] in Filter(s, keep)
    ensures multiset(Filter(s, keep)) <= multiset(s)
  {
    if s != [] {
      FilterKeeps(s[1..], keep);
      var head := if keep(s[0]) then [s[0]] else [];
      var r := Filter(s, keep);
      var t := Filter(s[1..], keep);
      assert s == [s[0]] + s[1..];
      assert r == head + t;
      assert multiset(s) == multiset{s[0]} + multiset(s[1..]);
      assert multiset(r) == multiset(head) + multiset(t);
      forall i | 0 <= i < |r|
        ensures keep(r[i]) && r[i] in s
      {
        if i >= |head| {
          assert r[i] == t[i - |head|];
        }
      }
      forall i | 0 <= i < |s| && keep(s[i])
        ensures s[i] in r
      {
        if i > 0 {
          assert s[i] == s[1..][i - 1];
        }
      }
    }
  }

  /** The filter keeps each passing element exactly as often as it occurs
      in `s`, and no other element. */
  lemma {:induction false} FilterCounts<T>(s: seq<T>, keep: T -> bool)
    ensures forall x :: multiset(Filter(s, keep))[x] == if keep(x) then multiset(s)[x] else 0
  {
    if s != [] {
      FilterCounts(s[1..], keep);
      assert s == [s[0]] + s[1..];
      assert multiset(s) == multiset{s[0]} + multiset(s[1..]);
    }
  }

  /** `s.map(f)`. */
  function MapSeq<T, U>(s: seq<T>, f: T -> U): (r: seq<U>)
    ensures |r| == |s|
  {
    if s == [] then [] else [f(s[0])] + MapSeq(s[1..], f)
  }

  lemma {:induction false} MapSeqAt<T, U>(s: seq<T>, f: T -> U, i: nat)
    requires i < |s|
    ensures MapSeq(s, f)[i] == f(s[i])
  {
    if i > 0 {
      MapSeqAt(s[1..], f, i - 1);
    }
  }

  lemma {:induction false} MapSeqAppend<T, U>(a: seq<T>, b: seq<T>, f: T -> U)
    ensures MapSeq(a + b, f) == MapSeq(a, f) + MapSeq(b, f)
  {
    if a != [] {
      assert (a + b)[1..] == a[1..] + b;
      MapSeqAppend(a[1..], b, f);
    } else {
      assert a + b == b;
    }
  }

  /** `s.reduce((acc, x) => acc + f(x), 0)` over integers. */
  function SumBy<T>(s: seq<T>, f: T -> int): int
  {
    if s == [] then 0 else f(s[0]) + SumBy(s[1..], f)
  }

  lemma {:induction false} SumByAppend<T>(a: seq<T>, b: seq<T>, f: T -> int)
    ensures SumBy(a + b, f) == SumBy(a, f) + SumBy(b, f)
  {
    if a != [] {
      assert (a + b)[1..] == a[1..] + b;
      SumByAppend(a[1..], b, f);
    } else {
      assert a + b == b;
    }
  }

  /** Removing the element at `i` takes its term out of the sum. */
  lemma {:induction false} SumByRemove<T>(b: seq<T>, i: nat, f: T -> int)
    requires i < |b|
    ensures SumBy(b, f) == f(b[i]) + SumBy(b[..i] + b[i + 1..], f)
  {
    var tail := [b[i]] + b[i + 1..];
    assert b == b[..i] + tail;
    SumByAppend(b[..i], tail, f);
    assert tail[1..] == b[i + 1..];
    SumByAppend(b[..i], b[i + 1..], f);
  }

  /** The first element of `a` sits somewhere in a permutation `b`; the
      rests are again permutations of each other. */
  lemma PermRemove<T>(a: seq<T>, b: seq<T>) returns (i: nat)
    requires a != [] && multiset(a) == multiset(b)
    ensures i < |b| && b[i] == a[0]
    ensures multiset(a[1..]) == multiset(b[..i] + b[i + 1..])
  {
    var x := a[0];
    assert x in multiset(b);
    i :| 0 <= i < |b| && b[i] == x;
    assert b == b[..i] + [x] + b[i + 1..];
    assert a == [x] + a[1..];
    assert multiset(b) == multiset(b[..i]) + multiset{x} + multiset(b[i + 1..]);
    assert multiset(b[..i] + b[i + 1..]) == multiset(b[..i]) + multiset(b[i + 1..]);
    assert multiset(a) == multiset{x} + multiset(a[1..]);
    assert multiset(a[1..]) == multiset(a) - multiset{x};
    assert multiset(b[..i] + b[i + 1..]) == multiset(b) - multiset{x};
  }

  /** A sum does not depend on the order of its terms. */
  lemma {:induction false} SumByPerm<T>(a: seq<T>, b: seq<T>, f: T -> int)
    requires multiset(a) == multiset(b)
    ensures SumBy(a, f) == SumBy(b, f)
  {
    if a != [] {
      var i := PermRemove(a, b);
      SumByPerm(a[1..], b[..i] + b[i + 1..], f);
      SumByRemove(b, i, f);
    }
  }

  /** Mapping commutes with reordering, up to multiplicity. */
  lemma {:induction false} MapSeqPerm<T, U>(a: seq<T>, b: seq<T>, f: T -> U)
    requires multiset(a) == multiset(b)
    ensures multiset(MapSeq(a, f)) == multiset(MapSeq(b, f))
  {
    if a != [] {
      var x := a[0];
      var i := PermRemove(a, b);
      var rest := b[..i] + b[i + 1..];
      MapSeqPerm(a[1..], rest, f);
      assert b == b[..i] + [x] + b[i + 1..];
      assert a == [x] + a[1..];
      MapSeqAppend(b[..i] + [x], b[i + 1..], f);
      MapSeqAppend(b[..i], [x], f);
      MapSeqAppend(b[..i], b[i + 1..], f);
    }
  }

  /** `prices.reduce((a, b) => a + b, 0)`; real addition is associative, so
      the fold direction does not matter. */
  function Sum(s: seq<real>): real
  {
    if s == [] then 0.0 else s[0] + Sum(s[1..])
  }

  /** `Math.min(...s)` for a non-empty `s`. */
  function Min(s: seq<real>): (m: real)
    requires |s| > 0
    ensures m in s
    ensures forall x :: x in s ==> m <= x
  {
    if |s| == 1 then s[0]
    else
      var r := Min(s[1..]);
      assert s == [s[0]] + s[1..];
      if s[0] <= r then s[0] else r
  }

  /** `Math.max(...s)` for a non-empty `s`. */
  function Max(s: seq<real>): (m: real)
    requires |s| > 0
    ensures m in s
    ensures forall x :: x in s ==> x <= m
  {
    if |s| == 1 then s[0]
    else
      var r := Max(s[1..]);
      assert s == [s[0]] + s[1..];
      if s[0] >= r then s[0] else r
  }

  lemma {:induction false} SumAtLeast(s: seq<real>, lo: real)
    requires forall x :: x in s ==> lo <= x
    ensures lo * |s| as real <= Sum(s)
  {
    if s != [] {
      assert s == [s[0]] + s[1..];
      assert s[0] in s;
      forall y | y in s[1..] ensures lo <= y { assert y in s; }
      SumAtLeast(s[1..], lo);
      assert lo * |s| as real == lo + lo * |s[1..]| as real;
    }
  }

  lemma {:induction false} SumAtMost(s: seq<real>, hi: real)
    requires forall x :: x in s ==> x <= hi
    ensures Sum(s) <= hi * |s| as real
  {
    if s != [] {
      assert s == [s[0]] + s[1..];
      assert s[0] in s;
      forall y | y in s[1..] ensures y <= hi { assert y in s; }
      SumAtMost(s[1..], hi);
      assert hi * |s| as real == hi + hi * |s[1..]| as real;
    }
  }

  /** The arithmetic mean `sum / length` of a non-empty sequence. */
  function Mean(s: seq<real>): real
    requires |s| > 0
  {
    Sum(s) / |s| as real
  }

  lemma MeanAtLeast(s: seq<real>, lo: real)
    requires |s| > 0
    requires forall x :: x in s ==> lo <= x
    ensures lo <= Mean(s)
  {
    SumAtLeast(s, lo);
    DivideAtLeast(lo, Sum(s), |s| as real);
  }

  lemma MeanAtMost(s: seq<real>, hi: real)
    requires |s| > 0
    requires forall x :: x in s ==> x <= hi
    ensures Mean(s) <= hi
  {
    SumAtMost(s, hi);
    DivideAtMost(hi, Sum(s), |s| as real);
  }

  /** The arithmetic mean lies between the minimum and the maximum. */
  lemma MeanBounds(s: seq<real>)
    requires |s| > 0
    ensures Min(s) <= Mean(s) <= Max(s)
  {
    MeanAtLeast(s, Min(s));
    MeanAtMost(s, Max(s));
  }

  lemma DivideAtLeast(lo: real, total: real, n: real)
    requires n > 0.0 && lo * n <= total
    ensures lo <= total / n
  {
    assert (total / n - lo) * n >= 0.0;
  }

  lemma DivideAtMost(hi: real, total: real, n: real)
    requires n > 0.0 && total <= hi * n
    ensures total / n <= hi
  {
    assert (hi - total / n) * n >= 0.0;
  }

  /** The index `slice(0, end)` stops at, for an array of length `n`: a
      negative `end` counts back from the end, and it is clamped to `[0, n]`. */
  function SliceEnd(n: nat, end: int): (m: nat)
    ensures m <= n
  {
    if end < 0 then (if n + end > 0 then n + end else 0)
    else if end < n then end else n
  }

  /** `s.slice(0, end)`. */
  function Slice<T>(s: seq<T>, end: int): (r: seq<T>)
    ensures r <= s
    ensures end >= 0 ==> |r| <= end
  {
    s[..SliceEnd(|s|, end)]
  }

  /** Non-increasing in `key`. */
  predicate SortedDesc<T>(s: seq<T>, key: T -> real)
  {
    forall i, j :: 0 <= i < j < |s| ==> key(s[i]) >= key(s[j])
  }

  /** The elements of `s` whose key is `k`, in their order in `s`. A sort is
      stable exactly when it leaves this subsequence unchanged for every `k`. */
  function WithKey<T>(s: seq<T>, key: T -> real, k: real): seq<T>
  {
    if s == [] then [] else (if key(s[0]) == k then [s[0]] else []) + WithKey(s[1..], key, k)
  }

  /** A prefix one longer is the prefix followed by the next element. */
  lemma PrefixSnoc<T>(s: seq<T>, j: nat)
    requires j < |s|
    ensures s[..j + 1] == s[..j] + [s[j]]
  {
  }

  lemma WithKeySingle<T>(x: T, key: T -> real, k: real)
    ensures WithKey([x], key, k) == if key(x) == k then [x] else []
  {
    assert [x][1..] == [];
  }

  lemma {:induction false} WithKeyAppend<T>(a: seq<T>, b: seq<T>, key: T -> real, k: real)
    ensures WithKey(a + b, key, k) == WithKey(a, key, k) + WithKey(b, key, k)
  {
    if a != [] {
      assert (a + b)[1..] == a[1..] + b;
      WithKeyAppend(a[1..], b, key, k);
    } else {
      assert a + b == b;
    }
  }

  /** Inserts `x` in front of the first element whose key is not above
      `key(x)`: `x` came first in the input, so it precedes its ties. */
  function Insert<T>(x: T, s: seq<T>, key: T -> real): (r: seq<T>)
    ensures |r| == |s| + 1
    ensures multiset(r) == multiset(s) + multiset{x}
  {
    if s == [] || key(x) >= key(s[0]) then [x] + s
    else
      assert s == [s[0]] + s[1..];
      [s[0]] + Insert(x, s[1..], key)
  }

  lemma SortedTail<T>(s: seq<T>, key: T -> real)
    requires s != [] && SortedDesc(s, key)
    ensures SortedDesc(s[1..], key)
  {
    var rest := s[1..];
    forall i, j | 0 <= i < j < |rest| ensures key(rest[i]) >= key(rest[j]) {
      assert rest[i] == s[i + 1] && rest[j] == s[j + 1];
    }
  }

  lemma SortedCons<T>(y: T, t: seq<T>, key: T -> real)
    requires SortedDesc(t, key)
    requires forall z :: z in t ==> key(y) >= key(z)
    ensures SortedDesc([y] + t, key)
  {
    var r := [y] + t;
    forall i, j | 0 <= i < j < |r|
      ensures key(r[i]) >= key(r[j])
    {
      assert r[j] == t[j - 1];
      if i > 0 {
        assert r[i] == t[i - 1];
      }
    }
  }

  /** Every element of a sorted list, and anything ranked below its head,
      stays below the head after an insertion into the tail. */
  lemma HeadAboveInsert<T>(x: T, s: seq<T>, key: T -> real)
    requires s != [] && SortedDesc(s, key) && key(x) < key(s[0])
    ensures forall z :: z in Insert(x, s[1..], key) ==> key(s[0]) >= key(z)
  {
    var rest := s[1..];
    var t := Insert(x, rest, key);
    forall z | z in t
      ensures key(s[0]) >= key(z)
    {
      assert z in multiset(t);
      if z != x {
        assert z in multiset(rest);
        var m :| 0 <= m < |rest| && rest[m] == z;
        assert s[m + 1] == z;
      }
    }
  }

  lemma {:induction false} InsertSorted<T>(x: T, s: seq<T>, key: T -> real)
    requires SortedDesc(s, key)
    ensures SortedDesc(Insert(x, s, key), key)
  {
    if s != [] && key(x) < key(s[0]) {
      SortedTail(s, key);
      InsertSorted(x, s[1..], key);
      HeadAboveInsert(x, s, key);
      SortedCons(s[0], Insert(x, s[1..], key), key);
    }
  }

  lemma {:induction false} InsertKeepsWithKey<T>(x: T, s: seq<T>, key: T -> real, k: real)
    ensures WithKey(Insert(x, s, key), key, k) == WithKey([x] + s, key, k)
  {
    if s != [] && key(x) < key(s[0]) {
      var y, rest := s[0], s[1..];
      var t := Insert(x, rest, key);
      assert Insert(x, s, key) == [y] + t;
      assert s == [y] + rest;
      // y and x have different keys, so at most one of them has key k.
      var wx, wy := WithKey([x], key, k), WithKey([y], key, k);
      WithKeySingle(x, key, k);
      WithKeySingle(y, key, k);
      calc {
        WithKey(Insert(x, s, key), key, k);
        { WithKeyAppend([y], t, key, k); }
        wy + WithKey(t, key, k);
        { InsertKeepsWithKey(x, rest, key, k); WithKeyAppend([x], rest, key, k); }
        wy + (wx + WithKey(rest, key, k));
        wx + (wy + WithKey(rest, key, k));
        { WithKeyAppend([y], rest, key, k); }
        wx + WithKey(s, key, k);
        { WithKeyAppend([x], s, key, k); }
        WithKey([x] + s, key, k);
      }
    }
  }

  /** Stable sort with comparator `(a, b) => key(b) - key(a)`. */
  function SortDesc<T>(s: seq<T>, key: T -> real): (r: seq<T>)
    ensures |r| == |s|
    ensures multiset(r) == multiset(s)
    ensures SortedDesc(r, key)
  {
    if s == [] then []
    else
      var t := SortDesc(s[1..], key);
      InsertSorted(s[0], t, key);
      assert s == [s[0]] + s[1..];
      Insert(s[0], t, key)
  }

  /** Sorting keeps, for every key value, the input order of its elements. */
  lemma {:induction false} SortDescStable<T>(s: seq<T>, key: T -> real, k: real)
    ensures WithKey(SortDesc(s, key), key, k) == WithKey(s, key, k)
  {
    if s != [] {
      var t := SortDesc(s[1..], key);
      SortDescStable(s[1..], key, k);
      InsertKeepsWithKey(s[0], t, key, k);
      assert ([s[0]] + t)[1..] == t;
    }
  }

  /** Taking a prefix of a stably sorted sequence keeps, for every key, a
      prefix of that key's elements in input order. */
  lemma {:induction false} PrefixWithKey<T>(s: seq<T>, m: nat, key: T -> real, k: real)
    requires m <= |s|
    ensures WithKey(s[..m], key, k) <= WithKey(s, key, k)
  {
    assert s == s[..m] + s[m..];
    WithKeyAppend(s[..m], s[m..], key, k);
  }

  /** A prefix of a sorted sequence holds its largest keys: whatever is left
      out is at most every element kept. */
  lemma PrefixTopKeys<T>(s: seq<T>, m: nat, key: T -> real)
    requires m <= |s| && SortedDesc(s, key)
    ensures forall x, y :: x in s && x !in s[..m] && y in s[..m] ==> key(y) >= key(x)
  {
    forall x, y | x in s && x !in s[..m] && y in s[..m]
      ensures key(y) >= key(x)
    {
      var j :| 0 <= j < |s| && s[j] == x;
      var i :| 0 <= i < m && s[..m][i] == y;
    }
  }

  /** `[...s].sort((a, b) => key(b) - key(a)).slice(0, end)`: the `end`
      elements of `s` with the largest keys, largest first. */
  function TopBy<T>(s: seq<T>, key: T -> real, end: int): seq<T>
  {
    Slice(SortDesc(s, key), end)
  }

  /** How many elements are kept: `end` when there are that many, all of
      them when `end` reaches past the end. */
  lemma TopBySize<T>(s: seq<T>, key: T -> real, end: int)
    ensures end >= 0 ==> |TopBy(s, key, end)| <= end
    ensures 0 <= end <= |s| ==> |TopBy(s, key, end)| == end
    ensures end >= |s| ==> multiset(TopBy(s, key, end)) == multiset(s)
  {
    var sorted := SortDesc(s, key);
    if end >= |s| {
      assert sorted[..|sorted|] == sorted;
    }
  }

  /** What is kept: elements of `s`, sorted, and none left out has a larger
      key than one kept. */
  lemma TopByContents<T>(s: seq<T>, key: T -> real, end: int)
    ensures multiset(TopBy(s, key, end)) <= multiset(s)
    ensures SortedDesc(TopBy(s, key, end), key)
    ensures forall x, y :: x in s && x !in TopBy(s, key, end) && y in TopBy(s, key, end) ==> key(y) >= key(x)
  {
    var sorted := SortDesc(s, key);
    var m := SliceEnd(|sorted|, end);
    assert sorted == sorted[..m] + sorted[m..];
    assert multiset(sorted) == multiset(sorted[..m]) + multiset(sorted[m..]);
    PrefixTopKeys(sorted, m, key);
    forall x | x in s
      ensures x in sorted
    {
      assert x in multiset(s);
    }
  }

  /** For every key, the elements kept are the first of that key in the
      order of `s`. */
  lemma TopByStable<T>(s: seq<T>, key: T -> real, end: int, k: real)
    ensures TopBy(s, key, end) <= SortDesc(s, key)
    ensures WithKey(TopBy(s, key, end), key, k) <= WithKey(s, key, k)
  {
    var sorted := SortDesc(s, key);
    PrefixWithKey(sorted, SliceEnd(|sorted|, end), key, k);
    SortDescStable(s, key, k);
  }
}
