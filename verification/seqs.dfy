/** Sequence operations that stand in for the database: a `WHERE` clause is a
    `Filter`, a lookup by key is `Find`, `ORDER BY` is `SortDesc`, and a
    Spring Data page is `Page`. */
module Seqs {
  import opened Common

  function Min(a: int, b: int): int {
    if a <= b then a else b
  }

  function Max(a: int, b: int): int {
    if a >= b then a else b
  }

  // ---------------------------------------------------------------------
  // Selection
  // ---------------------------------------------------------------------

  /** The elements of `xs` satisfying `p`, in their original order. */
  function Filter<T(!new)>(xs: seq<T>, p: T -> bool): (r: seq<T>)
    ensures |r| <= |xs|
    ensures forall x :: x in r <==> x in xs && p(x)
    ensures forall i :: 0 <= i < |r| ==> p(r[i])
    ensures multiset(r) <= multiset(xs)
  {
    if xs == [] then []
    else
      assert xs == [xs[0]] + xs[1..];
      if p(xs[0]) then [xs[0]] + Filter(xs[1..], p)
      else Filter(xs[1..], p)
  }

  /** Filtering by a predicate and by its negation splits `xs` into two
      parts with neither overlap nor gap. */
  lemma {:induction false} FilterPartition<T(!new)>(xs: seq<T>, p: T -> bool, q: T -> bool)
    requires forall x :: q(x) == !p(x)
    ensures multiset(Filter(xs, p)) + multiset(Filter(xs, q)) == multiset(xs)
  {
    if xs != [] {
      var t := xs[1..];
      assert xs == [xs[0]] + t;
      FilterPartition(t, p, q);
      var x := xs[0];
      if p(x) {
        assert !q(x);
        assert Filter(xs, p) == [x] + Filter(t, p);
        assert Filter(xs, q) == Filter(t, q);
      } else {
        assert q(x);
        assert Filter(xs, p) == Filter(t, p);
        assert Filter(xs, q) == [x] + Filter(t, q);
      }
    }
  }

  /** Filtering keeps every element that satisfies the predicate as often as
      it occurs. */
  lemma {:induction false} FilterCount<T(!new)>(xs: seq<T>, p: T -> bool, x: T)
    requires p(x)
    ensures multiset(Filter(xs, p))[x] == multiset(xs)[x]
  {
    if xs != [] {
      var t := xs[1..];
      assert xs == [xs[0]] + t;
      FilterCount(t, p, x);
      if p(xs[0]) {
        assert Filter(xs, p) == [xs[0]] + Filter(t, p);
      } else {
        assert Filter(xs, p) == Filter(t, p);
      }
    }
  }

  /** A sequence holding two different values has at least two elements. */
  lemma TwoMembers<T>(xs: seq<T>, a: T, b: T)
    requires a in xs && b in xs && a != b
    ensures |xs| > 1
  {
    var i :| 0 <= i < |xs| && xs[i] == a;
    var j :| 0 <= j < |xs| && xs[j] == b;
    assert i != j;
  }

  /** `key` tells apart the elements at any two positions of `xs`. */
  predicate KeysUnique<T>(xs: seq<T>, key: T -> int) {
    forall i, j :: 0 <= i < j < |xs| ==> key(xs[i]) != key(xs[j])
  }

  predicate KeysBelow<T>(xs: seq<T>, key: T -> int, bound: int) {
    forall i :: 0 <= i < |xs| ==> key(xs[i]) < bound
  }

  /** Keys are unique and below `next`, as a table's primary keys are
      below the next key its counter issues. */
  predicate Keyed<T>(xs: seq<T>, key: T -> int, next: int) {
    KeysUnique(xs, key) && KeysBelow(xs, key, next)
  }

  /** Appending an element keyed with the counter, and advancing the
      counter, keeps a sequence keyed. */
  lemma AppendFreshKey<T>(xs: seq<T>, x: T, key: T -> int, next: int)
    requires Keyed(xs, key, next) && key(x) == next
    ensures Keyed(xs + [x], key, next + 1)
  {
    var r := xs + [x];
    forall i, j | 0 <= i < j < |r|
      ensures key(r[i]) != key(r[j])
    {
      assert r[i] == xs[i];
      if j < |xs| {
        assert r[j] == xs[j];
      }
    }
  }

  /** Replacing elements by ones with the same keys keeps a sequence keyed. */
  lemma SameKeysKeyed<T>(xs: seq<T>, ys: seq<T>, key: T -> int, next: int)
    requires Keyed(xs, key, next)
    requires |ys| == |xs| && forall i :: 0 <= i < |xs| ==> key(ys[i]) == key(xs[i])
    ensures Keyed(ys, key, next)
  {
  }

  /** Filtering keeps keys unique. */
  lemma {:induction false} FilterKeysUnique<T(!new)>(xs: seq<T>, p: T -> bool, key: T -> int)
    requires KeysUnique(xs, key)
    ensures KeysUnique(Filter(xs, p), key)
  {
    if xs != [] {
      var t := xs[1..];
      assert KeysUnique(t, key) by {
        forall i, j | 0 <= i < j < |t|
          ensures key(t[i]) != key(t[j])
        {
          assert t[i] == xs[i + 1] && t[j] == xs[j + 1];
        }
      }
      FilterKeysUnique(t, p, key);
      var rest := Filter(t, p);
      if p(xs[0]) {
        forall k | 0 <= k < |rest|
          ensures key(xs[0]) != key(rest[k])
        {
          assert rest[k] in t;
          var m :| 0 <= m < |t| && t[m] == rest[k];
          assert xs[m + 1] == rest[k];
        }
        ConsKeysUnique(xs[0], rest, key);
        assert Filter(xs, p) == [xs[0]] + rest;
      } else {
        assert Filter(xs, p) == rest;
      }
    }
  }

  /** An element whose key differs from all keys of a key-unique sequence
      can be put in front of it. */
  lemma ConsKeysUnique<T>(x: T, rest: seq<T>, key: T -> int)
    requires KeysUnique(rest, key)
    requires forall k :: 0 <= k < |rest| ==> key(x) != key(rest[k])
    ensures KeysUnique([x] + rest, key)
  {
    var r := [x] + rest;
    forall i, j | 0 <= i < j < |r|
      ensures key(r[i]) != key(r[j])
    {
      assert r[j] == rest[j - 1];
      if i > 0 {
        assert r[i] == rest[i - 1];
      }
    }
  }

  /** The position of the first element satisfying `p`, if any. */
  function IndexOf<T>(xs: seq<T>, p: T -> bool): (r: Option<nat>)
    ensures r.None? <==> forall i :: 0 <= i < |xs| ==> !p(xs[i])
    ensures r.Some? ==> r.value < |xs| && p(xs[r.value])
    ensures r.Some? ==> forall j :: 0 <= j < r.value ==> !p(xs[j])
  {
    if xs == [] then None
    else if p(xs[0]) then Some(0)
    else match IndexOf(xs[1..], p)
      case None => None
      case Some(i) => Some(i + 1)
  }

  /** The first element satisfying `p`, if any. */
  function Find<T(!new)>(xs: seq<T>, p: T -> bool): (r: Option<T>)
    ensures r.None? <==> forall x :: x in xs ==> !p(x)
    ensures r.Some? ==> r.value in xs && p(r.value)
  {
    match IndexOf(xs, p)
    case None => None
    case Some(i) => Some(xs[i])
  }

  /** An element with the greatest key (the first such one), if `xs` is not
      empty: the first row of `ORDER BY key DESC`. */
  function ArgMax<T(!new)>(xs: seq<T>, key: T -> int): (r: Option<T>)
    ensures r.None? <==> xs == []
    ensures r.Some? ==> r.value in xs
    ensures r.Some? ==> forall x :: x in xs ==> key(x) <= key(r.value)
  {
    if xs == [] then None
    else match ArgMax(xs[1..], key)
      case None => Some(xs[0])
      case Some(m) => if key(xs[0]) >= key(m) then Some(xs[0]) else Some(m)
  }

  /** An element with the least key (the first such one), if `xs` is not
      empty: the first row of `ORDER BY key ASC`. */
  function ArgMin<T(!new)>(xs: seq<T>, key: T -> int): (r: Option<T>)
    ensures r.None? <==> xs == []
    ensures r.Some? ==> r.value in xs
    ensures r.Some? ==> forall x :: x in xs ==> key(r.value) <= key(x)
  {
    if xs == [] then None
    else match ArgMin(xs[1..], key)
      case None => Some(xs[0])
      case Some(m) => if key(xs[0]) <= key(m) then Some(xs[0]) else Some(m)
  }

  // ---------------------------------------------------------------------
  // Ordering
  // ---------------------------------------------------------------------

  predicate SortedDesc<T>(xs: seq<T>, key: T -> int) {
    forall i, j :: 0 <= i < j < |xs| ==> key(xs[i]) >= key(xs[j])
  }

  /** Inserts `x` in front of the first element with a key no larger than
      its own: into a sequence sorted by descending key, in front of the
      elements with an equal key. */
  function InsertDesc<T>(x: T, xs: seq<T>, key: T -> int): (r: seq<T>)
    ensures multiset(r) == multiset(xs) + multiset{x}
    ensures |r| == |xs| + 1
    ensures key(r[0]) == if xs == [] then key(x) else Max(key(x), key(xs[0]))
  {
    if xs == [] || key(x) >= key(xs[0]) then [x] + xs
    else
      assert xs == [xs[0]] + xs[1..];
      [xs[0]] + InsertDesc(x, xs[1..], key)
  }

  /** Inserting into a sorted sequence keeps it sorted. */
  lemma {:induction false} InsertDescSorted<T>(x: T, xs: seq<T>, key: T -> int)
    requires SortedDesc(xs, key)
    ensures SortedDesc(InsertDesc(x, xs, key), key)
  {
    if xs == [] || key(x) >= key(xs[0]) {
      ConsSorted(x, xs, key);
    } else {
      var t := xs[1..];
      assert SortedDesc(t, key) by {
        forall i, j | 0 <= i < j < |t|
          ensures key(t[i]) >= key(t[j])
        {
          assert t[i] == xs[i + 1] && t[j] == xs[j + 1];
        }
      }
      InsertDescSorted(x, t, key);
      assert t != [] ==> key(xs[0]) >= key(t[0]);
      ConsSorted(xs[0], InsertDesc(x, t, key), key);
    }
  }

  /** An element no smaller than the head of a sorted sequence can go in
      front of it. */
  lemma ConsSorted<T>(x: T, xs: seq<T>, key: T -> int)
    requires SortedDesc(xs, key)
    requires xs == [] || key(x) >= key(xs[0])
    ensures SortedDesc([x] + xs, key)
  {
    var r := [x] + xs;
    forall i, j | 0 <= i < j < |r|
      ensures key(r[i]) >= key(r[j])
    {
      assert r[j] == xs[j - 1];
      if i == 0 {
        assert key(xs[0]) >= key(xs[j - 1]);
      } else {
        assert r[i] == xs[i - 1];
      }
    }
  }

  /** `ORDER BY key DESC` over the rows `xs`: a permutation of `xs` with
      non-increasing keys. Rows with equal keys come out in a fixed order. */
  function SortDesc<T>(xs: seq<T>, key: T -> int): (r: seq<T>)
    ensures SortedDesc(r, key)
    ensures multiset(r) == multiset(xs)
    ensures |r| == |xs|
  {
    if xs == [] then []
    else
      assert xs == [xs[0]] + xs[1..];
      var rest := SortDesc(xs[1..], key);
      InsertDescSorted(xs[0], rest, key);
      InsertDesc(xs[0], rest, key)
  }

  /** Sorting does not change which elements are present. */
  lemma SortDescMembers<T>(xs: seq<T>, key: T -> int)
    ensures forall x :: x in SortDesc(xs, key) <==> x in xs
  {
    var r := SortDesc(xs, key);
    forall x
      ensures x in r <==> x in xs
    {
      assert x in r <==> x in multiset(r);
      assert x in xs <==> x in multiset(xs);
    }
  }

  // ---------------------------------------------------------------------
  // Paging
  // ---------------------------------------------------------------------

  /** `r` is the block of `xs` that starts at offset `page * size` and holds
      `size` elements, or fewer where `xs` runs out. */
  ghost predicate IsPage<T>(r: seq<T>, xs: seq<T>, page: nat, size: nat) {
    && |r| == Max(0, Min(size, |xs| - page * size))
    && forall i :: 0 <= i < |r| ==> page * size + i < |xs| && r[i] == xs[page * size + i]
  }

  /** Page number `page` of length `size` over `xs`, as Spring Data's
      `PageRequest.of(page, size)` selects it: offset `page * size`. */
  function Page<T>(xs: seq<T>, page: nat, size: nat): (r: seq<T>)
    ensures IsPage(r, xs, page, size)
  {
    var lo := page * size;
    if lo >= |xs| then [] else xs[lo .. Min(lo + size, |xs|)]
  }

  /** A page is determined by the sequence, the page number and the size. */
  lemma IsPageUnique<T>(a: seq<T>, b: seq<T>, xs: seq<T>, page: nat, size: nat)
    requires IsPage(a, xs, page, size) && IsPage(b, xs, page, size)
    ensures a == b
  {
  }

  /** A page holds only elements of the sequence, in the sequence's order. */
  lemma PageOfSorted<T>(xs: seq<T>, page: nat, size: nat, key: T -> int)
    requires SortedDesc(xs, key)
    ensures SortedDesc(Page(xs, page, size), key)
    ensures forall x :: x in Page(xs, page, size) ==> x in xs
  {
    PageSorted(Page(xs, page, size), xs, page * size, key);
    PageMembers(Page(xs, page, size), xs, page * size);
  }

  lemma PageSorted<T>(r: seq<T>, xs: seq<T>, lo: nat, key: T -> int)
    requires SortedDesc(xs, key)
    requires forall i :: 0 <= i < |r| ==> lo + i < |xs| && r[i] == xs[lo + i]
    ensures SortedDesc(r, key)
  {
    forall i, j | 0 <= i < j < |r|
      ensures key(r[i]) >= key(r[j])
    {
      var a, b := r[i], r[j];
      assert a == xs[lo + i] && b == xs[lo + j];
    }
  }

  lemma PageMembers<T>(r: seq<T>, xs: seq<T>, lo: nat)
    requires forall i :: 0 <= i < |r| ==> lo + i < |xs| && r[i] == xs[lo + i]
    ensures forall x :: x in r ==> x in xs
  {
    forall x | x in r
      ensures x in xs
    {
      var i :| 0 <= i < |r| && r[i] == x;
      assert xs[lo + i] == x;
    }
  }

  /** The first `n` elements of `xs`: none for `n <= 0`, all of them when
      `n` exceeds the length. */
  function Take<T>(xs: seq<T>, n: int): (r: seq<T>)
    ensures |r| == Max(0, Min(n, |xs|))
    ensures forall i :: 0 <= i < |r| ==> r[i] == xs[i]
  {
    if n <= 0 then [] else if n >= |xs| then xs else xs[..n]
  }

  /** The pages `0 .. count - 1` laid end to end. */
  function FirstPages<T>(xs: seq<T>, size: nat, count: nat): seq<T> {
    if count == 0 then [] else FirstPages(xs, size, count - 1) + Page(xs, count - 1, size)
  }

  /** Consecutive pages tile the sequence: the first `count` pages are
      exactly its first `count * size` elements, with no overlap and no gap. */
  lemma {:induction false} PagesTile<T>(xs: seq<T>, size: nat, count: nat)
    requires size > 0
    ensures FirstPages(xs, size, count) == Take(xs, count * size)
  {
    if count > 0 {
      var k := count - 1;
      PagesTile(xs, size, k);
      TakeThenPage(xs, k, size);
      MulSucc(k, size);
      assert FirstPages(xs, size, count) == FirstPages(xs, size, k) + Page(xs, k, size);
    }
  }

  /** The blocks of `pages` laid end to end. */
  function Concat<T>(pages: seq<seq<T>>): seq<T> {
    if pages == [] then [] else Concat(pages[..|pages| - 1]) + pages[|pages| - 1]
  }

  /** Blocks that are the pages `0, 1, ...` of `xs` concatenate to the first
      pages of `xs`. */
  lemma {:induction false} ConcatOfPages<T>(pages: seq<seq<T>>, xs: seq<T>, size: nat)
    requires forall k :: 0 <= k < |pages| ==> pages[k] == Page(xs, k, size)
    ensures Concat(pages) == FirstPages(xs, size, |pages|)
  {
    if pages != [] {
      ConcatOfPages(pages[..|pages| - 1], xs, size);
    }
  }

  /** The page after the first `k` pages extends their prefix by `size`. */
  lemma TakeThenPage<T>(xs: seq<T>, k: nat, size: nat)
    ensures Take(xs, k * size) + Page(xs, k, size) == Take(xs, k * size + size)
  {
    var n := k * size;
    var lo := Min(n, |xs|);
    var hi := Min(n + size, |xs|);
    assert Take(xs, n) == xs[..lo];
    assert Take(xs, n + size) == xs[..hi];
    assert Page(xs, k, size) == xs[lo..hi];
    assert xs[..lo] + xs[lo..hi] == xs[..hi];
  }

  lemma MulSucc(k: nat, size: nat)
    ensures (k + 1) * size == k * size + size
  {
  }
}
