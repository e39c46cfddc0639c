/**
 Listing with pagination: the whole collection sorted ascending on `name` or on
 `joiningDate`, then `skip((page - 1) * 5).limit(5)`.
 */
module Paging {
  import opened LexOrder
  import opened Employees

  const PageSize: nat := 5

  /** Largest value of a Java `int`. */
  const IntMax: int := 0x7fff_ffff

  datatype SortField = ByName | ByJoiningDate

  /** Sort choice 1 sorts by name; every other choice by joining date. */
  function SortFieldOf(choice: int): (f: SortField)
    ensures f == ByName <==> choice == 1
    ensures f == ByJoiningDate <==> choice != 1
  {
    if choice == 1 then ByName else ByJoiningDate
  }

  function Key(e: Employee, f: SortField): string {
    match f
    case ByName => e.name
    case ByJoiningDate => e.joiningDate
  }

  function Keys(s: Store, f: SortField): (r: seq<string>)
    ensures |r| == |s|
    ensures forall i | 0 <= i < |s| :: r[i] == Key(s[i], f)
  {
    seq(|s|, i requires 0 <= i < |s| => Key(s[i], f))
  }

  /** Ascending in the store's string order; ties may come in any order. */
  predicate SortedBy(s: Store, f: SortField) {
    forall i, j | 0 <= i < j < |s| :: LexLe(Key(s[i], f), Key(s[j], f))
  }

  /** Every element of `s` has a key at least `k`. */
  predicate KeysFrom(s: Store, f: SortField, k: string) {
    forall i | 0 <= i < |s| :: LexLe(k, Key(s[i], f))
  }

  /** A lower bound on the keys of a sequence and of one extra element bounds the
      keys of every rearrangement of the two. */
  lemma KeysFromPermutation(rest: Store, s: Store, e: Employee, f: SortField, k: string)
    requires multiset(rest) == multiset(s) + multiset{e}
    requires KeysFrom(s, f, k) && LexLe(k, Key(e, f))
    ensures KeysFrom(rest, f, k)
  {
    forall i | 0 <= i < |rest|
      ensures LexLe(k, Key(rest[i], f))
    {
      assert rest[i] in multiset(rest);
      if rest[i] != e {
        assert rest[i] in multiset(s);
        var j :| 0 <= j < |s| && s[j] == rest[i];
      }
    }
  }

  /** Put `e` before the first element whose key is not below its own. */
  function Insert(e: Employee, s: Store, f: SortField): (r: Store)
    requires SortedBy(s, f)
    ensures |r| == |s| + 1
    ensures multiset(r) == multiset(s) + multiset{e}
    ensures SortedBy(r, f)
  {
    if s == [] then [e]
    else if LexLe(Key(e, f), Key(s[0], f)) then
      BelowHead(e, s, f);
      SortedCons(e, s, f);
      [e] + s
    else
      SortedTail(s, f);
      var rest := Insert(e, s[1..], f);
      LexLeTotal(Key(e, f), Key(s[0], f));
      KeysFromPermutation(rest, s[1..], e, f, Key(s[0], f));
      SortedCons(s[0], rest, f);
      assert s == [s[0]] + s[1..];
      [s[0]] + rest
  }

  /** A key no greater than the head of a sorted sequence bounds all of it. */
  lemma BelowHead(e: Employee, s: Store, f: SortField)
    requires SortedBy(s, f) && s != [] && LexLe(Key(e, f), Key(s[0], f))
    ensures KeysFrom(s, f, Key(e, f))
  {
    forall j | 0 <= j < |s| ensures LexLe(Key(e, f), Key(s[j], f)) {
      if j > 0 {
        LexLeTransitive(Key(e, f), Key(s[0], f), Key(s[j], f));
      }
    }
  }

  /** The tail of a sorted sequence is sorted and bounded below by the head. */
  lemma SortedTail(s: Store, f: SortField)
    requires SortedBy(s, f) && s != []
    ensures SortedBy(s[1..], f) && KeysFrom(s[1..], f, Key(s[0], f))
  {
    forall i | 0 <= i < |s| - 1 ensures LexLe(Key(s[0], f), Key(s[1..][i], f)) {
      assert s[1..][i] == s[i + 1];
    }
  }

  /** A sorted sequence bounded below by `x` stays sorted with `x` in front. */
  lemma SortedCons(x: Employee, s: Store, f: SortField)
    requires SortedBy(s, f) && KeysFrom(s, f, Key(x, f))
    ensures SortedBy([x] + s, f)
  {
    var t := [x] + s;
    forall i, j | 0 <= i < j < |t| ensures LexLe(Key(t[i], f), Key(t[j], f)) {
      assert t[j] == s[j - 1];
      if i > 0 { assert t[i] == s[i - 1]; }
    }
  }

  /** The store-side ascending sort, inserting each document in turn. Among
      equal keys, later documents come first here; the store itself promises no
      tie order, so the lemmas below hold for every sorted rearrangement. */
  method SortBy(s: Store, f: SortField) returns (r: Store)
    ensures |r| == |s|
    ensures multiset(r) == multiset(s)
    ensures SortedBy(r, f)
  {
    r := [];
    for i := 0 to |s|
      invariant SortedBy(r, f)
      invariant multiset(r) == multiset(s[..i])
    {
      assert s[..i + 1] == s[..i] + [s[i]];
      r := Insert(s[i], r, f);
    }
    assert s[..|s|] == s;
    assert |r| == |multiset(r)| == |multiset(s)| == |s|;
  }

  /** `skip = (page - 1) * limit` with `limit = 5`. */
  function Skip(page: int): int {
    (page - 1) * 5
  }

  /** While `(page - 1) * 5` fits in a Java `int`, page `p` starts after `p - 1`
      whole pages, and a page below 1 gives a negative skip. */
  lemma SkipIsWholePages(page: int)
    requires -0x8000_0000 <= Skip(page) <= IntMax
    ensures page >= 1 ==> Skip(page) >= 0 && Skip(page) % PageSize == 0 && Skip(page) / PageSize == page - 1
    ensures page < 1 ==> Skip(page) < 0
  {
  }

  function Min(a: int, b: int): int {
    if a <= b then a else b
  }

  /** The documents page `page` shows of the collection `sorted` as the store has
      sorted it: `skip((page - 1) * 5).limit(5)`. */
  function Page(sorted: Store, page: int): (r: Store)
    requires 1 <= page && Skip(page) <= IntMax
    ensures |r| == if Skip(page) >= |sorted| then 0 else Min(PageSize, |sorted| - Skip(page))
    ensures forall k | 0 <= k < |r| :: r[k] == sorted[Skip(page) + k]
    ensures multiset(r) <= multiset(sorted)
  {
    var skip := Skip(page);
    if skip >= |sorted| then []
    else
      var hi := Min(skip + PageSize, |sorted|);
      assert sorted == sorted[..skip] + sorted[skip..hi] + sorted[hi..];
      sorted[skip..hi]
  }

  /** Listing with pagination: sort ascending on the chosen field, then take the
      page. Returns the sorted cursor together with the page cut from it. */
  method ListPage(store: Store, page: int, sortChoice: int) returns (sorted: Store, r: Store)
    requires 1 <= page && Skip(page) <= IntMax
    ensures SortedBy(sorted, SortFieldOf(sortChoice)) && multiset(sorted) == multiset(store)
    ensures r == Page(sorted, page)
    ensures |r| <= PageSize
    ensures |r| == if Skip(page) >= |store| then 0 else Min(PageSize, |store| - Skip(page))
    ensures SortedBy(r, SortFieldOf(sortChoice))
    ensures multiset(r) <= multiset(store)
  {
    sorted := SortBy(store, SortFieldOf(sortChoice));
    r := Page(sorted, page);
    PageOfSortedIsSorted(sorted, page, SortFieldOf(sortChoice));
  }

  lemma PageOfSortedIsSorted(sorted: Store, page: int, f: SortField)
    requires 1 <= page && Skip(page) <= IntMax && SortedBy(sorted, f)
    ensures SortedBy(Page(sorted, page), f)
  {
    var r := Page(sorted, page);
    forall i, j | 0 <= i < j < |r|
      ensures LexLe(Key(r[i], f), Key(r[j], f))
    {
      assert r[i] == sorted[Skip(page) + i] && r[j] == sorted[Skip(page) + j];
    }
  }

  /** Position `i` of one sorted cursor is shown on page `i / 5 + 1`, in slot
      `i % 5`: every document of that cursor appears on some page of it, at its
      rank. */
  lemma PageOfPosition(sorted: Store, i: nat)
    requires i < |sorted| && i <= IntMax
    ensures var p := i / PageSize + 1;
      && i % PageSize < |Page(sorted, p)|
      && Page(sorted, p)[i % PageSize] == sorted[i]
  {
    var q, slot := i / 5, i % 5;
    assert i == 5 * q + slot;
    assert Skip(q + 1) == 5 * q;
    assert i / PageSize == q && i % PageSize == slot;
  }

  /** Two different pages of one sorted cursor never show the same document
      twice over: together they hold no more copies of any document than the
      collection does. */
  lemma PagesDisjoint(sorted: Store, p: int, q: int)
    requires 1 <= p < q && Skip(q) <= IntMax
    ensures multiset(Page(sorted, p)) + multiset(Page(sorted, q)) <= multiset(sorted)
  {
    var a, c := Skip(p), Skip(q);
    if c < |sorted| {
      var b, d := Min(a + PageSize, |sorted|), Min(c + PageSize, |sorted|);
      assert Skip(p) + PageSize <= Skip(q) by { assert Skip(q) - Skip(p) == 5 * (q - p); }
      assert Page(sorted, p) == sorted[a..b];
      assert Page(sorted, q) == sorted[c..d];
      SlicesDisjoint(sorted, a, b, c, d);
    }
  }

  lemma SlicesDisjoint(s: Store, a: nat, b: nat, c: nat, d: nat)
    requires a <= b <= c <= d <= |s|
    ensures multiset(s[a..b]) + multiset(s[c..d]) <= multiset(s)
  {
    assert s == s[..a] + s[a..b] + s[b..c] + s[c..d] + s[d..];
  }

  /** Seven documents: the second page holds the sixth and seventh. */
  lemma SecondPageOfSeven(sorted: Store)
    requires |sorted| == 7
    ensures Page(sorted, 2) == sorted[5..7]
  {
  }

  /** Two sorted rearrangements of one non-empty collection start with equal keys. */
  lemma LeastKeysAgree(s1: Store, s2: Store, f: SortField)
    requires SortedBy(s1, f) && SortedBy(s2, f) && multiset(s1) == multiset(s2) && s1 != []
    ensures s2 != [] && Key(s1[0], f) == Key(s2[0], f)
  {
    assert s1[0] in multiset(s2);
    var j :| 0 <= j < |s2| && s2[j] == s1[0];
    assert s2[0] in multiset(s1);
    var i :| 0 <= i < |s1| && s1[i] == s2[0];
    var k1, k2 := Key(s1[0], f), Key(s2[0], f);
    if j == 0 || i == 0 {
      LexLeReflexive(k1);
    }
    assert LexLe(k2, k1) && LexLe(k1, k2);
    LexLeAntisymmetric(k1, k2);
  }

  lemma PositionOf(s: Store, x: Employee) returns (j: nat)
    requires x in multiset(s)
    ensures j < |s| && s[j] == x
  {
    j :| 0 <= j < |s| && s[j] == x;
  }

  /** Removing one element keeps a sequence sorted. */
  lemma RemoveAtSorted(s: Store, j: nat, f: SortField)
    requires SortedBy(s, f) && j < |s|
    ensures SortedBy(RemoveAt(s, j), f)
  {
    var s' := RemoveAt(s, j);
    forall a, b | 0 <= a < b < |s'|
      ensures LexLe(Key(s'[a], f), Key(s'[b], f))
    {
      assert s'[a] == s[if a < j then a else a + 1];
      assert s'[b] == s[if b < j then b else b + 1];
    }
  }

  /** In a sorted sequence, every element up to one with the least key has the
      least key too. */
  lemma LeastKeyRun(s: Store, j: nat, f: SortField, m: nat)
    requires SortedBy(s, f) && m <= j < |s| && Key(s[j], f) == Key(s[0], f)
    ensures Key(s[m], f) == Key(s[0], f)
  {
    if 0 < m < j {
      assert LexLe(Key(s[0], f), Key(s[m], f));
      assert LexLe(Key(s[m], f), Key(s[j], f));
      LexLeAntisymmetric(Key(s[0], f), Key(s[m], f));
    }
  }

  /** In a sorted sequence whose element at `j` has the least key, removing that
      element and putting its key in front gives back the same keys. */
  lemma KeysAfterRemovingLeast(s: Store, j: nat, f: SortField)
    requires SortedBy(s, f) && j < |s| && Key(s[j], f) == Key(s[0], f)
    ensures Keys(s, f) == [Key(s[0], f)] + Keys(RemoveAt(s, j), f)
  {
    var s' := RemoveAt(s, j);
    forall m | 0 < m < |s|
      ensures Keys(s, f)[m] == Keys(s', f)[m - 1]
    {
      KeyShift(s, j, f, m);
    }
  }

  lemma KeyShift(s: Store, j: nat, f: SortField, m: nat)
    requires SortedBy(s, f) && j < |s| && Key(s[j], f) == Key(s[0], f) && 0 < m < |s|
    ensures Key(s[m], f) == Key(RemoveAt(s, j)[m - 1], f)
  {
    if m <= j {
      assert RemoveAt(s, j)[m - 1] == s[m - 1];
      LeastKeyRun(s, j, f, m);
      LeastKeyRun(s, j, f, m - 1);
    }
  }

  /** Any two sorted rearrangements of one collection agree key by key; only the
      order among equal keys can differ. */
  lemma {:induction false} SortedPermutationsShareKeys(s1: Store, s2: Store, f: SortField)
    requires SortedBy(s1, f) && SortedBy(s2, f) && multiset(s1) == multiset(s2)
    ensures Keys(s1, f) == Keys(s2, f)
  {
    if s1 == [] {
      assert |s2| == |multiset(s2)| == 0;
    } else {
      LeastKeysAgree(s1, s2, f);
      var j := PositionOf(s2, s1[0]);
      var s1', s2' := RemoveAt(s1, 0), RemoveAt(s2, j);
      RemoveAtSorted(s1, 0, f);
      RemoveAtSorted(s2, j, f);
      KeysAfterRemovingLeast(s1, 0, f);
      KeysAfterRemovingLeast(s2, j, f);
      SortedPermutationsShareKeys(s1', s2', f);
    }
  }

  /** Whatever order the store gives equal keys, a page shows the same sequence of
      sort keys: the page is determined up to ties. */
  lemma PageKeysIndependentOfTies(s1: Store, s2: Store, page: int, f: SortField)
    requires 1 <= page && Skip(page) <= IntMax
    requires SortedBy(s1, f) && SortedBy(s2, f) && multiset(s1) == multiset(s2)
    ensures Keys(Page(s1, page), f) == Keys(Page(s2, page), f)
  {
    SortedPermutationsShareKeys(s1, s2, f);
    assert |s1| == |multiset(s1)| == |s2|;
    var r1, r2 := Page(s1, page), Page(s2, page);
    forall k | 0 <= k < |r1|
      ensures Key(r1[k], f) == Key(r2[k], f)
    {
      assert Keys(s1, f)[Skip(page) + k] == Keys(s2, f)[Skip(page) + k];
    }
  }

  /** Each listing is its own sorted query, and equal keys may come back in a
      different order each time: with six documents sharing one name, page 1 of
      one listing and page 2 of another can both show the fifth document, and
      neither shows the sixth. */
  lemma TiesCanRepeatAcrossListings(d: Store)
    requires |d| == 6
    requires forall i | 0 <= i < 6 :: d[i].name == d[0].name
    requires forall i, j | 0 <= i < j < 6 :: d[i] != d[j]
    ensures var s2 := [d[5]] + d[..5];
      && SortedBy(d, ByName) && SortedBy(s2, ByName) && multiset(s2) == multiset(d)
      && Page(d, 1) == d[..5] && Page(s2, 2) == [d[4]]
      && d[5] !in Page(d, 1) + Page(s2, 2)
      && multiset(Page(d, 1))[d[4]] + multiset(Page(s2, 2))[d[4]] > multiset(d)[d[4]]
  {
    var s2 := [d[5]] + d[..5];
    RotatedTiesSorted(d, s2);
    RotatedTiesPages(d, s2);
    RotatedTiesCopies(d);
  }

  /** The six documents of one name, and the same six with the last moved to the
      front, are both sorted by name. */
  lemma RotatedTiesSorted(d: Store, s2: Store)
    requires |d| == 6 && s2 == [d[5]] + d[..5]
    requires forall i | 0 <= i < 6 :: d[i].name == d[0].name
    ensures SortedBy(d, ByName) && SortedBy(s2, ByName) && multiset(s2) == multiset(d)
  {
    assert d == d[..5] + [d[5]];
    SameKeySorted(d, ByName, d[0].name);
    SameKeySorted(s2, ByName, d[0].name);
  }

  lemma RotatedTiesPages(d: Store, s2: Store)
    requires |d| == 6 && s2 == [d[5]] + d[..5]
    ensures Page(d, 1) == d[..5] && Page(s2, 2) == [d[4]]
  {
    assert Page(s2, 2)[0] == s2[5] == d[4];
  }

  lemma RotatedTiesCopies(d: Store)
    requires |d| == 6
    requires forall i, j | 0 <= i < j < 6 :: d[i] != d[j]
    ensures d[5] !in d[..5] + [d[4]]
    ensures multiset(d[..5])[d[4]] + multiset([d[4]])[d[4]] > multiset(d)[d[4]]
  {
    var pre := d[..4];
    assert d[..5] == pre + [d[4]] && d == pre + [d[4]] + [d[5]];
    assert d[4] !in pre;
  }

  /** A sequence whose keys are all one key is sorted. */
  lemma SameKeySorted(s: Store, f: SortField, k: string)
    requires forall i | 0 <= i < |s| :: Key(s[i], f) == k
    ensures SortedBy(s, f)
  {
    LexLeReflexive(k);
  }
}
