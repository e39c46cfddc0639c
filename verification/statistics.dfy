/**
 Department statistics: `$group` on `department` with `count: {$sum: 1}`, one
 group per distinct department holding how many documents carry it.
 */
module Statistics {
  import opened Employees

  datatype Group = Group(department: string, count: nat)

  /** The `department` of every document, in store order. */
  function Departments(store: Store): (r: seq<string>)
    ensures |r| == |store|
    ensures forall i | 0 <= i < |store| :: r[i] == store[i].department
  {
    seq(|store|, i requires 0 <= i < |store| => store[i].department)
  }

  /** How many documents of `store` are in department `d`. */
  function Headcount(store: Store, d: string): nat {
    multiset(Departments(store))[d]
  }

  function Names(gs: seq<Group>): (r: seq<string>)
    ensures |r| == |gs|
    ensures forall i | 0 <= i < |gs| :: r[i] == gs[i].department
  {
    seq(|gs|, i requires 0 <= i < |gs| => gs[i].department)
  }

  /** No name occurs twice. */
  predicate NoDuplicates(names: seq<string>) {
    forall i, j | 0 <= i < j < |names| :: names[i] != names[j]
  }

  /** Each department appears in at most one group. */
  predicate Distinct(gs: seq<Group>) {
    NoDuplicates(Names(gs))
  }

  /** The count of the first group for `d`, or 0 when no group has that name. */
  function CountOf(gs: seq<Group>, d: string): (n: nat)
    ensures d !in Names(gs) ==> n == 0
    ensures Distinct(gs) ==> forall i | 0 <= i < |gs| && gs[i].department == d :: n == gs[i].count
  {
    if gs == [] then 0
    else if gs[0].department == d then gs[0].count
    else
      assert Names(gs[1..]) == Names(gs)[1..];
      CountOf(gs[1..], d)
  }

  /** The sum of all counts. */
  function Total(gs: seq<Group>): nat {
    if gs == [] then 0 else gs[0].count + Total(gs[1..])
  }

  /** The accumulator step of `$sum: 1`: one more document in department `d`,
      counted in its group, or in a new group of one at the end. */
  function Bump(gs: seq<Group>, d: string): (r: seq<Group>)
    ensures Total(r) == Total(gs) + 1
  {
    if gs == [] then [Group(d, 1)]
    else if gs[0].department == d then
      var r := [Group(d, gs[0].count + 1)] + gs[1..];
      assert r[1..] == gs[1..];
      r
    else
      var r := [gs[0]] + Bump(gs[1..], d);
      assert r[1..] == Bump(gs[1..], d);
      r
  }

  /** Bumping an existing department keeps the group names; a new one is added
      at the end. */
  lemma {:induction false} BumpNames(gs: seq<Group>, d: string)
    ensures Names(Bump(gs, d)) == if d in Names(gs) then Names(gs) else Names(gs) + [d]
  {
    var r := Bump(gs, d);
    if gs == [] {
    } else if gs[0].department == d {
      assert d in Names(gs) by { assert Names(gs)[0] == d; }
      forall k | 0 <= k < |r|
        ensures Names(r)[k] == Names(gs)[k]
      {
        if k > 0 { assert r[k] == gs[k]; }
      }
    } else {
      var tail := gs[1..];
      BumpNames(tail, d);
      assert r == [gs[0]] + Bump(tail, d);
      assert Names(r) == [gs[0].department] + Names(Bump(tail, d));
      assert Names(gs) == [gs[0].department] + Names(tail);
      assert d in Names(gs) <==> d in Names(tail);
    }
  }

  lemma {:induction false} BumpCounts(gs: seq<Group>, d: string, x: string)
    ensures CountOf(Bump(gs, d), x) == CountOf(gs, x) + if x == d then 1 else 0
  {
    if gs != [] && gs[0].department != d {
      var r := Bump(gs, d);
      assert r[1..] == Bump(gs[1..], d);
      BumpCounts(gs[1..], d, x);
    }
  }

  lemma {:induction false} BumpKeepsPositive(gs: seq<Group>, d: string)
    requires forall i | 0 <= i < |gs| :: gs[i].count >= 1
    ensures forall i | 0 <= i < |Bump(gs, d)| :: Bump(gs, d)[i].count >= 1
  {
    if gs != [] && gs[0].department != d {
      var r := Bump(gs, d);
      assert r[1..] == Bump(gs[1..], d);
      BumpKeepsPositive(gs[1..], d);
      assert forall i | 1 <= i < |r| :: r[i] == r[1..][i - 1];
    }
  }

  lemma BumpKeepsDistinct(gs: seq<Group>, d: string)
    requires Distinct(gs)
    ensures Distinct(Bump(gs, d))
  {
    BumpNames(gs, d);
    var names := Names(Bump(gs, d));
    if d !in Names(gs) {
      forall i, j | 0 <= i < j < |names|
        ensures names[i] != names[j]
      {
        if j == |gs| {
          assert names[i] == Names(gs)[i];
        }
      }
    }
  }

  /** The `$group` stage over the whole collection: one group per department,
      each counting its documents. */
  function Tally(store: Store): (r: seq<Group>)
    ensures Distinct(r)
    ensures forall i | 0 <= i < |r| :: r[i].count >= 1
    ensures forall d :: CountOf(r, d) == Headcount(store, d)
    ensures forall d :: d in Names(r) <==> d in Departments(store)
    ensures Total(r) == |store|
  {
    if store == [] then []
    else
      var init, last := store[..|store| - 1], store[|store| - 1];
      var prior := Tally(init);
      assert Departments(store) == Departments(init) + [last.department];
      BumpNames(prior, last.department);
      BumpKeepsDistinct(prior, last.department);
      BumpKeepsPositive(prior, last.department);
      forall d
        ensures CountOf(Bump(prior, last.department), d) == Headcount(store, d)
      {
        BumpCounts(prior, last.department, d);
      }
      Bump(prior, last.department)
  }

  /** Every group's count is the number of documents in its department, and so at
      least one. */
  lemma GroupCountIsHeadcount(store: Store, i: nat)
    requires i < |Tally(store)|
    ensures Tally(store)[i].count == Headcount(store, Tally(store)[i].department) >= 1
  {
    var r := Tally(store);
    assert CountOf(r, r[i].department) == r[i].count;
  }

  /** A department no document carries has no group; one that some document
      carries has a group. */
  lemma OneGroupPerDepartment(store: Store, d: string)
    ensures d !in Departments(store) ==> forall i | 0 <= i < |Tally(store)| :: Tally(store)[i].department != d
    ensures d in Departments(store) ==>
      exists i :: 0 <= i < |Tally(store)| && Tally(store)[i].department == d
  {
    var r := Tally(store);
    if d !in Departments(store) {
      forall i | 0 <= i < |r|
        ensures r[i].department != d
      {
        assert Names(r)[i] == r[i].department;
      }
    } else {
      assert d in Names(r);
      var i :| 0 <= i < |r| && Names(r)[i] == d;
      assert r[i].department == d;
    }
  }

  /** Two documents in one department and one in another give two groups,
      counting 2 and 1. */
  lemma TallyExample(a1: Employee, a2: Employee, b: Employee)
    requires a1.department == a2.department != b.department
    ensures var r := Tally([a1, a2, b]);
      && |r| == 2
      && CountOf(r, a1.department) == 2
      && CountOf(r, b.department) == 1
      && Total(r) == 3
  {
    var store := [a1, a2, b];
    var x, y := a1.department, b.department;
    assert Departments(store) == [x, x, y];
    assert Headcount(store, x) == 2 && Headcount(store, y) == 1 by {
      assert multiset(Departments(store)) == multiset{x, x, y};
    }
    TwoNames(Names(Tally(store)), x, y);
  }

  /** A list of distinct names drawn from two names, holding both, has length two. */
  lemma TwoNames(names: seq<string>, x: string, y: string)
    requires NoDuplicates(names) && x != y
    requires forall z :: z in names <==> z == x || z == y
    ensures |names| == 2
  {
    DistinctNamesCount(names);
    assert (set z | z in names) == {x, y};
  }

  /** Distinct names are as many as the list is long. */
  lemma {:induction false} DistinctNamesCount(names: seq<string>)
    requires NoDuplicates(names)
    ensures |set z | z in names| == |names|
  {
    if names != [] {
      var init, last := names[..|names| - 1], names[|names| - 1];
      assert NoDuplicates(init);
      DistinctNamesCount(init);
      assert last !in init by {
        forall k | 0 <= k < |init| ensures init[k] != last {
          assert init[k] == names[k];
        }
      }
      assert names == init + [last];
      assert (set z | z in names) == (set z | z in init) + {last};
    }
  }
}
