/**
 The employee document and the collection that holds the documents, with the
 two store primitives every command is built from: "first document whose
 field equals" (`find(eq(...)).first()`, `updateOne`, `deleteOne`) and
 "every document that satisfies a filter" (`find(filter)`).
 */
module Employees {
  import opened Validation

  datatype Employee = Employee(
    name: string,
    email: string,
    department: string,
    joiningDate: string,
    skills: seq<string>)

  /** The `employees` collection in natural (insertion) order. */
  type Store = seq<Employee>

  function Emails(store: Store): (r: seq<string>)
    ensures |r| == |store|
    ensures forall i | 0 <= i < |store| :: r[i] == store[i].email
  {
    seq(|store|, i requires 0 <= i < |store| => store[i].email)
  }

  /** Position of the first document whose `email` equals `email`, or `|store|`
      when there is none. */
  function IndexOfEmail(store: Store, email: string): (i: nat)
    ensures i <= |store|
    ensures i < |store| ==> store[i].email == email
    ensures forall j | 0 <= j < i :: store[j].email != email
    ensures i == |store| <==> email !in Emails(store)
  {
    if store == [] then 0
    else if store[0].email == email then 0
    else
      assert Emails(store[1..]) == Emails(store)[1..];
      1 + IndexOfEmail(store[1..], email)
  }

  /** No two documents share an e-mail. The application enforces this; the store does not. */
  predicate EmailsUnique(store: Store) {
    forall i, j | 0 <= i < j < |store| :: store[i].email != store[j].email
  }

  /** The shape every document the application writes has. */
  predicate IsWellFormed(e: Employee) {
    && IsNormalizedEmail(e.email)
    && IsDateShape(e.joiningDate)
    && forall k | 0 <= k < |e.skills| :: IsSkill(e.skills[k])
  }

  predicate WellFormed(store: Store) {
    && EmailsUnique(store)
    && forall i | 0 <= i < |store| :: IsWellFormed(store[i])
  }

  /** The sequence without its element at `i`, the others kept in order. */
  function RemoveAt(store: Store, i: nat): (r: Store)
    requires i < |store|
    ensures |r| == |store| - 1
    ensures multiset(r) == multiset(store) - multiset{store[i]}
    ensures forall j | 0 <= j < i :: r[j] == store[j]
    ensures forall j | i <= j < |r| :: r[j] == store[j + 1]
  {
    assert store == store[..i] + [store[i]] + store[i + 1..];
    store[..i] + store[i + 1..]
  }

  /** `find(filter)`: the documents that satisfy `keep`, in store order. */
  function Select(store: Store, keep: Employee -> bool): (r: Store)
    ensures |r| <= |store|
    ensures forall e :: multiset(r)[e] == if keep(e) then multiset(store)[e] else 0
  {
    if store == [] then []
    else
      assert store == [store[0]] + store[1..];
      var rest := Select(store[1..], keep);
      if keep(store[0]) then [store[0]] + rest else rest
  }
}
