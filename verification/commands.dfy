/**
 The three commands that change the collection: add, update and delete by
 e-mail. Each takes the raw console input and returns a status together with
 the collection as it is afterwards.
 */
module Commands {
  import opened JavaString
  import opened Validation
  import opened Employees

  datatype AddStatus = Added | EmailExists | InvalidDate
  datatype UpdateStatus = Updated | NotFound | NoChanges

  datatype Reply<S> = Reply(status: S, store: Store)

  // ------------------------------------------------------------------ add

  /** Add an employee. The normalised e-mail is checked for a duplicate first,
      the trimmed joining date for its shape second; only then is one document
      appended, with name and department as typed. */
  function Add(store: Store, name: string, rawEmail: string, dept: string, rawDate: string, rawSkills: string)
    : (r: Reply<AddStatus>)
    ensures r.status == EmailExists <==> NormalizeEmail(rawEmail) in Emails(store)
    ensures r.status == InvalidDate <==> NormalizeEmail(rawEmail) !in Emails(store) && !IsDateShape(Trim(rawDate))
    ensures r.status != Added ==> r.store == store
    ensures r.status == Added ==>
      && |r.store| == |store| + 1
      && r.store[..|store|] == store
      && r.store[|store|] == Employee(name, NormalizeEmail(rawEmail), dept, Trim(rawDate), ParseSkills(rawSkills))
  {
    var email := NormalizeEmail(rawEmail);
    if IndexOfEmail(store, email) < |store| then Reply(EmailExists, store)
    else
      var date := Trim(rawDate);
      if !IsDateShape(date) then Reply(InvalidDate, store)
      else Reply(Added, store + [Employee(name, email, dept, date, ParseSkills(rawSkills))])
  }

  /** Adding keeps every document well formed and every e-mail unique. */
  lemma AddPreservesWellFormed(store: Store, name: string, rawEmail: string, dept: string, rawDate: string, rawSkills: string)
    requires WellFormed(store)
    ensures WellFormed(Add(store, name, rawEmail, dept, rawDate, rawSkills).store)
  {
    var r := Add(store, name, rawEmail, dept, rawDate, rawSkills);
    if r.status == Added {
      var e := Employee(name, NormalizeEmail(rawEmail), dept, Trim(rawDate), ParseSkills(rawSkills));
      NormalizeEmailFacts(rawEmail);
      assert r.store == store + [e];
      AppendPreservesWellFormed(store, e);
    }
  }

  /** Adding keeps the stored e-mails distinct, whether or not the documents
      already stored were written in normalised form. */
  lemma AddPreservesEmailsUnique(store: Store, name: string, rawEmail: string, dept: string, rawDate: string, rawSkills: string)
    requires EmailsUnique(store)
    ensures EmailsUnique(Add(store, name, rawEmail, dept, rawDate, rawSkills).store)
  {
    var s' := Add(store, name, rawEmail, dept, rawDate, rawSkills).store;
    if s' != store {
      forall i, j | 0 <= i < j < |s'|
        ensures s'[i].email != s'[j].email
      {
        if j == |store| {
          assert store[i].email == Emails(store)[i];
        }
      }
    }
  }

  lemma AppendPreservesWellFormed(store: Store, e: Employee)
    requires WellFormed(store) && IsWellFormed(e) && e.email !in Emails(store)
    ensures WellFormed(store + [e])
  {
    var s' := store + [e];
    forall i, j | 0 <= i < j < |s'|
      ensures s'[i].email != s'[j].email
    {
      if j == |store| {
        assert store[i].email == Emails(store)[i];
      }
    }
  }

  /** After a successful add, every spelling of the e-mail that normalises the
      same way finds the new document, is refused by a second add, and deleting
      by it restores the store. */
  lemma AddedRecordIsReachable(store: Store, name: string, rawEmail: string, dept: string, rawDate: string, rawSkills: string, lookup: string)
    requires Add(store, name, rawEmail, dept, rawDate, rawSkills).status == Added
    requires NormalizeEmail(lookup) == NormalizeEmail(rawEmail)
    ensures var s' := Add(store, name, rawEmail, dept, rawDate, rawSkills).store;
      && IndexOfEmail(s', NormalizeEmail(lookup)) == |store|
      && Add(s', name, lookup, dept, rawDate, rawSkills) == Reply(EmailExists, s')
      && Update(s', lookup, "x", "").status == Updated
      && DeleteByEmail(s', lookup) == store
  {
    var s' := Add(store, name, rawEmail, dept, rawDate, rawSkills).store;
    var email := NormalizeEmail(lookup);
    assert email !in Emails(store);
    assert forall j | 0 <= j < |store| :: s'[j].email == store[j].email;
    assert IndexOfEmail(s', email) == |store|;
    assert !IsBlank("x") by { assert !IsWhitespace("x"[0]); }
    assert s'[..|store|] == store;
  }

  // --------------------------------------------------------------- update

  /** Update the first document with the normalised e-mail: department set to the
      input as typed and skills set to the parsed list, each only when its input
      is not blank. */
  function Update(store: Store, rawEmail: string, deptInput: string, skillsInput: string): (r: Reply<UpdateStatus>)
    ensures r.status == NotFound <==> NormalizeEmail(rawEmail) !in Emails(store)
    ensures r.status == NoChanges <==>
      NormalizeEmail(rawEmail) in Emails(store) && IsBlank(deptInput) && IsBlank(skillsInput)
    ensures r.status != Updated ==> r.store == store
    ensures |r.store| == |store|
    ensures Emails(r.store) == Emails(store)
    ensures forall j | 0 <= j < |store| && j != IndexOfEmail(store, NormalizeEmail(rawEmail)) :: r.store[j] == store[j]
    ensures r.status == Updated ==>
      var i := IndexOfEmail(store, NormalizeEmail(rawEmail));
      && r.store[i].name == store[i].name
      && r.store[i].email == store[i].email
      && r.store[i].joiningDate == store[i].joiningDate
      && r.store[i].department == (if IsBlank(deptInput) then store[i].department else deptInput)
      && r.store[i].skills == (if IsBlank(skillsInput) then store[i].skills else ParseSkills(skillsInput))
  {
    var i := IndexOfEmail(store, NormalizeEmail(rawEmail));
    if i == |store| then Reply(NotFound, store)
    else if IsBlank(deptInput) && IsBlank(skillsInput) then Reply(NoChanges, store)
    else
      var e := store[i];
      var e1 := if IsBlank(deptInput) then e else e.(department := deptInput);
      var e2 := if IsBlank(skillsInput) then e1 else e1.(skills := ParseSkills(skillsInput));
      Reply(Updated, store[i := e2])
  }

  lemma UpdatePreservesWellFormed(store: Store, rawEmail: string, deptInput: string, skillsInput: string)
    requires WellFormed(store)
    ensures WellFormed(Update(store, rawEmail, deptInput, skillsInput).store)
  {
    var s' := Update(store, rawEmail, deptInput, skillsInput).store;
    forall i, j | 0 <= i < j < |s'|
      ensures s'[i].email != s'[j].email
    {
      assert s'[i].email == Emails(s')[i] == Emails(store)[i];
      assert s'[j].email == Emails(s')[j] == Emails(store)[j];
    }
  }

  /** Repeating an update changes nothing more. */
  lemma UpdateIdempotent(store: Store, rawEmail: string, deptInput: string, skillsInput: string)
    ensures var s1 := Update(store, rawEmail, deptInput, skillsInput).store;
      Update(s1, rawEmail, deptInput, skillsInput).store == s1
  {
    var email := NormalizeEmail(rawEmail);
    var s1 := Update(store, rawEmail, deptInput, skillsInput).store;
    var i := IndexOfEmail(store, email);
    assert IndexOfEmail(s1, email) == i by {
      forall j | 0 <= j <= i && j < |store|
        ensures s1[j].email == store[j].email
      {
        assert Emails(s1)[j] == Emails(store)[j];
      }
    }
    var s2 := Update(s1, rawEmail, deptInput, skillsInput).store;
    if i < |store| {
      forall j | 0 <= j < |s1|
        ensures s2[j] == s1[j]
      {
        if j == i {
          assert s2[i].department == s1[i].department;
          assert s2[i].skills == s1[i].skills;
        }
      }
    }
  }

  /** A skills input that is not blank replaces the list even when every token is
      empty: `" , "` clears the skills. */
  lemma NonBlankEmptySkillsClear(store: Store, rawEmail: string)
    requires NormalizeEmail(rawEmail) in Emails(store)
    ensures var r := Update(store, rawEmail, "", " , ");
      r.status == Updated && r.store[IndexOfEmail(store, NormalizeEmail(rawEmail))].skills == []
  {
    assert !IsBlank(" , ") by { assert !IsWhitespace(" , "[1]); }
    var parts := [" ", " "];
    assert Join(parts[1..], ',') == " ";
    assert Join(parts, ',') == " , ";
    FieldsJoin(parts, ',');
    ParseSkillsSeesAllFields(" , ");
    assert Trim(" ") == [];
    NonEmptyOfEmpties(TrimAll(parts));
  }

  // --------------------------------------------------------------- delete

  /** `deleteOne(eq("email", normalised))`: the first document with that e-mail
      is removed, if there is one. */
  function DeleteByEmail(store: Store, rawEmail: string): (r: Store)
    ensures NormalizeEmail(rawEmail) !in Emails(store) ==> r == store
    ensures NormalizeEmail(rawEmail) in Emails(store) ==>
      var i := IndexOfEmail(store, NormalizeEmail(rawEmail));
      && |r| == |store| - 1
      && multiset(r) == multiset(store) - multiset{store[i]}
      && (forall j | 0 <= j < i :: r[j] == store[j])
      && (forall j | i <= j < |r| :: r[j] == store[j + 1])
  {
    var i := IndexOfEmail(store, NormalizeEmail(rawEmail));
    if i == |store| then store else RemoveAt(store, i)
  }

  lemma DeletePreservesWellFormed(store: Store, rawEmail: string)
    requires WellFormed(store)
    ensures WellFormed(DeleteByEmail(store, rawEmail))
  {
    var s' := DeleteByEmail(store, rawEmail);
    var email := NormalizeEmail(rawEmail);
    if email in Emails(store) {
      var i := IndexOfEmail(store, email);
      forall a | 0 <= a < |s'|
        ensures s'[a] == store[if a < i then a else a + 1]
      {
      }
    }
  }

  /** With unique e-mails, deleting by an e-mail leaves no document with it, and
      a second delete changes nothing. */
  lemma DeleteRemovesTheEmail(store: Store, rawEmail: string)
    requires EmailsUnique(store)
    ensures NormalizeEmail(rawEmail) !in Emails(DeleteByEmail(store, rawEmail))
    ensures DeleteByEmail(DeleteByEmail(store, rawEmail), rawEmail) == DeleteByEmail(store, rawEmail)
  {
    var email := NormalizeEmail(rawEmail);
    var s' := DeleteByEmail(store, rawEmail);
    if email in Emails(store) {
      var i := IndexOfEmail(store, email);
      forall a | 0 <= a < |s'|
        ensures s'[a].email != email
      {
        var b := if a < i then a else a + 1;
        assert s'[a] == store[b] && b != i;
      }
    }
  }
}
