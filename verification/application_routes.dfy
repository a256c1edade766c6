/** The `/api/applications` handlers (POST, PUT, DELETE) as transitions of the
    store. A handler that writes twice is the composition of two single-write
    steps, in the order the handler awaits them, so that the state between the
    writes can be named. */
module ApplicationRoutes {
  import opened Text
  import opened Store

  /** Write step: `application.save()` of a new record under `id`. */
  function SaveApp(s: Store, id: Id, a: App): (s': Store)
    ensures s'.companies == s.companies
    ensures s'.apps.Keys == s.apps.Keys + {id} && s'.apps[id] == a
    ensures forall x :: x in s.apps && x != id ==> s'.apps[x] == s.apps[x]
  {
    s.(apps := s.apps[id := a])
  }

  /** Write step: `company.applications.push(id); company.save()`. */
  function PushApp(s: Store, c: Id, id: Id): (s': Store)
    requires c in s.companies
    ensures s'.apps == s.apps
    ensures s'.companies.Keys == s.companies.Keys
    ensures s'.companies[c].apps == s.companies[c].apps + [id]
    ensures s'.companies[c].name == s.companies[c].name
    ensures s'.companies[c].createdAt == s.companies[c].createdAt
    ensures forall d :: d in s.companies && d != c ==> s'.companies[d] == s.companies[d]
  {
    var co := s.companies[c];
    s.(companies := s.companies[c := co.(apps := co.apps + [id])])
  }

  /** POST /api/applications. `newId` is the ObjectId the database assigns to the
      new record and `now` the server clock that fills `createdAt`. Checks fire in
      the order of the source: company id, then title, then the company lookup. */
  function Create(s: Store, companyId: Option<string>, title: Option<string>,
                  location: Option<string>, status: Option<string>,
                  newId: Id, now: int): (r: Response<AppDoc>)
    requires newId !in s.apps
    ensures r.BadRequest? <==> !Given(companyId) || BlankField(title)
    ensures r.BadRequest? ==> (r.why == CompanyIdRequired <==> !Given(companyId))
    ensures r.BadRequest? ==> r.why in {CompanyIdRequired, TitleRequired}
    ensures r.NotFound? <==> Given(companyId) && !BlankField(title) && companyId.value !in s.companies
    ensures r.NotFound? ==> r.why == CompanyNotFound
    ensures r.Ok? ==>
      && var c := companyId.value;
      && c in s.companies && c in r.store.companies
      && r.payload.id == newId
      // the record: trimmed, non-blank title; trimmed or empty location and status
      && r.store.apps.Keys == s.apps.Keys + {newId}
      && r.store.apps[newId] == r.payload.app
      && r.payload.app.title != [] && Trim(r.payload.app.title) == r.payload.app.title
      && r.payload.app.location == Some(TrimOr(location))
      && r.payload.app.status == Some(TrimOr(status))
      && r.payload.app.createdAt == Some(now)
      // the id is appended at the end of that company's list
      && r.store.companies.Keys == s.companies.Keys
      && r.store.companies[c] == s.companies[c].(apps := s.companies[c].apps + [newId])
      // nothing else changes
      && (forall x :: x in s.apps ==> r.store.apps[x] == s.apps[x])
      && (forall d :: d in s.companies && d != c ==> r.store.companies[d] == s.companies[d])
  {
    if !Given(companyId) then BadRequest(CompanyIdRequired)
    else if BlankField(title) then BadRequest(TitleRequired)
    else if companyId.value !in s.companies then NotFound(CompanyNotFound)
    else
      var a := App(Trim(title.value), Some(TrimOr(location)), Some(TrimOr(status)), Some(now));
      assert Trim(a.title) == a.title by { TrimIdempotent(title.value); }
      var saved := SaveApp(s, newId, a);
      var pushed := PushApp(saved, companyId.value, newId);
      Ok(pushed, AppDoc(newId, a))
  }

  /** The title POST stores is the submitted title, trimmed. */
  lemma CreateTrimsTitle(s: Store, companyId: Option<string>, title: Option<string>,
                         location: Option<string>, status: Option<string>, newId: Id, now: int)
    requires newId !in s.apps
    ensures var r := Create(s, companyId, title, location, status, newId, now);
      r.Ok? ==> r.payload.app.title == Trim(title.value)
  {
  }

  /** Saving a record under an unused id keeps the invariant. */
  lemma SaveFreshPreservesValid(s: Store, id: Id, a: App)
    requires Valid(s) && id !in s.apps
    ensures Valid(SaveApp(s, id, a))
    ensures forall d :: !Owns(SaveApp(s, id, a), d, id)
  {
  }

  /** Appending an existing, unlisted id to one company's list keeps the
      invariant, and that company becomes its only owner. */
  lemma PushUnlistedPreservesValid(s: Store, c: Id, id: Id)
    requires Valid(s) && c in s.companies && id in s.apps
    requires forall d :: !Owns(s, d, id)
    ensures Valid(PushApp(s, c, id))
    ensures forall d :: Owns(PushApp(s, c, id), d, id) <==> d == c
  {
    var t := PushApp(s, c, id);
    var last := |s.companies[c].apps|;
    assert t.companies[c].apps[last] == id;
    forall e, j | e in s.companies && 0 <= j < |s.companies[e].apps|
      ensures s.companies[e].apps[j] != id
    {
      assert !Owns(s, e, id);
    }
    forall d, i | d in t.companies && 0 <= i < |t.companies[d].apps|
      ensures t.companies[d].apps[i] == (if d == c && i == last then id else s.companies[d].apps[i])
    {
    }
    forall d, e, i, j |
      && d in t.companies && e in t.companies
      && 0 <= i < |t.companies[d].apps| && 0 <= j < |t.companies[e].apps|
      && t.companies[d].apps[i] == t.companies[e].apps[j]
      ensures d == e && i == j
    {
    }
  }

  /** POST keeps the invariant: the fresh id is listed by exactly one company,
      exactly once, and resolves to the new record. */
  lemma CreatePreservesValid(s: Store, companyId: Option<string>, title: Option<string>,
                             location: Option<string>, status: Option<string>,
                             newId: Id, now: int)
    requires Valid(s) && newId !in s.apps
    ensures var r := Create(s, companyId, title, location, status, newId, now);
      && Valid(r.After(s))
      && (r.Ok? ==> forall d :: Owns(r.store, d, newId) <==> d == companyId.value)
  {
    var r := Create(s, companyId, title, location, status, newId, now);
    if r.Ok? {
      var saved := SaveApp(s, newId, r.payload.app);
      SaveFreshPreservesValid(s, newId, r.payload.app);
      PushUnlistedPreservesValid(saved, companyId.value, newId);
      assert r.store == PushApp(saved, companyId.value, newId);
    }
  }

  /** POST saves the record before it updates the company's list, so the state
      between the two writes has no dangling id. */
  lemma CreateIntermediateDanglingFree(s: Store, companyId: Option<string>, title: Option<string>,
                                       location: Option<string>, status: Option<string>,
                                       newId: Id, now: int)
    requires DanglingFree(s) && newId !in s.apps
    ensures var r := Create(s, companyId, title, location, status, newId, now);
      r.Ok? ==>
        var between := SaveApp(s, newId, r.payload.app);
        && DanglingFree(between)
        && r.store == PushApp(between, companyId.value, newId)
  {
  }

  /** The other write order would pass through a state where the company lists
      an id that resolves to nothing. */
  lemma PushFirstDangles(s: Store, c: Id, newId: Id)
    requires c in s.companies && newId !in s.apps
    ensures !DanglingFree(PushApp(s, c, newId))
  {
    var t := PushApp(s, c, newId);
    assert t.companies[c].apps[|s.companies[c].apps|] == newId;
  }

  /** PUT /api/applications: a full replace of title, location and status. Each
      becomes the trimmed supplied value or `''` when omitted; a blank title is
      accepted. Checks fire in order: both ids, company, membership, record. */
  function Update(s: Store, companyId: Option<string>, applicationId: Option<string>,
                  title: Option<string>, location: Option<string>, status: Option<string>)
    : (r: Response<AppDoc>)
    ensures r.BadRequest? <==> !Given(companyId) || !Given(applicationId)
    ensures r.NotFound? <==>
      && Given(companyId) && Given(applicationId)
      && (|| companyId.value !in s.companies
          || applicationId.value !in s.companies[companyId.value].apps
          || applicationId.value !in s.apps)
    ensures r.BadRequest? ==> r.why == IdsRequired
    ensures r.NotFound? ==> (r.why == CompanyNotFound <==> companyId.value !in s.companies)
    ensures r.NotFound? ==>
      (r.why == NotInCompany <==> !Owns(s, companyId.value, applicationId.value) && companyId.value in s.companies)
    ensures r.NotFound? ==> (r.why == ApplicationNotFound <==> Owns(s, companyId.value, applicationId.value))
    ensures r.Ok? ==> Owns(s, companyId.value, applicationId.value) && applicationId.value in s.apps
    ensures r.Ok? ==> r.payload.id == applicationId.value
    ensures r.Ok? ==> r.store.companies == s.companies
    ensures r.Ok? ==> r.store.apps == s.apps[applicationId.value := r.payload.app]
    ensures r.Ok? ==>
      && r.payload.app.title == TrimOr(title)
      && r.payload.app.location == Some(TrimOr(location))
      && r.payload.app.status == Some(TrimOr(status))
      && r.payload.app.createdAt == s.apps[applicationId.value].createdAt
  {
    if !Given(companyId) || !Given(applicationId) then BadRequest(IdsRequired)
    else if companyId.value !in s.companies then NotFound(CompanyNotFound)
    else if applicationId.value !in s.companies[companyId.value].apps then NotFound(NotInCompany)
    else if applicationId.value !in s.apps then NotFound(ApplicationNotFound)
    else
      var a := applicationId.value;
      var updated := s.apps[a].(title := TrimOr(title), location := Some(TrimOr(location)),
                                status := Some(TrimOr(status)));
      Ok(s.(apps := s.apps[a := updated]), AppDoc(a, updated))
  }

  /** Under the invariant a listed id always resolves, so PUT's last 404 (record
      missing) cannot fire: PUT succeeds exactly when the company lists the id. */
  lemma UpdateRecordAlwaysFound(s: Store, companyId: Option<string>, applicationId: Option<string>,
                                title: Option<string>, location: Option<string>, status: Option<string>)
    requires DanglingFree(s) && Given(companyId) && Given(applicationId)
    ensures Update(s, companyId, applicationId, title, location, status).Ok?
            <==> Owns(s, companyId.value, applicationId.value)
  {
    if Owns(s, companyId.value, applicationId.value) {
      var co := s.companies[companyId.value];
      var i :| 0 <= i < |co.apps| && co.apps[i] == applicationId.value;
    }
  }

  /** Full replace: the stored result does not depend on the record's previous
      title, location or status. Two stores that differ only in those fields end
      up identical. */
  lemma UpdateForgetsOldFields(s: Store, companyId: Option<string>, applicationId: Option<string>,
                               title: Option<string>, location: Option<string>, status: Option<string>,
                               old': App)
    requires Given(companyId) && Given(applicationId)
    requires Owns(s, companyId.value, applicationId.value) && applicationId.value in s.apps
    requires old'.createdAt == s.apps[applicationId.value].createdAt
    ensures var s2 := s.(apps := s.apps[applicationId.value := old']);
      Update(s2, companyId, applicationId, title, location, status)
      == Update(s, companyId, applicationId, title, location, status)
  {
    var a := applicationId.value;
    var s2 := s.(apps := s.apps[a := old']);
    var updated := App(TrimOr(title), Some(TrimOr(location)), Some(TrimOr(status)), old'.createdAt);
    assert s2.companies == s.companies && s2.apps[a := updated] == s.apps[a := updated];
    assert Update(s, companyId, applicationId, title, location, status)
           == Ok(s.(apps := s.apps[a := updated]), AppDoc(a, updated));
    assert Update(s2, companyId, applicationId, title, location, status)
           == Ok(s2.(apps := s2.apps[a := updated]), AppDoc(a, updated));
  }

  /** PUT is idempotent: repeating the same request changes nothing more. */
  lemma UpdateIdempotent(s: Store, companyId: Option<string>, applicationId: Option<string>,
                         title: Option<string>, location: Option<string>, status: Option<string>)
    ensures var r := Update(s, companyId, applicationId, title, location, status);
      r.Ok? ==> Update(r.store, companyId, applicationId, title, location, status) == r
  {
    var r := Update(s, companyId, applicationId, title, location, status);
    if !r.Ok? {
      return;
    }
    var a := applicationId.value;
    var r2 := Update(r.store, companyId, applicationId, title, location, status);
    assert Owns(r.store, companyId.value, a);
    assert r2.Ok?;
    assert r2.payload == r.payload;
    assert r.store.apps[a := r.payload.app] == r.store.apps;
  }

  /** PUT keeps the invariant: it touches neither the id lists nor the key set. */
  lemma UpdatePreservesValid(s: Store, companyId: Option<string>, applicationId: Option<string>,
                             title: Option<string>, location: Option<string>, status: Option<string>)
    requires Valid(s)
    ensures Valid(Update(s, companyId, applicationId, title, location, status).After(s))
  {
  }

  /** `ids.filter(id => id !== x)`: every occurrence of `x` removed, the rest in
      their original order. */
  function RemoveAll(ids: seq<Id>, x: Id): (r: seq<Id>)
    ensures x !in r
    ensures forall y :: y in r <==> y in ids && y != x
  {
    if ids == [] then []
    else
      (if ids[0] == x then [] else [ids[0]]) + RemoveAll(ids[1..], x)
  }

  /** Counted with multiplicity, the filter keeps every other id as often as
      it occurs. */
  lemma {:induction false} RemoveAllCounts(ids: seq<Id>, x: Id)
    ensures multiset(RemoveAll(ids, x)) == multiset(ids)[x := 0]
  {
    if ids != [] {
      assert ids == [ids[0]] + ids[1..];
      RemoveAllCounts(ids[1..], x);
    }
  }

  /** Filtering distributes over concatenation, so the survivors keep their
      relative order. */
  lemma {:induction false} RemoveAllAppend(a: seq<Id>, b: seq<Id>, x: Id)
    ensures RemoveAll(a + b, x) == RemoveAll(a, x) + RemoveAll(b, x)
  {
    if a == [] {
      assert a + b == b;
    } else {
      assert (a + b)[1..] == a[1..] + b;
      RemoveAllAppend(a[1..], b, x);
    }
  }

  /** A list that does not mention `x` is left as it is. */
  lemma {:induction false} RemoveAllAbsent(ids: seq<Id>, x: Id)
    requires x !in ids
    ensures RemoveAll(ids, x) == ids
  {
    if ids != [] {
      RemoveAllAbsent(ids[1..], x);
    }
  }

  /** Write step: `company.applications = company.applications.filter(...)`
      followed by `company.save()`. */
  function UnlistApp(s: Store, c: Id, id: Id): (s': Store)
    requires c in s.companies
    ensures s'.apps == s.apps
    ensures s'.companies.Keys == s.companies.Keys
    ensures s'.companies[c] == s.companies[c].(apps := RemoveAll(s.companies[c].apps, id))
    ensures forall d :: d in s.companies && d != c ==> s'.companies[d] == s.companies[d]
  {
    var co := s.companies[c];
    s.(companies := s.companies[c := co.(apps := RemoveAll(co.apps, id))])
  }

  /** Write step: `JobApplication.findByIdAndDelete(id)`, a no-op when absent. */
  function DropApp(s: Store, id: Id): (s': Store)
    ensures s'.companies == s.companies
    ensures s'.apps.Keys == s.apps.Keys - {id}
    ensures forall x :: x in s'.apps ==> s'.apps[x] == s.apps[x]
  {
    s.(apps := s.apps - {id})
  }

  /** DELETE /api/applications as written: unlist the id from the named company,
      then delete the record. Neither write checks that the company owned it. */
  function Delete(s: Store, companyId: Option<string>, applicationId: Option<string>)
    : (r: Response<Success>)
    ensures r.BadRequest? <==> !Given(companyId) || !Given(applicationId)
    ensures r.BadRequest? ==> r.why == IdsRequired
    ensures r.NotFound? <==> Given(companyId) && Given(applicationId) && companyId.value !in s.companies
    ensures r.NotFound? ==> r.why == CompanyNotFound
    ensures r.Ok? ==>
      && var c, a := companyId.value, applicationId.value;
      && c in s.companies
      && r.store.companies.Keys == s.companies.Keys
      && r.store.companies[c] == s.companies[c].(apps := RemoveAll(s.companies[c].apps, a))
      && a !in r.store.companies[c].apps
      && (forall d :: d in s.companies && d != c ==> r.store.companies[d] == s.companies[d])
      && r.store.apps.Keys == s.apps.Keys - {a}
      && (forall x :: x in r.store.apps ==> r.store.apps[x] == s.apps[x])
  {
    if !Given(companyId) || !Given(applicationId) then BadRequest(IdsRequired)
    else if companyId.value !in s.companies then NotFound(CompanyNotFound)
    else
      var unlisted := UnlistApp(s, companyId.value, applicationId.value);
      Ok(DropApp(unlisted, applicationId.value), Success)
  }

  /** DELETE succeeds even when the company does not list the id: its list is
      then unchanged and only the record (if any) goes. */
  lemma DeleteUnlistedSucceeds(s: Store, companyId: Option<string>, applicationId: Option<string>)
    requires Given(companyId) && Given(applicationId) && companyId.value in s.companies
    requires !Owns(s, companyId.value, applicationId.value)
    ensures var r := Delete(s, companyId, applicationId);
      && r.Ok?
      && r.store.companies == s.companies
      && r.store.apps == s.apps - {applicationId.value}
  {
    RemoveAllAbsent(s.companies[companyId.value].apps, applicationId.value);
    var r := Delete(s, companyId, applicationId);
    assert r.store.companies[companyId.value] == s.companies[companyId.value];
  }

  /** Filtering keeps a duplicate-free list duplicate-free. */
  lemma {:induction false} RemoveAllNoDuplicates(ids: seq<Id>, x: Id)
    requires NoDuplicates(ids)
    ensures NoDuplicates(RemoveAll(ids, x))
  {
    if ids != [] {
      assert NoDuplicates(ids[1..]);
      RemoveAllNoDuplicates(ids[1..], x);
      assert ids[0] !in ids[1..];
    }
  }

  /** Unlisting an id keeps the invariant: the list only shrinks. */
  lemma UnlistPreservesValid(s: Store, c: Id, id: Id)
    requires Valid(s) && c in s.companies
    ensures Valid(UnlistApp(s, c, id))
  {
    var t := UnlistApp(s, c, id);
    UniquelyOwnedIff(s);
    UniquelyOwnedIff(t);
    RemoveAllNoDuplicates(s.companies[c].apps, id);
    forall d, x | Owns(t, d, x)
      ensures Owns(s, d, x)
    {
    }
    forall d, i | d in t.companies && 0 <= i < |t.companies[d].apps|
      ensures t.companies[d].apps[i] in t.apps
    {
      assert Owns(t, d, t.companies[d].apps[i]);
    }
  }

  /** Dropping a record nobody lists keeps the invariant. */
  lemma DropUnlistedPreservesValid(s: Store, id: Id)
    requires Valid(s)
    requires forall d :: d in s.companies ==> id !in s.companies[d].apps
    ensures Valid(DropApp(s, id))
  {
    var t := DropApp(s, id);
    forall d, i | d in t.companies && 0 <= i < |t.companies[d].apps|
      ensures t.companies[d].apps[i] in t.apps
    {
      assert s.companies[d].apps[i] in s.apps;
    }
  }

  /** DELETE keeps the invariant when no other company lists the id; the state
      between its two writes (id unlisted, record still present) keeps it too,
      leaving at worst an orphan record. */
  lemma DeletePreservesValid(s: Store, companyId: Option<string>, applicationId: Option<string>)
    requires Valid(s)
    requires Given(companyId) && Given(applicationId)
    requires forall d :: Owns(s, d, applicationId.value) ==> d == companyId.value
    ensures var r := Delete(s, companyId, applicationId);
      && Valid(r.After(s))
      && (r.Ok? ==> Valid(UnlistApp(s, companyId.value, applicationId.value)))
  {
    var c, a := companyId.value, applicationId.value;
    if c in s.companies {
      UnlistPreservesValid(s, c, a);
      var t := UnlistApp(s, c, a);
      forall d | d in t.companies
        ensures a !in t.companies[d].apps
      {
        if d != c {
          assert !Owns(s, d, a);
        }
      }
      DropUnlistedPreservesValid(t, a);
    }
  }

  /** The discrepancy: DELETE through a company that does not own the id still
      deletes the record, and its real owner is left listing a dangling id. */
  lemma DeleteViaOtherCompanyDangles(s: Store, companyId: Option<string>,
                                     applicationId: Option<string>, owner: Id)
    requires Valid(s)
    requires Given(companyId) && Given(applicationId) && companyId.value in s.companies
    requires owner != companyId.value && Owns(s, owner, applicationId.value)
    ensures var r := Delete(s, companyId, applicationId);
      r.Ok? && !DanglingFree(r.store)
  {
    var r := Delete(s, companyId, applicationId);
    var i :| 0 <= i < |s.companies[owner].apps| && s.companies[owner].apps[i] == applicationId.value;
    assert r.store.companies[owner].apps[i] == applicationId.value;
  }

  /** DELETE with the ownership check PUT already makes: 404 when the company
      does not list the id, otherwise as `Delete`. */
  function DeleteOwned(s: Store, companyId: Option<string>, applicationId: Option<string>)
    : (r: Response<Success>)
    ensures r.BadRequest? <==> !Given(companyId) || !Given(applicationId)
    ensures r.NotFound? <==>
      && Given(companyId) && Given(applicationId)
      && !Owns(s, companyId.value, applicationId.value)
    ensures r.BadRequest? ==> r.why == IdsRequired
    ensures r.NotFound? ==> (r.why == CompanyNotFound <==> companyId.value !in s.companies)
    ensures r.NotFound? ==> (r.why == NotInCompany <==> companyId.value in s.companies)
    ensures r.Ok? ==> r == Delete(s, companyId, applicationId)
  {
    if !Given(companyId) || !Given(applicationId) then BadRequest(IdsRequired)
    else if companyId.value !in s.companies then NotFound(CompanyNotFound)
    else if applicationId.value !in s.companies[companyId.value].apps then NotFound(NotInCompany)
    else Delete(s, companyId, applicationId)
  }

  /** The corrected DELETE keeps the invariant on every input. */
  lemma DeleteOwnedPreservesValid(s: Store, companyId: Option<string>, applicationId: Option<string>)
    requires Valid(s)
    ensures Valid(DeleteOwned(s, companyId, applicationId).After(s))
  {
    var r := DeleteOwned(s, companyId, applicationId);
    if r.Ok? {
      forall d | Owns(s, d, applicationId.value)
        ensures d == companyId.value
      {
        OwnerUnique(s, d, companyId.value, applicationId.value);
      }
      DeletePreservesValid(s, companyId, applicationId);
    }
  }
}
