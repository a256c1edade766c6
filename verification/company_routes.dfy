/** The `/api/companies` handlers: GET (every company, newest first, with its
    applications resolved and read-side defaults filled in), POST and the
    cascading DELETE. */
module CompanyRoutes {
  import opened Text
  import opened Store
  import opened Views

  /* ---------------------------------------------------------------- GET */

  /** One populated application as GET serialises it: absent `location` and
      `status` read as `''`, an absent `createdAt` as the current time. */
  function RenderApp(id: Id, a: App, now: int): (v: AppView)
    ensures v.id == id && v.title == a.title
    ensures a.location.Some? ==> v.location == a.location.value
    ensures a.location.None? ==> v.location == []
    ensures a.status.Some? ==> v.status == a.status.value
    ensures a.status.None? ==> v.status == []
    ensures a.createdAt.Some? ==> v.createdAt == a.createdAt.value
    ensures a.createdAt.None? ==> v.createdAt == now
  {
    AppView(id, a.title, a.location.GetOr([]), a.status.GetOr([]), a.createdAt.GetOr(now))
  }

  /** The listed ids that resolve to a record, in list order. */
  function Known(apps: map<Id, App>, ids: seq<Id>): (r: seq<Id>)
    ensures |r| <= |ids|
    ensures forall x :: x in r <==> x in ids && x in apps
    ensures (forall k :: 0 <= k < |ids| ==> ids[k] in apps) ==> r == ids
  {
    if ids == [] then []
    else if ids[0] in apps then [ids[0]] + Known(apps, ids[1..])
    else Known(apps, ids[1..])
  }

  /** `populate('applications')`: each listed id replaced by its record, in list
      order; an id that resolves to nothing is left out of the populated array. */
  function Populate(apps: map<Id, App>, ids: seq<Id>, now: int): (r: seq<AppView>)
    ensures |r| <= |ids|
    ensures forall k :: 0 <= k < |r| ==> r[k].id in apps && r[k] == RenderApp(r[k].id, apps[r[k].id], now)
    ensures (forall k :: 0 <= k < |ids| ==> ids[k] in apps) ==>
      && |r| == |ids|
      && forall k :: 0 <= k < |r| ==> r[k] == RenderApp(ids[k], apps[ids[k]], now)
  {
    if ids == [] then []
    else if ids[0] in apps then
      [RenderApp(ids[0], apps[ids[0]], now)] + Populate(apps, ids[1..], now)
    else
      Populate(apps, ids[1..], now)
  }

  /** Populating drops exactly the ids that resolve to nothing: the result is
      what populating the known ids alone gives, so every id that resolves is
      rendered, in list order. */
  lemma {:induction false} PopulateKnown(apps: map<Id, App>, ids: seq<Id>, now: int)
    ensures Populate(apps, ids, now) == Populate(apps, Known(apps, ids), now)
  {
    if ids != [] {
      PopulateKnown(apps, ids[1..], now);
      if ids[0] in apps {
        assert ([ids[0]] + Known(apps, ids[1..]))[1..] == Known(apps, ids[1..]);
      }
    }
  }

  /** Populating a concatenation populates each part. */
  lemma {:induction false} PopulateAppend(apps: map<Id, App>, a: seq<Id>, b: seq<Id>, now: int)
    ensures Populate(apps, a + b, now) == Populate(apps, a, now) + Populate(apps, b, now)
  {
    if a == [] {
      assert a + b == b;
    } else {
      assert (a + b)[1..] == a[1..] + b;
      PopulateAppend(apps, a[1..], b, now);
    }
  }

  /** Populating reads only the records the list names. */
  lemma {:induction false} PopulateFrame(apps: map<Id, App>, apps': map<Id, App>, ids: seq<Id>, now: int)
    requires forall x :: x in ids ==> (x in apps <==> x in apps') && (x in apps ==> apps[x] == apps'[x])
    ensures Populate(apps, ids, now) == Populate(apps', ids, now)
  {
    if ids != [] {
      PopulateFrame(apps, apps', ids[1..], now);
    }
  }

  /** One company as GET serialises it. */
  function RenderCompany(s: Store, id: Id, now: int): (v: CompanyView)
    requires id in s.companies
    ensures v.id == id && v.name == s.companies[id].name
    ensures s.companies[id].createdAt.Some? ==> v.createdAt == s.companies[id].createdAt.value
    ensures s.companies[id].createdAt.None? ==> v.createdAt == now
    ensures v.applications == Populate(s.apps, s.companies[id].apps, now)
  {
    var c := s.companies[id];
    CompanyView(id, c.name, Populate(s.apps, c.apps, now), c.createdAt.GetOr(now))
  }

  /** `sort({ createdAt: -1 })`: `a` may precede `b`. A missing timestamp compares
      below every present one, so undated companies come last. */
  predicate NewerOrTie(a: Option<int>, b: Option<int>): (r: bool)
    ensures a.Some? && b.Some? ==> (r <==> a.value >= b.value)
    ensures a.None? && b.Some? ==> !r
    ensures b.None? ==> r
  {
    b.None? || (a.Some? && a.value >= b.value)
  }

  lemma NewerOrTieTotal(a: Option<int>, b: Option<int>)
    ensures NewerOrTie(a, b) || NewerOrTie(b, a)
  {
  }

  lemma NewerOrTieTransitive(a: Option<int>, b: Option<int>, c: Option<int>)
    requires NewerOrTie(a, b) && NewerOrTie(b, c)
    ensures NewerOrTie(a, c)
  {
  }

  /** `order` lists companies of `cs`, newest first. */
  predicate NewestFirst(cs: map<Id, Company>, order: seq<Id>) {
    && (forall i :: 0 <= i < |order| ==> order[i] in cs)
    && (forall i, j :: 0 <= i < j < |order| ==>
          NewerOrTie(cs[order[i]].createdAt, cs[order[j]].createdAt))
  }

  /** Inserts one company into a newest-first order. */
  function InsertNewest(cs: map<Id, Company>, order: seq<Id>, id: Id): (r: seq<Id>)
    requires id in cs && NewestFirst(cs, order)
    ensures |r| == |order| + 1
    ensures forall x :: x in r <==> x in order || x == id
    ensures NoDuplicates(order) && id !in order ==> NoDuplicates(r)
    ensures NewestFirst(cs, r)
  {
    if order == [] then [id]
    else if NewerOrTie(cs[id].createdAt, cs[order[0]].createdAt) then
      forall j | 0 <= j < |order|
        ensures NewerOrTie(cs[id].createdAt, cs[order[j]].createdAt)
      {
        if j > 0 {
          NewerOrTieTransitive(cs[id].createdAt, cs[order[0]].createdAt, cs[order[j]].createdAt);
        }
      }
      [id] + order
    else
      var rest := InsertNewest(cs, order[1..], id);
      assert NoDuplicates(order) ==> NoDuplicates(order[1..]) && order[0] !in order[1..];
      NewerOrTieTotal(cs[id].createdAt, cs[order[0]].createdAt);
      forall j | 0 <= j < |rest|
        ensures NewerOrTie(cs[order[0]].createdAt, cs[rest[j]].createdAt)
      {
        if rest[j] != id {
          assert rest[j] in order[1..];
          var k :| 1 <= k < |order| && order[k] == rest[j];
        }
      }
      [order[0]] + rest
  }

  /** `sort({ createdAt: -1 })` over the whole collection: every company id
      exactly once, newest first. Ties come out in whichever order the key set
      yields them. */
  method NewestFirstKeys(cs: map<Id, Company>) returns (order: seq<Id>)
    ensures |order| == |cs|
    ensures forall x :: x in order <==> x in cs
    ensures NoDuplicates(order)
    ensures NewestFirst(cs, order)
  {
    order := [];
    var rest := cs.Keys;
    while rest != {}
      invariant rest <= cs.Keys
      invariant forall x :: x in order <==> x in cs && x !in rest
      invariant NoDuplicates(order)
      invariant NewestFirst(cs, order)
      invariant |order| + |rest| == |cs|
      decreases |rest|
    {
      var id :| id in rest;
      order := InsertNewest(cs, order, id);
      rest := rest - {id};
    }
  }

  /** Every company of `order`, rendered, in that order. */
  function RenderAll(s: Store, order: seq<Id>, now: int): seq<CompanyView>
    requires forall i :: 0 <= i < |order| ==> order[i] in s.companies
  {
    seq(|order|, i requires 0 <= i < |order| => RenderCompany(s, order[i], now))
  }

  /** The rendered list follows `order` one for one. */
  lemma RenderAllIds(s: Store, order: seq<Id>, now: int)
    requires forall i :: 0 <= i < |order| ==> order[i] in s.companies
    ensures var views := RenderAll(s, order, now);
      && |views| == |order|
      && forall i :: 0 <= i < |views| ==>
           && views[i].id == order[i]
           && views[i].id in s.companies
           && views[i] == RenderCompany(s, views[i].id, now)
  {
  }

  /** Every company the order lists appears among the rendered views. */
  lemma RenderAllCovers(s: Store, order: seq<Id>, now: int)
    requires forall i :: 0 <= i < |order| ==> order[i] in s.companies
    requires forall x :: x in order <==> x in s.companies
    ensures var views := RenderAll(s, order, now);
      forall c :: c in s.companies ==> exists i :: 0 <= i < |views| && views[i].id == c
  {
    var views := RenderAll(s, order, now);
    RenderAllIds(s, order, now);
    forall c | c in s.companies
      ensures exists i :: 0 <= i < |views| && views[i].id == c
    {
      var i :| 0 <= i < |order| && order[i] == c;
      assert views[i].id == c;
    }
  }

  /** Rendering keeps the order's ids distinct and newest first. */
  lemma RenderAllKeepsOrder(s: Store, order: seq<Id>, now: int)
    requires NewestFirst(s.companies, order) && NoDuplicates(order)
    ensures var views := RenderAll(s, order, now);
      && (forall i, j :: 0 <= i < j < |views| ==> views[i].id != views[j].id)
      && (forall i, j :: 0 <= i < j < |views| ==>
            NewerOrTie(s.companies[views[i].id].createdAt, s.companies[views[j].id].createdAt))
  {
    RenderAllIds(s, order, now);
  }

  /** A newest-first order renders with non-increasing timestamps when every
      company has one. */
  lemma RenderAllDescending(s: Store, order: seq<Id>, now: int)
    requires NewestFirst(s.companies, order)
    requires forall c :: c in s.companies ==> s.companies[c].createdAt.Some?
    ensures var views := RenderAll(s, order, now);
      forall i, j :: 0 <= i < j < |views| ==> views[i].createdAt >= views[j].createdAt
  {
    var views := RenderAll(s, order, now);
    forall i, j | 0 <= i < j < |views|
      ensures views[i].createdAt >= views[j].createdAt
    {
      var a, b := s.companies[order[i]].createdAt, s.companies[order[j]].createdAt;
      assert NewerOrTie(a, b) && a.Some? && b.Some?;
      assert views[i] == RenderCompany(s, order[i], now);
      assert views[j] == RenderCompany(s, order[j], now);
    }
  }

  /** GET /api/companies. `now` is the clock the read-side defaults use. The
      result lists every company exactly once, newest first, each rendered with
      its applications populated. */
  method ListCompanies(s: Store, now: int) returns (views: seq<CompanyView>)
    ensures |views| == |s.companies|
    ensures forall c :: c in s.companies ==> exists i :: 0 <= i < |views| && views[i].id == c
    ensures forall i, j :: 0 <= i < j < |views| ==> views[i].id != views[j].id
    ensures forall i :: 0 <= i < |views| ==>
      views[i].id in s.companies && views[i] == RenderCompany(s, views[i].id, now)
    ensures forall i, j :: 0 <= i < j < |views| ==>
      NewerOrTie(s.companies[views[i].id].createdAt, s.companies[views[j].id].createdAt)
    ensures (forall c :: c in s.companies ==> s.companies[c].createdAt.Some?) ==>
      forall i, j :: 0 <= i < j < |views| ==> views[i].createdAt >= views[j].createdAt
  {
    var order := NewestFirstKeys(s.companies);
    views := RenderAll(s, order, now);
    RenderAllIds(s, order, now);
    RenderAllCovers(s, order, now);
    RenderAllKeepsOrder(s, order, now);
    if forall c :: c in s.companies ==> s.companies[c].createdAt.Some? {
      RenderAllDescending(s, order, now);
    }
  }

  /** Under the invariant GET resolves every listed id, in list order. */
  lemma RenderResolvesAll(s: Store, id: Id, now: int)
    requires DanglingFree(s) && id in s.companies
    ensures var v := RenderCompany(s, id, now);
      && |v.applications| == |s.companies[id].apps|
      && forall k :: 0 <= k < |v.applications| ==>
           v.applications[k] == RenderApp(s.companies[id].apps[k], s.apps[s.companies[id].apps[k]], now)
  {
  }

  /* --------------------------------------------------------------- POST */

  /** POST /api/companies. `newId` is the ObjectId the database assigns and `now`
      the clock that fills `createdAt`. Names are not unique. */
  function Create(s: Store, name: Option<string>, newId: Id, now: int): (r: Response<CompanyView>)
    requires newId !in s.companies
    ensures r.BadRequest? <==> BlankField(name)
    ensures r.BadRequest? ==> r.why == NameRequired
    ensures !r.NotFound?
    ensures r.Ok? ==>
      && r.store.apps == s.apps
      && r.store.companies.Keys == s.companies.Keys + {newId}
      && (forall d :: d in s.companies ==> r.store.companies[d] == s.companies[d])
      && r.store.companies[newId].apps == []
      && r.store.companies[newId].createdAt == Some(now)
      && r.store.companies[newId].name == Trim(name.value) != []
      && r.payload == CompanyView(newId, r.store.companies[newId].name, [], now)
  {
    if BlankField(name) then BadRequest(NameRequired)
    else
      var n := Trim(name.value);
      var c := Company(n, [], Some(now));
      Ok(s.(companies := s.companies[newId := c]), CompanyView(newId, n, [], now))
  }

  /** The stored name is the submitted name, trimmed, and a name some company
      already has is accepted all the same. */
  lemma CreateAcceptsDuplicateName(s: Store, name: Option<string>, newId: Id, now: int, other: Id)
    requires newId !in s.companies && !BlankField(name)
    requires other in s.companies && s.companies[other].name == Trim(name.value)
    ensures var r := Create(s, name, newId, now);
      && r.Ok?
      && r.store.companies[newId].name == r.store.companies[other].name == Trim(name.value)
  {
  }

  /** POST keeps the invariant: the new company lists nothing. */
  lemma CreatePreservesValid(s: Store, name: Option<string>, newId: Id, now: int)
    requires Valid(s) && newId !in s.companies
    ensures Valid(Create(s, name, newId, now).After(s))
  {
  }

  /** A company just created shows up in GET with no applications and the
      creation time. */
  lemma CreateThenRender(s: Store, name: Option<string>, newId: Id, now: int, later: int)
    requires newId !in s.companies
    requires Create(s, name, newId, now).Ok?
    ensures var r := Create(s, name, newId, now);
      RenderCompany(r.store, newId, later) == CompanyView(newId, Trim(name.value), [], now)
  {
  }

  /* ------------------------------------------------------------- DELETE */

  /** Write step: `deleteMany({ _id: { $in: ids } })`. */
  function DeleteApps(s: Store, ids: seq<Id>): (s': Store)
    ensures s'.companies == s.companies
    ensures s'.apps.Keys == s.apps.Keys - set x | x in ids
    ensures forall x :: x in s'.apps ==> s'.apps[x] == s.apps[x]
  {
    s.(apps := map x | x in s.apps && x !in ids :: s.apps[x])
  }

  /** Write step: `Company.findByIdAndDelete(id)`. */
  function DropCompany(s: Store, id: Id): (s': Store)
    ensures s'.apps == s.apps
    ensures s'.companies.Keys == s.companies.Keys - {id}
    ensures forall d :: d in s'.companies ==> s'.companies[d] == s.companies[d]
  {
    s.(companies := s.companies - {id})
  }

  /** DELETE /api/companies: the applications the company lists are deleted
      first, then the company. */
  function Delete(s: Store, id: Option<string>): (r: Response<Success>)
    ensures r.BadRequest? <==> !Given(id)
    ensures r.BadRequest? ==> r.why == CompanyIdRequired
    ensures r.NotFound? <==> Given(id) && id.value !in s.companies
    ensures r.NotFound? ==> r.why == CompanyNotFound
    ensures r.Ok? ==>
      && id.value in s.companies
      && r.store.companies.Keys == s.companies.Keys - {id.value}
      && (forall d :: d in r.store.companies ==> r.store.companies[d] == s.companies[d])
      && (forall x :: x in r.store.apps <==> x in s.apps && !Owns(s, id.value, x))
      && (forall x :: x in r.store.apps ==> r.store.apps[x] == s.apps[x])
  {
    if !Given(id) then BadRequest(CompanyIdRequired)
    else if id.value !in s.companies then NotFound(CompanyNotFound)
    else
      var cascaded := DeleteApps(s, s.companies[id.value].apps);
      Ok(DropCompany(cascaded, id.value), Success)
  }

  /** DELETE keeps the invariant: under single ownership no other company
      lists any of the deleted applications. */
  lemma DeletePreservesValid(s: Store, id: Option<string>)
    requires Valid(s)
    ensures Valid(Delete(s, id).After(s))
  {
    var r := Delete(s, id);
    if r.Ok? {
      var t := r.store;
      UniquelyOwnedIff(s);
      UniquelyOwnedIff(t);
      forall d, i | d in t.companies && 0 <= i < |t.companies[d].apps|
        ensures t.companies[d].apps[i] in t.apps
      {
        var x := t.companies[d].apps[i];
        assert Owns(s, d, x);
        assert !Owns(s, id.value, x);
      }
    }
  }

  /** Between the two writes of DELETE the company still exists and lists the
      ids whose records are already gone: a non-empty list dangles. */
  lemma CascadeIntermediateDangles(s: Store, id: Option<string>)
    requires Delete(s, id).Ok? && s.companies[id.value].apps != []
    ensures var between := DeleteApps(s, s.companies[id.value].apps);
      && id.value in between.companies
      && (forall x :: x in between.companies[id.value].apps ==> x !in between.apps)
      && !DanglingFree(between)
  {
    var between := DeleteApps(s, s.companies[id.value].apps);
    assert between.companies[id.value].apps[0] !in between.apps;
  }

  /** A cascade interrupted between its two writes is finished by sending the
      same DELETE again: the retry ends in the store the uninterrupted cascade
      would have left. */
  lemma CascadeRetryCompletes(s: Store, id: Option<string>)
    requires Given(id) && id.value in s.companies
    ensures var between := DeleteApps(s, s.companies[id.value].apps);
      Delete(between, id).Ok? && Delete(between, id).store == Delete(s, id).store
  {
    var ids := s.companies[id.value].apps;
    var between := DeleteApps(s, ids);
    assert DeleteApps(between, ids).apps == DeleteApps(s, ids).apps;
  }

  /** A company deleted once is not found the second time. */
  lemma DeleteTwiceNotFound(s: Store, id: Option<string>)
    requires Delete(s, id).Ok?
    ensures Delete(Delete(s, id).store, id).NotFound?
  {
  }
}
