/** What GET shows after each application handler: the write handlers and the
    read-side rendering of `/api/companies` taken together. */
module RoundTrips {
  import opened Text
  import opened Store
  import opened Views
  import ApplicationRoutes
  import opened CompanyRoutes

  /** After POST /api/applications, the company's populated list is the old one
      with the new record, trimmed and defaulted, appended at the end. */
  lemma CreateAppThenRender(s: Store, companyId: Option<string>, title: Option<string>,
                            location: Option<string>, status: Option<string>,
                            newId: Id, now: int, later: int)
    requires DanglingFree(s) && newId !in s.apps
    ensures var r := ApplicationRoutes.Create(s, companyId, title, location, status, newId, now);
      r.Ok? ==>
        var c := companyId.value;
        RenderCompany(r.store, c, later).applications
        == RenderCompany(s, c, later).applications
           + [AppView(newId, Trim(title.value), TrimOr(location), TrimOr(status), now)]
  {
    var r := ApplicationRoutes.Create(s, companyId, title, location, status, newId, now);
    if !r.Ok? {
      return;
    }
    var c := companyId.value;
    var rec := r.payload.app;
    assert r.store.apps == s.apps[newId := rec];
    assert r.store.companies[c].apps == s.companies[c].apps + [newId];
    PopulateAppendFresh(s.apps, s.companies[c].apps, newId, rec, later);
  }

  /** Populating a list with one fresh record appended appends its rendering. */
  lemma PopulateAppendFresh(apps: map<Id, App>, ids: seq<Id>, newId: Id, rec: App, later: int)
    requires newId !in apps && forall x :: x in ids ==> x in apps
    ensures Populate(apps[newId := rec], ids + [newId], later)
            == Populate(apps, ids, later) + [RenderApp(newId, rec, later)]
  {
    PopulateAppend(apps[newId := rec], ids, [newId], later);
    PopulateFrame(apps[newId := rec], apps, ids, later);
  }

  /** After PUT /api/applications, GET shows exactly the submitted values
      (trimmed, omitted ones as `''`) at the record's place in the list, not a
      merge with the old ones; every other entry is as before. */
  lemma UpdateAppThenRender(s: Store, companyId: Option<string>, applicationId: Option<string>,
                            title: Option<string>, location: Option<string>, status: Option<string>,
                            k: int, later: int)
    requires DanglingFree(s)
    requires ApplicationRoutes.Update(s, companyId, applicationId, title, location, status).Ok?
    requires 0 <= k < |s.companies[companyId.value].apps|
    requires s.companies[companyId.value].apps[k] == applicationId.value
    ensures var r := ApplicationRoutes.Update(s, companyId, applicationId, title, location, status);
      var before := RenderCompany(s, companyId.value, later).applications;
      var after := RenderCompany(r.store, companyId.value, later).applications;
      && |after| == |before|
      && after[k] == AppView(applicationId.value, TrimOr(title), TrimOr(location), TrimOr(status),
                             s.apps[applicationId.value].createdAt.GetOr(later))
      && (forall j :: 0 <= j < |after| && s.companies[companyId.value].apps[j] != applicationId.value
            ==> after[j] == before[j])
  {
    var r := ApplicationRoutes.Update(s, companyId, applicationId, title, location, status);
    RenderReplaced(s, r.store, companyId.value, applicationId.value, r.payload.app, k, later);
  }

  /** Replacing one listed record changes the populated list at that record's
      place only. */
  lemma RenderReplaced(s: Store, s': Store, c: Id, a: Id, rec: App, k: int, later: int)
    requires DanglingFree(s) && c in s.companies && a in s.apps
    requires s'.companies == s.companies && s'.apps == s.apps[a := rec]
    requires 0 <= k < |s.companies[c].apps| && s.companies[c].apps[k] == a
    ensures var before := RenderCompany(s, c, later).applications;
      var after := RenderCompany(s', c, later).applications;
      && |after| == |before|
      && after[k] == RenderApp(a, rec, later)
      && (forall j :: 0 <= j < |after| && s.companies[c].apps[j] != a ==> after[j] == before[j])
  {
    assert DanglingFree(s');
    RenderResolvesAll(s, c, later);
    RenderResolvesAll(s', c, later);
  }

  /** After the ownership-checked DELETE /api/applications, the company's
      populated list no longer shows the record and keeps the others in order. */
  lemma DeleteAppThenRender(s: Store, companyId: Option<string>, applicationId: Option<string>,
                            later: int)
    requires Valid(s)
    requires ApplicationRoutes.DeleteOwned(s, companyId, applicationId).Ok?
    ensures var r := ApplicationRoutes.DeleteOwned(s, companyId, applicationId);
      var ids := s.companies[companyId.value].apps;
      var after := RenderCompany(r.store, companyId.value, later).applications;
      && after == Populate(s.apps, ApplicationRoutes.RemoveAll(ids, applicationId.value), later)
      && forall j :: 0 <= j < |after| ==> after[j].id != applicationId.value
  {
    var r := ApplicationRoutes.DeleteOwned(s, companyId, applicationId);
    var a := applicationId.value;
    var rest := ApplicationRoutes.RemoveAll(s.companies[companyId.value].apps, a);
    assert r.store.companies[companyId.value].apps == rest;
    PopulateFrame(r.store.apps, s.apps, rest, later);
  }
}
