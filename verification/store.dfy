/** The two document collections behind the record services, the shape of a
    request field, and the referential invariant between a company's id list and
    the application records. */
module Store {
  import opened Text

  /** An opaque document identifier (an ObjectId, compared by equality). */
  type Id = string

  /** The absent-or-present value of a JSON body field, query parameter or
      stored document field. */
  datatype Option<+T> = None | Some(value: T) {
    /** `x || d` / `x ?? d` on a field. */
    function GetOr(default: T): T {
      match this
      case Some(v) => v
      case None => default
    }
  }

  /** JavaScript truthiness of an optional string (`!x` is false): present and
      not the empty string. A field that passes the blank test is given. */
  predicate Given(f: Option<string>): (b: bool)
    ensures b <==> f.Some? && |f.value| > 0
    ensures !BlankField(f) ==> b
  {
    f.Some? && f.value != []
  }

  /** `!x || !x.trim()` on a required string field: absent, or white space
      only (the empty string included). */
  predicate BlankField(f: Option<string>): (b: bool)
    ensures b <==> f.None? || AllSpace(f.value)
  {
    if f.Some? then BlankIffAllSpace(f.value); Blank(f.value) else true
  }

  /** `x?.trim() || ''`: the trimmed field, or `''` when it is absent. */
  function TrimOr(f: Option<string>): (r: string)
    ensures f.None? ==> r == []
    ensures f.Some? ==> r == Trim(f.value)
    ensures f.Some? ==> (r == [] <==> AllSpace(f.value))
  {
    match f
    case None => []
    case Some(x) =>
      BlankIffAllSpace(x);
      Trim(x)
  }

  /** A stored field never carries surrounding white space. */
  lemma TrimOrIsTrimmed(f: Option<string>)
    ensures Trim(TrimOr(f)) == TrimOr(f)
  {
    if f.Some? {
      TrimIdempotent(f.value);
    }
  }

  /** A document of the `jobapplications` collection. The schema gives
      `location`, `status` and `createdAt` defaults on write, but a document read
      back may still lack them, so they are optional here. */
  datatype App = App(title: string, location: Option<string>, status: Option<string>,
                     createdAt: Option<int>)

  /** A document of the `companies` collection: `apps` is the ordered list of
      application ids the company owns. */
  datatype Company = Company(name: string, apps: seq<Id>, createdAt: Option<int>)

  /** The database: the two collections, each keyed by document id. */
  datatype Store = Store(companies: map<Id, Company>, apps: map<Id, App>)

  /** Which error a handler reports, one constructor per `error` message of the
      route handlers: 'Company ID is required', 'Title is required', 'Company ID
      and Application ID are required', 'Company name is required', 'Company not
      found', 'Application not found in this company', 'Application not found'. */
  datatype Reason =
    | CompanyIdRequired | TitleRequired | IdsRequired | NameRequired
    | CompanyNotFound | NotInCompany | ApplicationNotFound

  /** What a handler answers: success with the store after its writes and the
      JSON payload, or an error status with its message. Every error branch of
      the handlers returns before any write, so an error carries no store: the
      store is unchanged. */
  datatype Response<P> = Ok(store: Store, payload: P) | BadRequest(why: Reason) | NotFound(why: Reason) {
    /** The store once the request has been served. */
    function After(s: Store): Store {
      if Ok? then store else s
    }
  }

  /** An application document as a handler returns it, with its id. */
  datatype AppDoc = AppDoc(id: Id, app: App)

  /** The `{ success: true }` body of the delete handlers. */
  datatype Success = Success

  /** Every id listed by a company resolves to an application record. */
  ghost predicate DanglingFree(s: Store) {
    forall c, i :: c in s.companies && 0 <= i < |s.companies[c].apps| ==>
      s.companies[c].apps[i] in s.apps
  }

  /** No application id is listed twice, whether by two companies or twice by
      the same one. */
  ghost predicate UniquelyOwned(s: Store) {
    forall c, d, i, j ::
      && c in s.companies && d in s.companies
      && 0 <= i < |s.companies[c].apps| && 0 <= j < |s.companies[d].apps|
      && s.companies[c].apps[i] == s.companies[d].apps[j]
      ==> c == d && i == j
  }

  /** The referential invariant of the database. */
  ghost predicate Valid(s: Store) {
    DanglingFree(s) && UniquelyOwned(s)
  }

  /** Company `c` lists application `a`. */
  predicate Owns(s: Store, c: Id, a: Id) {
    c in s.companies && a in s.companies[c].apps
  }

  /** No id occurs twice in the list. */
  predicate NoDuplicates(ids: seq<Id>) {
    forall i, j :: 0 <= i < j < |ids| ==> ids[i] != ids[j]
  }

  /** Single ownership, stated list by list: no list repeats an id, and two
      different companies never list the same id. */
  lemma UniquelyOwnedIff(s: Store)
    ensures UniquelyOwned(s) <==>
      && (forall c :: c in s.companies ==> NoDuplicates(s.companies[c].apps))
      && (forall c, d, a :: c != d && Owns(s, c, a) ==> !Owns(s, d, a))
  {
    if UniquelyOwned(s) {
      forall c, d, a | c != d && Owns(s, c, a)
        ensures !Owns(s, d, a)
      {
        var i :| 0 <= i < |s.companies[c].apps| && s.companies[c].apps[i] == a;
      }
    }
    if && (forall c :: c in s.companies ==> NoDuplicates(s.companies[c].apps))
       && (forall c, d, a :: c != d && Owns(s, c, a) ==> !Owns(s, d, a))
    {
      forall c, d, i, j |
        && c in s.companies && d in s.companies
        && 0 <= i < |s.companies[c].apps| && 0 <= j < |s.companies[d].apps|
        && s.companies[c].apps[i] == s.companies[d].apps[j]
        ensures c == d && i == j
      {
        var a := s.companies[c].apps[i];
        assert Owns(s, c, a) && Owns(s, d, s.companies[d].apps[j]);
      }
    }
  }

  /** Under the invariant an application has at most one owner. */
  lemma OwnerUnique(s: Store, c: Id, d: Id, a: Id)
    requires UniquelyOwned(s)
    requires Owns(s, c, a) && Owns(s, d, a)
    ensures c == d
  {
    var i :| 0 <= i < |s.companies[c].apps| && s.companies[c].apps[i] == a;
    var j :| 0 <= j < |s.companies[d].apps| && s.companies[d].apps[j] == a;
  }
}
