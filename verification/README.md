# Job-application tracker: record service and timeline, in Dafny

This project models the server side of a small job-application tracker and one
piece of its client. The tracker stores two MongoDB collections:

- companies, each with a name, an ordered list of application ids and a creation time;
- job applications, each with a title, location, status and creation time.

Six route handlers read and write those collections:

- `GET`, `POST` and `DELETE` on `/api/companies`;
- `POST`, `PUT` and `DELETE` on `/api/applications`.

The client's timeline view groups the applications that `GET` returns by
calendar day.

The model has seven modules:

- `Text`: JavaScript's `String.prototype.trim`, with the ECMAScript white-space
  set, and the "blank" test `!x || !x.trim()`.
- `Store`: the documents and the database. It also holds the referential
  invariant `Valid`, made of two parts:
  - every listed id resolves to a record (`DanglingFree`);
  - no id is listed twice, either by two companies or twice by one (`UniquelyOwned`).
- `Views`: the JSON shapes `GET` returns.
- `ApplicationRoutes`: the three application handlers. Each one is a pure
  function from the store and the request fields to a `Response`. The response
  is one of three:
  - `Ok`, with the new store and a payload;
  - `BadRequest` (400), with a `Reason`;
  - `NotFound` (404), with a `Reason`.

  A `Reason` names which of the handler's error messages the code sends, for
  example `CompanyNotFound` for "Company not found". Each write step (save,
  push, filter, delete) is a small function of its own.
- `CompanyRoutes`: the three company handlers. `GET` is a method that
  insertion-sorts the company ids by descending createdAt, missing times last.
- `RoundTrips`: what `GET` shows after each application write.
- `Timeline`: the grouping in `TimelineView`.

Three inputs become parameters:

- the ObjectId the database assigns (`newId`), with freshness as a precondition;
- the clock (`now`);
- the calendar day of a timestamp (`Timeline.Day`).

Request fields are `Option<string>`: `None` stands for an absent field or query
parameter.

Three behaviours of the code matter for the referential invariant:

- **The company cascade.** `DELETE /api/companies` deletes the company's
  applications first (app/api/companies/route.ts:95) and the company second
  (line 98). So between the two writes, the company still lists ids that no
  longer resolve. This is proved as `CompanyRoutes.CascadeIntermediateDangles`.
  The invariant holds again once both writes are done
  (`CompanyRoutes.DeletePreservesValid`). If the handler stops between the
  writes, sending the same request again finishes the cascade
  (`CompanyRoutes.CascadeRetryCompletes`).
- **Ownership checks.** `PUT` answers 404 when the company does not list the
  application (app/api/applications/route.ts:82-87). `DELETE /api/applications`
  has no such check, and the missing check can break the invariant (see
  Findings).
- **Empty titles.** `POST` refuses a blank title (app/api/applications/route.ts:19).
  `PUT` stores `title?.trim() || ''` (line 93), so an update can store an empty
  title.

## Model

| member | source | states |
|---|---|---|
| Text.TrimStart | app/api/applications/route.ts:35 | The result is the suffix of the input left after a run of white space, and it does not start with white space |
| Text.TrimEnd | app/api/applications/route.ts:35 | The result is the prefix of the input before a run of white space, and it does not end with white space |
| Text.Trim | app/api/applications/route.ts:35 | `trim()` returns the slice that starts after the leading white space, with only white space after it, and neither end of the slice is white space |
| Text.BlankIffAllSpace | app/api/applications/route.ts:19 | `!title.trim()` holds exactly when every character of the title is white space |
| Text.TrimOfTrimmed | app/api/applications/route.ts:35 | A string with no white space at either end is its own trim |
| Text.TrimIdempotent | app/api/applications/route.ts:35 | Trimming twice gives the same result as trimming once |
| Store.Given | app/api/applications/route.ts:12 | JavaScript truthiness of a field: true exactly when it is present and non-empty, so every non-blank field is truthy |
| Store.BlankField | app/api/applications/route.ts:19 | `!x \|\| !x.trim()`: true exactly when the field is absent or all white space |
| Store.TrimOr | app/api/applications/route.ts:36-37 | `x?.trim() \|\| ''` is `''` for an absent field and the trim of a present one; it is empty exactly when the present field is all white space |
| Store.TrimOrIsTrimmed | app/api/applications/route.ts:92-94 | A stored location, status or updated title never has white space at either end |
| Store.UniquelyOwnedIff | models/Company.ts:15-18 | Single ownership is the same as: each company's id list has no repeats, and two different companies share no id |
| Store.OwnerUnique | models/Company.ts:15-18 | In a store where no id is listed twice, an application has at most one owning company |
| ApplicationRoutes.SaveApp | app/api/applications/route.ts:40 | `application.save()` adds exactly the new record and leaves the companies and every other record as they were |
| ApplicationRoutes.PushApp | app/api/applications/route.ts:42-43 | The push appends the id to the end of that one company's list; its name, time and every other company stay the same |
| ApplicationRoutes.Create | app/api/applications/route.ts:6-51 | 400 exactly when companyId is missing or the title is blank, with the reason naming which check failed ("Company ID is required" exactly when companyId is missing). 404 "Company not found" exactly when both are fine but the company does not exist. On success: the record holds the trimmed non-empty title, the defaulted location and status, and the time now; the company's list gains the new id at the end; nothing else changes |
| ApplicationRoutes.CreateTrimsTitle | app/api/applications/route.ts:35 | The title POST stores is the submitted title, trimmed |
| ApplicationRoutes.SaveFreshPreservesValid | app/api/applications/route.ts:40 | Saving under an unused id keeps the invariant, and no company lists the new id yet |
| ApplicationRoutes.PushUnlistedPreservesValid | app/api/applications/route.ts:42-43 | Pushing an existing id that no company lists keeps the invariant, and afterwards only that company owns it |
| ApplicationRoutes.CreatePreservesValid | app/api/applications/route.ts:34-43 | POST keeps the referential invariant on every input |
| ApplicationRoutes.CreateIntermediateDanglingFree | app/api/applications/route.ts:40-43 | The state between the record save and the company save already has no dangling ids |
| ApplicationRoutes.PushFirstDangles | app/api/applications/route.ts:40-43 | Doing the writes the other way round would pass through a state with a dangling id |
| ApplicationRoutes.Update | app/api/applications/route.ts:61-112 | 400 "ids required" exactly when either id is missing. 404 exactly when the company is missing, does not list the id, or the record is missing, and the reason says which of the three. On success: the listed, existing record gets `TrimOr` of each of the three fields and keeps its createdAt; the companies and all other records are unchanged |
| ApplicationRoutes.UpdateRecordAlwaysFound | app/api/applications/route.ts:99-104 | In a store with no dangling ids, the "Application not found" branch cannot be reached |
| ApplicationRoutes.UpdateForgetsOldFields | app/api/applications/route.ts:89-97 | PUT is a full replace: the resulting store and payload do not depend on the record's previous title, location or status |
| ApplicationRoutes.UpdateIdempotent | app/api/applications/route.ts:89-97 | Repeating a successful PUT gives the same store and the same payload |
| ApplicationRoutes.UpdatePreservesValid | app/api/applications/route.ts:61-104 | PUT keeps the referential invariant on every input |
| ApplicationRoutes.RemoveAll | app/api/applications/route.ts:145-147 | The filtered list contains exactly the ids of the input other than the removed one |
| ApplicationRoutes.RemoveAllCounts | app/api/applications/route.ts:145-147 | Counted with multiplicity, the filter drops every occurrence of the id and keeps each other id as often as it occurred |
| ApplicationRoutes.RemoveAllAppend | app/api/applications/route.ts:145-147 | Filtering a concatenation filters each part, so the survivors keep their order |
| ApplicationRoutes.RemoveAllAbsent | app/api/applications/route.ts:145-147 | Filtering a list that does not contain the id leaves it unchanged |
| ApplicationRoutes.RemoveAllNoDuplicates | app/api/applications/route.ts:145-147 | Filtering keeps a list that has no repeats free of repeats |
| ApplicationRoutes.UnlistApp | app/api/applications/route.ts:145-148 | The named company keeps its name and time, and its list becomes the input list with the id filtered out; every other company and every record is unchanged |
| ApplicationRoutes.DropApp | app/api/applications/route.ts:151 | `findByIdAndDelete` removes exactly that key (a no-op when it is absent) and leaves everything else unchanged |
| ApplicationRoutes.Delete | app/api/applications/route.ts:122-153 | 400 "ids required" exactly when either id is missing. 404 "Company not found" exactly when the company is missing. Otherwise success: that company's document becomes itself with the id filtered out of its list, the record is gone, and everything else is unchanged |
| ApplicationRoutes.DeleteUnlistedSucceeds | app/api/applications/route.ts:136-153 | DELETE succeeds even when the company does not list the id: the list stays as it was and the record is still removed |
| ApplicationRoutes.UnlistPreservesValid | app/api/applications/route.ts:145-148 | Unlisting an id from a company keeps the invariant |
| ApplicationRoutes.DropUnlistedPreservesValid | app/api/applications/route.ts:151 | Deleting a record that no company lists keeps the invariant |
| ApplicationRoutes.DeletePreservesValid | app/api/applications/route.ts:144-151 | When no other company lists the id, DELETE keeps the invariant, in the state between its two writes and after both |
| ApplicationRoutes.DeleteViaOtherCompanyDangles | app/api/applications/route.ts:136-151 | A DELETE naming a company other than the id's owner succeeds, and the owner then lists a missing record |
| ApplicationRoutes.DeleteOwned | app/api/applications/route.ts:122-153 | Corrected DELETE: 404 also when the company does not list the id, with the reason "not found in this company", as PUT does at lines 82-87; otherwise it behaves exactly like `Delete` |
| ApplicationRoutes.DeleteOwnedPreservesValid | app/api/applications/route.ts:136-151 | The corrected DELETE keeps the invariant on every input |
| CompanyRoutes.RenderApp | app/api/companies/route.ts:18-24 | A populated application serialises with `''` for a missing location or status, and the current time for a missing createdAt |
| CompanyRoutes.Populate | app/api/companies/route.ts:10 | `populate` yields only resolved records, each rendered from its own document, never more than the list has. When every id resolves, it yields them one for one in list order |
| CompanyRoutes.Known | app/api/companies/route.ts:10 | The ids that resolve are exactly the listed ids that have a record; when every id resolves they are the whole list |
| CompanyRoutes.PopulateKnown | app/api/companies/route.ts:10 | Populating drops exactly the ids that resolve to nothing: it equals populating the resolving ids alone, one rendering per resolving id, in list order |
| CompanyRoutes.PopulateAppend | app/api/companies/route.ts:10 | Populating a concatenated list populates each part |
| CompanyRoutes.PopulateFrame | app/api/companies/route.ts:10 | Populating reads only the records that the list names |
| CompanyRoutes.RenderCompany | app/api/companies/route.ts:15-26 | A company serialises with its id and name, its populated application list, and the current time when its createdAt is missing |
| CompanyRoutes.NewerOrTie | app/api/companies/route.ts:11 | `sort({ createdAt: -1 })`: of two present times the larger goes first or they tie; a missing time goes after every present one; anything may precede a missing time |
| CompanyRoutes.NewerOrTieTotal | app/api/companies/route.ts:11 | The descending createdAt order (missing timestamps last) relates every pair |
| CompanyRoutes.NewerOrTieTransitive | app/api/companies/route.ts:11 | That order is transitive |
| CompanyRoutes.InsertNewest | app/api/companies/route.ts:11 | Inserting into a newest-first order gives a newest-first order with exactly one more element, and no repeats |
| CompanyRoutes.NewestFirstKeys | app/api/companies/route.ts:9-11 | The sort yields every company id exactly once, ordered by descending createdAt with missing times last |
| CompanyRoutes.ListCompanies | app/api/companies/route.ts:6-28 | GET returns every company exactly once, each rendered from the store, ordered newest createdAt first with missing times last; with all times present the order is strictly non-increasing |
| CompanyRoutes.RenderResolvesAll | app/api/companies/route.ts:10-24 | With no dangling ids, a company shows one rendered record per listed id, in list order |
| CompanyRoutes.Create | app/api/companies/route.ts:38-63 | 400 "Company name is required" exactly when the name is blank, and never 404. On success: the new company has the trimmed non-empty name, no applications and the time now; nothing else changes |
| CompanyRoutes.CreateAcceptsDuplicateName | app/api/companies/route.ts:44-56 | A name another company already has is accepted |
| CompanyRoutes.CreatePreservesValid | app/api/companies/route.ts:51-56 | POST keeps the invariant |
| CompanyRoutes.CreateThenRender | app/api/companies/route.ts:58-63 | A new company shows up in GET with its name, no applications and its creation time |
| CompanyRoutes.DeleteApps | app/api/companies/route.ts:95 | `deleteMany` with `$in` removes exactly the listed records that exist and leaves the rest unchanged |
| CompanyRoutes.DropCompany | app/api/companies/route.ts:98 | `findByIdAndDelete` removes exactly that company |
| CompanyRoutes.Delete | app/api/companies/route.ts:73-100 | 400 "Company ID is required" exactly when the id is missing. 404 "Company not found" exactly when the company is missing. On success: the company and every record it lists are gone, and every other company and record is kept |
| CompanyRoutes.DeletePreservesValid | app/api/companies/route.ts:94-98 | The cascade keeps the invariant, because under single ownership no other company lists the deleted records |
| CompanyRoutes.CascadeIntermediateDangles | app/api/companies/route.ts:94-98 | Between its two writes the cascade leaves the company listing missing records |
| CompanyRoutes.CascadeRetryCompletes | app/api/companies/route.ts:94-98 | Sending the same DELETE again from the state between the two writes succeeds and ends in the store the uninterrupted cascade leaves |
| CompanyRoutes.DeleteTwiceNotFound | app/api/companies/route.ts:86-92 | Deleting the same company a second time gives 404 |
| RoundTrips.CreateAppThenRender | app/api/applications/route.ts:34-43 | After POST, GET shows the company's previous applications followed by the new record: trimmed, defaulted, stamped now |
| RoundTrips.PopulateAppendFresh | app/api/companies/route.ts:10 | Appending a fresh id and record appends its rendering to the populated list |
| RoundTrips.UpdateAppThenRender | app/api/applications/route.ts:89-97 | After PUT, GET shows exactly the submitted values at the record's position with its old createdAt, and every other entry unchanged |
| RoundTrips.RenderReplaced | app/api/companies/route.ts:10-24 | With no dangling ids, replacing one listed record changes the populated list at that record's position only, to the new record's rendering |
| RoundTrips.DeleteAppThenRender | app/api/applications/route.ts:144-151 | After the ownership-checked DELETE, GET shows the company's other applications in order and never the deleted one |
| Timeline.Day | components/TimelineView.tsx:33 | The day of a timestamp is the day-long interval holding it: it starts at or before the timestamp and the next day starts after it |
| Timeline.DayMonotone | components/TimelineView.tsx:33 | A later timestamp never falls on an earlier day |
| Timeline.DayOrder | components/TimelineView.tsx:52 | A later day means a strictly later timestamp |
| Views.TotalApps | app/page.tsx:117 | The footer total bounds each company's count, and is zero exactly when no company has an application |
| Timeline.Tag | components/TimelineView.tsx:42-46 | Each application of a company is tagged with that company's name and id, in list order |
| Timeline.Flatten | components/TimelineView.tsx:31-32 | The nested loops visit as many applications as the page footer counts (app/page.tsx:117) |
| Timeline.FlattenMembers | components/TimelineView.tsx:31-47 | An entry is visited exactly when it is some company's application, tagged with that company |
| Timeline.MembersAppend | components/TimelineView.tsx:51-60 | The entries of concatenated groups are the union of each side's entries |
| Timeline.CountIsSize | components/TimelineView.tsx:51-60 | Counting entries group by group gives the size of the entry multiset |
| Timeline.MembersIn | components/TimelineView.tsx:51-60 | Every counted entry lies in some group |
| Timeline.AddEntry | components/TimelineView.tsx:35-46 | Adding an entry leaves at least one bucket, and adds a bucket exactly when no bucket has the entry's day yet |
| Timeline.AddEntryMembers | components/TimelineView.tsx:42-46 | Adding an entry adds exactly that entry |
| Timeline.AddEntryDays | components/TimelineView.tsx:35-40 | A new bucket, at the end, is created exactly when the entry's day has none yet |
| Timeline.AddEntryWellFormed | components/TimelineView.tsx:35-46 | Every bucket stays non-empty and holds only entries of its own day |
| Timeline.DistinctAppend | components/TimelineView.tsx:35-40 | Appending a new day keeps the days distinct |
| Timeline.AddEntryDistinct | components/TimelineView.tsx:35-40 | Adding an entry keeps the bucket days distinct |
| Timeline.Bucket | components/TimelineView.tsx:31-48 | There are never more buckets than entries, and no buckets exactly when there are no entries |
| Timeline.BucketMembers | components/TimelineView.tsx:31-48 | The buckets hold exactly the visited entries, with multiplicity |
| Timeline.BucketWellFormed | components/TimelineView.tsx:31-48 | Every bucket is non-empty and holds only entries of its day |
| Timeline.BucketDays | components/TimelineView.tsx:35-40 | No two buckets share a day |
| Timeline.BucketDaysOccur | components/TimelineView.tsx:31-48 | The bucket days are exactly the days on which some entry falls |
| Timeline.InsertGroup | components/TimelineView.tsx:51-52 | Insertion adds one group |
| Timeline.InsertGroupMultiset | components/TimelineView.tsx:51-52 | Insertion keeps the groups |
| Timeline.InsertGroupMembers | components/TimelineView.tsx:51-52 | Insertion keeps the entries |
| Timeline.InsertGroupBefore | components/TimelineView.tsx:51-52 | Insertion keeps an upper bound on the days |
| Timeline.InsertGroupDescending | components/TimelineView.tsx:51-52 | Inserting a new day keeps the days strictly descending |
| Timeline.InsertGroupDays | components/TimelineView.tsx:51-52 | Insertion adds exactly the new group's day |
| Timeline.SortGroups | components/TimelineView.tsx:51-52 | Sorting keeps the number of groups |
| Timeline.SortGroupsMultiset | components/TimelineView.tsx:51-52 | The sorted groups are a permutation of the buckets |
| Timeline.SortGroupsMembers | components/TimelineView.tsx:51-52 | Sorting keeps the entries |
| Timeline.SortGroupsDays | components/TimelineView.tsx:51-52 | Sorting keeps the set of days |
| Timeline.SortGroupsDescending | components/TimelineView.tsx:51-52 | Groups with distinct days come out strictly newest day first |
| Timeline.InsertEntry | components/TimelineView.tsx:54-58 | Insertion into a newest-first list gives a newest-first list one longer, headed by the new entry or the old head |
| Timeline.InsertEntryCounts | components/TimelineView.tsx:54-58 | Insertion adds exactly the new entry, with multiplicity |
| Timeline.InsertEntryTiesAt | components/TimelineView.tsx:54-58 | Among the entries of one timestamp, insertion puts the new entry in front of the old ones and keeps their order |
| Timeline.PassNewer | components/TimelineView.tsx:54-58 | An entry strictly newer than the inserted one does not change where the inserted one sits among its ties |
| Timeline.InsertEntryTies | components/TimelineView.tsx:54-58 | The same, for every timestamp at once |
| Timeline.SortEntries | components/TimelineView.tsx:54-58 | The sorted entries are a permutation of the group's entries, newest createdAt first; `Array.prototype.sort` is stable, and entries with equal createdAt keep their input order |
| Timeline.SortWithin | components/TimelineView.tsx:53-59 | Every group keeps its day and its entries, now sorted newest first |
| Timeline.Timeline | components/TimelineView.tsx:27-60 | The timeline's entries are exactly the visited (company, application) pairs, with multiplicity |
| Timeline.SortGroupsWellFormed | components/TimelineView.tsx:51-52 | Sorting the buckets keeps each one non-empty and single-day |
| Timeline.SortWithinWellFormed | components/TimelineView.tsx:53-59 | Sorting within the buckets keeps each one non-empty and single-day |
| Timeline.TimelineCorrect | components/TimelineView.tsx:27-60 | The timeline holds exactly the (company, application) pairs, with multiplicity. The total matches the footer. Every group is non-empty and single-day, days strictly descend, and each group is newest first |
| Timeline.SameGroupIffSameDay | components/TimelineView.tsx:33-46 | Two timeline entries share a group exactly when they fall on the same day |
| Timeline.ExactlyOneGroup | components/TimelineView.tsx:31-48 | Every visited pair appears in exactly one group |
| Timeline.TimelineNewestFirstOverall | components/TimelineView.tsx:51-58 | Reading the timeline top to bottom, no entry is older than one below it |
| Timeline.EmptyIffNoApps | components/TimelineView.tsx:62 | The empty-state message shows exactly when no company has an application |

## Left out

- Response bodies of the error answers. A `BadRequest` or `NotFound` carries only a `Reason` that names the message, not the JSON body itself.
- Every 500 branch: faults of `connectDB`, of `request.json()` and of the database calls. These are I/O failures.
- Ids that are not valid ObjectIds. The model looks ids up by equality. In the code, `findById` throws a cast error for such an id, which becomes a 500, where the model answers 404 for an invalid companyId. In `DELETE /api/applications` with a valid companyId and an invalid applicationId, the code first saves the company with the filtered list (app/api/applications/route.ts:145-148) and then fails in `findByIdAndDelete` (line 151) with a 500. The model answers 200 with the same store.
- Field values that are present but not strings, for example a numeric title. In the code `.trim()` throws, which becomes a 500. Fields are modelled as `Option<string>` only.
- Partial failure and concurrent requests. The model treats each handler as atomic, except where a proof names the state between two writes.
- Timestamp formatting. `toISOString` serialisation, `formatDate` and the relative-time labels are not modelled; timestamps are integers.
- Time zones. `Timeline.Day` is floor division by the milliseconds in a day, which stands in for the local calendar day of `toDateString()`.
- The client's time filter, editing state, JSX rendering and `lib/storage.ts`. These are presentation and fetch code outside the core.
- The 500 that PUT returns after writing, when the stored record has no createdAt. The response's `toISOString` call fails on the missing value. The model returns the record with its createdAt as stored.
- `newId` and `now`: the database and the clock supply these, so they are parameters. Freshness of `newId` is a precondition.
- CompanyRoutes.ListCompanies: the order of companies with equal createdAt is left open, since the database does not fix it either. The method picks one newest-first order.
- The group sort compares the parsed day strings. The model compares the integer day directly, so dates that round-trip through `toDateString` are assumed to order as their days.
- `GET /api/companies` is read-only. This holds by construction: `ListCompanies` takes the store and returns only views.

## Findings

| source | as written | input that shows it | evidently intended | confidence | as-written member | corrected member |
|---|---|---|---|---|---|---|
| app/api/applications/route.ts:136-151 | DELETE filters the id out of the named company's list and then deletes the record, without checking that the company lists it | companies A (listing nothing) and B (listing x), record x; `DELETE ?companyId=A&applicationId=x` answers 200, the record is gone and B still lists x | the referential rule that every listed id resolves to a record (`Store.DanglingFree`) holds after every request; so 404 "Application not found in this company" unless the named company lists the id, as PUT checks at lines 82-87 | medium, not executed | ApplicationRoutes.DeleteViaOtherCompanyDangles | ApplicationRoutes.DeleteOwnedPreservesValid |
