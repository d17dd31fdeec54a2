# bolt-reservas: the reservation back end, modelled in Dafny

bolt-reservas is an admin tool for a lodging business. Its reservations
live in a Firestore collection named `reservations`. This project models
the code that reads and writes that collection, and the one action that
rewrites the admin page's query string:

- **Server actions** (`app/actions/reservations.ts`). A reservation is
  created from the admin form's `FormData`, updated, deleted, listed page
  by page (latest end date first), and listed by date range.
- **Server-side repository** (`lib/firebase/reservation-server.ts`). The
  same five operations take `Date` objects, and the paginated listing
  goes by latest start date first.
- **Browser-side repository** (`lib/firebase/reservations.ts`). Creating
  a reservation stores a random `id` field and returns it. Deleting looks
  that field up. Updating addresses the document id. Listings paginate
  with the last snapshot itself. The range query drops cancelled
  reservations with a `!=` filter.
- **`POST /api/admin/reservations`** (`app/api/admin/reservations/route.ts`).
  The JSON body becomes a confirmed reservation of origin "admin". The
  reply is `{id}`, or 500 `{error}` whatever goes wrong.
- **`updateSearchParamsAction`** (`app/actions/updateSearchParams.ts`).
  It parses the current query string into a `URLSearchParams` object.
  For each update it calls `set` (non-empty value) or `delete` (empty
  value). It then redirects to `basePath?params`.

How the pieces are modelled:

- **Documents** are maps from field names to JavaScript values. Object
  spread (`{...data, k: v}`) is a map update or union. A `Date` or
  Firestore `Timestamp` is an integer number of milliseconds.
- **The collection** is a class, `Store.Collection`, whose `docs` map the
  methods change in place. `add` picks a fresh document id.
- **Queries.** A query is run by `Query.Run`:
  - equality, range and `!=` filters select documents; range filters
    match timestamps only, and `!=` needs the field to hold a value other
    than null;
  - `orderBy(field, "desc")` keeps the documents holding the field, with
    a value of any type, and orders them by Firestore's value order (null,
    booleans, numbers, timestamps, strings); a range filter on another
    field makes Firestore order on that field next, in the same direction;
    remaining ties are broken by document name, also in that direction; no
    `orderBy` means document-name order;
  - `startAfter(snapshot)` resumes strictly after a snapshot, and throws
    when the snapshot misses one of the ordered fields;
  - `limit(n)` cuts the result.
- **Clocks and random ids** are parameters: `now`, the `nanoId`, and the
  `Date` string parser `parse`.
- **URLSearchParams.** The object is a class holding its list of
  name-value tuples. Its string form follows the
  application/x-www-form-urlencoded format of the WHATWG URL Standard:
  - parsing (section 5.1) and serializing (section 5.2);
  - the percent-encode sets of section 1.3;
  - `set` and `delete` as worded in section 6.2;
  - the UTF-8 encoder and the UTF-8 decoder (error mode "replacement")
    of the WHATWG Encoding Standard.

What is proved, in short:

- Creating stores exactly one new document. That document has the
  required fields, `createdAt == updatedAt == now`, and everything else as
  given. The browser-side repository reads the clock twice, so there the
  two timestamps are two readings. A rejected input writes nothing.
- Updating merges a fresh `updatedAt` and the converted dates, and leaves
  every other field as it was. Deleting removes exactly the named document.
- Each listing returns only stored documents, in its order, at most a page
  of them. Consecutive pages neither repeat nor skip a document, and all
  the pages together are the whole listing.
- The two range listings select exactly the overlapping, non-cancelled
  reservations. They disagree on reservations whose status is missing or
  null.
- Each search-parameter update leaves its key with exactly its value, or
  absent. Every other key, and the order of the untouched tuples, stays as
  it was. Applying the updates twice is the same as applying them once.
  The redirect's query string parses back to the updated list, because
  the parser inverts the serializer and UTF-8 decoding inverts encoding.

Where the code and the written description of the system disagree, the
model follows the code:

- Neither create operation checks that the start date precedes the end
  date.
- The update operations pass every field of the patch through, so a
  patch can overwrite `createdAt` or `id`.
- The server actions' paginated listing orders by `endDate`, while the
  two repositories order by `startDate`.

## Model

| member | source | states |
|---|---|---|
| Store.Collection.Add | lib/firebase/reservation-server.ts:26-27 | `add` stores the data under a document id no stored document had, and changes nothing else |
| Store.Collection.Update | lib/firebase/reservation-server.ts:40 | `update` merges the fields into the existing document, or fails with NOT_FOUND and writes nothing |
| Store.Collection.FirstWhere | lib/firebase/reservations.ts:49-56 | the first document of an equality query is found exactly when some document holds the value; it holds the value and has the least document name among those that do |
| Store.Collection.Delete | lib/firebase/reservation-server.ts:44-45 | `delete` removes that document only; a missing one is not an error |
| Store.Snapshot | lib/firebase/reservation-server.ts:64-65 | `doc(id).get()` exists exactly when the id is stored, and carries that document |
| Store.UnusedIdExists | lib/firebase/reservation-server.ts:26 | however many documents are stored, an unused document id remains for `add` |
| Names.IdBeforeTotal | lib/firebase/reservations.ts:49-56 | two different document names are ordered one way or the other |
| Names.IdBeforeTransitive | lib/firebase/reservations.ts:49-56 | the document-name order is transitive |
| Query.ValueBelowTransitive | lib/firebase/reservation-server.ts:55 | Firestore's order of field values is transitive |
| Query.ValueBelowTotal | lib/firebase/reservation-server.ts:55 | two different field values are ordered one way or the other, across types too |
| Query.ValueBelowAsymmetric | lib/firebase/reservation-server.ts:55 | no two field values are each below the other |
| Query.ValuesBelowTransitive | lib/firebase/reservation-server.ts:55-60 | the order on tuples of ordered-field values, first difference deciding, is transitive |
| Query.ValuesBelowTotal | lib/firebase/reservation-server.ts:55-60 | two different tuples of ordered-field values are ordered one way or the other |
| Query.LeadingKeys | lib/firebase/reservation-server.ts:55-60 | a document listed before another has no lower first ordered field, and, when those are equal, no lower second one |
| Query.RunListsPage | lib/firebase/reservation-server.ts:55-74 | a query returns selected documents only, sorted, at most `limit`; a selected document that is missing comes after the whole page, and the page is then full |
| Query.Arrange | lib/firebase/reservation-server.ts:55 | `orderBy` lists every selected document once, in a strict total order |
| Query.FirstExists | lib/firebase/reservation-server.ts:55 | a non-empty set of documents with distinct ids has a first one in query order |
| Query.ResumeAt | lib/firebase/reservation-server.ts:62-68 | resuming after the k-th document of a listing gives the listing's tail after index k |
| Query.PagePrefix | lib/firebase/reservation-server.ts:70-72 | a limited page is the head of the unlimited listing; a short page is all of it |
| Query.PageRest | lib/firebase/reservation-server.ts:62-72 | the listing after a page's last document is the rest of the unlimited listing |
| Query.PagesCoverListing | lib/firebase/reservation-server.ts:62-88 | fetching page after page, each after the previous page's last document, yields exactly the unlimited listing |
| Query.CandidatesShrink | lib/firebase/reservation-server.ts:66 | resuming after a selected document selects strictly fewer documents |
| Documents.FromDate | lib/firebase/reservation-server.ts:22-23 | `Timestamp.fromDate` converts a `Date` and throws on anything else, a missing value included |
| Documents.FromNewDate | app/actions/reservations.ts:28-33 | `Timestamp.fromDate(new Date(v))` converts a `Date` to itself, a parsable string to its parse, a number to that many milliseconds, `null` to the epoch and a boolean to 0 or 1; it fails, with an Invalid Date, exactly on an unparsable string or a missing value |
| Bookings.DropCancelled | lib/firebase/reservation-server.ts:109 | keeps exactly the snapshots whose status is not the string "cancelled" |
| Bookings.DropCancelledSorted | lib/firebase/reservation-server.ts:109 | filtering keeps the snapshot order |
| Bookings.RangeFiltersOverlap | lib/firebase/reservation-server.ts:103-106 | the two range filters select exactly the reservations that overlap the range, both ends included |
| Bookings.ToRecord | lib/firebase/reservation-server.ts:77-85 | a snapshot becomes `{id, ...data}` (or `{...data}`) with its dates converted; a stored `id` field wins over the document id; a missing timestamp throws |
| Bookings.ToRecords | lib/firebase/reservation-server.ts:76-86 | the map succeeds exactly when every snapshot has its four timestamps, giving one record per snapshot in order |
| Bookings.UpdatePayload | lib/firebase/reservation-server.ts:32-38 | the patch gets a fresh `updatedAt`; a truthy start or end date is converted and a falsy one copied; every other field is kept; a conversion that throws aborts |
| Bookings.ConvertField | lib/firebase/reservation-server.ts:37 | a date field is converted only when the patch holds a truthy value for it |
| Bookings.ConvertDate | lib/firebase/reservation-server.ts:37-38 | only a `Date` value converts |
| Bookings.PageLimit | lib/firebase/reservation-server.ts:53 | page size 20 when omitted, no limit when 0, otherwise the given size |
| Bookings.ResumeFrom | lib/firebase/reservation-server.ts:62-68 | the cursor is the stored snapshot of `lastDocId` when that id exists; an empty, omitted or unknown id starts from the beginning |
| Bookings.OrderKeys | lib/firebase/reservation-server.ts:55-60 | the listing orders on its field, then on `endDate` when history is left out and the field is not `endDate` already |
| Bookings.ListedPage | lib/firebase/reservation-server.ts:53-74 | a listing page holds stored documents only, each holding the order field (of any type) and not yet ended unless history is asked for, highest order value first, after the cursor, at most a page of them, and none skipped |
| Bookings.ListedOrder | lib/firebase/reservation-server.ts:55-60 | every listed document holds the order field, whatever its type, none has ended unless history is asked for, and the page runs from the highest order value down in Firestore's value order; without history, documents with equal order values run from the latest `endDate` down |
| Bookings.ListedEntry | lib/firebase/reservation-server.ts:57-60 | a listed document is stored, holds the order field whatever its type, and ends now or later unless history is asked for |
| Bookings.ListingRecords | lib/firebase/reservation-server.ts:62-90 | the listing fails exactly when the `lastDocId` document misses an ordered field, or a listed document lacks a timestamp; otherwise each record is a stored document with its id, at most a page of them, and `lastDocId` is absent exactly when the page is empty |
| Bookings.ListingLast | lib/firebase/reservation-server.ts:88-90 | `lastDocId` is the document id of the last record, a stored document, and is absent exactly when the page is empty |
| Bookings.ListingFailsOnUntypedDates | lib/firebase/reservation-server.ts:55-86 | in the unlimited listing with history and without a cursor, a stored document whose order field holds a non-timestamp value, or which lacks another timestamp, is listed and makes the listing fail |
| Bookings.ListingFailsOnIncompleteCursor | lib/firebase/reservation-server.ts:62-66 | a stored `lastDocId` document that misses the order field, or `endDate` without history, makes the listing fail instead of ending it |
| Bookings.ListingOrder | lib/firebase/reservation-server.ts:55-86 | on success the records hold the order field as a timestamp, newest first, and none has ended unless history is asked for |
| Bookings.RecordsInOrder | lib/firebase/reservation-server.ts:78-85 | once every listed document holds its timestamps, the value order on the order field is the order of the dates, and the records keep it |
| Bookings.RecordsWithIds | lib/firebase/reservation-server.ts:78-85 | each record is its snapshot with the document id added, and keeps the snapshot's dates |
| Bookings.NextPage | lib/firebase/reservation-server.ts:62-88 | a page is the head of the unlimited listing, and asking again from its last document, which holds every ordered field, lists what follows it: pages neither repeat nor skip a document |
| Bookings.NextListing | lib/firebase/reservation-server.ts:62-90 | asking again with the `lastDocId` a successful listing returned does not fail on the cursor and lists exactly what follows its records in the unlimited listing |
| Bookings.FilteredSnapshotSelects | lib/firebase/reservation-server.ts:103-106 | a query without `orderBy` lists every matching stored document once, by name |
| Bookings.RangeListingSelects | lib/firebase/reservation-server.ts:103-109 | the server-side range listing keeps exactly the stored reservations that overlap the range and are not cancelled, a reservation without a status included |
| Bookings.RangeListingRecords | lib/firebase/reservation-server.ts:111-121 | each range record overlaps the range, is not cancelled, and is a stored document with its id |
| Bookings.RangeListingComplete | lib/firebase/reservation-server.ts:103-121 | every stored reservation that overlaps the range and is not cancelled has its record, with its id, in a successful range listing |
| Bookings.WithIdKeepsFields | lib/firebase/reservation-server.ts:79-80 | adding the id changes neither the dates nor the status |
| AdminRepository.NewRecord | lib/firebase/reservation-server.ts:17-24 | the record succeeds exactly when both dates are `Date`s; it has `createdAt == updatedAt == now` and keeps every other field |
| AdminRepository.CreateReservation | lib/firebase/reservation-server.ts:14-28 | stores the record under a new document id and returns that id; on a rejected date nothing is written |
| AdminRepository.UpdateReservation | lib/firebase/reservation-server.ts:30-41 | succeeds exactly when the id is non-empty, the dates convert and the document exists, and then merges the payload into that document only; otherwise nothing is written |
| AdminRepository.DeleteReservation | lib/firebase/reservation-server.ts:43-46 | removes exactly the document `id`; an empty id is rejected and writes nothing |
| AdminRepository.GetReservations | lib/firebase/reservation-server.ts:48-91 | a `lastDocId` document missing `startDate`, or `endDate` without history, fails the listing; otherwise a page by latest start date, at most `pageSize` (20 by default), no ended reservation unless history is asked for; `lastDocId` is the document id of the last record, absent exactly when the page is empty |
| AdminRepository.GetReservationsInDateRange | lib/firebase/reservation-server.ts:93-122 | every record overlaps the range, is not cancelled, and is a stored document with its id; every such stored reservation has its record |
| ServerActions.FormValue | app/actions/reservations.ts:34-43 | `form.get(name)` is the submitted string, or `null` when there is none |
| ServerActions.CopiedFields | app/actions/reservations.ts:34-43 | the copied fields are exactly the given names, each with its form value |
| ServerActions.ParseFormDate | app/actions/reservations.ts:28-33 | a submitted date converts exactly when it parses |
| ServerActions.FormDocument | app/actions/reservations.ts:24-45 | the stored fields are the four timestamps and the ten form fields; `createdAt == updatedAt == now` |
| ServerActions.FormRecord | app/actions/reservations.ts:15-45 | a missing or empty date is rejected first; both dates must parse; the record then holds both dates, `createdAt == updatedAt == now`, and each form field or `null` |
| ServerActions.CreateReservationAction | app/actions/reservations.ts:11-50 | a rejected form writes nothing; an accepted one stores exactly one new document and redirects to `/admin` |
| ServerActions.UpdateReservationAction | app/actions/reservations.ts:53-73 | succeeds exactly when the id is non-empty, the supplied dates convert and the document exists, and then merges the payload into that document only |
| ServerActions.DeleteReservationAction | app/actions/reservations.ts:76-78 | removes exactly the document `id`; an empty id is rejected |
| ServerActions.GetReservationsAction | app/actions/reservations.ts:81-127 | a `lastDocId` document missing `endDate` fails the listing; otherwise a page by latest end date, at most `pageSize` (20 by default), no ended reservation unless history is asked for; `lastDocId` is the document id of the last record, absent exactly when the page is empty |
| ServerActions.GetReservationsInDateRangeAction | app/actions/reservations.ts:130-159 | a bound that is not a `Date` goes through `new Date`, and one that gives an Invalid Date fails the query; otherwise every record overlaps the converted range, is not cancelled, and is a stored document with its id, and every such stored reservation has its record |
| ClientRepository.NewRecord | lib/firebase/reservations.ts:23-30 | the record succeeds exactly when both dates are `Date`s; it carries the random `id`, the two clock readings, and every other field as given |
| ClientRepository.CreateReservation | lib/firebase/reservations.ts:22-34 | stores exactly one new document and returns the random `id` field, not the document id |
| ClientRepository.FirstMatchIsLeast | lib/firebase/reservations.ts:49-56 | the lookup by `id` field finds a document exactly when one holds the id, and then the one with the least document name |
| ClientRepository.IdSnapshotSelects | lib/firebase/reservations.ts:49-52 | the `where("id", "==", id)` snapshot lists, by name, exactly the documents holding the id |
| ClientRepository.FindFirst | lib/firebase/reservations.ts:54-56 | the equality query's first document is the one the lookup specifies |
| ClientRepository.DeleteReservation | lib/firebase/reservations.ts:48-58 | removes the first document holding the id, or nothing when none holds it |
| ClientRepository.UpdateTarget | lib/firebase/reservations.ts:37 | the update addresses the document id itself: an empty id is invalid, an unknown one NOT_FOUND |
| ClientRepository.UpdateReservation | lib/firebase/reservations.ts:36-46 | merges the payload into the document whose document id is `id`, and fails without writing otherwise |
| ClientRepository.CreatedIdNotUpdatable | lib/firebase/reservations.ts:22-46 | the id `createReservation` returns does not reach the created document through `updateReservation` |
| ClientRepository.UpdateTargetByField | lib/firebase/reservations.ts:49-56 | the document found by `id` field holds that id; NOT_FOUND only when no document does |
| ClientRepository.UpdateReservationById | lib/firebase/reservations.ts:36-46 | the corrected update merges the payload into the reservation whose `id` field is `id` |
| ClientRepository.CreatedIdUpdatable | lib/firebase/reservations.ts:22-34 | with the corrected update, the returned id reaches exactly the created document |
| ClientRepository.CreateThenDelete | lib/firebase/reservations.ts:22-58 | deleting by the returned id removes exactly the created document and restores the collection |
| ClientRepository.ClientListingRecords | lib/firebase/reservations.ts:60-101 | each record is a stored document as stored, at most a page of them; `lastDoc` is the stored snapshot of the last record, absent exactly when the page is empty |
| ClientRepository.ClientListingLast | lib/firebase/reservations.ts:97-100 | `lastDoc` is the stored snapshot of the last record, absent exactly when the page is empty |
| ClientRepository.ClientListingSize | lib/firebase/reservations.ts:65-79 | at most `pageSize` records, 20 by default, none for 0 |
| ClientRepository.ClientListingStored | lib/firebase/reservations.ts:86-95 | every record is a stored document, without its document id |
| ClientRepository.ClientListingOrder | lib/firebase/reservations.ts:67-75 | records by latest start date, none ended unless history is asked for |
| ClientRepository.GetReservations | lib/firebase/reservations.ts:60-101 | the page fails exactly when `lastDoc` misses `startDate` (or `endDate` without history) or a listed document's dates are not all timestamps; otherwise stored documents by latest start date, at most a page, `lastDoc` absent exactly when empty |
| ClientRepository.RecordsPlain | lib/firebase/reservations.ts:86-95 | records without ids are the stored documents themselves |
| ClientRepository.NextPage | lib/firebase/reservations.ts:81-83 | asking again with the returned `lastDoc`, which holds every ordered field, lists what follows the page in the unlimited listing |
| ClientRepository.ClientRangeSelects | lib/firebase/reservations.ts:107-112 | the range query selects exactly the overlapping reservations whose status is present, not null, and not "cancelled" |
| ClientRepository.ClientRangeMatches | lib/firebase/reservations.ts:109-111 | the three filters hold exactly for an overlapping reservation whose status is present, not null, and not "cancelled" |
| ClientRepository.StatuslessReservations | lib/firebase/reservations.ts:111 | a reservation whose status is missing or null is kept by the server-side range listing and dropped by the browser-side one |
| AdminRoute.ErrorReply | app/api/admin/reservations/route.ts:39-45 | every failure answers 500 with the Spanish server-error message |
| AdminRoute.Payload | app/api/admin/reservations/route.ts:27-31 | the body's fields with `origin` forced to "admin" and `status` to "confirmed" |
| AdminRoute.Post | app/api/admin/reservations/route.ts:6-46 | an unreadable body or a rejected record answers 500 and writes nothing; otherwise exactly one document is stored and the reply is `{id}` |
| AdminRoute.JsonBodyRejected | app/api/admin/reservations/route.ts:8-31 | no decoded JSON body is ever stored, since its dates are strings |
| AdminRoute.RevivedPayload | app/api/admin/reservations/route.ts:27-31 | the corrected payload converts both dates with `new Date`, forces origin and status, and keeps every other field |
| AdminRoute.PostRevived | app/api/admin/reservations/route.ts:6-46 | the corrected handler stores exactly one document when both dates parse, and answers 500 without writing otherwise |
| AdminRoute.RevivedJsonBodyStored | app/api/admin/reservations/route.ts:27-38 | with revived dates a JSON body is stored as a confirmed admin reservation with those dates, `createdAt == updatedAt == now`, and its other fields as sent |
| Utf8.EncodeChar | app/actions/updateSearchParams.ts:18 | one to four bytes per scalar value; one byte exactly for ASCII |
| Utf8.DecodeChar | app/actions/updateSearchParams.ts:11 | decoding a character's encoding gives that character back, whatever follows |
| Utf8.DecodeEncode | app/actions/updateSearchParams.ts:11-18 | UTF-8 decoding inverts UTF-8 encoding for every string |
| Utf8.EncodeAppend | app/actions/updateSearchParams.ts:18 | encoding distributes over concatenation |
| FormUrlencoded.FormSetComplement | app/actions/updateSearchParams.ts:18 | the serializer leaves exactly the ASCII alphanumerics and `*-._` unescaped |
| FormUrlencoded.PercentEncode | app/actions/updateSearchParams.ts:18 | the encoded text is plain ASCII holding no `&` or `=` |
| FormUrlencoded.DecodePercentEncoded | app/actions/updateSearchParams.ts:11-18 | percent-decoding an encoded name or value gives it back |
| FormUrlencoded.ParseSerializedPair | app/actions/updateSearchParams.ts:11-18 | a serialized tuple holds no `&` and parses back to itself |
| FormUrlencoded.ParseSerialize | app/actions/updateSearchParams.ts:11-18 | parsing inverts serializing: every list of tuples survives the round trip, order and repeated names included |
| SearchParams.SetReplacesFirst | app/actions/updateSearchParams.ts:14 | when the name occurs, `set` gives its first tuple the value and removes the others |
| SearchParams.SetAppends | app/actions/updateSearchParams.ts:14 | when the name does not occur, `set` appends the tuple |
| SearchParams.SetLeavesOneValue | app/actions/updateSearchParams.ts:14 | after `set(name, value)` the name has exactly the one value |
| SearchParams.SetKeepsOthers | app/actions/updateSearchParams.ts:14 | `set` leaves the values of every other name as they were |
| SearchParams.DeleteList | app/actions/updateSearchParams.ts:15 | `delete` keeps exactly the tuples with other names, in order |
| SearchParams.DeleteRemovesName | app/actions/updateSearchParams.ts:15 | after `delete(name)` the name has no value |
| SearchParams.DeleteKeepsOthers | app/actions/updateSearchParams.ts:15 | `delete` leaves the values of every other name as they were |
| SearchParams.UpdatedKeys | app/actions/updateSearchParams.ts:13-16 | each updated key ends with exactly its value when non-empty, and absent when empty |
| SearchParams.UntouchedKeysKeepValues | app/actions/updateSearchParams.ts:13-16 | a key the updates do not mention keeps its values |
| SearchParams.UntouchedTuplesKeepOrder | app/actions/updateSearchParams.ts:13-16 | the tuples of unmentioned keys stay as they were, in the same order |
| SearchParams.UpdatesIdempotent | app/actions/updateSearchParams.ts:13-16 | applying the same updates twice gives the same parameters as applying them once |
| SearchParams.UrlSearchParams.constructor | app/actions/updateSearchParams.ts:11 | the object starts from the parsed query string, a leading `?` dropped |
| SearchParams.UrlSearchParams.Set | app/actions/updateSearchParams.ts:14 | `set` replaces the list by the URL Standard's set algorithm |
| SearchParams.UrlSearchParams.Delete | app/actions/updateSearchParams.ts:15 | `delete` replaces the list by the URL Standard's remove algorithm |
| SearchParams.UpdateSearchParamsAction | app/actions/updateSearchParams.ts:6-19 | the redirect target is `basePath?` plus the serialized updated list, and its query part parses back to exactly that list |

## Left out

- Firestore itself is not modelled: no network, transactions, index
  requirements, or security rules. The collection is a map in memory, and
  a query is a filter, a total order, a cursor and a limit.
- Firestore's restrictions on combining range filters on different fields
  are not modelled.
- Field values of the types the documents here never hold (arrays, maps,
  references, geo points, bytes, NaN and doubles) are not modelled, nor
  their place in Firestore's value order. Numbers are integers.
- ClientRepository.NewRecord: `createdAt <= updatedAt` is not promised.
  The two `new Date()` calls are two independent clock readings, passed
  as two parameters, because the JavaScript wall clock can step back
  between them.
- The order of a range listing, which has no `orderBy`, is taken as
  document-name order. The source does not rely on it.
- Dates are whole milliseconds. `Timestamp`'s range limits and precision
  are not modelled. `toDate()` and `Timestamp.fromDate` are the identity.
- `pageSize` is a natural number. Negative or fractional page sizes, which
  Firestore rejects, are not modelled.
- Document ids containing `/` are not modelled. Such an id names a
  sub-collection path.
- The `400` availability branch of the route is not modelled. The
  availability check is the constant `true`, so that branch never runs.
- E-mail notification, `checkAvailability` and `console.log` /
  `console.error` are not modelled. They are commented out or are logging.
- JSON parsing of the request body is not modelled. A decoded body is a
  document, and an unreadable one is `None`. Bodies that are not objects
  are not modelled.
- `FormData` is modelled as one string per name. File entries and
  repeated names are not modelled.
- The `Date` string parser is a parameter, `parse`. Date-string formats
  are not modelled.
- The `redirect` call itself is not modelled. The actions return the
  redirect target. Next.js's redirect-by-exception is not modelled.
- `Object.entries` order is the order of the `updates` sequence.
  JavaScript's placement of integer-like keys first is not modelled.
- SearchParams.UpdatedKeys, SearchParams.UpdatesIdempotent: these take
  the updates with distinct keys, as `Object.entries` yields them.
- The browser-side copy of the search-parameter helper is not modelled.
  It lives in components/Admin/ReservationsList.tsx and does the same
  thing with `router.push`.
- UTF-16 strings with unpaired surrogates are not modelled. Strings are
  sequences of Unicode scalar values.
- The configuration module (lib/firebase/config.ts) and the pages are
  not part of this model.

## Findings

| source | as written | input that shows it | evidently intended | confidence | as-written member | corrected member |
|---|---|---|---|---|---|---|
| app/api/admin/reservations/route.ts:27-31 | The JSON body goes to `createReservation` unchanged, and lib/firebase/reservation-server.ts:22-23 calls `Timestamp.fromDate` on its dates. After `JSON.stringify` (app/admin/reservations/new/page.tsx:37-44) those dates are strings, so `fromDate` throws. | any admin form submission, e.g. `{"startDate": "2024-05-01T00:00:00.000Z", "endDate": "2024-05-03T00:00:00.000Z", ...}` answers 500 and stores nothing | revive the dates with `new Date(...)` before creating the reservation | not executed | AdminRoute.JsonBodyRejected | AdminRoute.RevivedJsonBodyStored |
| lib/firebase/reservations.ts:36-46 | `createReservation` returns the random `id` field (lines 22-34), and `deleteReservation` looks that field up (lines 48-58). `updateReservation` instead uses the id as a document id. | create a reservation, then update it with the returned id: the update fails with NOT_FOUND unless the random id is also some document's name | look the reservation up by its `id` field, as delete does | not executed | ClientRepository.CreatedIdNotUpdatable | ClientRepository.UpdateReservationById |
