/**
 * The browser-side reservation repository (lib/firebase/reservations.ts).
 * A new reservation gets a random `id` field, which `createReservation`
 * returns; `deleteReservation` looks that field up, but `updateReservation`
 * addresses the document id.  Listings return the stored fields only, and
 * paginate with the last snapshot itself.
 */
module ClientRepository {
  import opened Wrappers
  import opened Documents
  import opened Names
  import opened Query
  import opened Store
  import opened Bookings

  /**
   * `{...reservation, id: nanoId, createdAt, updatedAt, startDate, endDate}`:
   * `created` and `updated` are two successive clock readings, and both
   * dates must be `Date` objects (`Timestamp.fromDate` throws otherwise).
   */
  function NewRecord(reservation: Document, nanoId: string, created: Date, updated: Date): (r: Result<Document, Failure>)
    ensures r.Success? <==> DateOf(reservation, StartDate).Some? && DateOf(reservation, EndDate).Some?
    ensures r.Failure? ==> r.error == NotADate
    ensures r.Success? ==>
              && r.value.Keys == reservation.Keys + {IdField, CreatedAt, UpdatedAt}
              && r.value[IdField] == Text(nanoId)
              && r.value[CreatedAt] == Stamp(created) && r.value[UpdatedAt] == Stamp(updated)
              && forall k | k in reservation && k !in {IdField, CreatedAt, UpdatedAt} :: r.value[k] == reservation[k]
  {
    match FromDate(Field(reservation, StartDate))
    case Failure(err) => Failure(err)
    case Success(start) =>
      match FromDate(Field(reservation, EndDate))
      case Failure(err) => Failure(err)
      case Success(end) =>
        Success(reservation[IdField := Text(nanoId)][CreatedAt := Stamp(created)][UpdatedAt := Stamp(updated)]
                  [StartDate := Stamp(start)][EndDate := Stamp(end)])
  }

  /**
   * `createReservation(reservation)`: stores `NewRecord` under a new document
   * id and returns the `id` field, not the document id.
   */
  method CreateReservation(store: Collection, reservation: Document, nanoId: string, created: Date, updated: Date)
    returns (r: Result<string, Failure>)
    modifies store
    ensures r.Success? <==> NewRecord(reservation, nanoId, created, updated).Success?
    ensures r.Failure? ==> r.error == NotADate && store.docs == old(store.docs)
    ensures r.Success? ==>
              && r.value == nanoId
              && exists d: DocId :: d !in old(store.docs)
                   && store.docs == old(store.docs)[d := NewRecord(reservation, nanoId, created, updated).value]
  {
    match NewRecord(reservation, nanoId, created, updated)
    case Failure(err) =>
      r := Failure(err);
    case Success(record) =>
      var d := store.Add(record);
      r := Success(nanoId);
  }

  // ---------------------------------------------------------------------------
  // Lookup by the `id` field

  /** `query(collection, where("id", "==", id))`. */
  function IdFilter(id: string): seq<Filter> {
    [Equals(IdField, Text(id))]
  }

  /** The document `snapshot.docs[0]` refers to, if the query found any. */
  ghost function FirstMatch(docs: map<DocId, Document>, id: string): Option<DocId> {
    var snap := FilteredSnapshot(docs, IdFilter(id));
    if snap == [] then None else Some(snap[0].id)
  }

  /**
   * The lookup finds a document exactly when one holds `id`, and then the
   * one with the least document name.
   */
  lemma FirstMatchIsLeast(docs: map<DocId, Document>, id: string)
    ensures var m := FirstMatch(docs, id);
            && (m.Some? <==> exists d: DocId :: Holds(docs, d, IdField, Text(id)))
            && (m.Some? ==> Holds(docs, m.value, IdField, Text(id)))
            && (m.Some? ==> forall d: DocId | Holds(docs, d, IdField, Text(id)) && d != m.value :: IdBefore(m.value, d))
  {
    var snap := FilteredSnapshot(docs, IdFilter(id));
    IdSnapshotSelects(docs, id);
    if snap != [] {
      assert snap[0] in snap;
      forall d: DocId | Holds(docs, d, IdField, Text(id)) && d != snap[0].id
        ensures IdBefore(snap[0].id, d)
      {
        assert Entry(d, docs[d]) in snap;
        var k :| 0 <= k < |snap| && snap[k] == Entry(d, docs[d]);
        assert k != 0;
        assert Precedes(ByName, snap[0], snap[k]);
      }
    }
  }

  /** The snapshot of `where("id", "==", id)` lists, by name, the documents holding `id`. */
  lemma IdSnapshotSelects(docs: map<DocId, Document>, id: string)
    ensures var snap := FilteredSnapshot(docs, IdFilter(id));
            && Sorted(ByName, snap)
            && forall e :: e in snap <==> e.id in docs && docs[e.id] == e.doc && Holds(docs, e.id, IdField, Text(id))
  {
    var q := Query(IdFilter(id), ByName, None, None);
    FilteredSnapshotSelects(docs, IdFilter(id));
    forall e: Entry
      ensures Matches(q, e.doc) <==> IdField in e.doc && e.doc[IdField] == Text(id)
    {
      assert Matches(q, e.doc) <==> Satisfies(e.doc, q.filters[0]);
    }
  }

  /**
   * `deleteReservation(id)`: removes the first document whose `id` field is
   * `id`; when none holds it nothing happens.
   */
  method DeleteReservation(store: Collection, id: string)
    modifies store
    ensures FirstMatch(old(store.docs), id).None? ==> store.docs == old(store.docs)
    ensures FirstMatch(old(store.docs), id).Some? ==> store.docs == old(store.docs) - {FirstMatch(old(store.docs), id).value}
  {
    var found := FindFirst(store, id);
    if found.Some? {
      store.Delete(found.value);
    }
  }

  /** `getDocs(query(where("id", "==", id)))` and its first document. */
  method FindFirst(store: Collection, id: string) returns (r: Option<DocId>)
    ensures r == FirstMatch(store.docs, id)
  {
    r := store.FirstWhere(IdField, Text(id));
    FirstMatchIsLeast(store.docs, id);
    ghost var m := FirstMatch(store.docs, id);
    if r.Some? && m.Some? && r.value != m.value {
      IdBeforeAsymmetric(r.value, m.value);
    }
  }

  // ---------------------------------------------------------------------------
  // Update

  /**
   * The document `updateReservation(id, …)` writes to: `doc(db, "reservations", id)`
   * names the document id `id`; an empty id is an invalid reference and an
   * unknown one makes `updateDoc` fail with NOT_FOUND.
   */
  function UpdateTarget(docs: map<DocId, Document>, id: string): (r: Result<DocId, Failure>)
    ensures r.Success? <==> id in docs
    ensures r.Success? ==> r.value == id
    ensures id == "" ==> r == Failure(InvalidPath)
  {
    if id == "" then Failure(InvalidPath)
    else if id in docs then Success(id)
    else Failure(NotFound)
  }

  /**
   * `updateReservation(id, data)` as written: merges the update document
   * into the document whose document id is `id`.
   */
  method UpdateReservation(store: Collection, id: string, data: Document, now: Date) returns (r: Result<(), Failure>)
    modifies store
    ensures var target := UpdateTarget(old(store.docs), id);
            var payload := UpdatePayload(data, now, ConvertDate);
            && (r.Success? <==> target.Success? && payload.Success?)
            && (r.Failure? ==> store.docs == old(store.docs))
            && (r.Success? ==>
                  store.docs == old(store.docs)[target.value := old(store.docs)[target.value] + payload.value])
  {
    if id == "" {
      return Failure(InvalidPath);
    }
    match UpdatePayload(data, now, ConvertDate)
    case Failure(err) =>
      r := Failure(err);
    case Success(payload) =>
      r := store.Update(id, payload);
  }

  /**
   * A reservation created here cannot be updated with the id `createReservation`
   * returned: that id is the `id` field, and unless it happens to be some
   * document's name, the update fails with NOT_FOUND.
   */
  lemma CreatedIdNotUpdatable(docs: map<DocId, Document>, d: DocId, reservation: Document, nanoId: string, created: Date, updated: Date)
    requires NewRecord(reservation, nanoId, created, updated).Success?
    requires d !in docs && nanoId != d && nanoId !in docs
    ensures UpdateTarget(docs[d := NewRecord(reservation, nanoId, created, updated).value], nanoId).Failure?
  {
  }

  /** The document holding the `id` field `id`, found as `deleteReservation` finds it. */
  ghost function UpdateTargetByField(docs: map<DocId, Document>, id: string): (r: Result<DocId, Failure>)
    ensures r.Success? ==> Holds(docs, r.value, IdField, Text(id))
    ensures r.Failure? ==> r.error == NotFound && forall d: DocId :: !Holds(docs, d, IdField, Text(id))
  {
    FirstMatchIsLeast(docs, id);
    match FirstMatch(docs, id)
    case None => Failure(NotFound)
    case Some(d) => Success(d)
  }

  /**
   * `updateReservation(id, data)` as intended: merges the update document
   * into the reservation whose `id` field is `id`, the id `createReservation`
   * returns.
   */
  method UpdateReservationById(store: Collection, id: string, data: Document, now: Date) returns (r: Result<(), Failure>)
    modifies store
    ensures var target := UpdateTargetByField(old(store.docs), id);
            var payload := UpdatePayload(data, now, ConvertDate);
            && (r.Success? <==> target.Success? && payload.Success?)
            && (r.Failure? ==> store.docs == old(store.docs))
            && (r.Success? ==>
                  store.docs == old(store.docs)[target.value := old(store.docs)[target.value] + payload.value])
  {
    var found := FindFirst(store, id);
    if found.None? {
      return Failure(NotFound);
    }
    match UpdatePayload(data, now, ConvertDate)
    case Failure(err) =>
      r := Failure(err);
    case Success(payload) =>
      r := store.Update(found.value, payload);
  }

  /**
   * With the lookup by `id` field, the id `createReservation` returned reaches
   * the document it created, provided no other document holds that id.
   */
  lemma CreatedIdUpdatable(docs: map<DocId, Document>, d: DocId, reservation: Document, nanoId: string, created: Date, updated: Date)
    requires NewRecord(reservation, nanoId, created, updated).Success?
    requires d !in docs && forall e: DocId :: !Holds(docs, e, IdField, Text(nanoId))
    ensures UpdateTargetByField(docs[d := NewRecord(reservation, nanoId, created, updated).value], nanoId) == Success(d)
  {
    var after := docs[d := NewRecord(reservation, nanoId, created, updated).value];
    assert Holds(after, d, IdField, Text(nanoId));
    forall e: DocId | e != d
      ensures Holds(after, e, IdField, Text(nanoId)) == Holds(docs, e, IdField, Text(nanoId))
    {
    }
    FirstMatchIsLeast(after, nanoId);
  }

  /** Deleting by the returned id removes exactly the created document. */
  lemma CreateThenDelete(docs: map<DocId, Document>, d: DocId, reservation: Document, nanoId: string, created: Date, updated: Date)
    requires NewRecord(reservation, nanoId, created, updated).Success?
    requires d !in docs && forall e: DocId :: !Holds(docs, e, IdField, Text(nanoId))
    ensures var after := docs[d := NewRecord(reservation, nanoId, created, updated).value];
            FirstMatch(after, nanoId) == Some(d) && after - {d} == docs
  {
    var after := docs[d := NewRecord(reservation, nanoId, created, updated).value];
    assert Holds(after, d, IdField, Text(nanoId));
    forall e: DocId | e != d
      ensures Holds(after, e, IdField, Text(nanoId)) == Holds(docs, e, IdField, Text(nanoId))
    {
    }
    FirstMatchIsLeast(after, nanoId);
  }

  // ---------------------------------------------------------------------------
  // Listings

  /** `{includeHistory, pageSize, lastDoc}`; `lastDoc` is a snapshot from an earlier page. */
  datatype ClientOptions = ClientOptions(includeHistory: Option<bool>, pageSize: Option<nat>, lastDoc: Option<Entry>)

  /** `{reservations, lastDoc}`: the stored fields, and the last snapshot of the page. */
  datatype ClientPage = ClientPage(reservations: seq<Document>, lastDoc: Option<Entry>)

  function ClientQuery(opts: ClientOptions, now: Date): Query {
    ListQuery(StartDate, opts.includeHistory, opts.pageSize, opts.lastDoc, now)
  }

  /**
   * The page `getReservations` builds from its snapshot; `startAfter` throws
   * when `lastDoc` misses an ordered field.
   */
  ghost function ClientListing(docs: map<DocId, Document>, opts: ClientOptions, now: Date): Result<ClientPage, Failure> {
    var q := ClientQuery(opts, now);
    if !CursorHolds(q) then Failure(MissingCursorField)
    else
      var snap := Run(docs, q);
      match ToRecords(snap, false)
      case Failure(err) => Failure(err)
      case Success(recs) => Success(ClientPage(recs, if snap == [] then None else Some(snap[|snap| - 1])))
  }

  /**
   * The browser-side page holds the stored fields of each listed document,
   * without its document id, at most a page of them; `lastDoc` is the
   * snapshot of the last one, absent exactly when the page is empty.
   */
  lemma ClientListingRecords(docs: map<DocId, Document>, opts: ClientOptions, now: Date)
    ensures var r := ClientListing(docs, opts, now);
            r.Success? ==>
              var recs := r.value.reservations;
              && (r.value.lastDoc.None? <==> recs == [])
              && (r.value.lastDoc.Some? ==>
                    && r.value.lastDoc.value.id in docs
                    && docs[r.value.lastDoc.value.id] == r.value.lastDoc.value.doc == recs[|recs| - 1])
              && (opts.pageSize != Some(0) ==> |recs| <= opts.pageSize.GetOr(DefaultPageSize))
              && (forall i | 0 <= i < |recs| :: recs[i] in docs.Values)
  {
    ClientListingLast(docs, opts, now);
    ClientListingSize(docs, opts, now);
    ClientListingStored(docs, opts, now);
  }

  /** `lastDoc` is the stored snapshot of the page's last record, absent exactly when the page is empty. */
  lemma ClientListingLast(docs: map<DocId, Document>, opts: ClientOptions, now: Date)
    ensures var r := ClientListing(docs, opts, now);
            r.Success? ==>
              var recs := r.value.reservations;
              && (r.value.lastDoc.None? <==> recs == [])
              && (r.value.lastDoc.Some? ==>
                    && r.value.lastDoc.value.id in docs
                    && docs[r.value.lastDoc.value.id] == r.value.lastDoc.value.doc == recs[|recs| - 1])
  {
    var q := ClientQuery(opts, now);
    var snap := Run(docs, q);
    var r := ClientListing(docs, opts, now);
    if r.Success? {
      var recs := r.value.reservations;
      RecordsPlain(snap, recs);
      if snap != [] {
        var k := |snap| - 1;
        RunMember(docs, q, k);
        assert r.value.lastDoc == Some(snap[k]);
        assert recs[|recs| - 1] == snap[k].doc;
      }
    }
  }

  /** The page holds at most `pageSize` records (20 by default; 0 means no limit). */
  lemma ClientListingSize(docs: map<DocId, Document>, opts: ClientOptions, now: Date)
    ensures var r := ClientListing(docs, opts, now);
            r.Success? ==> (opts.pageSize != Some(0) ==> |r.value.reservations| <= opts.pageSize.GetOr(DefaultPageSize))
  {
    var q := ClientQuery(opts, now);
    var r := ClientListing(docs, opts, now);
    if r.Success? {
      RunListsPage(docs, q);
      RecordsPlain(Run(docs, q), r.value.reservations);
    }
  }

  /** Every record of the page is a stored document, as stored. */
  lemma ClientListingStored(docs: map<DocId, Document>, opts: ClientOptions, now: Date)
    ensures var r := ClientListing(docs, opts, now);
            r.Success? ==> forall i | 0 <= i < |r.value.reservations| :: r.value.reservations[i] in docs.Values
  {
    var q := ClientQuery(opts, now);
    var snap := Run(docs, q);
    var r := ClientListing(docs, opts, now);
    if r.Success? {
      var recs := r.value.reservations;
      RecordsPlain(snap, recs);
      forall i | 0 <= i < |recs|
        ensures recs[i] in docs.Values
      {
        RunMember(docs, q, i);
        assert docs[snap[i].id] == recs[i];
      }
    }
  }

  /** The browser-side page is ordered by start date, latest first, and holds no ended reservation unless history is asked for. */
  lemma ClientListingOrder(docs: map<DocId, Document>, opts: ClientOptions, now: Date)
    ensures var r := ClientListing(docs, opts, now);
            r.Success? ==>
              var recs := r.value.reservations;
              && (forall i, j | 0 <= i < j < |recs| ::
                    DateOf(recs[i], StartDate).Some? && DateOf(recs[j], StartDate).Some?
                    && DateOf(recs[i], StartDate).value >= DateOf(recs[j], StartDate).value)
              && (forall i | 0 <= i < |recs| && !opts.includeHistory.GetOr(false) ::
                    DateOf(recs[i], EndDate).Some? && DateOf(recs[i], EndDate).value >= now)
  {
    var snap := Run(docs, ClientQuery(opts, now));
    var r := ClientListing(docs, opts, now);
    if r.Success? {
      var recs := r.value.reservations;
      ListedOrder(docs, StartDate, opts.includeHistory, opts.pageSize, opts.lastDoc, now);
      RecordsPlain(snap, recs);
      RecordsInOrder(snap, recs, StartDate, opts.includeHistory, now);
    }
  }

  /** `getReservations(options)`: a page by start date, latest first, after `lastDoc`. */
  ghost function GetReservations(docs: map<DocId, Document>, opts: ClientOptions, now: Date): (r: Result<ClientPage, Failure>)
    ensures !CursorHolds(ClientQuery(opts, now)) ==> r == Failure(MissingCursorField)
    ensures var snap := Run(docs, ClientQuery(opts, now));
            r.Success? <==> CursorHolds(ClientQuery(opts, now)) && forall i | 0 <= i < |snap| :: HasTimestamps(snap[i].doc)
    ensures r.Success? ==>
              var recs := r.value.reservations;
              && (r.value.lastDoc.None? <==> recs == [])
              && (opts.pageSize != Some(0) ==> |recs| <= opts.pageSize.GetOr(DefaultPageSize))
              && (forall i | 0 <= i < |recs| :: recs[i] in docs.Values)
              && (forall i, j | 0 <= i < j < |recs| ::
                    DateOf(recs[i], StartDate).Some? && DateOf(recs[j], StartDate).Some?
                    && DateOf(recs[i], StartDate).value >= DateOf(recs[j], StartDate).value)
  {
    ClientListingRecords(docs, opts, now);
    ClientListingOrder(docs, opts, now);
    ClientListing(docs, opts, now)
  }

  /** Records without ids are the stored documents themselves. */
  lemma RecordsPlain(snap: seq<Entry>, recs: seq<Document>)
    requires ToRecords(snap, false) == Success(recs)
    ensures |recs| == |snap|
    ensures forall i | 0 <= i < |recs| :: recs[i] == snap[i].doc
  {
    forall i | 0 <= i < |recs|
      ensures recs[i] == snap[i].doc
    {
      PlainRecord(snap[i], recs[i]);
    }
  }

  lemma PlainRecord(e: Entry, rec: Document)
    requires ToRecord(e, false) == Success(rec)
    ensures rec == e.doc
  {
  }

  /**
   * Asking again with the returned `lastDoc`, over the same documents, lists
   * what follows the page in the unlimited listing.
   */
  lemma NextPage(docs: map<DocId, Document>, opts: ClientOptions, now: Date)
    ensures var q := ClientQuery(opts, now);
            var snap := Run(docs, q);
            var full := Run(docs, q.(limit := None));
            |snap| <= |full| && snap == full[..|snap|]
            && (snap != [] ==>
                  && CursorHolds(ClientQuery(opts.(lastDoc := Some(snap[|snap| - 1])), now))
                  && Run(docs, ClientQuery(opts.(lastDoc := Some(snap[|snap| - 1])), now)) == Take(full[|snap|..], q.limit))
  {
    var q := ClientQuery(opts, now);
    var snap := Run(docs, q);
    PagePrefix(docs, q);
    PageRest(docs, q);
    if snap != [] {
      var next := ClientQuery(opts.(lastDoc := Some(snap[|snap| - 1])), now);
      assert next == q.(cursor := Some(snap[|snap| - 1]));
      RunMember(docs, q, |snap| - 1);
      RunTakes(docs, next);
      assert next.(limit := None) == q.(cursor := Some(snap[|snap| - 1]), limit := None);
    }
  }

  /** `where("startDate", "<=", end), where("endDate", ">=", start), where("status", "!=", "cancelled")`. */
  function ClientRangeFilters(start: Date, end: Date): seq<Filter> {
    RangeFilters(start, end) + [NotEquals(Status, Text(Cancelled))]
  }

  /** `getReservationsInDateRange(start, end)`: the stored fields of the matching reservations. */
  ghost function GetReservationsInDateRange(docs: map<DocId, Document>, start: Date, end: Date): Result<seq<Document>, Failure> {
    ToRecords(FilteredSnapshot(docs, ClientRangeFilters(start, end)), false)
  }

  /**
   * The browser-side range query holds exactly the stored reservations that
   * overlap `[start, end]` and have a status other than "cancelled": the `!=`
   * filter leaves out reservations whose status is missing or null.
   */
  lemma ClientRangeSelects(docs: map<DocId, Document>, start: Date, end: Date)
    ensures var snap := FilteredSnapshot(docs, ClientRangeFilters(start, end));
            forall e :: e in snap <==>
              && e.id in docs && docs[e.id] == e.doc && Overlaps(e.doc, start, end)
              && Status in e.doc && e.doc[Status] != Null && !IsCancelled(e.doc)
  {
    var fs := ClientRangeFilters(start, end);
    FilteredSnapshotSelects(docs, fs);
    forall e: Entry
      ensures Matches(Query(fs, ByName, None, None), e.doc)
              <==> Overlaps(e.doc, start, end) && Status in e.doc && e.doc[Status] != Null && !IsCancelled(e.doc)
    {
      ClientRangeMatches(e.doc, start, end);
    }
  }

  lemma ClientRangeMatches(doc: Document, start: Date, end: Date)
    ensures var fs := ClientRangeFilters(start, end);
            Matches(Query(fs, ByName, None, None), doc)
            <==> Overlaps(doc, start, end) && Status in doc && doc[Status] != Null && !IsCancelled(doc)
  {
    var fs := ClientRangeFilters(start, end);
    assert Satisfies(doc, fs[0]) && Satisfies(doc, fs[1]) <==> Overlaps(doc, start, end);
    assert Satisfies(doc, fs[2]) <==> Status in doc && doc[Status] != Null && !IsCancelled(doc);
  }

  /**
   * The two range listings disagree on reservations without a status, or
   * with a null one: the server-side one keeps them, the browser-side one
   * leaves them out.
   */
  lemma StatuslessReservations(docs: map<DocId, Document>, start: Date, end: Date, d: DocId)
    requires d in docs && Overlaps(docs[d], start, end) && (Status !in docs[d] || docs[d][Status] == Null)
    ensures Entry(d, docs[d]) in DropCancelled(FilteredSnapshot(docs, RangeFilters(start, end)))
    ensures Entry(d, docs[d]) !in FilteredSnapshot(docs, ClientRangeFilters(start, end))
  {
    RangeListingSelects(docs, start, end);
    ClientRangeSelects(docs, start, end);
  }
}
