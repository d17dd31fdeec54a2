/**
 * The server-side reservation repository (lib/firebase/reservation-server.ts):
 * create, update and delete by document id, a page of reservations by start
 * date, and the reservations overlapping a date range.  Dates arrive as
 * `Date` objects and are stored with `Timestamp.fromDate`.
 */
module AdminRepository {
  import opened Wrappers
  import opened Documents
  import opened Query
  import opened Store
  import opened Bookings

  /**
   * `{...reservation, createdAt: now, updatedAt: now, startDate, endDate}`:
   * both dates must be `Date` objects (`Timestamp.fromDate` throws a
   * TypeError on anything else, a missing date included); every other field
   * of `reservation` is stored as given.
   */
  function NewRecord(reservation: Document, now: Date): (r: Result<Document, Failure>)
    ensures r.Success? <==> DateOf(reservation, StartDate).Some? && DateOf(reservation, EndDate).Some?
    ensures r.Failure? ==> r.error == NotADate
    ensures r.Success? ==>
              && r.value.Keys == reservation.Keys + {CreatedAt, UpdatedAt}
              && r.value[CreatedAt] == r.value[UpdatedAt] == Stamp(now)
              && forall k | k in reservation && k !in {CreatedAt, UpdatedAt} :: r.value[k] == reservation[k]
  {
    match FromDate(Field(reservation, StartDate))
    case Failure(err) => Failure(err)
    case Success(start) =>
      match FromDate(Field(reservation, EndDate))
      case Failure(err) => Failure(err)
      case Success(end) =>
        Success(reservation[CreatedAt := Stamp(now)][UpdatedAt := Stamp(now)]
                  [StartDate := Stamp(start)][EndDate := Stamp(end)])
  }

  /** `createReservation(reservation)`: stores `NewRecord` under a new document id and returns that id. */
  method CreateReservation(store: Collection, reservation: Document, now: Date) returns (r: Result<DocId, Failure>)
    modifies store
    ensures r.Success? <==> NewRecord(reservation, now).Success?
    ensures r.Failure? ==> r.error == NotADate && store.docs == old(store.docs)
    ensures r.Success? ==>
              r.value !in old(store.docs) && store.docs == old(store.docs)[r.value := NewRecord(reservation, now).value]
  {
    match NewRecord(reservation, now)
    case Failure(err) =>
      r := Failure(err);
    case Success(record) =>
      var id := store.Add(record);
      r := Success(id);
  }

  /**
   * `updateReservation(id, data)`: merges `data`, a fresh `updatedAt` and
   * the converted dates into the document `id`.  Nothing is written when the
   * id is empty, a supplied date is not a `Date`, or there is no such document.
   */
  method UpdateReservation(store: Collection, id: string, data: Document, now: Date) returns (r: Result<(), Failure>)
    modifies store
    ensures var payload := UpdatePayload(data, now, ConvertDate);
            && (r.Success? <==> id != "" && payload.Success? && id in old(store.docs))
            && (r.Failure? ==> store.docs == old(store.docs))
            && (r.Success? ==> store.docs == old(store.docs)[id := old(store.docs)[id] + payload.value])
  {
    if id == "" {
      return Failure(InvalidPath);
    }
    match UpdatePayload(data, now, ConvertDate)
    case Failure(err) =>
      r := Failure(err);
    case Success(payload) =>
      r := store.Update(id, payload);
  }

  /** `deleteReservation(id)`: removes the document `id`, if any. */
  method DeleteReservation(store: Collection, id: string) returns (r: Result<(), Failure>)
    modifies store
    ensures r.Success? <==> id != ""
    ensures r.Failure? ==> r.error == InvalidPath && store.docs == old(store.docs)
    ensures r.Success? ==> store.docs == old(store.docs) - {id}
  {
    if id == "" {
      return Failure(InvalidPath);
    }
    store.Delete(id);
    r := Success(());
  }

  /**
   * `getReservations(options)`: a page of reservations, latest start date
   * first, each record carrying its document id.
   */
  ghost function GetReservations(docs: map<DocId, Document>, opts: ListOptions, now: Date): (r: Result<Page, Failure>)
    ensures !CursorHolds(OptionsQuery(docs, StartDate, opts, now)) ==> r == Failure(MissingCursorField)
    ensures r.Success? ==>
              var recs := r.value.reservations;
              && (r.value.lastDocId.None? <==> recs == [])
              && (r.value.lastDocId.Some? ==>
                    var id := r.value.lastDocId.value;
                    id in docs && recs[|recs| - 1] == map[IdField := Text(id)] + docs[id])
              && (opts.pageSize != Some(0) ==> |recs| <= opts.pageSize.GetOr(DefaultPageSize))
              && (forall i, j | 0 <= i < j < |recs| ::
                    DateOf(recs[i], StartDate).Some? && DateOf(recs[j], StartDate).Some?
                    && DateOf(recs[i], StartDate).value >= DateOf(recs[j], StartDate).value)
              && (forall i | 0 <= i < |recs| && !opts.includeHistory.GetOr(false) ::
                    DateOf(recs[i], EndDate).Some? && DateOf(recs[i], EndDate).value >= now)
  {
    ListingRecords(docs, StartDate, opts, now);
    ListingOrder(docs, StartDate, opts, now);
    ListingLast(docs, StartDate, opts, now);
    Listing(docs, StartDate, opts, now)
  }

  /**
   * `getReservationsInDateRange(start, end)`: the reservations that overlap
   * `[start, end]` and are not cancelled, each carrying its document id.
   */
  ghost function GetReservationsInDateRange(docs: map<DocId, Document>, start: Date, end: Date): (r: Result<seq<Document>, Failure>)
    ensures r.Success? ==>
              && (forall i | 0 <= i < |r.value| ::
                    && Overlaps(r.value[i], start, end) && !IsCancelled(r.value[i])
                    && exists id | id in docs :: r.value[i] == map[IdField := Text(id)] + docs[id])
              && (forall id | id in docs && Overlaps(docs[id], start, end) && !IsCancelled(docs[id]) ::
                    map[IdField := Text(id)] + docs[id] in r.value)
  {
    RangeListingRecords(docs, start, end);
    RangeListingComplete(docs, start, end);
    RangeListing(docs, start, end)
  }
}
