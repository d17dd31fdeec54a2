/**
 * What the three reservation repositories share: the date-range filter, the
 * "not cancelled" filter, the conversion of a stored document to a
 * reservation record, the update payload and the listing options.
 */
module Bookings {
  import opened Wrappers
  import opened Documents
  import opened Query
  import Store

  /** Page size when the caller gives none. */
  const DefaultPageSize: nat := 20

  /** The status value the range listings leave out. */
  const Cancelled := "cancelled"

  // ---------------------------------------------------------------------------
  // Range listing

  /** The reservation overlaps `[start, end]`, ends included. */
  predicate Overlaps(doc: Document, start: Date, end: Date) {
    && DateOf(doc, StartDate).Some? && DateOf(doc, StartDate).value <= end
    && DateOf(doc, EndDate).Some? && DateOf(doc, EndDate).value >= start
  }

  /** `where("startDate", "<=", end).where("endDate", ">=", start)`. */
  function RangeFilters(start: Date, end: Date): seq<Filter> {
    [AtMost(StartDate, end), AtLeast(EndDate, start)]
  }

  lemma RangeFiltersOverlap(q: Query, doc: Document, start: Date, end: Date)
    requires q.filters == RangeFilters(start, end) && q.order == ByName
    ensures Matches(q, doc) <==> Overlaps(doc, start, end)
  {
    assert Satisfies(doc, q.filters[0]) && Satisfies(doc, q.filters[1]) <==> Overlaps(doc, start, end);
  }

  /** `status !== "cancelled"` fails only for the exact string. */
  predicate IsCancelled(doc: Document) {
    Status in doc && doc[Status] == Text(Cancelled)
  }

  /** `docs.filter(doc => doc.data().status !== "cancelled")`. */
  function DropCancelled(s: seq<Entry>): (r: seq<Entry>)
    ensures forall e :: e in r <==> e in s && !IsCancelled(e.doc)
    ensures |r| <= |s|
  {
    if s == [] then []
    else (if IsCancelled(s[0].doc) then [] else [s[0]]) + DropCancelled(s[1..])
  }

  /** Filtering keeps the snapshot's order. */
  lemma {:induction false} DropCancelledSorted(ord: Order, s: seq<Entry>)
    requires Sorted(ord, s)
    ensures Sorted(ord, DropCancelled(s))
  {
    if s != [] {
      SortedTail(ord, s, 1);
      DropCancelledSorted(ord, s[1..]);
      var rest := DropCancelled(s[1..]);
      if !IsCancelled(s[0].doc) {
        forall x | x in rest
          ensures Precedes(ord, s[0], x)
        {
          var j :| 0 <= j < |s[1..]| && s[1..][j] == x;
          assert s[j + 1] == x;
        }
        SortedCons(ord, s[0], rest);
      }
    }
  }

  // ---------------------------------------------------------------------------
  // Reservation records

  /** The four timestamps on which the listings call `toDate()`. */
  predicate HasTimestamps(doc: Document) {
    && DateOf(doc, StartDate).Some? && DateOf(doc, EndDate).Some?
    && DateOf(doc, CreatedAt).Some? && DateOf(doc, UpdatedAt).Some?
  }

  /**
   * A snapshot as a reservation record: `{id: doc.id, ...data}` when `withId`,
   * `{...data}` otherwise, with the four timestamps turned into dates.  A
   * stored `id` field overrides the document id.  `toDate()` on a field that
   * does not hold a timestamp throws a TypeError.
   */
  function ToRecord(e: Entry, withId: bool): (r: Result<Document, Failure>)
    ensures r.Success? <==> HasTimestamps(e.doc)
    ensures r.Failure? ==> r.error == NotADate
    ensures r.Success? ==> r.value.Keys == e.doc.Keys + (if withId then {IdField} else {})
    ensures r.Success? ==> forall k | k in e.doc :: r.value[k] == e.doc[k]
    ensures r.Success? && withId && IdField !in e.doc ==> r.value[IdField] == Text(e.id)
  {
    if !HasTimestamps(e.doc) then Failure(NotADate)
    else if withId then Success(map[IdField := Text(e.id)] + e.doc)
    else Success(e.doc)
  }

  /** `snapshot.docs.map(...)`: the records in snapshot order, or the first TypeError. */
  function ToRecords(s: seq<Entry>, withId: bool): (r: Result<seq<Document>, Failure>)
    ensures r.Success? <==> forall i | 0 <= i < |s| :: HasTimestamps(s[i].doc)
    ensures r.Failure? ==> r.error == NotADate
    ensures r.Success? ==> |r.value| == |s| && forall i | 0 <= i < |s| :: ToRecord(s[i], withId) == Success(r.value[i])
  {
    if s == [] then Success([])
    else
      match ToRecord(s[0], withId)
      case Failure(err) => Failure(err)
      case Success(head) =>
        match ToRecords(s[1..], withId)
        case Failure(err) => Failure(err)
        case Success(tail) =>
          assert forall i | 1 <= i < |s| :: s[i] == s[1..][i - 1];
          Success([head] + tail)
  }

  // ---------------------------------------------------------------------------
  // Update payload

  /**
   * `{...data, updatedAt: now}`, then `startDate` and `endDate` converted with
   * `convert` when the patch holds a truthy value for them.  A falsy value
   * is copied unconverted.  A conversion that throws aborts the update.
   */
  function UpdatePayload(data: Document, now: Date, convert: Value -> Result<Date, Failure>): (r: Result<Document, Failure>)
    ensures r.Failure? <==>
              exists f | f in [StartDate, EndDate] :: f in data && Truthy(data[f]) && convert(data[f]).Failure?
    ensures r.Success? ==> r.value.Keys == data.Keys + {UpdatedAt}
    ensures r.Success? ==> r.value[UpdatedAt] == Stamp(now)
    ensures r.Success? ==> forall f | f in [StartDate, EndDate] && f in data && Truthy(data[f]) ::
              r.value[f] == Stamp(convert(data[f]).value)
    ensures r.Success? ==> forall k | k in data && k != UpdatedAt && !(k in [StartDate, EndDate] && Truthy(data[k])) ::
              r.value[k] == data[k]
  {
    var base := data[UpdatedAt := Stamp(now)];
    match ConvertField(base, data, StartDate, convert)
    case Failure(err) => Failure(err)
    case Success(withStart) => ConvertField(withStart, data, EndDate, convert)
  }

  /** `Timestamp.fromDate(value)` for a value of an update patch: only a `Date` converts. */
  function ConvertDate(v: Value): (r: Result<Date, Failure>)
    ensures r.Success? <==> v.Stamp?
    ensures r.Success? ==> v == Stamp(r.value)
  {
    FromDate(Some(v))
  }

  /** `if (data.f) updateData.f = convert(data.f)`. */
  function ConvertField(payload: Document, data: Document, f: string, convert: Value -> Result<Date, Failure>): (r: Result<Document, Failure>)
    ensures r.Failure? <==> f in data && Truthy(data[f]) && convert(data[f]).Failure?
    ensures r.Success? && f in data && Truthy(data[f]) ==> r.value == payload[f := Stamp(convert(data[f]).value)]
    ensures r.Success? && !(f in data && Truthy(data[f])) ==> r.value == payload
  {
    if f in data && Truthy(data[f]) then
      match convert(data[f])
      case Failure(err) => Failure(err)
      case Success(t) => Success(payload[f := Stamp(t)])
    else Success(payload)
  }

  // ---------------------------------------------------------------------------
  // Paginated listing

  /** `{includeHistory, pageSize, lastDocId}`; `None` is an omitted option. */
  datatype ListOptions = ListOptions(includeHistory: Option<bool>, pageSize: Option<nat>, lastDocId: Option<string>)

  /** `{reservations, lastDocId}`: the records and the id of the last snapshot. */
  datatype Page = Page(reservations: seq<Document>, lastDocId: Option<DocId>)

  /** `pageSize = 20` by default; `if (pageSize)` leaves a zero page size unlimited. */
  function PageLimit(pageSize: Option<nat>): (r: Option<nat>)
    ensures pageSize.None? ==> r == Some(DefaultPageSize)
    ensures pageSize == Some(0) ==> r.None?
    ensures pageSize.Some? && pageSize.value > 0 ==> r == pageSize
  {
    var n := pageSize.GetOr(DefaultPageSize);
    if n == 0 then None else Some(n)
  }

  /** `includeHistory = false` by default; without history only reservations ending now or later. */
  function HistoryFilters(includeHistory: Option<bool>, now: Date): seq<Filter> {
    if includeHistory.GetOr(false) then [] else [AtLeast(EndDate, now)]
  }

  /**
   * `if (lastDocId)` fetch `doc(lastDocId)` and start after it `if (exists)`:
   * an empty, omitted or unknown id starts from the beginning.
   */
  function ResumeFrom(docs: map<DocId, Document>, lastDocId: Option<string>): (r: Option<Entry>)
    ensures r.Some? <==> lastDocId.Some? && lastDocId.value in docs
    ensures r.Some? ==> r.value == Entry(lastDocId.value, docs[lastDocId.value])
  {
    if lastDocId.Some? && lastDocId.value != "" then Store.Snapshot(docs, lastDocId.value) else None
  }

  /**
   * The fields the listing is ordered on: `field`, then, when history is
   * left out and `field` is not `endDate`, the `endDate` of the inequality
   * filter, which Firestore orders on next, in the same direction.
   */
  function OrderKeys(field: string, includeHistory: Option<bool>): (r: seq<string>)
    ensures 0 < |r| && r[0] == field
    ensures |r| > 1 <==> !includeHistory.GetOr(false) && field != EndDate
    ensures |r| > 1 ==> r == [field, EndDate]
  {
    if !includeHistory.GetOr(false) && field != EndDate then [field, EndDate] else [field]
  }

  /** The paginated listing's query: newest `field` first, after `cursor`. */
  function ListQuery(field: string, includeHistory: Option<bool>, pageSize: Option<nat>, cursor: Option<Entry>, now: Date): Query {
    Query(HistoryFilters(includeHistory, now), Descending(OrderKeys(field, includeHistory)), cursor, PageLimit(pageSize))
  }

  /** The query both server-side listings run for `opts`. */
  function OptionsQuery(docs: map<DocId, Document>, field: string, opts: ListOptions, now: Date): Query {
    ListQuery(field, opts.includeHistory, opts.pageSize, ResumeFrom(docs, opts.lastDocId), now)
  }

  /**
   * The server-side paginated listing ordered by `field`: the snapshot as
   * records carrying their document id, and the id of the last snapshot.
   * `startAfter` throws when the `lastDocId` document misses an ordered field.
   */
  ghost function Listing(docs: map<DocId, Document>, field: string, opts: ListOptions, now: Date): Result<Page, Failure> {
    var q := OptionsQuery(docs, field, opts, now);
    if !CursorHolds(q) then Failure(MissingCursorField)
    else
      var snap := Run(docs, q);
      match ToRecords(snap, true)
      case Failure(err) => Failure(err)
      case Success(records) => Success(Page(records, if snap == [] then None else Some(snap[|snap| - 1].id)))
  }

  /**
   * The snapshot of a paginated listing: stored documents holding `field`
   * (whatever its type), not yet ended unless history is asked for, highest
   * `field` first in Firestore's value order, after the cursor, at most a
   * page of them, and none skipped.
   */
  lemma ListedPage(docs: map<DocId, Document>, field: string, includeHistory: Option<bool>, pageSize: Option<nat>, cursor: Option<Entry>, now: Date)
    ensures var q := ListQuery(field, includeHistory, pageSize, cursor, now);
            var r := Run(docs, q);
            && (forall i | 0 <= i < |r| :: r[i].id in docs && docs[r[i].id] == r[i].doc)
            && ListedInOrder(r, field, includeHistory, now)
            && (pageSize != Some(0) ==> |r| <= pageSize.GetOr(DefaultPageSize))
            && (forall i | 0 <= i < |r| && cursor.Some? :: Precedes(q.order, cursor.value, r[i]))
            && (forall e | Selected(docs, q, e) && e !in r ::
                  |r| == pageSize.GetOr(DefaultPageSize) && forall i | 0 <= i < |r| :: Precedes(q.order, r[i], e))
  {
    var q := ListQuery(field, includeHistory, pageSize, cursor, now);
    var r := Run(docs, q);
    RunListsPage(docs, q);
    ListedOrder(docs, field, includeHistory, pageSize, cursor, now);
    forall i | 0 <= i < |r|
      ensures r[i].id in docs && docs[r[i].id] == r[i].doc
      ensures cursor.Some? ==> Precedes(q.order, cursor.value, r[i])
    {
      assert r[i] in r;
      ListedEntry(docs, q, r[i], field, includeHistory, now);
    }
  }

  /** The ordering part of `ListedPage`. */
  lemma ListedOrder(docs: map<DocId, Document>, field: string, includeHistory: Option<bool>, pageSize: Option<nat>, cursor: Option<Entry>, now: Date)
    ensures ListedInOrder(Run(docs, ListQuery(field, includeHistory, pageSize, cursor, now)), field, includeHistory, now)
  {
    var q := ListQuery(field, includeHistory, pageSize, cursor, now);
    var r := Run(docs, q);
    RunListsPage(docs, q);
    forall i | 0 <= i < |r|
      ensures field in r[i].doc
      ensures !includeHistory.GetOr(false) ==> DateOf(r[i].doc, EndDate).Some? && DateOf(r[i].doc, EndDate).value >= now
    {
      assert r[i] in r;
      ListedEntry(docs, q, r[i], field, includeHistory, now);
    }
    forall i, j | 0 <= i < j < |r|
      ensures !ValueBelow(SortValue(field, r[i].doc), SortValue(field, r[j].doc))
      ensures !includeHistory.GetOr(false) && SortValue(field, r[i].doc) == SortValue(field, r[j].doc) ==>
                !ValueBelow(SortValue(EndDate, r[i].doc), SortValue(EndDate, r[j].doc))
    {
      assert Precedes(q.order, r[i], r[j]);
      LeadingKeys(OrderKeys(field, includeHistory), r[i], r[j]);
      ValueBelowIrreflexive(SortValue(EndDate, r[i].doc));
    }
  }

  /**
   * Every entry of `r` holds `field`, none has ended unless history is asked
   * for, and `r` runs from the highest `field` down; without history, equal
   * `field`s run from the latest `endDate` down.
   */
  ghost predicate ListedInOrder(r: seq<Entry>, field: string, includeHistory: Option<bool>, now: Date) {
    && (forall i | 0 <= i < |r| :: field in r[i].doc)
    && (forall i | 0 <= i < |r| && !includeHistory.GetOr(false) ::
          DateOf(r[i].doc, EndDate).Some? && DateOf(r[i].doc, EndDate).value >= now)
    && (forall i, j | 0 <= i < j < |r| :: !ValueBelow(SortValue(field, r[i].doc), SortValue(field, r[j].doc)))
    && (forall i, j | 0 <= i < j < |r| && !includeHistory.GetOr(false) && SortValue(field, r[i].doc) == SortValue(field, r[j].doc) ::
          !ValueBelow(SortValue(EndDate, r[i].doc), SortValue(EndDate, r[j].doc)))
  }

  /** An entry a listing query selects is stored, holds the order field (of any type), and has not ended unless history is asked for. */
  lemma ListedEntry(docs: map<DocId, Document>, q: Query, e: Entry, field: string, includeHistory: Option<bool>, now: Date)
    requires q.filters == HistoryFilters(includeHistory, now) && q.order == Descending(OrderKeys(field, includeHistory))
    requires Selected(docs, q, e)
    ensures e.id in docs && docs[e.id] == e.doc
    ensures field in e.doc
    ensures !includeHistory.GetOr(false) ==> DateOf(e.doc, EndDate).Some? && DateOf(e.doc, EndDate).value >= now
    ensures q.cursor.Some? ==> Precedes(q.order, q.cursor.value, e)
  {
    assert OrderKeys(field, includeHistory)[0] in e.doc;
    if !includeHistory.GetOr(false) {
      assert Satisfies(e.doc, q.filters[0]);
    }
  }

  /**
   * What a server-side listing returns: one record per stored document of
   * the page, carrying its document id unless the document stores an `id`
   * field of its own, at most a page of them; `lastDocId` is absent exactly
   * when the page is empty.  The listing fails exactly when the `lastDocId`
   * document misses an ordered field, or a listed document lacks one of its
   * four timestamps.
   */
  lemma ListingRecords(docs: map<DocId, Document>, field: string, opts: ListOptions, now: Date)
    ensures var q := OptionsQuery(docs, field, opts, now);
            var snap := Run(docs, q);
            var r := Listing(docs, field, opts, now);
            && (!CursorHolds(q) ==> r == Failure(MissingCursorField))
            && (r.Success? <==> CursorHolds(q) && forall i | 0 <= i < |snap| :: HasTimestamps(snap[i].doc))
            && (r.Success? ==>
                  var recs := r.value.reservations;
                  && (r.value.lastDocId.None? <==> recs == [])
                  && (opts.pageSize != Some(0) ==> |recs| <= opts.pageSize.GetOr(DefaultPageSize))
                  && (forall i | 0 <= i < |recs| ::
                        exists id | id in docs :: recs[i] == map[IdField := Text(id)] + docs[id]))
  {
    var q := OptionsQuery(docs, field, opts, now);
    var snap := Run(docs, q);
    var r := Listing(docs, field, opts, now);
    if r.Success? {
      var recs := r.value.reservations;
      assert ToRecords(snap, true) == Success(recs);
      RecordsWithIds(snap, recs);
      RunListsPage(docs, q);
      forall i | 0 <= i < |recs|
        ensures exists id | id in docs :: recs[i] == map[IdField := Text(id)] + docs[id]
      {
        assert snap[i] in snap;
        assert recs[i] == map[IdField := Text(snap[i].id)] + docs[snap[i].id];
      }
    }
  }

  /**
   * The records of a server-side listing hold `field`, newest first, and
   * none has ended unless history is asked for.
   */
  lemma ListingOrder(docs: map<DocId, Document>, field: string, opts: ListOptions, now: Date)
    requires field in [StartDate, EndDate]
    ensures var r := Listing(docs, field, opts, now);
            r.Success? ==>
              var recs := r.value.reservations;
              && (forall i | 0 <= i < |recs| :: DateOf(recs[i], field).Some?)
              && (forall i, j | 0 <= i < j < |recs| :: DateOf(recs[i], field).value >= DateOf(recs[j], field).value)
              && (forall i | 0 <= i < |recs| && !opts.includeHistory.GetOr(false) ::
                    DateOf(recs[i], EndDate).Some? && DateOf(recs[i], EndDate).value >= now)
  {
    var q := OptionsQuery(docs, field, opts, now);
    var snap := Run(docs, q);
    var r := Listing(docs, field, opts, now);
    if r.Success? {
      var recs := r.value.reservations;
      assert ToRecords(snap, true) == Success(recs);
      ListedOrder(docs, field, opts.includeHistory, opts.pageSize, ResumeFrom(docs, opts.lastDocId), now);
      RecordsWithIds(snap, recs);
      RecordsInOrder(snap, recs, field, opts.includeHistory, now);
    }
  }

  /**
   * Resuming from a stored `lastDocId` document that misses the order field,
   * or, without history, `endDate`, makes `startAfter` throw: the listing
   * fails rather than reporting the end of the data.
   */
  lemma ListingFailsOnIncompleteCursor(docs: map<DocId, Document>, field: string, opts: ListOptions, now: Date)
    requires opts.lastDocId.Some? && opts.lastDocId.value in docs
    requires var cursor := docs[opts.lastDocId.value];
             field !in cursor || (!opts.includeHistory.GetOr(false) && EndDate !in cursor)
    ensures Listing(docs, field, opts, now) == Failure(MissingCursorField)
  {
    var keys := OrderKeys(field, opts.includeHistory);
    var cursor := docs[opts.lastDocId.value];
    if field !in cursor {
      assert keys[0] !in cursor;
    } else {
      assert keys[1] !in cursor;
    }
  }

  /**
   * A stored document whose order field holds a value of another type than a
   * timestamp, or which lacks one of its other timestamps, is still listed,
   * and converting it makes the whole listing fail: such a document is never
   * dropped silently.
   */
  lemma ListingFailsOnUntypedDates(docs: map<DocId, Document>, field: string, opts: ListOptions, now: Date, id: DocId)
    requires opts.includeHistory == Some(true) && opts.pageSize == Some(0) && opts.lastDocId.None?
    requires id in docs && field in docs[id] && !HasTimestamps(docs[id])
    ensures Listing(docs, field, opts, now) == Failure(NotADate)
  {
    var q := OptionsQuery(docs, field, opts, now);
    var snap := Run(docs, q);
    var e := Entry(id, docs[id]);
    assert Selected(docs, q, e);
    RunListsPage(docs, q);
    assert e in snap;
    var i :| 0 <= i < |snap| && snap[i] == e;
    assert !HasTimestamps(snap[i].doc);
  }

  /**
   * Once every listed document holds timestamps, Firestore's value order on
   * `field` is the order of the dates themselves, and records that keep their
   * snapshot's dates are listed in that order.
   */
  lemma RecordsInOrder(snap: seq<Entry>, recs: seq<Document>, field: string, includeHistory: Option<bool>, now: Date)
    requires field in [StartDate, EndDate] && |recs| == |snap|
    requires ListedInOrder(snap, field, includeHistory, now)
    requires forall i | 0 <= i < |snap| ::
               && HasTimestamps(snap[i].doc)
               && DateOf(recs[i], field) == DateOf(snap[i].doc, field)
               && DateOf(recs[i], EndDate) == DateOf(snap[i].doc, EndDate)
    ensures forall i | 0 <= i < |recs| :: DateOf(recs[i], field).Some?
    ensures forall i, j | 0 <= i < j < |recs| :: DateOf(recs[i], field).value >= DateOf(recs[j], field).value
    ensures forall i | 0 <= i < |recs| && !includeHistory.GetOr(false) ::
              DateOf(recs[i], EndDate).Some? && DateOf(recs[i], EndDate).value >= now
  {
    forall i | 0 <= i < |recs|
      ensures DateOf(recs[i], field).Some?
      ensures SortValue(field, snap[i].doc) == Stamp(DateOf(recs[i], field).value)
    {
      assert HasTimestamps(snap[i].doc);
    }
  }

  /** Records carrying ids keep their snapshot's dates. */
  lemma RecordsWithIds(snap: seq<Entry>, recs: seq<Document>)
    requires ToRecords(snap, true) == Success(recs)
    ensures |recs| == |snap|
    ensures forall i | 0 <= i < |recs| :: recs[i] == map[IdField := Text(snap[i].id)] + snap[i].doc
    ensures forall i | 0 <= i < |recs| ::
              DateOf(recs[i], StartDate) == DateOf(snap[i].doc, StartDate)
              && DateOf(recs[i], EndDate) == DateOf(snap[i].doc, EndDate)
  {
    forall i | 0 <= i < |recs|
      ensures recs[i] == map[IdField := Text(snap[i].id)] + snap[i].doc
      ensures DateOf(recs[i], StartDate) == DateOf(snap[i].doc, StartDate)
      ensures DateOf(recs[i], EndDate) == DateOf(snap[i].doc, EndDate)
    {
      assert ToRecord(snap[i], true) == Success(recs[i]);
      WithIdKeepsFields(snap[i].id, snap[i].doc);
    }
  }

  /**
   * `lastDocId` is the document id of the page's last record, a stored
   * document; it is absent exactly when the page is empty.
   */
  lemma ListingLast(docs: map<DocId, Document>, field: string, opts: ListOptions, now: Date)
    ensures var r := Listing(docs, field, opts, now);
            r.Success? ==>
              var recs := r.value.reservations;
              && (r.value.lastDocId.None? <==> recs == [])
              && (r.value.lastDocId.Some? ==>
                    var id := r.value.lastDocId.value;
                    id in docs && recs[|recs| - 1] == map[IdField := Text(id)] + docs[id])
  {
    var q := OptionsQuery(docs, field, opts, now);
    var snap := Run(docs, q);
    var r := Listing(docs, field, opts, now);
    if r.Success? {
      var recs := r.value.reservations;
      assert ToRecords(snap, true) == Success(recs);
      RecordsWithIds(snap, recs);
      if snap != [] {
        var k := |snap| - 1;
        RunMember(docs, q, k);
        assert r.value.lastDocId == Some(snap[k].id);
      }
    }
  }

  /**
   * Asking again with the returned `lastDocId`, over the same documents,
   * lists what follows the page in the unlimited listing: pages neither
   * repeat nor skip a document.
   */
  lemma NextPage(docs: map<DocId, Document>, field: string, opts: ListOptions, now: Date)
    ensures var q := OptionsQuery(docs, field, opts, now);
            var snap := Run(docs, q);
            var full := Run(docs, q.(limit := None));
            |snap| <= |full| && snap == full[..|snap|]
            && (snap != [] ==>
                  var next := OptionsQuery(docs, field, opts.(lastDocId := Some(snap[|snap| - 1].id)), now);
                  CursorHolds(next) && Run(docs, next) == Take(full[|snap|..], q.limit))
  {
    var q := OptionsQuery(docs, field, opts, now);
    var snap := Run(docs, q);
    PagePrefix(docs, q);
    PageRest(docs, q);
    if snap != [] {
      var last := snap[|snap| - 1];
      RunMember(docs, q, |snap| - 1);
      var next := OptionsQuery(docs, field, opts.(lastDocId := Some(last.id)), now);
      assert ResumeFrom(docs, Some(last.id)) == Some(last);
      assert next == q.(cursor := Some(last));
      RunTakes(docs, next);
      assert next.(limit := None) == q.(cursor := Some(last), limit := None);
    }
  }

  /**
   * The listing itself, resumed from the `lastDocId` it returned, gives the
   * documents that follow its records in the unlimited listing.
   */
  lemma NextListing(docs: map<DocId, Document>, field: string, opts: ListOptions, now: Date)
    ensures var q := OptionsQuery(docs, field, opts, now);
            var full := Run(docs, q.(limit := None));
            var r := Listing(docs, field, opts, now);
            r.Success? && r.value.lastDocId.Some? ==>
              var n := |r.value.reservations|;
              var next := OptionsQuery(docs, field, opts.(lastDocId := r.value.lastDocId), now);
              && n <= |full|
              && CursorHolds(next)
              && Run(docs, next) == Take(full[n..], q.limit)
  {
    var q := OptionsQuery(docs, field, opts, now);
    var snap := Run(docs, q);
    var r := Listing(docs, field, opts, now);
    NextPage(docs, field, opts, now);
    if r.Success? && r.value.lastDocId.Some? {
      assert ToRecords(snap, true) == Success(r.value.reservations);
      assert r.value.lastDocId == Some(snap[|snap| - 1].id);
    }
  }

  // ---------------------------------------------------------------------------
  // Listing by date range

  /** The snapshot of a query with `filters` and no `orderBy`, `limit` or cursor. */
  ghost function FilteredSnapshot(docs: map<DocId, Document>, filters: seq<Filter>): seq<Entry> {
    Run(docs, Query(filters, ByName, None, None))
  }

  /** Such a snapshot lists every stored document matching `filters` once, by name. */
  lemma FilteredSnapshotSelects(docs: map<DocId, Document>, filters: seq<Filter>)
    ensures var r := FilteredSnapshot(docs, filters);
            && Sorted(ByName, r)
            && forall e :: e in r <==> e.id in docs && docs[e.id] == e.doc && Matches(Query(filters, ByName, None, None), e.doc)
  {
    RunListsPage(docs, Query(filters, ByName, None, None));
  }

  /**
   * The server-side listing by date range: the stored reservations that
   * overlap `[start, end]`, the cancelled ones filtered out afterwards, as
   * records carrying their document id.
   */
  ghost function RangeListing(docs: map<DocId, Document>, start: Date, end: Date): Result<seq<Document>, Failure> {
    ToRecords(DropCancelled(FilteredSnapshot(docs, RangeFilters(start, end))), true)
  }

  /**
   * The server-side range listing holds exactly the stored reservations that
   * overlap `[start, end]` and whose status is not "cancelled" (a reservation
   * without a status is kept), in document-name order.
   */
  lemma RangeListingSelects(docs: map<DocId, Document>, start: Date, end: Date)
    ensures var kept := DropCancelled(FilteredSnapshot(docs, RangeFilters(start, end)));
            && Sorted(ByName, kept)
            && (forall e :: e in kept <==>
                  e.id in docs && docs[e.id] == e.doc && Overlaps(e.doc, start, end) && !IsCancelled(e.doc))
            && RangeListing(docs, start, end) == ToRecords(kept, true)
  {
    var q := Query(RangeFilters(start, end), ByName, None, None);
    var snap := FilteredSnapshot(docs, RangeFilters(start, end));
    FilteredSnapshotSelects(docs, RangeFilters(start, end));
    DropCancelledSorted(ByName, snap);
    forall e: Entry
      ensures e in snap <==> e.id in docs && docs[e.id] == e.doc && Overlaps(e.doc, start, end)
    {
      RangeFiltersOverlap(q, e.doc, start, end);
    }
  }

  /** Each record of the server-side range listing overlaps the range, is not cancelled and is a stored document with its id. */
  lemma RangeListingRecords(docs: map<DocId, Document>, start: Date, end: Date)
    ensures var r := RangeListing(docs, start, end);
            r.Success? ==>
              forall i | 0 <= i < |r.value| ::
                && Overlaps(r.value[i], start, end) && !IsCancelled(r.value[i])
                && exists id | id in docs :: r.value[i] == map[IdField := Text(id)] + docs[id]
  {
    var kept := DropCancelled(FilteredSnapshot(docs, RangeFilters(start, end)));
    RangeListingSelects(docs, start, end);
    var r := RangeListing(docs, start, end);
    if r.Success? {
      RecordsWithIds(kept, r.value);
      forall i | 0 <= i < |r.value|
        ensures Overlaps(r.value[i], start, end) && !IsCancelled(r.value[i])
        ensures r.value[i] == map[IdField := Text(kept[i].id)] + docs[kept[i].id]
      {
        assert kept[i] in kept;
        WithIdKeepsFields(kept[i].id, kept[i].doc);
      }
    }
  }

  /** Every stored reservation that overlaps the range and is not cancelled has its record in the range listing. */
  lemma RangeListingComplete(docs: map<DocId, Document>, start: Date, end: Date)
    ensures var r := RangeListing(docs, start, end);
            r.Success? ==>
              forall id | id in docs && Overlaps(docs[id], start, end) && !IsCancelled(docs[id]) ::
                map[IdField := Text(id)] + docs[id] in r.value
  {
    var kept := DropCancelled(FilteredSnapshot(docs, RangeFilters(start, end)));
    RangeListingSelects(docs, start, end);
    var r := RangeListing(docs, start, end);
    if r.Success? {
      RecordsWithIds(kept, r.value);
      forall id | id in docs && Overlaps(docs[id], start, end) && !IsCancelled(docs[id])
        ensures map[IdField := Text(id)] + docs[id] in r.value
      {
        assert Entry(id, docs[id]) in kept;
        var k :| 0 <= k < |kept| && kept[k] == Entry(id, docs[id]);
        assert r.value[k] == map[IdField := Text(id)] + docs[id];
      }
    }
  }

  /** Adding the id to a record changes neither its dates nor its status. */
  lemma WithIdKeepsFields(id: DocId, doc: Document)
    ensures var rec := map[IdField := Text(id)] + doc;
            && DateOf(rec, StartDate) == DateOf(doc, StartDate)
            && DateOf(rec, EndDate) == DateOf(doc, EndDate)
            && (IsCancelled(rec) <==> IsCancelled(doc))
  {
  }
}
