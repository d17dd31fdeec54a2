/**
 * The server actions of the admin screens (app/actions/reservations.ts):
 * create a reservation from a submitted form, update and delete one by
 * document id, list a page of reservations by end date, and list those
 * overlapping a date range.
 */
module ServerActions {
  import opened Wrappers
  import opened Documents
  import opened Query
  import opened Store
  import opened Bookings

  /** Submitted form data: the first value under each name (files are not modelled). */
  type FormData = map<string, string>

  /** The form fields copied into a new reservation besides the two dates. */
  const FormFields: seq<string> := [
    "contactName", "contactLastName", "contactEmail", "contactPhone", "unit",
    "persons", "reason", "includeBreakfast", "includeLunch", "notifyUser"
  ]

  /** Where the action sends the browser after creating a reservation. */
  const AdminPath := "/admin"

  /** `form.get(name)`: the submitted string, or `null` when there is none. */
  function FormValue(form: FormData, name: string): (v: Value)
    ensures v == Null || v.Text?
    ensures v.Text? <==> name in form
    ensures v.Text? ==> v.s == form[name]
  {
    if name in form then Text(form[name]) else Null
  }

  /** The fields of the new document that come straight from the form. */
  function CopiedFields(form: FormData, names: seq<string>): (r: Document)
    ensures r.Keys == set i | 0 <= i < |names| :: names[i]
    ensures forall i | 0 <= i < |names| :: r[names[i]] == FormValue(form, names[i])
  {
    if names == [] then map[]
    else
      var rest := CopiedFields(form, names[1..]);
      assert forall i | 1 <= i < |names| :: names[i] == names[1..][i - 1];
      rest[names[0] := FormValue(form, names[0])]
  }

  /** `Timestamp.fromDate(new Date(value))` for a submitted string. */
  function ParseFormDate(s: string, parse: string -> Option<Date>): (r: Result<Date, Failure>)
    ensures r.Success? <==> parse(s).Some?
    ensures r.Success? ==> r.value == parse(s).value
    ensures r.Failure? ==> r.error == InvalidDate
  {
    FromNewDate(Some(Text(s)), parse)
  }

  /** The form's fields with the two converted dates and the creation time. */
  function FormDocument(form: FormData, now: Date, start: Date, end: Date): (r: Document)
    ensures r.Keys == {CreatedAt, UpdatedAt, StartDate, EndDate} + (set i | 0 <= i < |FormFields| :: FormFields[i])
    ensures r[CreatedAt] == r[UpdatedAt] == Stamp(now)
    ensures r[StartDate] == Stamp(start) && r[EndDate] == Stamp(end)
    ensures forall i | 0 <= i < |FormFields| :: r[FormFields[i]] == FormValue(form, FormFields[i])
  {
    var copied := CopiedFields(form, FormFields);
    var r := copied[CreatedAt := Stamp(now)][UpdatedAt := Stamp(now)][StartDate := Stamp(start)][EndDate := Stamp(end)];
    assert r.Keys == copied.Keys + {CreatedAt, UpdatedAt, StartDate, EndDate};
    StampsNotFormFields();
    r
  }

  /** None of the ten copied form fields is one of the four date fields. */
  lemma StampsNotFormFields()
    ensures forall i | 0 <= i < |FormFields| :: FormFields[i] !in {CreatedAt, UpdatedAt, StartDate, EndDate}
  {
    forall i | 0 <= i < |FormFields|
      ensures FormFields[i] !in {CreatedAt, UpdatedAt, StartDate, EndDate}
    {
      assert FormFields[i][0] in "cuprin";
    }
  }

  /**
   * The document `createReservationAction` stores: both dates are required
   * (an absent or empty value is rejected before anything else), they must
   * parse, `createdAt` and `updatedAt` are the same clock reading `now`, and
   * the ten form fields are copied, `null` when not submitted.  The start
   * date is not required to come before the end date.
   */
  function FormRecord(form: FormData, now: Date, parse: string -> Option<Date>): (r: Result<Document, Failure>)
    ensures r == Failure(MissingDates) <==> !(Truthy(FormValue(form, StartDate)) && Truthy(FormValue(form, EndDate)))
    ensures r.Success? <==>
              && Truthy(FormValue(form, StartDate)) && Truthy(FormValue(form, EndDate))
              && parse(form[StartDate]).Some? && parse(form[EndDate]).Some?
    ensures r.Failure? ==> r.error in {MissingDates, InvalidDate}
    ensures r.Success? ==>
              && r.value.Keys == {CreatedAt, UpdatedAt, StartDate, EndDate} + (set i | 0 <= i < |FormFields| :: FormFields[i])
              && r.value[CreatedAt] == r.value[UpdatedAt] == Stamp(now)
              && r.value[StartDate] == Stamp(parse(form[StartDate]).value)
              && r.value[EndDate] == Stamp(parse(form[EndDate]).value)
              && forall i | 0 <= i < |FormFields| :: r.value[FormFields[i]] == FormValue(form, FormFields[i])
  {
    if !Truthy(FormValue(form, StartDate)) || !Truthy(FormValue(form, EndDate)) then Failure(MissingDates)
    else
      match ParseFormDate(form[StartDate], parse)
      case Failure(err) => Failure(err)
      case Success(start) =>
        match ParseFormDate(form[EndDate], parse)
        case Failure(err) => Failure(err)
        case Success(end) =>
          Success(FormDocument(form, now, start, end))
  }

  /**
   * `createReservationAction(form)`: stores `FormRecord` under a new
   * document id and redirects to the admin page; a rejected form stores
   * nothing.  `now` is the server clock, `parse` the `Date` string parser.
   */
  method CreateReservationAction(store: Collection, form: FormData, now: Date, parse: string -> Option<Date>)
    returns (r: Result<string, Failure>)
    modifies store
    ensures r.Success? <==> FormRecord(form, now, parse).Success?
    ensures r.Failure? ==> r.error == FormRecord(form, now, parse).error && store.docs == old(store.docs)
    ensures r.Success? ==>
              && r.value == AdminPath
              && exists id: DocId :: id !in old(store.docs) && store.docs == old(store.docs)[id := FormRecord(form, now, parse).value]
  {
    match FormRecord(form, now, parse)
    case Failure(err) =>
      r := Failure(err);
    case Success(record) =>
      var id := store.Add(record);
      r := Success(AdminPath);
  }

  /** `Timestamp.fromDate(new Date(value))` for a value of an update patch. */
  function ReviveDate(parse: string -> Option<Date>): Value -> Result<Date, Failure> {
    v => FromNewDate(Some(v), parse)
  }

  /**
   * `updateReservationAction(id, data)`: merges `data`, a fresh `updatedAt`
   * and the converted dates into the document `id`.  Nothing is written when
   * the id is empty, a supplied date does not convert, or there is no such
   * document.
   */
  method UpdateReservationAction(store: Collection, id: string, data: Document, now: Date, parse: string -> Option<Date>)
    returns (r: Result<(), Failure>)
    modifies store
    ensures var payload := UpdatePayload(data, now, ReviveDate(parse));
            && (r.Success? <==> id != "" && payload.Success? && id in old(store.docs))
            && (r.Failure? ==> store.docs == old(store.docs))
            && (r.Success? ==> store.docs == old(store.docs)[id := old(store.docs)[id] + payload.value])
  {
    if id == "" {
      return Failure(InvalidPath);
    }
    match UpdatePayload(data, now, ReviveDate(parse))
    case Failure(err) =>
      r := Failure(err);
    case Success(payload) =>
      r := store.Update(id, payload);
  }

  /** `deleteReservationAction(id)`: removes the document `id`, if any. */
  method DeleteReservationAction(store: Collection, id: string) returns (r: Result<(), Failure>)
    modifies store
    ensures r.Success? <==> id != ""
    ensures r.Failure? ==> r.error == InvalidPath && store.docs == old(store.docs)
    ensures r.Success? ==> store.docs == old(store.docs) - {id}
  {
    if id == "" {
      return Failure(InvalidPath);
    }
    store.Delete(id);
    r := Success(());
  }

  /**
   * `getReservationsAction(options)`: a page of reservations, latest end
   * date first, each record carrying its document id.
   */
  ghost function GetReservationsAction(docs: map<DocId, Document>, opts: ListOptions, now: Date): (r: Result<Page, Failure>)
    ensures !CursorHolds(OptionsQuery(docs, EndDate, opts, now)) ==> r == Failure(MissingCursorField)
    ensures r.Success? ==>
              var recs := r.value.reservations;
              && (r.value.lastDocId.None? <==> recs == [])
              && (r.value.lastDocId.Some? ==>
                    var id := r.value.lastDocId.value;
                    id in docs && recs[|recs| - 1] == map[IdField := Text(id)] + docs[id])
              && (opts.pageSize != Some(0) ==> |recs| <= opts.pageSize.GetOr(DefaultPageSize))
              && (forall i, j | 0 <= i < j < |recs| ::
                    DateOf(recs[i], EndDate).Some? && DateOf(recs[j], EndDate).Some?
                    && DateOf(recs[i], EndDate).value >= DateOf(recs[j], EndDate).value)
              && (forall i | 0 <= i < |recs| && !opts.includeHistory.GetOr(false) ::
                    DateOf(recs[i], EndDate).Some? && DateOf(recs[i], EndDate).value >= now)
  {
    ListingRecords(docs, EndDate, opts, now);
    ListingOrder(docs, EndDate, opts, now);
    ListingLast(docs, EndDate, opts, now);
    Listing(docs, EndDate, opts, now)
  }

  /**
   * `getReservationsInDateRangeAction(start, end)`: each bound is used as is
   * when it is a Date and converted with `new Date(bound)` otherwise; then the
   * reservations that overlap the converted range and are not cancelled, each
   * carrying its document id.  A bound that converts to an Invalid Date makes
   * the query fail.
   */
  ghost function GetReservationsInDateRangeAction(docs: map<DocId, Document>, start: Value, end: Value, parse: string -> Option<Date>)
    : (r: Result<seq<Document>, Failure>)
    ensures FromNewDate(Some(start), parse).Failure? || FromNewDate(Some(end), parse).Failure? ==> r == Failure(InvalidDate)
    ensures r.Success? ==>
              && FromNewDate(Some(start), parse).Success? && FromNewDate(Some(end), parse).Success?
              && var from, to := FromNewDate(Some(start), parse).value, FromNewDate(Some(end), parse).value;
                 && (forall i | 0 <= i < |r.value| ::
                       && Overlaps(r.value[i], from, to) && !IsCancelled(r.value[i])
                       && exists id | id in docs :: r.value[i] == map[IdField := Text(id)] + docs[id])
                 && (forall id | id in docs && Overlaps(docs[id], from, to) && !IsCancelled(docs[id]) ::
                       map[IdField := Text(id)] + docs[id] in r.value)
  {
    match FromNewDate(Some(start), parse)
    case Failure(err) => Failure(err)
    case Success(from) =>
      match FromNewDate(Some(end), parse)
      case Failure(err) => Failure(err)
      case Success(to) =>
        RangeListingRecords(docs, from, to);
        RangeListingComplete(docs, from, to);
        RangeListing(docs, from, to)
  }
}
