/**
 * `POST /api/admin/reservations` (app/api/admin/reservations/route.ts): the
 * admin form's JSON body becomes a confirmed reservation of origin "admin"
 * stored with the server-side repository; the reply is the new document id,
 * or a 500 error whatever went wrong.
 */
module AdminRoute {
  import opened Wrappers
  import opened Documents
  import opened Store
  import AdminRepository

  const AdminOrigin := "admin"
  const Confirmed := "confirmed"
  const ServerError := "Error interno del servidor"

  /** `NextResponse.json(body, {status})`. */
  datatype Response = Response(status: nat, body: Document)

  /** The 500 reply every failure turns into. */
  function ErrorReply(): (r: Response)
    ensures r.status == 500 && r.body == map["error" := Text(ServerError)]
  {
    Response(500, map["error" := Text(ServerError)])
  }

  /** A decoded JSON object: JSON has no `Date` values, dates arrive as strings. */
  predicate IsJson(data: Document) {
    forall k | k in data :: !data[k].Stamp?
  }

  /** `{...data, origin: "admin", status: "confirmed"}`: the two fields are forced, the rest kept. */
  function Payload(data: Document): (r: Document)
    ensures r.Keys == data.Keys + {Origin, Status}
    ensures r[Origin] == Text(AdminOrigin) && r[Status] == Text(Confirmed)
    ensures forall k | k in data && k !in {Origin, Status} :: r[k] == data[k]
  {
    data[Origin := Text(AdminOrigin)][Status := Text(Confirmed)]
  }

  /**
   * `POST(request)` as written: `body` is the decoded request body, `None`
   * when `request.json()` rejects it.  The availability check is the
   * constant `true`, so the payload goes straight to `createReservation`.
   */
  method Post(store: Collection, body: Option<Document>, now: Date) returns (resp: Response)
    modifies store
    ensures body.None? ==> resp == ErrorReply() && store.docs == old(store.docs)
    ensures body.Some? && AdminRepository.NewRecord(Payload(body.value), now).Failure? ==>
              resp == ErrorReply() && store.docs == old(store.docs)
    ensures body.Some? && AdminRepository.NewRecord(Payload(body.value), now).Success? ==>
              exists id: DocId ::
                && id !in old(store.docs)
                && store.docs == old(store.docs)[id := AdminRepository.NewRecord(Payload(body.value), now).value]
                && resp == Response(200, map["id" := Text(id)])
  {
    if body.None? {
      return ErrorReply();
    }
    var created := AdminRepository.CreateReservation(store, Payload(body.value), now);
    match created
    case Failure(_) =>
      resp := ErrorReply();
    case Success(id) =>
      resp := Response(200, map["id" := Text(id)]);
  }

  /**
   * No JSON body is ever stored: its dates are strings, which
   * `Timestamp.fromDate` rejects, so `Post` always answers 500.
   */
  lemma JsonBodyRejected(data: Document, now: Date)
    requires IsJson(data)
    ensures AdminRepository.NewRecord(Payload(data), now).Failure?
  {
    assert StartDate !in {Origin, Status};
  }

  /**
   * The payload with its dates revived by `new Date(...)` before they reach
   * `createReservation`; a date that does not parse is an Invalid Date, which
   * `Timestamp.fromDate` rejects.
   */
  function RevivedPayload(data: Document, parse: string -> Option<Date>): (r: Result<Document, Failure>)
    ensures r.Success? <==>
              FromNewDate(Field(data, StartDate), parse).Success? && FromNewDate(Field(data, EndDate), parse).Success?
    ensures r.Success? ==>
              && r.value.Keys == data.Keys + {Origin, Status, StartDate, EndDate}
              && r.value[StartDate] == Stamp(FromNewDate(Field(data, StartDate), parse).value)
              && r.value[EndDate] == Stamp(FromNewDate(Field(data, EndDate), parse).value)
              && r.value[Origin] == Text(AdminOrigin) && r.value[Status] == Text(Confirmed)
              && forall k | k in data && k !in {Origin, Status, StartDate, EndDate} :: r.value[k] == data[k]
  {
    match FromNewDate(Field(data, StartDate), parse)
    case Failure(err) => Failure(err)
    case Success(start) =>
      match FromNewDate(Field(data, EndDate), parse)
      case Failure(err) => Failure(err)
      case Success(end) => Success(Payload(data)[StartDate := Stamp(start)][EndDate := Stamp(end)])
  }

  /** `POST(request)` with the dates revived before the reservation is created. */
  method PostRevived(store: Collection, body: Option<Document>, now: Date, parse: string -> Option<Date>)
    returns (resp: Response)
    modifies store
    ensures body.None? || RevivedPayload(body.value, parse).Failure? ==>
              resp == ErrorReply() && store.docs == old(store.docs)
    ensures body.Some? && RevivedPayload(body.value, parse).Success? ==>
              exists id: DocId ::
                && id !in old(store.docs)
                && store.docs == old(store.docs)[id := AdminRepository.NewRecord(RevivedPayload(body.value, parse).value, now).value]
                && resp == Response(200, map["id" := Text(id)])
  {
    if body.None? {
      return ErrorReply();
    }
    match RevivedPayload(body.value, parse)
    case Failure(_) =>
      resp := ErrorReply();
    case Success(payload) =>
      var created := AdminRepository.CreateReservation(store, payload, now);
      match created
      case Failure(_) =>
        resp := ErrorReply();
      case Success(id) =>
        resp := Response(200, map["id" := Text(id)]);
  }

  /**
   * With revived dates, a JSON body whose two dates parse is stored as a
   * confirmed admin reservation with those dates, creation and update time
   * `now`, and every other field as sent.
   */
  lemma RevivedJsonBodyStored(data: Document, now: Date, parse: string -> Option<Date>)
    requires IsJson(data)
    requires StartDate in data && data[StartDate].Text? && parse(data[StartDate].s).Some?
    requires EndDate in data && data[EndDate].Text? && parse(data[EndDate].s).Some?
    ensures RevivedPayload(data, parse).Success?
    ensures var rec := AdminRepository.NewRecord(RevivedPayload(data, parse).value, now);
            && rec.Success?
            && rec.value[Origin] == Text(AdminOrigin) && rec.value[Status] == Text(Confirmed)
            && rec.value[StartDate] == Stamp(parse(data[StartDate].s).value)
            && rec.value[EndDate] == Stamp(parse(data[EndDate].s).value)
            && rec.value[CreatedAt] == rec.value[UpdatedAt] == Stamp(now)
            && forall k | k in data && k !in {Origin, Status, StartDate, EndDate, CreatedAt, UpdatedAt} ::
                 rec.value[k] == data[k]
  {
    var p := RevivedPayload(data, parse).value;
    assert DateOf(p, StartDate).Some? && DateOf(p, EndDate).Some?;
  }
}
