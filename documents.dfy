/**
 * Firestore documents as the repository code sees them: schemaless records
 * whose fields hold JavaScript values.  Object spread (`{...a, k: v}`) is a
 * map update, so the spreads of the source are modelled with `+` and `[:=]`.
 */
module Documents {
  import opened Wrappers

  /** A point in time in milliseconds since the epoch.  `Timestamp.fromDate`
      and `toDate()` are the identity on this type. */
  type Date = int

  /** Store-assigned document identifiers are non-empty strings. */
  type DocId = s: string | |s| > 0 witness "0"

  /** The JavaScript values a reservation field can hold.  `Stamp` is a `Date`
      object (in the store: a `Timestamp`); JSON and form data never produce one. */
  datatype Value =
    | Null
    | Bool(b: bool)
    | Number(n: int)
    | Text(s: string)
    | Stamp(t: Date)

  type Document = map<string, Value>

  /** A stored document together with its document id (a query snapshot). */
  datatype Entry = Entry(id: DocId, doc: Document)

  /** The exceptions the repository code can raise. */
  datatype Failure =
    | MissingDates    // "Start date and end date are required."
    | InvalidDate     // Timestamp.fromDate on an Invalid Date
    | NotADate        // Timestamp.fromDate on a value that is not a Date (TypeError)
    | NotFound        // update of a document that does not exist
    | InvalidPath     // doc("") : a document reference needs a non-empty id
    | MalformedBody   // request.json() rejected the request body
    | MissingCursorField // startAfter(snapshot) on a snapshot missing an ordered field

  // Field names of a reservation document.
  const StartDate := "startDate"
  const EndDate := "endDate"
  const CreatedAt := "createdAt"
  const UpdatedAt := "updatedAt"
  const Status := "status"
  const Origin := "origin"
  const IdField := "id"

  /** JavaScript truthiness of a value (`if (x)`). */
  predicate Truthy(v: Value) {
    match v
    case Null => false
    case Bool(b) => b
    case Number(n) => n != 0
    case Text(s) => s != ""
    case Stamp(_) => true
  }

  /** The timestamp held in field `f`, if `f` holds one. */
  function DateOf(doc: Document, f: string): (r: Option<Date>)
    ensures r.Some? <==> f in doc && doc[f].Stamp?
    ensures r.Some? ==> doc[f] == Stamp(r.value)
  {
    if f in doc && doc[f].Stamp? then Some(doc[f].t) else None
  }

  /** `Timestamp.fromDate(v)`: only a Date object converts; anything else
      (a string, a number, a missing field) makes `v.getTime()` throw. */
  function FromDate(v: Option<Value>): (r: Result<Date, Failure>)
    ensures r.Success? <==> v.Some? && v.value.Stamp?
    ensures r.Success? ==> v.value == Stamp(r.value)
    ensures r.Failure? ==> r.error == NotADate
  {
    if v.Some? && v.value.Stamp? then Success(v.value.t) else Failure(NotADate)
  }

  /** `Timestamp.fromDate(new Date(v))`: the `Date` constructor accepts a Date,
      a number of milliseconds, `null` (the epoch), a boolean (0 or 1 ms) or a
      string, which `parse` reads (`None` for an unparsable string, an Invalid
      Date that `fromDate` rejects).  `new Date(undefined)` is an Invalid Date. */
  function FromNewDate(v: Option<Value>, parse: string -> Option<Date>): (r: Result<Date, Failure>)
    ensures v.Some? && v.value.Stamp? ==> r == Success(v.value.t)
    ensures v.Some? && v.value.Text? ==>
              r == if parse(v.value.s).Some? then Success(parse(v.value.s).value) else Failure(InvalidDate)
    ensures v.Some? && v.value.Number? ==> r == Success(v.value.n)
    ensures v == Some(Null) ==> r == Success(0)
    ensures v.Some? && v.value.Bool? ==> r == Success(if v.value.b then 1 else 0)
    ensures v.None? ==> r == Failure(InvalidDate)
    ensures r.Failure? <==> v.None? || (v.value.Text? && parse(v.value.s).None?)
    ensures r.Failure? ==> r.error == InvalidDate
  {
    match v
    case None => Failure(InvalidDate)
    case Some(Stamp(t)) => Success(t)
    case Some(Number(n)) => Success(n)
    case Some(Null) => Success(0)
    case Some(Bool(b)) => Success(if b then 1 else 0)
    case Some(Text(s)) =>
      match parse(s)
      case Some(t) => Success(t)
      case None => Failure(InvalidDate)
  }

  /** The value of field `f`, as JavaScript property access would give it. */
  function Field(doc: Document, f: string): Option<Value> {
    if f in doc then Some(doc[f]) else None
  }
}
