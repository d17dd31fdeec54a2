/**
 * The `reservations` collection: documents keyed by their document id.
 * `add` stores a document under a new store-chosen id, `doc(id).update`
 * merges fields into an existing document, `doc(id).delete` removes it
 * (a missing document is not an error) and `doc(id).get` reads a snapshot.
 */
module Store {
  import opened Wrappers
  import opened Documents
  import opened Names

  /** The snapshot `doc(id).get()` returns when the document exists. */
  function Snapshot(docs: map<DocId, Document>, id: string): (r: Option<Entry>)
    ensures r.Some? <==> id in docs
    ensures r.Some? ==> r.value.id == id && r.value.doc == docs[id]
  {
    if id in docs then Some(Entry(id, docs[id])) else None
  }

  /** The stored document `d` holds `value` in `field`. */
  predicate Holds(docs: map<DocId, Document>, d: DocId, field: string, value: Value) {
    d in docs && field in docs[d] && docs[d][field] == value
  }

  /** The length of the longest name in `names`. */
  ghost function Longest(names: set<string>): (n: nat)
    ensures forall s | s in names :: |s| <= n
    decreases |names|
  {
    if names == {} then 0
    else
      var s :| s in names;
      var rest := Longest(names - {s});
      if |s| > rest then |s| else rest
  }

  /** However many documents are stored, some non-empty id is still unused. */
  lemma {:induction false} UnusedIdExists(docs: map<DocId, Document>)
    ensures exists id: DocId :: id !in docs
  {
    var n := Longest(docs.Keys);
    var id: string := seq(n + 1, _ => 'x');
    assert id !in docs.Keys;
  }

  class Collection {
    var docs: map<DocId, Document>

    constructor ()
      ensures docs == map[]
    {
      docs := map[];
    }

    /** `add(data)`: stores `data` under an id no stored document has. */
    method Add(data: Document) returns (id: DocId)
      modifies this
      ensures id !in old(docs)
      ensures docs == old(docs)[id := data]
    {
      UnusedIdExists(docs);
      id :| id !in docs;
      docs := docs[id := data];
    }

    /** `doc(id).update(fields)`: merges `fields` into the stored document,
        or fails with NOT_FOUND (and writes nothing) when there is none. */
    method Update(id: DocId, fields: Document) returns (r: Result<(), Failure>)
      modifies this
      ensures r.Success? <==> id in old(docs)
      ensures r.Failure? ==> r.error == NotFound && docs == old(docs)
      ensures r.Success? ==> docs == old(docs)[id := old(docs)[id] + fields]
    {
      if id in docs {
        docs := docs[id := docs[id] + fields];
        r := Success(());
      } else {
        r := Failure(NotFound);
      }
    }

    /**
     * `getDocs(query(where(field, "==", value)))` and its first document: a
     * query without `orderBy` lists documents by name, so the first is the
     * least name among those holding `value`.
     */
    method FirstWhere(field: string, value: Value) returns (r: Option<DocId>)
      ensures r.Some? <==> exists d: DocId :: Holds(docs, d, field, value)
      ensures r.Some? ==> Holds(docs, r.value, field, value)
      ensures r.Some? ==> forall d: DocId | Holds(docs, d, field, value) && d != r.value :: IdBefore(r.value, d)
    {
      var rest := docs.Keys;
      r := None;
      while rest != {}
        invariant rest <= docs.Keys
        invariant r.Some? ==> r.value !in rest && Holds(docs, r.value, field, value)
        invariant forall d: DocId | Holds(docs, d, field, value) && d !in rest ::
                    r.Some? && (d == r.value || IdBefore(r.value, d))
        decreases |rest|
      {
        var d :| d in rest;
        if Holds(docs, d, field, value) {
          if r.None? {
            r := Some(d);
          } else if IdBefore(d, r.value) {
            forall x: DocId | Holds(docs, x, field, value) && x !in rest && x != r.value
              ensures IdBefore(d, x)
            {
              IdBeforeTransitive(d, r.value, x);
            }
            r := Some(d);
          } else {
            IdBeforeTotal(d, r.value);
          }
        }
        rest := rest - {d};
      }
    }

    /** `doc(id).delete()`: removes the document if there is one. */
    method Delete(id: DocId)
      modifies this
      ensures docs == old(docs) - {id}
    {
      docs := docs - {id};
    }
  }
}
