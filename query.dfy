/**
 * The query semantics the repositories rely on: equality and range filters,
 * a descending order on one or more fields (the `orderBy` field, then the
 * fields Firestore adds for inequality filters, ties broken by document name
 * in the same direction), `startAfter(snapshot)` and `limit(n)`.  A query
 * without `orderBy` lists its documents by name.
 */
module Query {
  import opened Wrappers
  import opened Documents
  import opened Names

  datatype Filter =
    | AtLeast(field: string, bound: Date)    // where(field, ">=", bound)
    | AtMost(field: string, bound: Date)     // where(field, "<=", bound)
    | Equals(field: string, value: Value)    // where(field, "==", value)
    | NotEquals(field: string, value: Value) // where(field, "!=", value)

  /** `Descending(keys)` orders on `keys[0]`, then `keys[1]`, ..., all descending. */
  datatype Order = ByName | Descending(keys: seq<string>)

  datatype Query = Query(filters: seq<Filter>, order: Order, cursor: Option<Entry>, limit: Option<nat>)

  /** Range filters match only timestamps; `==` needs the field to exist, and `!=` needs it to hold a value other than null. */
  predicate Satisfies(doc: Document, f: Filter) {
    match f
    case AtLeast(k, t) => DateOf(doc, k).Some? && DateOf(doc, k).value >= t
    case AtMost(k, t) => DateOf(doc, k).Some? && DateOf(doc, k).value <= t
    case Equals(k, v) => k in doc && doc[k] == v
    case NotEquals(k, v) => k in doc && doc[k] != Null && doc[k] != v
  }

  /** An ordered query leaves out the documents that miss an ordered field, whatever the type of the values they hold. */
  predicate Indexed(ord: Order, doc: Document) {
    match ord
    case ByName => true
    case Descending(ks) => forall i | 0 <= i < |ks| :: ks[i] in doc
  }

  predicate Matches(q: Query, doc: Document) {
    Indexed(q.order, doc) && forall i | 0 <= i < |q.filters| :: Satisfies(doc, q.filters[i])
  }

  /** Firestore orders values of different types as null, booleans, numbers, timestamps, strings. */
  function TypeRank(v: Value): nat {
    match v
    case Null => 0
    case Bool(_) => 1
    case Number(_) => 2
    case Stamp(_) => 3
    case Text(_) => 4
  }

  /** `a` sorts strictly below `b`; strings compare code point by code point, as their UTF-8 bytes do. */
  predicate ValueBelow(a: Value, b: Value) {
    if TypeRank(a) != TypeRank(b) then TypeRank(a) < TypeRank(b)
    else
      match (a, b)
      case (Bool(x), Bool(y)) => !x && y
      case (Number(x), Number(y)) => x < y
      case (Stamp(x), Stamp(y)) => x < y
      case (Text(x), Text(y)) => IdBefore(x, y)
      case _ => false
  }

  /** The value `orderBy(k)` sorts a document on. */
  function SortValue(k: string, doc: Document): Value {
    if k in doc then doc[k] else Null
  }

  /** The values an ordered query sorts a document on, key by key. */
  function SortValues(ks: seq<string>, doc: Document): (r: seq<Value>)
    ensures |r| == |ks|
    ensures forall i | 0 <= i < |ks| :: r[i] == SortValue(ks[i], doc)
  {
    if ks == [] then [] else [SortValue(ks[0], doc)] + SortValues(ks[1..], doc)
  }

  /** Lexicographic order on value tuples: the first differing value decides. */
  predicate ValuesBelow(xs: seq<Value>, ys: seq<Value>) {
    |xs| > 0 && |ys| > 0 && (ValueBelow(xs[0], ys[0]) || (xs[0] == ys[0] && ValuesBelow(xs[1..], ys[1..])))
  }

  /** `a` is listed strictly before `b`. */
  predicate Precedes(ord: Order, a: Entry, b: Entry) {
    match ord
    case ByName => IdBefore(a.id, b.id)
    case Descending(ks) =>
      ValuesBelow(SortValues(ks, b.doc), SortValues(ks, a.doc))
      || (SortValues(ks, a.doc) == SortValues(ks, b.doc) && IdBefore(b.id, a.id))
  }

  lemma ValueBelowIrreflexive(a: Value)
    ensures !ValueBelow(a, a)
  {
    if a.Text? {
      IdBeforeIrreflexive(a.s);
    }
  }

  lemma ValueBelowTransitive(a: Value, b: Value, c: Value)
    requires ValueBelow(a, b) && ValueBelow(b, c)
    ensures ValueBelow(a, c)
  {
    if a.Text? && b.Text? && c.Text? {
      IdBeforeTransitive(a.s, b.s, c.s);
    }
  }

  lemma ValueBelowAsymmetric(a: Value, b: Value)
    ensures !(ValueBelow(a, b) && ValueBelow(b, a))
  {
    if ValueBelow(a, b) && ValueBelow(b, a) {
      ValueBelowTransitive(a, b, a);
      ValueBelowIrreflexive(a);
    }
  }

  /** Any two different values are ordered one way or the other. */
  lemma ValueBelowTotal(a: Value, b: Value)
    requires a != b
    ensures ValueBelow(a, b) || ValueBelow(b, a)
  {
    if a.Text? && b.Text? {
      IdBeforeTotal(a.s, b.s);
    }
  }

  lemma {:induction false} ValuesBelowIrreflexive(xs: seq<Value>)
    ensures !ValuesBelow(xs, xs)
  {
    if |xs| > 0 {
      ValueBelowIrreflexive(xs[0]);
      ValuesBelowIrreflexive(xs[1..]);
    }
  }

  lemma {:induction false} ValuesBelowTransitive(xs: seq<Value>, ys: seq<Value>, zs: seq<Value>)
    requires ValuesBelow(xs, ys) && ValuesBelow(ys, zs)
    ensures ValuesBelow(xs, zs)
  {
    ValueBelowIrreflexive(xs[0]);
    if xs[0] == ys[0] == zs[0] {
      ValuesBelowTransitive(xs[1..], ys[1..], zs[1..]);
    } else if xs[0] != ys[0] && ys[0] != zs[0] {
      ValueBelowTransitive(xs[0], ys[0], zs[0]);
    }
  }

  /** Two different tuples of the same length are ordered one way or the other. */
  lemma {:induction false} ValuesBelowTotal(xs: seq<Value>, ys: seq<Value>)
    requires |xs| == |ys| && xs != ys
    ensures ValuesBelow(xs, ys) || ValuesBelow(ys, xs)
  {
    if xs[0] != ys[0] {
      ValueBelowTotal(xs[0], ys[0]);
    } else {
      assert xs == [xs[0]] + xs[1..] && ys == [ys[0]] + ys[1..];
      ValuesBelowTotal(xs[1..], ys[1..]);
    }
  }

  /**
   * In a descending order, an entry listed before another does not have a
   * lower first key, nor, when the first keys are equal, a lower second key.
   */
  lemma LeadingKeys(ks: seq<string>, a: Entry, b: Entry)
    requires |ks| > 0 && Precedes(Descending(ks), a, b)
    ensures !ValueBelow(SortValue(ks[0], a.doc), SortValue(ks[0], b.doc))
    ensures |ks| > 1 && SortValue(ks[0], a.doc) == SortValue(ks[0], b.doc) ==>
              !ValueBelow(SortValue(ks[1], a.doc), SortValue(ks[1], b.doc))
  {
    var xs, ys := SortValues(ks, b.doc), SortValues(ks, a.doc);
    ValueBelowAsymmetric(xs[0], ys[0]);
    ValueBelowIrreflexive(xs[0]);
    if |ks| > 1 && xs[0] == ys[0] {
      assert xs[1..][0] == xs[1] && ys[1..][0] == ys[1];
      if ValuesBelow(xs, ys) {
        assert ValuesBelow(xs[1..], ys[1..]);
      }
      ValueBelowAsymmetric(xs[1], ys[1]);
      ValueBelowIrreflexive(xs[1]);
    }
  }

  /** `startAfter(cursor)`: the entry comes strictly after the cursor snapshot. */
  predicate Resumes(q: Query, e: Entry) {
    q.cursor.None? || Precedes(q.order, q.cursor.value, e)
  }

  /**
   * `startAfter(snapshot)` reads the cursor's values from the snapshot, one
   * per ordered field, and throws when the snapshot misses one.
   */
  predicate CursorHolds(q: Query) {
    q.cursor.None? || Indexed(q.order, q.cursor.value.doc)
  }

  ghost predicate Sorted(ord: Order, s: seq<Entry>) {
    forall i, j | 0 <= i < j < |s| :: Precedes(ord, s[i], s[j])
  }

  ghost predicate UniqueIds(s: set<Entry>) {
    forall a, b | a in s && b in s && a.id == b.id :: a == b
  }

  ghost predicate IsFirst(ord: Order, e: Entry, s: set<Entry>) {
    forall x | x in s && x != e :: Precedes(ord, e, x)
  }

  lemma PrecedesIrreflexive(ord: Order, a: Entry)
    ensures !Precedes(ord, a, a)
  {
    IdBeforeIrreflexive(a.id);
    if ord.Descending? {
      ValuesBelowIrreflexive(SortValues(ord.keys, a.doc));
    }
  }

  lemma PrecedesTransitive(ord: Order, a: Entry, b: Entry, c: Entry)
    requires Precedes(ord, a, b) && Precedes(ord, b, c)
    ensures Precedes(ord, a, c)
  {
    match ord
    case ByName =>
      IdBeforeTransitive(a.id, b.id, c.id);
    case Descending(ks) =>
      var va, vb, vc := SortValues(ks, a.doc), SortValues(ks, b.doc), SortValues(ks, c.doc);
      if va == vb == vc {
        ValuesBelowIrreflexive(va);
        IdBeforeTransitive(c.id, b.id, a.id);
      } else if va != vb && vb != vc {
        ValuesBelowTransitive(vc, vb, va);
      }
  }

  lemma PrecedesTotal(ord: Order, a: Entry, b: Entry)
    requires a.id != b.id
    ensures Precedes(ord, a, b) || Precedes(ord, b, a)
  {
    IdBeforeTotal(a.id, b.id);
    if ord.Descending? && SortValues(ord.keys, a.doc) != SortValues(ord.keys, b.doc) {
      ValuesBelowTotal(SortValues(ord.keys, a.doc), SortValues(ord.keys, b.doc));
    }
  }

  lemma PrecedesAsymmetric(ord: Order, a: Entry, b: Entry)
    requires Precedes(ord, a, b)
    ensures !Precedes(ord, b, a)
  {
    if Precedes(ord, b, a) {
      PrecedesTransitive(ord, a, b, a);
      PrecedesIrreflexive(ord, a);
    }
  }

  lemma SubsetSize<T>(a: set<T>, b: set<T>)
    requires a <= b
    ensures |a| <= |b|
    ensures a < b ==> |a| < |b|
  {
    if a != {} {
      var x :| x in a;
      SubsetSize(a - {x}, b - {x});
    } else if b != {} {
      var y :| y in b;
    }
  }

  /** A non-empty set of entries with distinct ids has a first entry. */
  lemma {:induction false} FirstExists(ord: Order, s: set<Entry>)
    requires s != {} && UniqueIds(s)
    ensures exists e :: e in s && IsFirst(ord, e, s)
    decreases |s|
  {
    var x :| x in s;
    if s == {x} {
      assert IsFirst(ord, x, s);
    } else {
      var rest := s - {x};
      assert |rest| < |s|;
      FirstExists(ord, rest);
      var e :| e in rest && IsFirst(ord, e, rest);
      if Precedes(ord, x, e) {
        forall y | y in s && y != x
          ensures Precedes(ord, x, y)
        {
          if y != e {
            PrecedesTransitive(ord, x, e, y);
          }
        }
        assert IsFirst(ord, x, s);
      } else {
        PrecedesTotal(ord, x, e);
        assert IsFirst(ord, e, s);
      }
    }
  }

  /** The entries of `s` in query order: the first one, then the rest. */
  ghost function Arrange(ord: Order, s: set<Entry>): (r: seq<Entry>)
    requires UniqueIds(s)
    ensures Sorted(ord, r)
    ensures forall e :: e in r <==> e in s
    ensures |r| == |s|
    decreases |s|
  {
    if s == {} then []
    else
      FirstExists(ord, s);
      var e :| e in s && IsFirst(ord, e, s);
      var rest := Arrange(ord, s - {e});
      SortedCons(ord, e, rest);
      [e] + rest
  }

  lemma SortedCons(ord: Order, e: Entry, rest: seq<Entry>)
    requires Sorted(ord, rest)
    requires forall x | x in rest :: Precedes(ord, e, x)
    ensures Sorted(ord, [e] + rest)
  {
    var r := [e] + rest;
    forall i, j | 0 <= i < j < |r|
      ensures Precedes(ord, r[i], r[j])
    {
      assert r[j] == rest[j - 1];
      if i > 0 {
        assert r[i] == rest[i - 1];
      }
    }
  }

  /** Two sorted sequences with the same entries are the same sequence. */
  lemma {:induction false} SortedUnique(ord: Order, r1: seq<Entry>, r2: seq<Entry>)
    requires Sorted(ord, r1) && Sorted(ord, r2)
    requires forall e :: e in r1 <==> e in r2
    ensures r1 == r2
    decreases |r1|
  {
    if r1 != [] {
      assert r1[0] in r2;
    }
    if r2 != [] {
      assert r2[0] in r1;
    }
    if r1 != [] && r2 != [] {
      if r1[0] != r2[0] {
        assert r2[0] in r1 && r1[0] in r2;
        var i :| 0 <= i < |r1| && r1[i] == r2[0];
        var j :| 0 <= j < |r2| && r2[j] == r1[0];
        assert Precedes(ord, r1[0], r2[0]);
        assert Precedes(ord, r2[0], r1[0]);
        PrecedesAsymmetric(ord, r1[0], r2[0]);
      }
      forall e
        ensures e in r1[1..] <==> e in r2[1..]
      {
        TailMember(ord, r1, r2, e);
        TailMember(ord, r2, r1, e);
      }
      SortedUnique(ord, r1[1..], r2[1..]);
      assert r1 == [r1[0]] + r1[1..] && r2 == [r2[0]] + r2[1..];
    }
  }

  lemma TailMember(ord: Order, r1: seq<Entry>, r2: seq<Entry>, e: Entry)
    requires Sorted(ord, r1) && Sorted(ord, r2)
    requires forall x :: x in r1 <==> x in r2
    requires r1 != [] && r2 != [] && r1[0] == r2[0]
    ensures e in r1[1..] ==> e in r2[1..]
  {
    if e in r1[1..] {
      var i :| 1 <= i < |r1| && r1[i] == e;
      assert Precedes(ord, r1[0], e);
      PrecedesIrreflexive(ord, r1[0]);
      assert e in r2;
      var m :| 0 <= m < |r2| && r2[m] == e;
      assert m != 0;
      assert r2[1..][m - 1] == e;
    }
  }

  /** The stored document `e` passes the query's filters and cursor. */
  ghost predicate Selected(docs: map<DocId, Document>, q: Query, e: Entry) {
    e.id in docs && docs[e.id] == e.doc && Matches(q, e.doc) && Resumes(q, e)
  }

  /** The stored documents the query selects, before ordering and limit. */
  ghost function Candidates(docs: map<DocId, Document>, q: Query): (s: set<Entry>)
    ensures UniqueIds(s)
    ensures forall e :: e in s <==> Selected(docs, q, e)
  {
    set id | id in docs && Matches(q, docs[id]) && Resumes(q, Entry(id, docs[id])) :: Entry(id, docs[id])
  }

  function Take(s: seq<Entry>, limit: Option<nat>): seq<Entry> {
    match limit
    case None => s
    case Some(n) => if |s| <= n then s else s[..n]
  }

  /** The result of `query.get()`: the selected documents in query order, cut at the limit. */
  ghost function Run(docs: map<DocId, Document>, q: Query): seq<Entry> {
    Take(Arrange(q.order, Candidates(docs, q)), q.limit)
  }

  /**
   * What `query.get()` promises: selected documents only, in query order, at
   * most `limit` of them, and no selected document is skipped: one that is
   * missing comes after the whole page, and the page is then full.
   */
  lemma RunListsPage(docs: map<DocId, Document>, q: Query)
    ensures var r := Run(docs, q);
            && Sorted(q.order, r)
            && (forall e | e in r :: Selected(docs, q, e))
            && (q.limit.Some? ==> |r| <= q.limit.value)
            && (forall e | Selected(docs, q, e) && e !in r ::
                  q.limit.Some? && |r| == q.limit.value
                  && forall i | 0 <= i < |r| :: Precedes(q.order, r[i], e))
  {
    var all := Arrange(q.order, Candidates(docs, q));
    var r := Run(docs, q);
    SortedPrefix(q.order, all, |r|);
    assert r == all[..|r|];
    forall e | Selected(docs, q, e) && e !in r
      ensures q.limit.Some? && |r| == q.limit.value
      ensures forall i | 0 <= i < |r| :: Precedes(q.order, r[i], e)
    {
      assert e in all;
      var j :| 0 <= j < |all| && all[j] == e;
      assert j >= |r|;
    }
  }

  lemma SortedPrefix(ord: Order, s: seq<Entry>, k: nat)
    requires Sorted(ord, s) && k <= |s|
    ensures Sorted(ord, s[..k])
  {
  }

  /** The entries of `s` that come strictly after `c`. */
  ghost function Following(ord: Order, c: Entry, s: set<Entry>): (r: set<Entry>)
    ensures r <= s
    ensures UniqueIds(s) ==> UniqueIds(r)
  {
    set e | e in s && Precedes(ord, c, e)
  }

  /** Ordering what follows the `k`-th entry gives the tail after index `k`. */
  lemma ArrangeFollowing(ord: Order, s: set<Entry>, k: nat)
    requires UniqueIds(s) && k < |Arrange(ord, s)|
    ensures Arrange(ord, Following(ord, Arrange(ord, s)[k], s)) == Arrange(ord, s)[k + 1..]
  {
    var full := Arrange(ord, s);
    var next := Arrange(ord, Following(ord, full[k], s));
    forall e
      ensures e in next <==> e in full[k + 1..]
    {
      FollowingIsTail(ord, full, k, e);
    }
    SortedTail(ord, full, k + 1);
    SortedUnique(ord, next, full[k + 1..]);
  }

  lemma SortedTail(ord: Order, s: seq<Entry>, k: nat)
    requires Sorted(ord, s) && k <= |s|
    ensures Sorted(ord, s[k..])
  {
    forall i, j | 0 <= i < j < |s[k..]|
      ensures Precedes(ord, s[k..][i], s[k..][j])
    {
      assert s[k..][i] == s[k + i] && s[k..][j] == s[k + j];
    }
  }

  /** In a sorted sequence, what comes after the `k`-th entry is its tail. */
  lemma FollowingIsTail(ord: Order, full: seq<Entry>, k: nat, e: Entry)
    requires Sorted(ord, full) && k < |full|
    ensures (e in full && Precedes(ord, full[k], e)) <==> e in full[k + 1..]
  {
    if e in full && Precedes(ord, full[k], e) {
      var j :| 0 <= j < |full| && full[j] == e;
      if j < k {
        PrecedesAsymmetric(ord, full[j], full[k]);
      } else if j == k {
        PrecedesIrreflexive(ord, e);
      }
      assert full[k + 1..][j - k - 1] == e;
    }
    if e in full[k + 1..] {
      var j :| k + 1 <= j < |full| && full[j] == e;
      assert Precedes(ord, full[k], full[j]);
    }
  }

  /** The limit plays no part in which documents are selected. */
  lemma CandidatesIgnoreLimit(docs: map<DocId, Document>, q: Query, limit: Option<nat>)
    ensures Candidates(docs, q.(limit := limit)) == Candidates(docs, q)
  {
  }

  /** Moving the cursor forward to a selected entry selects what follows it. */
  lemma CandidatesFollowing(docs: map<DocId, Document>, q: Query, c: Entry)
    requires Selected(docs, q, c)
    ensures Candidates(docs, q.(cursor := Some(c))) == Following(q.order, c, Candidates(docs, q))
  {
    forall e | Selected(docs, q.(cursor := Some(c)), e)
      ensures Selected(docs, q, e)
    {
      if q.cursor.Some? {
        PrecedesTransitive(q.order, q.cursor.value, c, e);
      }
    }
  }

  /** In an unlimited listing, resuming after the `k`-th entry gives the tail after it. */
  lemma ResumeAt(docs: map<DocId, Document>, q: Query, k: nat)
    requires q.limit.None? && k < |Run(docs, q)|
    ensures Run(docs, q.(cursor := Some(Run(docs, q)[k]))) == Run(docs, q)[k + 1..]
  {
    var s := Candidates(docs, q);
    var full := Arrange(q.order, s);
    var c := full[k];
    assert c in s;
    CandidatesFollowing(docs, q, c);
    ArrangeFollowing(q.order, s, k);
  }

  /** The limit only cuts the unlimited listing. */
  lemma RunTakes(docs: map<DocId, Document>, q: Query)
    ensures Run(docs, q) == Take(Run(docs, q.(limit := None)), q.limit)
  {
    CandidatesIgnoreLimit(docs, q, None);
  }

  lemma TakePrefix(s: seq<Entry>, limit: Option<nat>)
    ensures var t := Take(s, limit);
            |t| <= |s| && t == s[..|t|]
            && ((limit.None? || |t| < limit.value) ==> t == s)
  {
  }

  /** A page is the head of the unlimited listing from the same cursor; a short page is all of it. */
  lemma PagePrefix(docs: map<DocId, Document>, q: Query)
    ensures var page := Run(docs, q);
            var full := Run(docs, q.(limit := None));
            |page| <= |full| && page == full[..|page|]
            && ((q.limit.None? || |page| < q.limit.value) ==> page == full)
  {
    RunTakes(docs, q);
    TakePrefix(Run(docs, q.(limit := None)), q.limit);
  }

  /** The unlimited listing after a page's last entry is the rest of the listing. */
  lemma PageRest(docs: map<DocId, Document>, q: Query)
    ensures var page := Run(docs, q);
            var full := Run(docs, q.(limit := None));
            |page| <= |full| &&
            (|page| > 0 ==> Run(docs, q.(cursor := Some(page[|page| - 1]), limit := None)) == full[|page|..])
  {
    var page := Run(docs, q);
    var full := Run(docs, q.(limit := None));
    PagePrefix(docs, q);
    if |page| > 0 {
      ResumeAfter(docs, q, |page| - 1, page[|page| - 1]);
    }
  }

  /** `ResumeAt` for the unlimited form of a query. */
  lemma ResumeAfter(docs: map<DocId, Document>, q: Query, k: nat, c: Entry)
    requires k < |Run(docs, q.(limit := None))| && c == Run(docs, q.(limit := None))[k]
    ensures Run(docs, q.(cursor := Some(c), limit := None)) == Run(docs, q.(limit := None))[k + 1..]
  {
    var q0 := q.(limit := None);
    ResumeAt(docs, q0, k);
    assert q0.(cursor := Some(c)) == q.(cursor := Some(c), limit := None);
  }

  lemma CandidatesShrink(docs: map<DocId, Document>, q: Query, last: Entry)
    requires Selected(docs, q, last)
    ensures |Candidates(docs, q.(cursor := Some(last)))| < |Candidates(docs, q)|
  {
    CandidatesFollowing(docs, q, last);
    PrecedesIrreflexive(q.order, last);
    SubsetSize(Candidates(docs, q.(cursor := Some(last))), Candidates(docs, q));
  }

  /**
   * All pages of `size` entries, each requested with the last entry of the
   * previous page as cursor, until a page comes back short.
   */
  ghost function Pages(docs: map<DocId, Document>, q: Query, size: nat): seq<Entry>
    requires size > 0
    decreases |Candidates(docs, q)|
  {
    var page := Run(docs, q.(limit := Some(size)));
    if |page| < size then page
    else
      var last := page[|page| - 1];
      CandidatesIgnoreLimit(docs, q, Some(size));
      CandidatesShrink(docs, q, last);
      page + Pages(docs, q.(cursor := Some(last)), size)
  }

  lemma RunMember(docs: map<DocId, Document>, q: Query, k: nat)
    requires k < |Run(docs, q)|
    ensures Selected(docs, q, Run(docs, q)[k])
  {
    var all := Arrange(q.order, Candidates(docs, q));
    assert Run(docs, q)[k] == all[k];
    assert all[k] in all;
  }

  lemma SelectedIgnoresLimit(docs: map<DocId, Document>, q: Query, limit: Option<nat>, e: Entry)
    ensures Selected(docs, q.(limit := limit), e) <==> Selected(docs, q, e)
  {
    assert q.(limit := limit).filters == q.filters && q.(limit := limit).order == q.order;
  }

  lemma SplitAt(s: seq<Entry>, k: nat)
    requires k <= |s|
    ensures s == s[..k] + s[k..]
  {
  }

  /** One step of `Pages`: a short page ends the walk, a full one continues after its last entry. */
  lemma PagesStep(docs: map<DocId, Document>, q: Query, size: nat)
    requires size > 0
    ensures var page := Run(docs, q.(limit := Some(size)));
            && (|page| < size ==> Pages(docs, q, size) == page)
            && (|page| >= size ==>
                  && Pages(docs, q, size) == page + Pages(docs, q.(cursor := Some(page[|page| - 1])), size)
                  && |Candidates(docs, q.(cursor := Some(page[|page| - 1])))| < |Candidates(docs, q)|)
  {
    var page := Run(docs, q.(limit := Some(size)));
    if |page| >= size {
      RunMember(docs, q.(limit := Some(size)), |page| - 1);
      SelectedIgnoresLimit(docs, q, Some(size), page[|page| - 1]);
      CandidatesShrink(docs, q, page[|page| - 1]);
    }
  }

  /** A full page of `size` entries: the listing after its last entry is the rest. */
  lemma SizedPageRest(docs: map<DocId, Document>, q: Query, size: nat)
    requires size > 0
    ensures var page := Run(docs, q.(limit := Some(size)));
            var full := Run(docs, q.(limit := None));
            |page| <= |full| &&
            (|page| > 0 ==> Run(docs, q.(cursor := Some(page[|page| - 1])).(limit := None)) == full[|page|..])
  {
    var q1 := q.(limit := Some(size));
    PageRest(docs, q1);
    assert q1.(limit := None) == q.(limit := None);
    var page := Run(docs, q1);
    if |page| > 0 {
      var last := page[|page| - 1];
      assert q1.(cursor := Some(last), limit := None) == q.(cursor := Some(last)).(limit := None);
    }
  }

  /** A page of `size` entries heads the unlimited listing; a short one is all of it. */
  lemma SizedPagePrefix(docs: map<DocId, Document>, q: Query, size: nat)
    requires size > 0
    ensures var page := Run(docs, q.(limit := Some(size)));
            var full := Run(docs, q.(limit := None));
            |page| <= |full| && page == full[..|page|] && (|page| < size ==> page == full)
  {
    var q1 := q.(limit := Some(size));
    PagePrefix(docs, q1);
    assert q1.(limit := None) == q.(limit := None);
  }

  /** Concatenating the pages gives the single unlimited listing. */
  lemma {:induction false} PagesCoverListing(docs: map<DocId, Document>, q: Query, size: nat)
    requires size > 0
    ensures Pages(docs, q, size) == Run(docs, q.(limit := None))
    decreases |Candidates(docs, q)|
  {
    var page := Run(docs, q.(limit := Some(size)));
    PagesStep(docs, q, size);
    SizedPagePrefix(docs, q, size);
    SizedPageRest(docs, q, size);
    if |page| >= size {
      var q2 := q.(cursor := Some(page[|page| - 1]));
      PagesCoverListing(docs, q2, size);
      SplitAt(Run(docs, q.(limit := None)), |page|);
    }
  }
}
