/**
 * The order of document names: ids compare character by character, and a
 * proper prefix comes first.  Firestore breaks ties between equal sort keys
 * with this order, and lists a query without `orderBy` in it.
 */
module Names {

  /** `a` comes strictly before `b`. */
  predicate IdBefore(a: string, b: string)
    decreases |a|
  {
    |b| > 0 && (|a| == 0 || a[0] < b[0] || (a[0] == b[0] && IdBefore(a[1..], b[1..])))
  }

  lemma {:induction false} IdBeforeIrreflexive(a: string)
    ensures !IdBefore(a, a)
    decreases |a|
  {
    if |a| > 0 {
      IdBeforeIrreflexive(a[1..]);
    }
  }

  lemma {:induction false} IdBeforeTransitive(a: string, b: string, c: string)
    requires IdBefore(a, b) && IdBefore(b, c)
    ensures IdBefore(a, c)
    decreases |a|
  {
    if |a| > 0 && a[0] == b[0] && b[0] == c[0] {
      IdBeforeTransitive(a[1..], b[1..], c[1..]);
    }
  }

  /** Any two different ids are ordered one way or the other. */
  lemma {:induction false} IdBeforeTotal(a: string, b: string)
    requires a != b
    ensures IdBefore(a, b) || IdBefore(b, a)
    decreases |a|
  {
    if |a| > 0 && |b| > 0 && a[0] == b[0] {
      assert a == [a[0]] + a[1..] && b == [b[0]] + b[1..];
      IdBeforeTotal(a[1..], b[1..]);
    }
  }

  lemma IdBeforeAsymmetric(a: string, b: string)
    requires IdBefore(a, b)
    ensures !IdBefore(b, a)
  {
    if IdBefore(b, a) {
      IdBeforeTransitive(a, b, a);
      IdBeforeIrreflexive(a);
    }
  }
}
