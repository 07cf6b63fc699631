/** The parts of Go's `strings` and `sort` packages that the repository relies on.
    Go compares strings byte by byte; for UTF-8 text that is the order of the code points. */
module GoStrings {

  /******* Order *******/

  predicate Le(a: string, b: string) {
    a == [] || (b != [] && (a[0] < b[0] || (a[0] == b[0] && Le(a[1..], b[1..]))))
  }

  predicate Lt(a: string, b: string) {
    a != b && Le(a, b)
  }

  lemma {:induction false} LeReflexive(a: string)
    ensures Le(a, a)
  {
    if a != [] {
      LeReflexive(a[1..]);
    }
  }

  lemma {:induction false} LeTotal(a: string, b: string)
    ensures Le(a, b) || Le(b, a)
  {
    if a != [] && b != [] && a[0] == b[0] {
      LeTotal(a[1..], b[1..]);
    }
  }

  lemma {:induction false} LeAntisymmetric(a: string, b: string)
    requires Le(a, b) && Le(b, a)
    ensures a == b
  {
    if a != [] {
      LeAntisymmetric(a[1..], b[1..]);
      assert a == [a[0]] + a[1..] && b == [b[0]] + b[1..];
    }
  }

  lemma LtAsymmetric(a: string, b: string)
    requires Lt(a, b)
    ensures !Lt(b, a) && !Le(b, a)
  {
    if Le(b, a) {
      LeAntisymmetric(a, b);
    }
  }

  lemma {:induction false} LeTransitive(a: string, b: string, c: string)
    requires Le(a, b) && Le(b, c)
    ensures Le(a, c)
  {
    if a != [] && a[0] == b[0] == c[0] {
      LeTransitive(a[1..], b[1..], c[1..]);
    }
  }

  /** The first position where two strings differ decides their order. */
  lemma {:induction false} LtAtDifference(a: string, b: string, i: nat)
    requires i <= |a| && i < |b| && a[..i] == b[..i]
    requires i == |a| || a[i] < b[i]
    ensures Lt(a, b)
  {
    if i > 0 {
      assert a[0] == a[..i][0] && b[0] == b[..i][0];
      assert a[1..][..i - 1] == a[..i][1..] && b[1..][..i - 1] == b[..i][1..];
      LtAtDifference(a[1..], b[1..], i - 1);
    }
  }

  /** Conversely, two ordered strings have such a position. */
  lemma {:induction false} DifferenceOf(a: string, b: string) returns (i: nat)
    requires Lt(a, b)
    ensures i <= |a| && i < |b| && a[..i] == b[..i]
    ensures i == |a| || a[i] < b[i]
  {
    if a == [] || a[0] < b[0] {
      i := 0;
    } else {
      assert a == [a[0]] + a[1..] && b == [b[0]] + b[1..];
      var j := DifferenceOf(a[1..], b[1..]);
      i := j + 1;
      assert a[..i] == [a[0]] + a[1..][..j] && b[..i] == [b[0]] + b[1..][..j];
    }
  }

  /******* Sorting *******/

  ghost predicate Sorted(s: seq<string>) {
    forall i, j :: 0 <= i < j < |s| ==> Le(s[i], s[j])
  }

  ghost predicate StrictlySorted(s: seq<string>) {
    forall i, j :: 0 <= i < j < |s| ==> Lt(s[i], s[j])
  }

  /** No string occurs twice. */
  ghost predicate Distinct(s: seq<string>) {
    forall x :: multiset(s)[x] <= 1
  }

  function Elements(s: seq<string>): set<string> {
    set x | x in s
  }

  function Insert(x: string, s: seq<string>): seq<string> {
    if s == [] then [x]
    else if Le(x, s[0]) then [x] + s
    else [s[0]] + Insert(x, s[1..])
  }

  lemma {:induction false} InsertMultiset(x: string, s: seq<string>)
    ensures multiset(Insert(x, s)) == multiset(s) + multiset{x}
  {
    if s != [] && !Le(x, s[0]) {
      InsertMultiset(x, s[1..]);
      assert s == [s[0]] + s[1..];
    }
  }

  lemma {:induction false} InsertSorted(x: string, s: seq<string>)
    requires Sorted(s)
    ensures Sorted(Insert(x, s))
  {
    if s == [] {
    } else if Le(x, s[0]) {
      forall j | 0 <= j < |s| ensures Le(x, s[j]) {
        if j > 0 { LeTransitive(x, s[0], s[j]); }
      }
    } else {
      var t := Insert(x, s[1..]);
      InsertSorted(x, s[1..]);
      forall j | 0 <= j < |t| ensures Le(s[0], t[j]) {
        InsertMultiset(x, s[1..]);
        LeTotal(x, s[0]);
        assert t[j] in multiset(t);
        assert t[j] == x || t[j] in s[1..];
      }
    }
  }

  lemma SortStep(s: seq<string>, t: seq<string>)
    requires s != [] && Sorted(t) && multiset(t) == multiset(s[1..])
    ensures Sorted(Insert(s[0], t)) && multiset(Insert(s[0], t)) == multiset(s)
  {
    InsertSorted(s[0], t);
    InsertMultiset(s[0], t);
    assert s == [s[0]] + s[1..];
  }

  /** `sort.Strings`. */
  function SortStrings(s: seq<string>): (r: seq<string>)
    ensures Sorted(r) && multiset(r) == multiset(s)
  {
    if s == [] then []
    else
      var t := SortStrings(s[1..]);
      SortStep(s, t);
      Insert(s[0], t)
  }

  lemma SortStringsDistinct(s: seq<string>)
    requires Distinct(s)
    ensures StrictlySorted(SortStrings(s))
    ensures |SortStrings(s)| == |s| && Elements(SortStrings(s)) == Elements(s)
  {
    var r := SortStrings(s);
    assert |multiset(r)| == |multiset(s)|;
    forall x ensures x in r <==> x in s {
      assert x in multiset(r) <==> x in multiset(s);
    }
    DistinctMeaning(r);
  }

  lemma DistinctConcat(a: seq<string>, b: seq<string>)
    ensures Distinct(a + b) <==> Distinct(a) && Distinct(b) && forall x :: x in b ==> x !in a
  {
    assert multiset(a + b) == multiset(a) + multiset(b);
    if Distinct(a + b) {
      assert forall x :: multiset(a)[x] <= multiset(a + b)[x] && multiset(b)[x] <= multiset(a + b)[x];
      forall x | x in b ensures x !in a {
        assert multiset(b)[x] >= 1 && multiset(a + b)[x] <= 1;
      }
    } else if Distinct(a) && Distinct(b) {
      var x :| multiset(a + b)[x] > 1;
      assert multiset(a)[x] <= 1 && multiset(b)[x] <= 1;
      assert x in a && x in b;
    }
  }

  lemma {:induction false} DistinctMeaning(s: seq<string>)
    ensures Distinct(s) <==> forall i, j :: 0 <= i < j < |s| ==> s[i] != s[j]
  {
    if s != [] {
      var t, x := s[..|s| - 1], s[|s| - 1];
      assert s == t + [x];
      DistinctMeaning(t);
      assert multiset(s)[x] == multiset(t)[x] + 1;
      if Distinct(s) {
        DistinctConcat(t, [x]);
      }
    }
  }

  /** A strictly sorted list is determined by its elements, so it cannot depend on the order
      in which a Go map handed them out. */
  lemma {:induction false} StrictlySortedUnique(a: seq<string>, b: seq<string>)
    requires StrictlySorted(a) && StrictlySorted(b)
    requires Elements(a) == Elements(b)
    ensures a == b
  {
    assert b != [] ==> b[0] in Elements(b);
    if a != [] {
      assert a[0] in Elements(a);
      assert b != [];
      assert b[0] in Elements(b);
      if a[0] != b[0] {
        var i :| 0 <= i < |b| && b[i] == a[0];
        var j :| 0 <= j < |a| && a[j] == b[0];
        LeAntisymmetric(a[0], b[0]);
      }
      forall x ensures x in a[1..] <==> x in b[1..] {
        assert x in Elements(a) <==> x in Elements(b);
      }
      StrictlySortedUnique(a[1..], b[1..]);
      assert a == [a[0]] + a[1..] && b == [b[0]] + b[1..];
    }
  }

  /** Collects the keys in whatever order the map yields them, then sorts. */
  method SortedKeys(keys: set<string>) returns (r: seq<string>)
    ensures StrictlySorted(r) && Elements(r) == keys
  {
    r := [];
    var todo := keys;
    while todo != {}
      invariant todo <= keys
      invariant Distinct(r) && Elements(r) == keys - todo
    {
      var k :| k in todo;
      assert k !in Elements(r);
      assert Elements(r + [k]) == Elements(r) + {k};
      r := r + [k];
      todo := todo - {k};
    }
    SortStringsDistinct(r);
    r := SortStrings(r);
  }

  /******* Prefixes, suffixes, search *******/

  predicate HasPrefix(s: string, p: string) {
    p <= s
  }

  predicate HasSuffix(s: string, p: string) {
    |p| <= |s| && s[|s| - |p|..] == p
  }

  /** `strings.Index` for a one-character needle: the first position, or -1. */
  function Index(s: string, c: char): (i: int)
    ensures -1 <= i < |s|
    ensures i >= 0 ==> s[i] == c && c !in s[..i]
    ensures i < 0 <==> c !in s
  {
    if s == [] then -1
    else if s[0] == c then 0
    else
      var j := Index(s[1..], c);
      assert s == [s[0]] + s[1..];
      assert j >= 0 ==> s[..j + 1] == [s[0]] + s[1..][..j];
      if j < 0 then -1 else j + 1
  }
}
