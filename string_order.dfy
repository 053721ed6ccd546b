/**
 * Python's ordering of `str` values (lexicographic on code points, a proper
 * prefix first) and `sorted()` over a list of names.
 */
module StringOrder {

  /** `a <= b` on Python strings. */
  predicate Below(a: string, b: string)
    decreases |a|
  {
    |a| == 0 || (|b| > 0 && (a[0] < b[0] || (a[0] == b[0] && Below(a[1..], b[1..]))))
  }

  lemma {:induction false} BelowReflexive(a: string)
    ensures Below(a, a)
    decreases |a|
  {
    if |a| > 0 { BelowReflexive(a[1..]); }
  }

  lemma {:induction false} BelowAntisymmetric(a: string, b: string)
    requires Below(a, b) && Below(b, a)
    ensures a == b
    decreases |a|
  {
    if |a| > 0 {
      BelowAntisymmetric(a[1..], b[1..]);
      assert a == [a[0]] + a[1..] && b == [b[0]] + b[1..];
    }
  }

  lemma {:induction false} BelowTransitive(a: string, b: string, c: string)
    requires Below(a, b) && Below(b, c)
    ensures Below(a, c)
    decreases |a|
  {
    if |a| > 0 && a[0] == b[0] && b[0] == c[0] {
      BelowTransitive(a[1..], b[1..], c[1..]);
    }
  }

  lemma {:induction false} BelowTotal(a: string, b: string)
    ensures Below(a, b) || Below(b, a)
    decreases |a|
  {
    if |a| > 0 && |b| > 0 && a[0] == b[0] {
      BelowTotal(a[1..], b[1..]);
    }
  }

  predicate Sorted(s: seq<string>) {
    forall i, j :: 0 <= i < j < |s| ==> Below(s[i], s[j])
  }

  /** Insert one name into a sorted list, before the first name it is below. */
  function Insert(x: string, s: seq<string>): (r: seq<string>)
    ensures multiset(r) == multiset(s) + multiset{x}
    ensures Sorted(s) ==> Sorted(r)
    decreases |s|
  {
    if |s| == 0 then [x]
    else if Below(x, s[0]) then
      ConsSorted(x, s);
      [x] + s
    else
      var rest := Insert(x, s[1..]);
      InsertBehindHead(x, s, rest);
      [s[0]] + rest
  }

  /** A name below the head of a sorted list can go in front of it. */
  lemma ConsSorted(x: string, s: seq<string>)
    requires |s| > 0 && Below(x, s[0])
    ensures Sorted(s) ==> Sorted([x] + s)
  {
    if Sorted(s) {
      forall j | 0 < j < |s| + 1 ensures Below(([x] + s)[0], ([x] + s)[j]) {
        if j > 1 { BelowTransitive(x, s[0], s[j - 1]); }
      }
    }
  }

  /** A name not below the head goes into the tail, behind the head. */
  lemma InsertBehindHead(x: string, s: seq<string>, rest: seq<string>)
    requires |s| > 0 && !Below(x, s[0])
    requires multiset(rest) == multiset(s[1..]) + multiset{x}
    requires Sorted(s[1..]) ==> Sorted(rest)
    ensures multiset([s[0]] + rest) == multiset(s) + multiset{x}
    ensures Sorted(s) ==> Sorted([s[0]] + rest)
  {
    assert s == [s[0]] + s[1..];
    if Sorted(s) {
      BelowTotal(x, s[0]);
      forall j | 0 <= j < |rest| ensures Below(s[0], rest[j]) {
        assert rest[j] in multiset(rest);
        if rest[j] != x {
          assert rest[j] in multiset(s[1..]);
          var k :| 0 <= k < |s[1..]| && s[1..][k] == rest[j];
          assert s[k + 1] == rest[j];
        }
      }
      SortedCons(s[0], rest);
    }
  }

  /** A name below every element of a sorted list can go in front of it. */
  lemma SortedCons(x: string, s: seq<string>)
    requires Sorted(s)
    requires forall j :: 0 <= j < |s| ==> Below(x, s[j])
    ensures Sorted([x] + s)
  {
    forall i, j | 0 <= i < j < |s| + 1 ensures Below(([x] + s)[i], ([x] + s)[j]) {
      if i > 0 { assert ([x] + s)[i] == s[i - 1]; }
    }
  }

  /** A name above every element of a sorted list can go behind it. */
  lemma SortedSnoc(s: seq<string>, x: string)
    requires Sorted(s)
    requires forall j :: 0 <= j < |s| ==> Below(s[j], x)
    ensures Sorted(s + [x])
  {
    forall i, j | 0 <= i < j < |s| + 1 ensures Below((s + [x])[i], (s + [x])[j]) {
      if j < |s| { assert (s + [x])[j] == s[j]; }
    }
  }

  /** `sorted(names)`: an ascending permutation of the names. */
  function SortStrings(s: seq<string>): (r: seq<string>)
    ensures Sorted(r)
    ensures multiset(r) == multiset(s)
    decreases |s|
  {
    if |s| == 0 then []
    else
      assert s == [s[0]] + s[1..];
      Insert(s[0], SortStrings(s[1..]))
  }

  /** There is only one ascending arrangement of a multiset of names: two
      sorted lists with the same elements are equal. */
  lemma {:induction false} SortedUnique(a: seq<string>, b: seq<string>)
    requires Sorted(a) && Sorted(b)
    requires multiset(a) == multiset(b)
    ensures a == b
    decreases |a|
  {
    assert |a| == |multiset(a)| == |multiset(b)| == |b|;
    if |a| > 0 {
      SortedHeads(a, b);
      Behead(a);
      Behead(b);
      assert Sorted(a[1..]) && Sorted(b[1..]);
      SortedUnique(a[1..], b[1..]);
      assert a == [a[0]] + a[1..] && b == [b[0]] + b[1..];
    }
  }

  /** Sorted lists with the same elements start with the same name. */
  lemma SortedHeads(a: seq<string>, b: seq<string>)
    requires Sorted(a) && Sorted(b)
    requires multiset(a) == multiset(b) && |a| > 0 && |b| > 0
    ensures a[0] == b[0]
  {
    assert b[0] in multiset(a);
    assert a[0] in multiset(b);
    var i :| 0 <= i < |a| && a[i] == b[0];
    var j :| 0 <= j < |b| && b[j] == a[0];
    if i == 0 { BelowReflexive(a[0]); }
    if j == 0 { BelowReflexive(b[0]); }
    assert Below(a[0], b[0]) && Below(b[0], a[0]);
    BelowAntisymmetric(a[0], b[0]);
  }

  /** The tail of a list holds its elements less the head. */
  lemma Behead(a: seq<string>)
    requires |a| > 0
    ensures multiset(a[1..]) == multiset(a) - multiset{a[0]}
  {
    assert a == [a[0]] + a[1..];
  }

  /** `sorted()` depends only on the multiset of names, not on their order. */
  lemma SortStringsPermutation(a: seq<string>, b: seq<string>)
    requires multiset(a) == multiset(b)
    ensures SortStrings(a) == SortStrings(b)
  {
    SortedUnique(SortStrings(a), SortStrings(b));
  }

}
