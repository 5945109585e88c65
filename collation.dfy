/**
 * Ruby's `String#<=>` (code point by code point, a proper prefix first) and
 * `Array#sort` on strings.
 */
module Collation {

  /** `a` sorts no later than `b`. */
  predicate NotAfter(a: string, b: string)
    decreases |a|
  {
    |a| == 0 || (|b| > 0 && (a[0] < b[0] || (a[0] == b[0] && NotAfter(a[1..], b[1..]))))
  }

  lemma {:induction false} NotAfterReflexive(a: string)
    ensures NotAfter(a, a)
    decreases |a|
  {
    if |a| > 0 { NotAfterReflexive(a[1..]); }
  }

  lemma {:induction false} NotAfterTotal(a: string, b: string)
    ensures NotAfter(a, b) || NotAfter(b, a)
    decreases |a|
  {
    if |a| > 0 && |b| > 0 && a[0] == b[0] {
      NotAfterTotal(a[1..], b[1..]);
    }
  }

  lemma {:induction false} NotAfterAntisymmetric(a: string, b: string)
    requires NotAfter(a, b) && NotAfter(b, a)
    ensures a == b
    decreases |a|
  {
    if |a| > 0 {
      NotAfterAntisymmetric(a[1..], b[1..]);
      assert a == [a[0]] + a[1..];
      assert b == [b[0]] + b[1..];
    }
  }

  lemma {:induction false} NotAfterTransitive(a: string, b: string, c: string)
    requires NotAfter(a, b) && NotAfter(b, c)
    ensures NotAfter(a, c)
    decreases |a|
  {
    if |a| > 0 && a[0] == b[0] && b[0] == c[0] {
      NotAfterTransitive(a[1..], b[1..], c[1..]);
    }
  }

  predicate Sorted(s: seq<string>)
  {
    forall i, j :: 0 <= i < j < |s| ==> NotAfter(s[i], s[j])
  }

  function Insert(x: string, s: seq<string>): (r: seq<string>)
    requires Sorted(s)
    ensures Sorted(r) && multiset(r) == multiset(s) + multiset{x}
  {
    if s == [] then [x]
    else if NotAfter(x, s[0]) then
      assert forall j :: 0 < j < |s| ==> NotAfter(x, s[j]) by {
        forall j | 0 < j < |s| ensures NotAfter(x, s[j]) { NotAfterTransitive(x, s[0], s[j]); }
      }
      [x] + s
    else
      var rest := Insert(x, s[1..]);
      NotAfterTotal(x, s[0]);
      assert forall v :: v in multiset(rest) ==> NotAfter(s[0], v) by {
        forall v | v in multiset(rest) ensures NotAfter(s[0], v) {
          assert v in multiset(s[1..]) + multiset{x};
          if v != x {
            assert v in s[1..];
            var k :| 0 <= k < |s[1..]| && s[1..][k] == v;
            assert s[k + 1] == v;
          }
        }
      }
      assert forall k :: 0 <= k < |rest| ==> NotAfter(s[0], rest[k]) by {
        forall k | 0 <= k < |rest| ensures NotAfter(s[0], rest[k]) {
          assert rest[k] in multiset(rest);
        }
      }
      assert s == [s[0]] + s[1..];
      [s[0]] + rest
  }

  /** Ruby's `Array#sort` on strings: the same strings, in ascending order. */
  function Sort(s: seq<string>): (r: seq<string>)
    ensures Sorted(r) && multiset(r) == multiset(s)
  {
    if s == [] then []
    else
      assert s == [s[0]] + s[1..];
      Insert(s[0], Sort(s[1..]))
  }

  lemma HeadIsLeast(a: seq<string>, v: string)
    requires Sorted(a) && v in multiset(a)
    ensures |a| > 0 && NotAfter(a[0], v)
  {
    var k :| 0 <= k < |a| && a[k] == v;
    if k == 0 { NotAfterReflexive(v); }
  }

  lemma SortedTail(a: seq<string>)
    requires Sorted(a) && |a| > 0
    ensures Sorted(a[1..])
  {
    forall i, j | 0 <= i < j < |a[1..]| ensures NotAfter(a[1..][i], a[1..][j]) {
      assert a[1..][i] == a[i + 1] && a[1..][j] == a[j + 1];
    }
  }

  lemma TailMultiset(a: seq<string>)
    requires |a| > 0
    ensures multiset(a[1..]) == multiset(a) - multiset{a[0]}
  {
    assert a == [a[0]] + a[1..];
  }

  /** A sorted arrangement of a multiset of strings is unique. */
  lemma {:induction false} SortedUnique(a: seq<string>, b: seq<string>)
    requires Sorted(a) && Sorted(b) && multiset(a) == multiset(b)
    ensures a == b
    decreases |a|
  {
    assert |a| == |multiset(a)| == |multiset(b)| == |b|;
    if |a| > 0 {
      assert a[0] in multiset(a) && b[0] in multiset(b);
      HeadIsLeast(a, b[0]);
      HeadIsLeast(b, a[0]);
      NotAfterAntisymmetric(a[0], b[0]);
      TailMultiset(a);
      TailMultiset(b);
      SortedTail(a);
      SortedTail(b);
      SortedUnique(a[1..], b[1..]);
      assert a == [a[0]] + a[1..] && b == [b[0]] + b[1..];
    }
  }

  /** Sorting forgets the order of its input. */
  lemma SortIgnoresOrder(a: seq<string>, b: seq<string>)
    requires multiset(a) == multiset(b)
    ensures Sort(a) == Sort(b)
  {
    SortedUnique(Sort(a), Sort(b));
  }
}
