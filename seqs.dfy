/** Sequence helpers shared by the registry and the layout: duplicate
    freedom, first occurrences, and order-preserving deduplication (the
    behaviour of `pd.unique` and of insertion-ordered dictionary keys). */
module Seqs {

  /** No element occurs twice. */
  predicate NoDup<T(==)>(s: seq<T>) {
    forall i, j :: 0 <= i < j < |s| ==> s[i] != s[j]
  }

  /** `prefix` is an initial segment of `s`. */
  predicate IsPrefix<T(==)>(prefix: seq<T>, s: seq<T>) {
    |prefix| <= |s| && s[..|prefix|] == prefix
  }

  function Last<T>(s: seq<T>): T
    requires |s| > 0
  {
    s[|s| - 1]
  }

  /** Position of the first occurrence of `x` in `s`. */
  function FirstIndex<T(==)>(s: seq<T>, x: T): (k: nat)
    requires x in s
    ensures k < |s| && s[k] == x
    ensures forall j :: 0 <= j < k ==> s[j] != x
  {
    if s[0] == x then 0 else 1 + FirstIndex(s[1..], x)
  }

  /** The distinct elements of `s`, each kept at its first occurrence, in
      the order of a left-to-right scan. */
  function Unique<T(==)>(s: seq<T>): (u: seq<T>)
    ensures NoDup(u)
    ensures forall i :: 0 <= i < |u| ==> u[i] in s
    ensures forall i :: 0 <= i < |s| ==> s[i] in u
  {
    if s == [] then []
    else
      var u := Unique(s[..|s| - 1]);
      if Last(s) in u then u else u + [Last(s)]
  }

  /** Scanning one more element extends the previous result. */
  lemma UniqueSnoc<T>(s: seq<T>, x: T)
    ensures Unique(s + [x]) == if x in s then Unique(s) else Unique(s) + [x]
  {
    assert (s + [x])[..|s + [x]| - 1] == s;
  }

  lemma FirstIndexPrefix<T>(s: seq<T>, x: T, n: nat)
    requires n <= |s| && x in s[..n]
    ensures FirstIndex(s, x) == FirstIndex(s[..n], x)
  {
    var k := FirstIndex(s[..n], x);
    var k' := FirstIndex(s, x);
    assert s[k] == s[..n][k] == x;
    assert k' <= k;
    assert s[..n][k'] == s[k'];
  }

  /** `Unique` keeps first-appearance order: an element listed earlier
      first occurs earlier in `s`. */
  lemma {:induction false} UniqueFirstAppearance<T>(s: seq<T>)
    ensures forall i, j :: 0 <= i < j < |Unique(s)| ==>
              FirstIndex(s, Unique(s)[i]) < FirstIndex(s, Unique(s)[j])
  {
    if s != [] {
      var n := |s| - 1;
      var p := s[..n];
      assert s == p + [s[n]];
      UniqueFirstAppearance(p);
      var u := Unique(p);
      assert Unique(s) == if s[n] in u then u else u + [s[n]];
      forall i | 0 <= i < |u|
        ensures FirstIndex(s, u[i]) == FirstIndex(p, u[i]) < n
      {
        assert u[i] in p;
        FirstIndexPrefix(s, u[i], n);
      }
      if s[n] !in u {
        assert s[n] !in p;
        assert FirstIndex(s, s[n]) == n;
      }
    }
  }

  /** A duplicate-free sequence whose elements all occur in another
      duplicate-free sequence is no longer than it. */
  lemma {:induction false} NoDupSubsetLength<T>(p: seq<T>, q: seq<T>)
    requires NoDup(p) && NoDup(q)
    requires forall i :: 0 <= i < |p| ==> p[i] in q
    ensures |p| <= |q|
  {
    if |p| > 0 {
      assert p[0] in q;
      var k :| 0 <= k < |q| && q[k] == p[0];
      var q' := q[..k] + q[k + 1..];
      forall i | 0 <= i < |p| - 1
        ensures p[1..][i] in q'
      {
        var m :| 0 <= m < |q| && q[m] == p[i + 1];
        assert m != k;
        if m < k {
          assert q'[m] == q[m];
        } else {
          assert q'[m - 1] == q[m];
        }
      }
      forall i, j | 0 <= i < j < |q'|
        ensures q'[i] != q'[j]
      {
        var i' := if i < k then i else i + 1;
        var j' := if j < k then j else j + 1;
        assert q'[i] == q[i'] && q'[j] == q[j'];
      }
      NoDupSubsetLength(p[1..], q');
    }
  }
}
