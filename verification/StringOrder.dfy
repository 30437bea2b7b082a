/** Lexicographic order on strings, and sorting a set of them (`sort.Strings`). */
module StringOrder {

  predicate Less(a: string, b: string) {
    |b| > 0 && (|a| == 0 || a[0] < b[0] || (a[0] == b[0] && Less(a[1..], b[1..])))
  }

  lemma {:induction false} LessAsymmetric(a: string, b: string)
    requires Less(a, b)
    ensures a != b && !Less(b, a)
  {
    if |a| > 0 && a[0] == b[0] { LessAsymmetric(a[1..], b[1..]); }
  }

  lemma {:induction false} LessTotal(a: string, b: string)
    ensures a == b || Less(a, b) || Less(b, a)
  {
    if |a| > 0 && |b| > 0 && a[0] == b[0] {
      LessTotal(a[1..], b[1..]);
      assert a == [a[0]] + a[1..] && b == [b[0]] + b[1..];
    }
  }

  lemma {:induction false} LessTransitive(a: string, b: string, c: string)
    requires Less(a, b) && Less(b, c)
    ensures Less(a, c)
  {
    if |a| > 0 && a[0] == b[0] == c[0] { LessTransitive(a[1..], b[1..], c[1..]); }
  }

  /** The strings agree up to position `k`, where `a` ends or has the smaller character. */
  predicate FirstDiffersAt(a: string, b: string, k: nat) {
    k <= |a| && k < |b| && a[..k] == b[..k] && (k == |a| || a[k] < b[k])
  }

  /** What coming first means: at the first difference the string ends, or has the smaller character. */
  lemma {:induction false} LessExactly(a: string, b: string)
    ensures Less(a, b) <==> exists k :: FirstDiffersAt(a, b, k)
  {
    if |b| == 0 {
    } else if |a| == 0 || a[0] < b[0] {
      assert FirstDiffersAt(a, b, 0);
    } else if a[0] > b[0] {
      forall k: nat | 0 < k <= |a| && k < |b|
        ensures a[..k] != b[..k]
      {
        assert a[..k][0] != b[..k][0];
      }
    } else {
      LessExactly(a[1..], b[1..]);
      if k: nat :| FirstDiffersAt(a[1..], b[1..], k) {
        assert a[..k + 1] == [a[0]] + a[1..][..k] && b[..k + 1] == [b[0]] + b[1..][..k];
        assert FirstDiffersAt(a, b, k + 1);
      }
      if k: nat :| FirstDiffersAt(a, b, k) {
        assert k > 0 && a[1..][..k - 1] == a[..k][1..] && b[1..][..k - 1] == b[..k][1..];
        assert FirstDiffersAt(a[1..], b[1..], k - 1);
      }
    }
  }

  predicate IsLeast(m: string, s: set<string>) {
    m in s && forall k :: k in s ==> k == m || Less(m, k)
  }

  lemma {:induction false} LeastExists(s: set<string>)
    requires s != {}
    ensures exists m :: IsLeast(m, s)
  {
    var x :| x in s;
    if s - {x} == {} {
      assert s == {x};
      assert IsLeast(x, s);
    } else {
      LeastExists(s - {x});
      var m :| IsLeast(m, s - {x});
      LessTotal(x, m);
      if Less(x, m) {
        forall k | k in s
          ensures k == x || Less(x, k)
        {
          if k != x && k != m { LessTransitive(x, m, k); }
        }
        assert IsLeast(x, s);
      } else {
        assert IsLeast(m, s);
      }
    }
  }

  lemma LeastUnique(m: string, n: string, s: set<string>)
    requires IsLeast(m, s) && IsLeast(n, s)
    ensures m == n
  {
    if m != n { LessAsymmetric(m, n); }
  }

  function Least(s: set<string>): (m: string)
    requires s != {}
    ensures IsLeast(m, s)
  {
    LeastExists(s);
    assert forall m, n :: IsLeast(m, s) && IsLeast(n, s) ==> m == n by {
      forall m, n | IsLeast(m, s) && IsLeast(n, s)
        ensures m == n
      {
        LeastUnique(m, n, s);
      }
    }
    var m :| m in s && IsLeast(m, s);
    m
  }

  predicate Ascending(ks: seq<string>) {
    forall i, j :: 0 <= i < j < |ks| ==> Less(ks[i], ks[j])
  }

  /** The strings of a set in ascending order. */
  function SortedKeys(s: set<string>): (ks: seq<string>)
    ensures Ascending(ks)
    ensures forall k :: k in ks <==> k in s
  {
    if s == {} then [] else [Least(s)] + SortedKeys(s - {Least(s)})
  }

  /** A set has only one ascending enumeration. */
  lemma {:induction false} AscendingUnique(ks: seq<string>, s: set<string>)
    requires Ascending(ks) && forall k :: k in ks <==> k in s
    ensures ks == SortedKeys(s)
  {
    if |ks| == 0 {
      assert forall k :: k in s ==> k in ks;
      assert s == {};
    } else {
      var m := ks[0];
      assert m in s;
      forall k | k in s
        ensures k == m || Less(m, k)
      {
        var i :| 0 <= i < |ks| && ks[i] == k;
      }
      LeastUnique(m, Least(s), s);
      forall k
        ensures k in ks[1..] <==> k in s - {m}
      {
        if k in ks[1..] {
          var i :| 0 <= i < |ks| - 1 && ks[1..][i] == k;
          LessAsymmetric(ks[0], ks[i + 1]);
        }
      }
      AscendingUnique(ks[1..], s - {m});
    }
  }

  /** Insertion sort, standing in for the library sort. */
  method Sort(ks: seq<string>) returns (sorted: seq<string>)
    requires forall i, j :: 0 <= i < j < |ks| ==> ks[i] != ks[j]
    ensures Ascending(sorted)
    ensures forall k :: k in sorted <==> k in ks
  {
    sorted := [];
    for n := 0 to |ks|
      invariant Ascending(sorted)
      invariant forall k :: k in sorted <==> k in ks[..n]
    {
      assert ks[n] !in ks[..n];
      sorted := Insert(sorted, ks[n]);
      assert ks[..n + 1] == ks[..n] + [ks[n]];
    }
    assert ks[..|ks|] == ks;
  }

  method Insert(ks: seq<string>, x: string) returns (r: seq<string>)
    requires Ascending(ks) && x !in ks
    ensures Ascending(r)
    ensures forall k :: k in r <==> k in ks || k == x
  {
    var i := 0;
    while i < |ks| && Less(ks[i], x)
      invariant 0 <= i <= |ks|
      invariant forall j :: 0 <= j < i ==> Less(ks[j], x)
    {
      i := i + 1;
    }
    if i < |ks| {
      LessTotal(ks[i], x);
    }
    forall j | i <= j < |ks|
      ensures Less(x, ks[j])
    {
      if i < j { LessTransitive(x, ks[i], ks[j]); }
    }
    r := ks[..i] + [x] + ks[i..];
  }
}
