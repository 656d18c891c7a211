/**
 * The order in which a Redis sorted set keeps its members: by score, and
 * members with equal scores by byte-wise lexicographic order of their names.
 * Strings are sequences of code points here; UTF-8 preserves code point
 * order, so comparing code points agrees with comparing the encoded bytes.
 */
module Ranking {

  /** Strict lexicographic order; a proper prefix comes first. */
  predicate LexLess(a: string, b: string)
    decreases |a|
  {
    |b| > 0 && (|a| == 0 || a[0] < b[0] || (a[0] == b[0] && LexLess(a[1..], b[1..])))
  }

  lemma {:induction false} LexIrreflexive(a: string)
    ensures !LexLess(a, a)
    decreases |a|
  {
    if |a| > 0 {
      LexIrreflexive(a[1..]);
    }
  }

  lemma {:induction false} LexTransitive(a: string, b: string, c: string)
    requires LexLess(a, b) && LexLess(b, c)
    ensures LexLess(a, c)
    decreases |a|
  {
    if |a| > 0 && a[0] == b[0] && b[0] == c[0] {
      LexTransitive(a[1..], b[1..], c[1..]);
    }
  }

  lemma {:induction false} LexTotal(a: string, b: string)
    requires a != b
    ensures LexLess(a, b) || LexLess(b, a)
    decreases |a|
  {
    if |a| > 0 && |b| > 0 && a[0] == b[0] {
      assert a == [a[0]] + a[1..] && b == [b[0]] + b[1..];
      LexTotal(a[1..], b[1..]);
    }
  }

  /** Member `a` is ranked below member `b` in the sorted set `z`. */
  predicate Before(z: map<string, int>, a: string, b: string)
    requires a in z && b in z
  {
    z[a] < z[b] || (z[a] == z[b] && LexLess(a, b))
  }

  lemma BeforeIrreflexive(z: map<string, int>, a: string)
    requires a in z
    ensures !Before(z, a, a)
  {
    LexIrreflexive(a);
  }

  lemma BeforeTransitive(z: map<string, int>, a: string, b: string, c: string)
    requires a in z && b in z && c in z && Before(z, a, b) && Before(z, b, c)
    ensures Before(z, a, c)
  {
    if z[a] == z[b] == z[c] {
      LexTransitive(a, b, c);
    }
  }

  lemma BeforeTotal(z: map<string, int>, a: string, b: string)
    requires a in z && b in z && a != b
    ensures Before(z, a, b) || Before(z, b, a)
  {
    LexTotal(a, b);
  }

  /** `s` lists members of `z`, each ranked strictly below the ones after it. */
  ghost predicate Ranked(z: map<string, int>, s: seq<string>)
  {
    (forall i :: 0 <= i < |s| ==> s[i] in z) &&
    (forall i, j :: 0 <= i < j < |s| ==> Before(z, s[i], s[j]))
  }

  /** Insert the member `k` at its place in the ranked list `s`. */
  function Insert(z: map<string, int>, k: string, s: seq<string>): seq<string>
    requires k in z && forall i :: 0 <= i < |s| ==> s[i] in z
  {
    if s == [] then [k]
    else if Before(z, k, s[0]) then [k] + s
    else [s[0]] + Insert(z, k, s[1..])
  }

  lemma {:induction false} InsertRanked(z: map<string, int>, k: string, s: seq<string>)
    requires k in z && k !in s && Ranked(z, s)
    ensures Ranked(z, Insert(z, k, s))
    ensures |Insert(z, k, s)| == |s| + 1
    ensures forall x :: x in Insert(z, k, s) <==> x == k || x in s
  {
    if s == [] {
    } else if Before(z, k, s[0]) {
      forall j | 0 < j < |s|
        ensures Before(z, k, s[j])
      {
        BeforeTransitive(z, k, s[0], s[j]);
      }
      var r := [k] + s;
      forall i, j | 0 <= i < j < |r|
        ensures Before(z, r[i], r[j])
      {
        if i > 0 {
          assert r[i] == s[i - 1] && r[j] == s[j - 1];
        }
      }
    } else {
      BeforeTotal(z, k, s[0]);
      InsertRanked(z, k, s[1..]);
      var r' := Insert(z, k, s[1..]);
      var r := [s[0]] + r';
      assert Insert(z, k, s) == r;
      forall j | 0 <= j < |r'|
        ensures Before(z, s[0], r'[j])
      {
        if r'[j] != k {
          assert r'[j] in r';
          assert r'[j] in s[1..];
          var i :| 0 <= i < |s[1..]| && s[1..][i] == r'[j];
          assert s[i + 1] == r'[j];
        }
      }
      forall i, j | 0 <= i < j < |r|
        ensures Before(z, r[i], r[j])
      {
        if i > 0 {
          assert r[i] == r'[i - 1] && r[j] == r'[j - 1];
        }
      }
      assert s == [s[0]] + s[1..];
    }
  }

  /** The members of `K` in rank order (a ghost construction; `Rank` computes it). */
  ghost function RankKeys(z: map<string, int>, K: set<string>): (s: seq<string>)
    requires K <= z.Keys
    ensures Ranked(z, s) && |s| == |K|
    ensures forall x :: x in s <==> x in K
    decreases K
  {
    if K == {} then []
    else
      var k :| k in K;
      var rest := RankKeys(z, K - {k});
      InsertRanked(z, k, rest);
      Insert(z, k, rest)
  }

  /** All members of `z`, lowest rank first. */
  ghost function Ascending(z: map<string, int>): seq<string>
  {
    RankKeys(z, z.Keys)
  }

  /** There is only one ranked listing of a given set of members. */
  lemma {:induction false} RankedUnique(z: map<string, int>, s: seq<string>, t: seq<string>)
    requires Ranked(z, s) && Ranked(z, t)
    requires forall x :: x in s <==> x in t
    ensures s == t
    decreases |s|
  {
    assert t == [] || t[0] in t;
    if s != [] {
      assert s[0] in s;
      assert t != [];
      assert t[0] in t;
      if s[0] != t[0] {
        var j :| 0 <= j < |t| && t[j] == s[0];
        var i :| 0 <= i < |s| && s[i] == t[0];
        assert Before(z, t[0], s[0]);
        assert Before(z, s[0], t[0]);
        BeforeTransitive(z, s[0], t[0], s[0]);
        BeforeIrreflexive(z, s[0]);
        assert false;
      }
      forall x
        ensures x in s[1..] <==> x in t[1..]
      {
        if x in s[1..] {
          var i :| 0 <= i < |s[1..]| && s[1..][i] == x;
          assert Before(z, s[0], s[i + 1]);
          BeforeIrreflexive(z, x);
          assert x in t && x != t[0];
          var j :| 0 <= j < |t| && t[j] == x;
          assert t[1..][j - 1] == x;
        }
        if x in t[1..] {
          var i :| 0 <= i < |t[1..]| && t[1..][i] == x;
          assert Before(z, t[0], t[i + 1]);
          BeforeIrreflexive(z, x);
          assert x in s && x != s[0];
          var j :| 0 <= j < |s| && s[j] == x;
          assert s[1..][j - 1] == x;
        }
      }
      RankedUnique(z, s[1..], t[1..]);
      assert s == [s[0]] + s[1..] && t == [t[0]] + t[1..];
    }
  }

  /** Compute the ranked listing of the members of `z`, one insertion at a time. */
  method Rank(z: map<string, int>) returns (s: seq<string>)
    ensures s == Ascending(z)
  {
    s := [];
    var rest := z.Keys;
    while rest != {}
      invariant rest <= z.Keys
      invariant Ranked(z, s)
      invariant forall x :: x in s <==> x in z && x !in rest
      decreases rest
    {
      var k :| k in rest;
      InsertRanked(z, k, s);
      s := Insert(z, k, s);
      rest := rest - {k};
    }
    RankedUnique(z, s, Ascending(z));
  }

  function Reverse<T>(s: seq<T>): seq<T>
  {
    seq(|s|, i requires 0 <= i < |s| => s[|s| - 1 - i])
  }

  /** All members of `z`, highest rank first: the order ZREVRANGE uses. */
  ghost function Descending(z: map<string, int>): seq<string>
  {
    Reverse(Ascending(z))
  }

  /** The descending listing holds every member exactly once, scores never increasing. */
  lemma DescendingOrder(z: map<string, int>)
    ensures |Descending(z)| == |z|
    ensures forall x :: x in Descending(z) <==> x in z
    ensures forall i, j :: 0 <= i < j < |Descending(z)| ==> Descending(z)[i] != Descending(z)[j]
    ensures forall i, j :: 0 <= i < j < |Descending(z)| ==> z[Descending(z)[i]] >= z[Descending(z)[j]]
  {
    var a := Ascending(z);
    var d := Descending(z);
    forall x | x in a
      ensures x in d
    {
      var i :| 0 <= i < |a| && a[i] == x;
      assert d[|a| - 1 - i] == x;
    }
    forall i, j | 0 <= i < j < |d|
      ensures d[i] != d[j] && z[d[i]] >= z[d[j]]
    {
      assert Before(z, a[|a| - 1 - j], a[|a| - 1 - i]);
      BeforeIrreflexive(z, d[i]);
    }
  }

  /** Two members with different scores come back highest score first. */
  lemma DescendingExample()
    ensures Descending(map["7" := 2, "9" := 1]) == ["7", "9"]
  {
    var z := map["7" := 2, "9" := 1];
    assert Before(z, "9", "7");
    assert Ranked(z, ["9", "7"]);
    RankedUnique(z, Ascending(z), ["9", "7"]);
    assert Reverse(["9", "7"]) == ["7", "9"];
  }
}
