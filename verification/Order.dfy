// The byte order of text (`str::cmp`). UTF-8 keeps code points in order, so comparing characters
// gives the same answer as comparing bytes.

module Order {

  predicate Below(a: string, b: string) {
    b != [] && (a == [] || a[0] < b[0] || (a[0] == b[0] && Below(a[1..], b[1..])))
  }

  predicate AtMost(a: string, b: string) {
    a == b || Below(a, b)
  }

  lemma {:induction false} BelowIrreflexive(a: string)
    ensures !Below(a, a)
  {
    if a != [] {
      BelowIrreflexive(a[1..]);
    }
  }

  lemma {:induction false} BelowTransitive(a: string, b: string, c: string)
    requires Below(a, b) && Below(b, c)
    ensures Below(a, c)
  {
    if a != [] && a[0] == b[0] == c[0] {
      BelowTransitive(a[1..], b[1..], c[1..]);
    }
  }

  lemma {:induction false} BelowTotal(a: string, b: string)
    ensures a == b || Below(a, b) || Below(b, a)
  {
    if a != [] && b != [] && a[0] == b[0] {
      BelowTotal(a[1..], b[1..]);
      assert a == [a[0]] + a[1..] && b == [b[0]] + b[1..];
    }
  }

  ghost predicate Increasing(s: seq<string>) {
    forall i, j :: 0 <= i < j < |s| ==> Below(s[i], s[j])
  }

  /** Two strictly increasing listings of the same elements are the same listing. */
  lemma {:induction false} IncreasingUnique(s: seq<string>, t: seq<string>)
    requires Increasing(s) && Increasing(t)
    requires forall x :: x in s <==> x in t
    ensures s == t
  {
    if s == [] {
      assert forall k :: 0 <= k < |t| ==> t[k] in t;
    } else {
      assert s[0] in t;
      var j :| 0 <= j < |t| && t[j] == s[0];
      assert t[0] in s;
      var i :| 0 <= i < |s| && s[i] == t[0];
      if i != 0 && j != 0 {
        assert Below(s[0], s[i]) && Below(t[0], t[j]);
        BelowTransitive(s[0], s[i], s[0]);
        BelowIrreflexive(s[0]);
      }
      assert s[0] == t[0];
      forall x ensures x in s[1..] <==> x in t[1..] {
        if x in s[1..] { IncreasingTail(s, x); assert x in s && x in t; assert t == [t[0]] + t[1..]; }
        if x in t[1..] { IncreasingTail(t, x); assert x in t && x in s; assert s == [s[0]] + s[1..]; }
      }
      IncreasingUnique(s[1..], t[1..]);
      assert s == [s[0]] + s[1..] && t == [t[0]] + t[1..];
    }
  }

  lemma IncreasingTail(s: seq<string>, x: string)
    requires s != [] && Increasing(s) && x in s[1..]
    ensures x != s[0]
  {
    var k :| 0 <= k < |s[1..]| && s[1..][k] == x;
    assert s[k + 1] == x && Below(s[0], s[k + 1]);
    BelowIrreflexive(x);
  }

  lemma InsertIncreasing(s: seq<string>, k: nat, x: string)
    requires Increasing(s) && k <= |s| && (k < |s| ==> Below(x, s[k])) && forall i :: 0 <= i < k ==> Below(s[i], x)
    ensures Increasing(s[..k] + [x] + s[k..])
    ensures forall y :: y in s[..k] + [x] + s[k..] <==> y in s || y == x
  {
    forall j | k < j < |s| ensures Below(x, s[j]) {
      BelowTransitive(x, s[k], s[j]);
    }
    var t := s[..k] + [x] + s[k..];
    assert forall i :: 0 <= i < |t| ==> t[i] == if i < k then s[i] else if i == k then x else s[i - 1];
    assert s == s[..k] + s[k..];
  }

  /** Lists a set of texts in increasing order, as an ordered map or a sort does. */
  method Sort(items: set<string>) returns (r: seq<string>)
    ensures Increasing(r)
    ensures forall x :: x in r <==> x in items
    ensures |r| == |items|
  {
    r := [];
    var todo := items;
    while todo != {}
      invariant todo <= items
      invariant Increasing(r)
      invariant forall x :: x in r <==> x in items && x !in todo
      invariant |r| + |todo| == |items|
      decreases |todo|
    {
      var x :| x in todo;
      var k := 0;
      while k < |r| && Below(r[k], x)
        invariant 0 <= k <= |r|
        invariant forall i :: 0 <= i < k ==> Below(r[i], x)
      {
        k := k + 1;
      }
      if k < |r| {
        assert r[k] in r;
        BelowTotal(r[k], x);
      }
      InsertIncreasing(r, k, x);
      r := r[..k] + [x] + r[k..];
      todo := todo - {x};
    }
  }
}
