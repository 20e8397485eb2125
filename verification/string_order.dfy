/** Python's ordering of `str` values, and `sorted` applied to a set of keys. */
module StringOrder {

  /** `a < b` on Python strings: code-point lexicographic order, a proper prefix first. */
  predicate Less(a: string, b: string)
    decreases |a|
  {
    if |a| == 0 then |b| > 0
    else if |b| == 0 then false
    else if a[0] != b[0] then a[0] < b[0]
    else Less(a[1..], b[1..])
  }

  lemma LessIrreflexive(a: string)
    ensures !Less(a, a)
    decreases |a|
  {
    if |a| > 0 {
      LessIrreflexive(a[1..]);
    }
  }

  lemma LessAsymmetric(a: string, b: string)
    ensures Less(a, b) ==> !Less(b, a)
    decreases |a|
  {
    if |a| > 0 && |b| > 0 && a[0] == b[0] {
      LessAsymmetric(a[1..], b[1..]);
    }
  }

  lemma LessTransitive(a: string, b: string, c: string)
    requires Less(a, b) && Less(b, c)
    ensures Less(a, c)
    decreases |a|
  {
    if |a| > 0 && a[0] == b[0] && b[0] == c[0] {
      LessTransitive(a[1..], b[1..], c[1..]);
    }
  }

  lemma LessTotal(a: string, b: string)
    ensures a == b || Less(a, b) || Less(b, a)
    decreases |a|
  {
    if |a| > 0 && |b| > 0 && a[0] == b[0] {
      LessTotal(a[1..], b[1..]);
      if a[1..] == b[1..] {
        assert a == [a[0]] + a[1..] && b == [b[0]] + b[1..];
      }
    }
  }

  predicate StrictlySorted(s: seq<string>) {
    forall i, j :: 0 <= i < j < |s| ==> Less(s[i], s[j])
  }

  /** `x` is the smallest element of `s`. */
  predicate IsLeast(x: string, s: set<string>) {
    x in s && forall y :: y in s && y != x ==> Less(x, y)
  }

  lemma {:induction false} LeastExists(s: set<string>)
    requires s != {}
    ensures exists x :: IsLeast(x, s)
    decreases s
  {
    var y :| y in s;
    if s == {y} {
      assert IsLeast(y, s);
    } else {
      LeastExists(s - {y});
      var m :| IsLeast(m, s - {y});
      LessTotal(m, y);
      if Less(m, y) {
        assert IsLeast(m, s);
      } else {
        forall z | z in s && z != y
          ensures Less(y, z)
        {
          if z != m {
            LessTransitive(y, m, z);
          }
        }
        assert IsLeast(y, s);
      }
    }
  }

  lemma LeastUnique(s: set<string>)
    ensures forall x, y :: IsLeast(x, s) && IsLeast(y, s) ==> x == y
  {
    forall x, y | IsLeast(x, s) && IsLeast(y, s)
      ensures x == y
    {
      LessAsymmetric(x, y);
    }
  }

  function Least(s: set<string>): (x: string)
    requires s != {}
    ensures IsLeast(x, s)
  {
    LeastExists(s);
    LeastUnique(s);
    var x :| x in s && IsLeast(x, s); x
  }

  /** `sorted(keys)`: the elements of `s`, least first (see `SortedKeysSorted`). */
  function SortedKeys(s: set<string>): (r: seq<string>)
    ensures |r| == |s|
    ensures forall x :: x in r <==> x in s
    decreases s
  {
    if s == {} then []
    else
      var x := Least(s);
      [x] + SortedKeys(s - {x})
  }

  /** `SortedKeys` lists its elements in strictly increasing order. */
  lemma {:induction false} SortedKeysSorted(s: set<string>)
    ensures StrictlySorted(SortedKeys(s))
    decreases s
  {
    if s != {} {
      var x := Least(s);
      var rest := SortedKeys(s - {x});
      SortedKeysSorted(s - {x});
      assert SortedKeys(s) == [x] + rest;
      forall i, j | 0 <= i < j < |SortedKeys(s)|
        ensures Less(SortedKeys(s)[i], SortedKeys(s)[j])
      {
        if i == 0 {
          assert SortedKeys(s)[j] == rest[j - 1] && rest[j - 1] in s - {x};
        } else {
          assert SortedKeys(s)[i] == rest[i - 1] && SortedKeys(s)[j] == rest[j - 1];
        }
      }
    }
  }

  /** A strictly sorted sequence is determined by its elements. */
  lemma {:induction false} SortedEnumerationUnique(t: seq<string>, u: seq<string>)
    requires StrictlySorted(t) && StrictlySorted(u)
    requires forall x :: x in t <==> x in u
    ensures t == u
    decreases |t|
  {
    if |t| > 0 {
      assert t[0] in u;
    }
    if |u| > 0 {
      assert u[0] in t;
    }
    if |t| > 0 && |u| > 0 {
      if t[0] != u[0] {
        assert t[0] in u;
        var k :| 0 <= k < |u| && u[k] == t[0];
        assert u[0] in t;
        var m :| 0 <= m < |t| && t[m] == u[0];
        assert Less(u[0], t[0]) && Less(t[0], u[0]);
        LessAsymmetric(u[0], t[0]);
      }
      forall x
        ensures x in t[1..] <==> x in u[1..]
      {
        if x in t[1..] {
          var i :| 1 <= i < |t| && t[i] == x;
          LessIrreflexive(t[0]);
          assert x in u && x != u[0];
        }
        if x in u[1..] {
          var i :| 1 <= i < |u| && u[i] == x;
          LessIrreflexive(u[0]);
          assert x in t && x != t[0];
        }
      }
      SortedEnumerationUnique(t[1..], u[1..]);
      assert t == [t[0]] + t[1..] && u == [u[0]] + u[1..];
    }
  }

  /** Any strictly sorted listing of a set's elements is exactly `SortedKeys` of it. */
  lemma SortedKeysCharacterized(s: set<string>, t: seq<string>)
    requires StrictlySorted(t)
    requires forall x :: x in t <==> x in s
    ensures t == SortedKeys(s)
  {
    SortedKeysSorted(s);
    SortedEnumerationUnique(t, SortedKeys(s));
  }
}
