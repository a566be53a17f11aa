/** Python's ordering of `str` values (code point by code point, a proper prefix
    first) and `sorted()` applied to the set of names a directory holds. */
module Ordering {

  /** `a < b` on Python strings. */
  predicate Below(a: string, b: string)
    decreases |a|
  {
    if |a| == 0 then |b| > 0
    else if |b| == 0 then false
    else if a[0] < b[0] then true
    else a[0] == b[0] && Below(a[1..], b[1..])
  }

  lemma {:induction false} BelowIrreflexive(a: string)
    ensures !Below(a, a)
    decreases |a|
  {
    if |a| > 0 {
      BelowIrreflexive(a[1..]);
    }
  }

  lemma {:induction false} BelowTransitive(a: string, b: string, c: string)
    requires Below(a, b) && Below(b, c)
    ensures Below(a, c)
    decreases |a|
  {
    if |a| > 0 && a[0] == b[0] && b[0] == c[0] {
      BelowTransitive(a[1..], b[1..], c[1..]);
    }
  }

  lemma {:induction false} BelowTotal(a: string, b: string)
    ensures a == b || Below(a, b) || Below(b, a)
    decreases |a|
  {
    if |a| > 0 && |b| > 0 && a[0] == b[0] {
      BelowTotal(a[1..], b[1..]);
      if a[1..] == b[1..] {
        assert a == [a[0]] + a[1..] && b == [b[0]] + b[1..];
      }
    }
  }

  /** `m` is the smallest name of `s`. */
  predicate IsLeast(m: string, s: set<string>) {
    m in s && forall x :: x in s && x != m ==> Below(m, x)
  }

  lemma {:induction false} LeastExists(s: set<string>)
    requires s != {}
    ensures exists m :: IsLeast(m, s)
    decreases |s|
  {
    var y :| y in s;
    if s - {y} == {} {
      assert s == {y};
      assert IsLeast(y, s);
    } else {
      LeastExists(s - {y});
      var m :| IsLeast(m, s - {y});
      BelowTotal(m, y);
      if Below(m, y) {
        assert IsLeast(m, s);
      } else {
        forall x | x in s && x != y
          ensures Below(y, x)
        {
          if x != m { BelowTransitive(y, m, x); }
        }
        assert IsLeast(y, s);
      }
    }
  }

  lemma LeastUnique(s: set<string>)
    ensures forall m, m' :: IsLeast(m, s) && IsLeast(m', s) ==> m == m'
  {
    forall m, m' | IsLeast(m, s) && IsLeast(m', s)
      ensures m == m'
    {
      if m != m' {
        BelowTransitive(m, m', m);
        BelowIrreflexive(m);
      }
    }
  }

  predicate StrictlyAscending(r: seq<string>) {
    forall i, j :: 0 <= i < j < |r| ==> Below(r[i], r[j])
  }

  /** `sorted(os.listdir(...))`: the names of the set in ascending order, each once. */
  function SortedNames(s: set<string>): (r: seq<string>)
    ensures StrictlyAscending(r)
    ensures forall x :: x in r <==> x in s
    ensures |r| == |s|
    decreases |s|
  {
    if s == {} then []
    else
      LeastExists(s);
      LeastUnique(s);
      var m :| IsLeast(m, s);
      var rest := SortedNames(s - {m});
      assert forall j :: 0 <= j < |rest| ==> rest[j] in s - {m};
      [m] + rest
  }

  /** Ascending order has no repeated names. */
  lemma AscendingDistinct(r: seq<string>)
    requires StrictlyAscending(r)
    ensures forall i, j :: 0 <= i < |r| && 0 <= j < |r| && i != j ==> r[i] != r[j]
  {
    forall i, j | 0 <= i < |r| && 0 <= j < |r| && i != j
      ensures r[i] != r[j]
    {
      if i < j { BelowIrreflexive(r[i]); } else { BelowIrreflexive(r[j]); }
    }
  }

  /** The sorted listing depends only on which names are present: any ascending
      enumeration of the same names is that listing. */
  lemma {:induction false} AscendingUnique(r: seq<string>, r': seq<string>)
    requires StrictlyAscending(r) && StrictlyAscending(r')
    requires forall x :: x in r <==> x in r'
    ensures r == r'
    decreases |r|
  {
    assert |r| > 0 <==> |r'| > 0 by {
      if |r| > 0 { assert r[0] in r'; }
      if |r'| > 0 { assert r'[0] in r; }
    }
    if |r| > 0 {
      assert r[0] in r && r'[0] in r';
      if r[0] != r'[0] {
        var k :| 0 <= k < |r'| && r'[k] == r[0];
        var k' :| 0 <= k' < |r| && r[k'] == r'[0];
        BelowTransitive(r[0], r'[0], r[0]);
        BelowIrreflexive(r[0]);
      }
      AscendingDistinct(r);
      AscendingDistinct(r');
      assert r == [r[0]] + r[1..] && r' == [r'[0]] + r'[1..];
      forall x ensures x in r[1..] <==> x in r'[1..] {
        if x in r[1..] {
          var i :| 0 <= i < |r[1..]| && r[1..][i] == x;
          assert r[i + 1] == x;
          assert x in r';
        }
        if x in r'[1..] {
          var i :| 0 <= i < |r'[1..]| && r'[1..][i] == x;
          assert r'[i + 1] == x;
          assert x in r;
        }
      }
      AscendingUnique(r[1..], r'[1..]);
    }
  }
}
