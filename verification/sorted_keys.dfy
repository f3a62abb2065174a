/** Lexicographic order on names and the sorted key listing `sortedKeys`
    (types.go). Go's `sort.Strings` compares the UTF-8 bytes of its strings;
    names here are sequences of code points, and UTF-8 byte order coincides
    with code-point order, so the two orders agree. */
module KeyOrder {

  /** `a` sorts strictly before `b`. A proper prefix sorts first. */
  predicate Below(a: string, b: string)
  {
    |b| > 0 && (|a| == 0 || a[0] < b[0] || (a[0] == b[0] && Below(a[1..], b[1..])))
  }

  lemma {:induction false} BelowIrreflexive(a: string)
    ensures !Below(a, a)
  {
    if |a| > 0 {
      BelowIrreflexive(a[1..]);
    }
  }

  lemma {:induction false} BelowAsymmetric(a: string, b: string)
    ensures Below(a, b) ==> !Below(b, a)
  {
    if |a| > 0 && |b| > 0 && a[0] == b[0] {
      BelowAsymmetric(a[1..], b[1..]);
    }
  }

  lemma {:induction false} BelowTransitive(a: string, b: string, c: string)
    requires Below(a, b) && Below(b, c)
    ensures Below(a, c)
  {
    if |a| > 0 && a[0] == b[0] && b[0] == c[0] {
      BelowTransitive(a[1..], b[1..], c[1..]);
    }
  }

  lemma {:induction false} BelowTotal(a: string, b: string)
    ensures a == b || Below(a, b) || Below(b, a)
  {
    if |a| > 0 && |b| > 0 && a[0] == b[0] {
      BelowTotal(a[1..], b[1..]);
      if a[1..] == b[1..] {
        assert a == [a[0]] + a[1..] && b == [b[0]] + b[1..];
      }
    }
  }

  /** `m` is the smallest element of `s`. */
  predicate IsLeast(m: string, s: set<string>)
  {
    m in s && forall x :: x in s && x != m ==> Below(m, x)
  }

  /** Every finite non-empty set of names has a smallest element. */
  lemma {:induction false} LeastExists(s: set<string>)
    requires s != {}
    ensures exists m :: IsLeast(m, s)
    decreases |s|
  {
    var x :| x in s;
    if s != {x} {
      LeastExists(s - {x});
      var m :| IsLeast(m, s - {x});
      BelowTotal(x, m);
      if Below(x, m) {
        forall y | y in s && y != x
          ensures Below(x, y)
        {
          if y != m {
            BelowTransitive(x, m, y);
          }
        }
        assert IsLeast(x, s);
      } else {
        assert IsLeast(m, s);
      }
    } else {
      assert IsLeast(x, s);
    }
  }

  /** The smallest element of a non-empty set of names. */
  function Least(s: set<string>): (m: string)
    requires s != {}
    ensures IsLeast(m, s)
  {
    LeastExists(s);
    forall a, b | IsLeast(a, s) && IsLeast(b, s)
      ensures a == b
    {
      BelowAsymmetric(a, b);
    }
    var m :| IsLeast(m, s);
    m
  }

  /** Element `i` of `r` sorts before element `j`. */
  predicate BelowAt(r: seq<string>, i: nat, j: nat)
    requires i < |r| && j < |r|
  {
    Below(r[i], r[j])
  }

  /** Strictly ascending, hence free of duplicates. */
  predicate Ascending(r: seq<string>)
  {
    forall i, j :: 0 <= i < j < |r| ==> BelowAt(r, i, j)
  }

  /** The keys of a set in ascending order. */
  function SortedSet(s: set<string>): (r: seq<string>)
    ensures |r| == |s|
    ensures forall x :: x in r <==> x in s
    ensures Ascending(r)
    decreases |s|
  {
    if s == {} then []
    else
      var m := Least(s);
      var rest := SortedSet(s - {m});
      forall j | 0 <= j < |rest|
        ensures Below(m, rest[j])
      {
        assert rest[j] in s - {m};
      }
      var r := [m] + rest;
      forall i, j | 0 <= i < j < |r|
        ensures BelowAt(r, i, j)
      {
        if i > 0 {
          assert BelowAt(rest, i - 1, j - 1);
        }
      }
      r
  }

  /** `sortedKeys` of `MsgStats` and of `ExchangeStats`: every key of the map
      exactly once, in strictly ascending order. */
  function SortedKeys<V>(m: map<string, V>): (r: seq<string>)
    ensures |r| == |m|
    ensures forall x :: x in r <==> x in m
    ensures Ascending(r)
  {
    SortedSet(m.Keys)
  }

  /** The first element of an ascending listing sorts before every other element. */
  lemma AscendingHead(a: seq<string>, x: string)
    requires Ascending(a) && x in a && x != a[0]
    ensures Below(a[0], x)
  {
    var i :| 0 <= i < |a| && a[i] == x;
    assert BelowAt(a, 0, i);
  }

  /** Dropping the first element keeps a listing ascending. */
  lemma AscendingTail(a: seq<string>)
    requires Ascending(a) && a != []
    ensures Ascending(a[1..])
  {
    forall i, j | 0 <= i < j < |a| - 1
      ensures BelowAt(a[1..], i, j)
    {
      assert BelowAt(a, i + 1, j + 1);
    }
  }

  /** A strictly ascending listing of a set is unique, so the order in which
      Go's map iteration collects the keys before sorting does not matter. */
  lemma {:induction false} AscendingUnique(a: seq<string>, b: seq<string>)
    requires Ascending(a) && Ascending(b)
    requires forall x :: x in a <==> x in b
    ensures a == b
    decreases |a|
  {
    if a != [] {
      assert a[0] in a;
    }
    if b != [] {
      assert b[0] in b;
    }
    if a != [] && b != [] {
      if a[0] != b[0] {
        AscendingHead(a, b[0]);
        AscendingHead(b, a[0]);
        BelowAsymmetric(a[0], b[0]);
        assert false;
      }
      forall x
        ensures x in a[1..] <==> x in b[1..]
      {
        BelowIrreflexive(x);
        if x in a[1..] {
          var i :| 0 <= i < |a| - 1 && a[1..][i] == x;
          assert a[i + 1] == x;
          assert BelowAt(a, 0, i + 1);
          assert x in a && x in b;
          var k :| 0 <= k < |b| && b[k] == x;
          assert b[1..][k - 1] == x;
        }
        if x in b[1..] {
          var j :| 0 <= j < |b| - 1 && b[1..][j] == x;
          assert b[j + 1] == x;
          assert BelowAt(b, 0, j + 1);
          assert x in b && x in a;
          var k :| 0 <= k < |a| && a[k] == x;
          assert a[1..][k - 1] == x;
        }
      }
      AscendingTail(a);
      AscendingTail(b);
      AscendingUnique(a[1..], b[1..]);
      assert a == [a[0]] + a[1..] && b == [b[0]] + b[1..];
    }
  }
}
