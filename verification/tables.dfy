/** Sums over finite sets of names, independent of any enumeration order. */
module Sums {

  /** The sum of `f` over `s`, in no particular order. */
  ghost function SumOver(s: set<string>, f: string -> nat): nat
    decreases s
  {
    if s == {} then 0
    else
      var x :| x in s;
      f(x) + SumOver(s - {x}, f)
  }

  /** Any element can be taken out first. */
  lemma {:induction false} SumOverRemove(s: set<string>, f: string -> nat, y: string)
    requires y in s
    ensures SumOver(s, f) == f(y) + SumOver(s - {y}, f)
    decreases s
  {
    var x :| x in s && SumOver(s, f) == f(x) + SumOver(s - {x}, f);
    if x != y {
      SumOverRemove(s - {x}, f, y);
      SumOverRemove(s - {y}, f, x);
      assert s - {x} - {y} == s - {y} - {x};
    }
  }

  /** The sum of `f` over a sequence, first element first. */
  function SeqSum(es: seq<string>, f: string -> nat): nat
  {
    if es == [] then 0 else f(es[0]) + SeqSum(es[1..], f)
  }

  predicate Distinct(es: seq<string>)
  {
    forall i, j :: 0 <= i < j < |es| ==> es[i] != es[j]
  }

  /** Summing along any duplicate-free listing of a set gives the set's sum. */
  lemma {:induction false} SeqSumIsSumOver(es: seq<string>, s: set<string>, f: string -> nat)
    requires Distinct(es)
    requires forall x :: x in es <==> x in s
    ensures SeqSum(es, f) == SumOver(s, f)
    decreases es
  {
    if es == [] {
      assert s == {};
    } else {
      assert es[0] in es;
      SumOverRemove(s, f, es[0]);
      forall x
        ensures x in es[1..] <==> x in s - {es[0]}
      {
        if x in es[1..] {
          var i :| 0 <= i < |es| - 1 && es[1..][i] == x;
          assert es[i + 1] == x;
        }
        if x in s - {es[0]} {
          var i :| 0 <= i < |es| && es[i] == x;
          assert es[1..][i - 1] == x;
        }
      }
      SeqSumIsSumOver(es[1..], s - {es[0]}, f);
    }
  }
}

/** The two-level table `ExchangeStats` -> `MsgStats` -> `RoutingStat` of
    types.go, as immutable maps. Go mutates through pointers; here every
    operation returns the updated table. */
module Tables {

  import opened RoutingStats
  import opened KeyOrder
  import opened Sums

  /** `MsgStats`: routing key -> counter. */
  type MsgStats = map<string, RoutingStat>

  /** `ExchangeStats`: exchange -> routing-key table. */
  type ExchangeStats = map<string, MsgStats>

  /** The table holds a counter for the tag (exchange `e`, routing key `k`). */
  predicate Has(t: ExchangeStats, e: string, k: string)
  {
    e in t && k in t[e]
  }

  /** The counter for a tag, or the zero counter when the tag is absent. */
  function Lookup(t: ExchangeStats, e: string, k: string): RoutingStat
  {
    if Has(t, e, k) then t[e][k] else Zero
  }

  /** `MsgStats.get`: the existing counter for `k`, or a fresh zero counter
      that is inserted under `k`. Returns the counter and the table after the
      call. */
  function GetStat(ms: MsgStats, k: string): (r: (RoutingStat, MsgStats))
    ensures k in r.1 && r.1[k] == r.0
    ensures k in ms ==> r.0 == ms[k]
    ensures k !in ms ==> r.0 == Zero
    ensures r.1.Keys == ms.Keys + {k}
    ensures forall j :: j in ms ==> r.1[j] == ms[j]
  {
    if k in ms then (ms[k], ms) else (Zero, ms[k := Zero])
  }

  /** `ExchangeStats.get`: the existing routing-key table for `e`, or a fresh
      empty one that is inserted under `e`. */
  function GetExchange(t: ExchangeStats, e: string): (r: (MsgStats, ExchangeStats))
    ensures e in r.1 && r.1[e] == r.0
    ensures e in t ==> r.0 == t[e]
    ensures e !in t ==> r.0 == map[]
    ensures r.1.Keys == t.Keys + {e}
    ensures forall x :: x in t ==> r.1[x] == t[x]
  {
    if e in t then (t[e], t) else (map[], t[e := map[]])
  }

  /** A second `get` of the same key finds what the first one returned and
      changes nothing more. */
  lemma GetStatIdempotent(ms: MsgStats, k: string)
    ensures GetStat(GetStat(ms, k).1, k) == (GetStat(ms, k).0, GetStat(ms, k).1)
  {
  }

  lemma GetExchangeIdempotent(t: ExchangeStats, e: string)
    ensures GetExchange(GetExchange(t, e).1, e) == (GetExchange(t, e).0, GetExchange(t, e).1)
  {
  }

  /** `t.get(e).get(k).add(count, msgSize, maxSize)`: both accessors create
      what is missing, then the counter is updated through the pointer, which
      the functional model writes back into both levels. */
  function ApplyAdd(t: ExchangeStats, e: string, k: string, count: nat, msgSize: nat, maxSize: nat): (r: ExchangeStats)
    ensures r.Keys == t.Keys + {e}
    ensures forall x :: x in t && x != e ==> r[x] == t[x]
    ensures r[e].Keys == (if e in t then t[e].Keys else {}) + {k}
    ensures forall j :: j in r[e] && j != k ==> r[e][j] == t[e][j]
    ensures Has(r, e, k) && r[e][k] == Add(Lookup(t, e, k), count, msgSize, maxSize)
  {
    var (ms, t1) := GetExchange(t, e);
    var (st, ms1) := GetStat(ms, k);
    t1[e := ms1[k := Add(st, count, msgSize, maxSize)]]
  }

  /** `ApplyAdd` seen tag by tag: the one tag is updated, every other tag is
      present exactly when it was and keeps its counter. */
  lemma ApplyAddPointwise(t: ExchangeStats, e: string, k: string, count: nat, msgSize: nat, maxSize: nat)
    ensures forall x, j :: Has(ApplyAdd(t, e, k, count, msgSize, maxSize), x, j) <==> Has(t, x, j) || (x == e && j == k)
    ensures forall x, j :: Lookup(ApplyAdd(t, e, k, count, msgSize, maxSize), x, j) == (if x == e && j == k then Add(Lookup(t, e, k), count, msgSize, maxSize) else Lookup(t, x, j))
  {
  }

  /** Two tables with the same tags and the same counters are equal, as long
      as neither keeps an exchange without routing keys apart from the other. */
  lemma TableEquality(a: ExchangeStats, b: ExchangeStats)
    requires a.Keys == b.Keys
    requires forall x, j :: Has(a, x, j) <==> Has(b, x, j)
    requires forall x, j :: Lookup(a, x, j) == Lookup(b, x, j)
    ensures a == b
  {
    forall x | x in a
      ensures a[x] == b[x]
    {
      assert a[x].Keys == b[x].Keys by {
        forall j ensures j in a[x] <==> j in b[x] {
          assert Has(a, x, j) <==> Has(b, x, j);
        }
      }
      forall j | j in a[x]
        ensures a[x][j] == b[x][j]
      {
        assert Has(a, x, j) && Has(b, x, j);
        assert Lookup(a, x, j) == Lookup(b, x, j);
      }
    }
  }

  /** Every exchange has at least one routing key and every counter has
      counted at least one message: what lazy creation alongside an `add` of a
      positive count leaves behind. */
  ghost predicate Live(t: ExchangeStats)
  {
    && (forall x :: x in t ==> t[x] != map[])
    && (forall x, j :: Has(t, x, j) ==> t[x][j].count > 0)
  }

  /** The weight of one exchange in the snapshot list: its routing keys plus
      its subtotal row. */
  function RowWeight(t: ExchangeStats): string -> nat
  {
    x => if x in t then |t[x]| + 1 else 0
  }

  /** The order-free reference for `countOfRoutingKeys`. */
  ghost function RowCount(t: ExchangeStats): nat
  {
    SumOver(t.Keys, RowWeight(t))
  }

  /** `countOfRoutingKeys`: Go ranges over the map in an unspecified order,
      modelled by picking any remaining exchange at each step. The result is
      the number of routing keys plus one subtotal row per exchange. */
  method CountOfRoutingKeys(t: ExchangeStats) returns (n: nat)
    ensures n == RowCount(t)
  {
    n := 0;
    var rest := t.Keys;
    while rest != {}
      invariant rest <= t.Keys
      invariant n + SumOver(rest, RowWeight(t)) == RowCount(t)
      decreases rest
    {
      var x :| x in rest;
      SumOverRemove(rest, RowWeight(t), x);
      n := n + |t[x]| + 1;
      rest := rest - {x};
    }
  }

  /** The listing order does not matter: summing the weights along the sorted
      exchange names gives the same count. */
  lemma RowCountSorted(t: ExchangeStats)
    ensures SeqSum(SortedKeys(t), RowWeight(t)) == RowCount(t)
  {
    var es := SortedKeys(t);
    forall i, j | 0 <= i < j < |es|
      ensures es[i] != es[j]
    {
      BelowIrreflexive(es[i]);
      assert BelowAt(es, i, j);
    }
    SeqSumIsSumOver(es, t.Keys, RowWeight(t));
  }

  function CountOf(st: RoutingStat): nat { st.count }

  function BytesOf(st: RoutingStat): nat { st.bodySize }

  /** The sum, over a sequence of tables, of one field of a tag's counter. */
  function TagSum(ls: seq<ExchangeStats>, e: string, k: string, f: RoutingStat -> nat): nat
  {
    if ls == [] then 0 else f(Lookup(ls[0], e, k)) + TagSum(ls[1..], e, k, f)
  }

  lemma {:induction false} TagSumConcat(a: seq<ExchangeStats>, b: seq<ExchangeStats>, e: string, k: string, f: RoutingStat -> nat)
    ensures TagSum(a + b, e, k, f) == TagSum(a, e, k, f) + TagSum(b, e, k, f)
    decreases a
  {
    if a != [] {
      assert (a + b)[1..] == a[1..] + b;
      TagSumConcat(a[1..], b, e, k, f);
    } else {
      assert a + b == b;
    }
  }
}
