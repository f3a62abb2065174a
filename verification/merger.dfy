/** The fan-in step `collectAggregates` (main.go): every counter of a worker's
    table is folded into the global table with
    `total.get(ex).get(routingKey).add(stat.Count, stat.BodySize, stat.BodySize)`.
    The max candidate passed is the local `BodySize`, not the local `MaxSize`;
    the model keeps that. */
module Merger {

  import opened RoutingStats
  import opened Tables

  /** How one local counter is folded into a global one. */
  function MergeStat(acc: RoutingStat, st: RoutingStat): RoutingStat
  {
    Add(acc, st.count, st.bodySize, st.bodySize)
  }

  /** Exchanges that hold at least one routing key. Only these reach the
      inner loop of `collectAggregates`, so only these can be created in the
      global table. */
  function Occupied(t: ExchangeStats): set<string>
  {
    set x | x in t && t[x] != map[]
  }

  lemma OccupiedHas(t: ExchangeStats, x: string)
    ensures x in Occupied(t) <==> exists j :: Has(t, x, j)
  {
    if x in Occupied(t) {
      var j :| j in t[x];
      assert Has(t, x, j);
    }
  }

  function KeysAt(t: ExchangeStats, x: string): set<string>
  {
    if x in t then t[x].Keys else {}
  }

  /** The merge stated tag by tag, independent of any iteration order: the
      reference that `CollectAggregates` is proved to compute. */
  function Merged(g: ExchangeStats, l: ExchangeStats): (r: ExchangeStats)
    ensures r.Keys == g.Keys + Occupied(l)
    ensures forall x, j :: Has(r, x, j) <==> Has(g, x, j) || Has(l, x, j)
    ensures forall x, j :: Lookup(r, x, j) == (if Has(l, x, j) then MergeStat(Lookup(g, x, j), l[x][j]) else Lookup(g, x, j))
  {
    var r := map x | x in g.Keys + Occupied(l) ::
      map j | j in KeysAt(g, x) + KeysAt(l, x) ::
        if Has(l, x, j) then MergeStat(Lookup(g, x, j), l[x][j]) else Lookup(g, x, j);
    assert forall x :: x in Occupied(l) ==> x in l;
    r
  }

  /** `l` with one more counter: what the merge loop has consumed so far. */
  function Insert(d: ExchangeStats, x: string, j: string, st: RoutingStat): (r: ExchangeStats)
    ensures r.Keys == d.Keys + {x}
    ensures Occupied(r) == Occupied(d) + {x}
    ensures forall y, i :: Has(r, y, i) <==> Has(d, y, i) || (y == x && i == j)
    ensures forall y, i :: Lookup(r, y, i) == (if y == x && i == j then st else Lookup(d, y, i))
  {
    var r := d[x := (if x in d then d[x] else map[])[j := st]];
    assert x in Occupied(r) by {
      assert j in r[x];
    }
    r
  }

  /** Folding one more local counter into the global table keeps it equal to
      the reference merge of what has been consumed. */
  lemma MergedStep(g: ExchangeStats, d: ExchangeStats, x: string, j: string, st: RoutingStat)
    requires !Has(d, x, j)
    ensures ApplyAdd(Merged(g, d), x, j, st.count, st.bodySize, st.bodySize) == Merged(g, Insert(d, x, j, st))
  {
    var m := Merged(g, d);
    var a := ApplyAdd(m, x, j, st.count, st.bodySize, st.bodySize);
    var b := Merged(g, Insert(d, x, j, st));
    var d1 := Insert(d, x, j, st);
    ApplyAddPointwise(m, x, j, st.count, st.bodySize, st.bodySize);
    assert a.Keys == b.Keys;
    forall y, i
      ensures Has(a, y, i) <==> Has(b, y, i)
    {
      assert Has(a, y, i) <==> Has(m, y, i) || (y == x && i == j);
      assert Has(b, y, i) <==> Has(g, y, i) || Has(d1, y, i);
    }
    forall y, i
      ensures Lookup(a, y, i) == Lookup(b, y, i)
    {
      if y == x && i == j {
        assert Lookup(a, y, i) == Add(Lookup(m, x, j), st.count, st.bodySize, st.bodySize);
        assert Lookup(m, x, j) == Lookup(g, x, j);
      } else {
        assert Lookup(a, y, i) == Lookup(m, y, i);
        assert Lookup(d1, y, i) == Lookup(d, y, i);
        assert Has(d1, y, i) <==> Has(d, y, i);
      }
    }
    TableEquality(a, b);
  }

  /** The reference merge depends only on the tags and counters of the
      local table. */
  lemma MergedCongruence(g: ExchangeStats, a: ExchangeStats, b: ExchangeStats)
    requires forall x, j :: Has(a, x, j) <==> Has(b, x, j)
    requires forall x, j :: Lookup(a, x, j) == Lookup(b, x, j)
    ensures Merged(g, a) == Merged(g, b)
  {
    forall x
      ensures x in Occupied(a) <==> x in Occupied(b)
    {
      OccupiedHas(a, x);
      OccupiedHas(b, x);
    }
    var ma := Merged(g, a);
    var mb := Merged(g, b);
    forall y, i
      ensures Has(ma, y, i) <==> Has(mb, y, i)
    {
    }
    forall y, i
      ensures Lookup(ma, y, i) == Lookup(mb, y, i)
    {
      if Has(a, y, i) {
        assert Lookup(a, y, i) == a[y][i] && Lookup(b, y, i) == b[y][i];
      }
    }
    TableEquality(ma, mb);
  }

  /** The inner loop of `collectAggregates` for exchange `x`: each of its
      local counters, in any order, is folded into the global table. `done`
      records the local counters consumed so far. */
  method MergeExchange(g: ExchangeStats, l: ExchangeStats, x: string, ghost exchanges: set<string>,
                       r0: ExchangeStats, ghost done0: ExchangeStats)
    returns (r: ExchangeStats, ghost done: ExchangeStats)
    requires x in exchanges && exchanges <= l.Keys
    requires forall y, i :: Has(done0, y, i) <==> Has(l, y, i) && y !in exchanges
    requires forall y, i :: Lookup(done0, y, i) == (if Has(done0, y, i) then Lookup(l, y, i) else Zero)
    requires r0 == Merged(g, done0)
    ensures forall y, i :: Has(done, y, i) <==> Has(l, y, i) && y !in exchanges - {x}
    ensures forall y, i :: Lookup(done, y, i) == (if Has(done, y, i) then Lookup(l, y, i) else Zero)
    ensures r == Merged(g, done)
  {
    r, done := r0, done0;
    var keys := l[x].Keys;
    while keys != {}
      invariant keys <= l[x].Keys
      invariant forall y, i :: Has(done, y, i) <==> Has(l, y, i) && (y !in exchanges || (y == x && i !in keys))
      invariant forall y, i :: Lookup(done, y, i) == (if Has(done, y, i) then Lookup(l, y, i) else Zero)
      invariant r == Merged(g, done)
      decreases keys
    {
      var j :| j in keys;
      var st := l[x][j];
      MergedStep(g, done, x, j, st);
      r := ApplyAdd(r, x, j, st.count, st.bodySize, st.bodySize);
      done := Insert(done, x, j, st);
      keys := keys - {j};
    }
  }

  /** `collectAggregates` as written: nested ranges over the local table, in
      whatever order Go's map iteration yields (any remaining key may be
      picked next), each counter folded in with its `BodySize` as the max
      candidate. Whatever the order, the result is the reference merge: every
      local counter's count and size are added to the matching global counter,
      global counters without a local counterpart are unchanged, and the
      global exchanges become the union of both sides' occupied exchanges. */
  method CollectAggregates(g: ExchangeStats, l: ExchangeStats) returns (r: ExchangeStats)
    ensures r == Merged(g, l)
    ensures r.Keys == g.Keys + Occupied(l)
    ensures forall x, j :: Has(r, x, j) <==> Has(g, x, j) || Has(l, x, j)
    ensures forall x, j :: Has(l, x, j) ==>
      && Lookup(r, x, j).count == Lookup(g, x, j).count + l[x][j].count
      && Lookup(r, x, j).bodySize == Lookup(g, x, j).bodySize + l[x][j].bodySize
      && Lookup(r, x, j).maxSize == Max(Lookup(g, x, j).maxSize, l[x][j].bodySize)
    ensures forall x, j :: !Has(l, x, j) ==> Lookup(r, x, j) == Lookup(g, x, j)
  {
    r := g;
    ghost var done: ExchangeStats := map[];
    assert Merged(g, done) == g by {
      TableEquality(Merged(g, done), g);
    }
    var exchanges := l.Keys;
    while exchanges != {}
      invariant exchanges <= l.Keys
      invariant forall y, i :: Has(done, y, i) <==> Has(l, y, i) && y !in exchanges
      invariant forall y, i :: Lookup(done, y, i) == (if Has(done, y, i) then Lookup(l, y, i) else Zero)
      invariant r == Merged(g, done)
      decreases exchanges
    {
      var x :| x in exchanges;
      r, done := MergeExchange(g, l, x, exchanges, r, done);
      exchanges := exchanges - {x};
    }
    MergedCongruence(g, done, l);
  }

  /** Merging a just-reset (empty) worker table is a no-op. */
  lemma MergeEmptyIsNoOp(g: ExchangeStats)
    ensures Merged(g, map[]) == g
  {
    TableEquality(Merged(g, map[]), g);
  }

  /** Merging a table whose counters are all zero changes no counter: at
      most it creates zero counters for tags that were absent. */
  lemma MergeZeroCounters(g: ExchangeStats, l: ExchangeStats)
    requires forall x, j :: Has(l, x, j) ==> l[x][j] == Zero
    ensures forall x, j :: Lookup(Merged(g, l), x, j) == Lookup(g, x, j)
  {
  }

  /** One tag of the two merge orders. */
  lemma MergedCommutesAt(g: ExchangeStats, a: ExchangeStats, b: ExchangeStats, x: string, j: string)
    ensures Has(Merged(Merged(g, a), b), x, j) <==> Has(Merged(Merged(g, b), a), x, j)
    ensures Lookup(Merged(Merged(g, a), b), x, j) == Lookup(Merged(Merged(g, b), a), x, j)
  {
    var s0 := Lookup(g, x, j);
    var ga := Merged(g, a);
    var gb := Merged(g, b);
    if Has(a, x, j) && Has(b, x, j) {
      var sa := a[x][j];
      var sb := b[x][j];
      assert Lookup(ga, x, j) == MergeStat(s0, sa);
      assert Lookup(gb, x, j) == MergeStat(s0, sb);
      AddCommutes(s0, sa.count, sa.bodySize, sa.bodySize, sb.count, sb.bodySize, sb.bodySize);
    }
  }

  lemma MergedCommutesPointwise(g: ExchangeStats, a: ExchangeStats, b: ExchangeStats)
    ensures forall x, j :: Has(Merged(Merged(g, a), b), x, j) <==> Has(Merged(Merged(g, b), a), x, j)
    ensures forall x, j :: Lookup(Merged(Merged(g, a), b), x, j) == Lookup(Merged(Merged(g, b), a), x, j)
  {
    forall x, j
      ensures Has(Merged(Merged(g, a), b), x, j) <==> Has(Merged(Merged(g, b), a), x, j)
      ensures Lookup(Merged(Merged(g, a), b), x, j) == Lookup(Merged(Merged(g, b), a), x, j)
    {
      MergedCommutesAt(g, a, b, x, j);
    }
  }

  /** Two worker tables merged in either order give the same global table. */
  lemma MergedCommutes(g: ExchangeStats, a: ExchangeStats, b: ExchangeStats)
    ensures Merged(Merged(g, a), b) == Merged(Merged(g, b), a)
  {
    MergedCommutesPointwise(g, a, b);
    TableEquality(Merged(Merged(g, a), b), Merged(Merged(g, b), a));
  }

  /** The merger's loop over the tables it receives, in arrival order. */
  function MergeAll(g: ExchangeStats, ls: seq<ExchangeStats>): ExchangeStats
    decreases |ls|
  {
    if ls == [] then g else MergeAll(Merged(g, ls[0]), ls[1..])
  }

  /** The largest value of one field of a tag's counter over a sequence of
      tables, 0 when there are none. */
  function TagMax(ls: seq<ExchangeStats>, e: string, k: string, f: RoutingStat -> nat): nat
  {
    if ls == [] then 0 else Max(f(Lookup(ls[0], e, k)), TagMax(ls[1..], e, k, f))
  }

  /** After merging any sequence of worker tables, a tag's count and size are
      the global starting values plus the sums over the tables, and its
      maximum is the largest of the starting maximum and the tables' body
      sizes for that tag. */
  lemma {:induction false} MergeAllTotals(g: ExchangeStats, ls: seq<ExchangeStats>, e: string, k: string)
    ensures Lookup(MergeAll(g, ls), e, k).count == Lookup(g, e, k).count + TagSum(ls, e, k, CountOf)
    ensures Lookup(MergeAll(g, ls), e, k).bodySize == Lookup(g, e, k).bodySize + TagSum(ls, e, k, BytesOf)
    ensures Lookup(MergeAll(g, ls), e, k).maxSize == Max(Lookup(g, e, k).maxSize, TagMax(ls, e, k, BytesOf))
    decreases |ls|
  {
    if ls != [] {
      var g1 := Merged(g, ls[0]);
      MergeAllTotals(g1, ls[1..], e, k);
      assert Lookup(g1, e, k).count == Lookup(g, e, k).count + CountOf(Lookup(ls[0], e, k));
      assert Lookup(g1, e, k).bodySize == Lookup(g, e, k).bodySize + BytesOf(Lookup(ls[0], e, k));
      assert Lookup(g1, e, k).maxSize == Max(Lookup(g, e, k).maxSize, BytesOf(Lookup(ls[0], e, k)));
    }
  }

  lemma {:induction false} MergeAllMoveToFront(g: ExchangeStats, p: seq<ExchangeStats>, x: ExchangeStats, q: seq<ExchangeStats>)
    ensures MergeAll(g, p + [x] + q) == MergeAll(g, [x] + p + q)
    decreases |p|
  {
    if p != [] {
      var p0 := p[0];
      var p1 := p[1..];
      assert p + [x] + q == [p0] + (p1 + [x] + q);
      assert [x] + p + q == [x] + ([p0] + p1 + q);
      MergeAllMoveToFront(Merged(g, p0), p1, x, q);
      assert ([x] + p1 + q)[1..] == p1 + q;
      MergedCommutes(g, p0, x);
      assert ([p0] + p1 + q)[1..] == p1 + q;
    }
  }

  /** Taking the same element out of two permutations of each other leaves
      permutations of each other. */
  lemma PermutationRemove<T>(a: seq<T>, b: seq<T>, j: int)
    requires multiset(a) == multiset(b)
    requires a != [] && 0 <= j < |b| && b[j] == a[0]
    ensures multiset(a[1..]) == multiset(b[..j] + b[j + 1..])
  {
    assert a == [a[0]] + a[1..];
    assert b == b[..j] + [b[j]] + b[j + 1..];
    assert multiset(a) == multiset([a[0]]) + multiset(a[1..]);
    assert multiset(b) == multiset(b[..j]) + multiset([b[j]]) + multiset(b[j + 1..]);
    assert multiset(b[..j] + b[j + 1..]) == multiset(b[..j]) + multiset(b[j + 1..]);
    assert multiset(a[1..]) == multiset(a) - multiset([a[0]]);
    assert multiset(b[..j] + b[j + 1..]) == multiset(b) - multiset([b[j]]);
  }

  lemma PermutationFind<T>(a: seq<T>, b: seq<T>) returns (j: int)
    requires multiset(a) == multiset(b) && a != []
    ensures 0 <= j < |b| && b[j] == a[0]
  {
    assert a[0] in multiset(a);
    assert a[0] in b;
    j :| 0 <= j < |b| && b[j] == a[0];
  }

  /** The order in which the merger receives worker tables does not matter:
      any permutation of the same tables yields the same global table. */
  lemma {:induction false} MergeAllPermutation(g: ExchangeStats, a: seq<ExchangeStats>, b: seq<ExchangeStats>)
    requires multiset(a) == multiset(b)
    ensures MergeAll(g, a) == MergeAll(g, b)
    decreases |a|
  {
    if a == [] {
      assert |multiset(b)| == 0;
    } else {
      var x := a[0];
      var j := PermutationFind(a, b);
      var p := b[..j];
      var q := b[j + 1..];
      assert b == p + [x] + q;
      MergeAllMoveToFront(g, p, x, q);
      assert ([x] + p + q)[1..] == p + q;
      PermutationRemove(a, b, j);
      MergeAllPermutation(Merged(g, x), a[1..], p + q);
    }
  }

  /** Merging `Live` worker tables into a `Live` global table keeps it `Live`. */
  lemma MergedLive(g: ExchangeStats, l: ExchangeStats)
    requires Live(g) && Live(l)
    ensures Live(Merged(g, l))
  {
    var r := Merged(g, l);
    forall x | x in r
      ensures r[x] != map[]
    {
      if x in g {
        var j :| j in g[x];
        assert Has(r, x, j);
      } else {
        var j :| j in l[x];
        assert Has(r, x, j);
      }
    }
  }

  lemma {:induction false} MergeAllLive(g: ExchangeStats, ls: seq<ExchangeStats>)
    requires Live(g) && forall i :: 0 <= i < |ls| ==> Live(ls[i])
    ensures Live(MergeAll(g, ls))
    decreases |ls|
  {
    if ls != [] {
      MergedLive(g, ls[0]);
      MergeAllLive(Merged(g, ls[0]), ls[1..]);
    }
  }
}
