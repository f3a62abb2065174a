/** The whole pipeline: several consumers, each running its own event
    sequence and handing tables over on its ticks, and one merger folding the
    tables in whatever order they reach it into the global table that every
    snapshot reads. The global table is never reset. */
module Pipeline {

  import opened Options
  import opened RoutingStats
  import opened KeyOrder
  import opened Tables
  import opened Worker
  import opened Merger
  import opened Snapshots
  import opened Flattening

  /** A worker's events are flushed when nothing arrived after its last tick. */
  predicate Flushed(evs: seq<Event>)
  {
    evs == [] || evs[|evs| - 1] == Tick
  }

  /** Every table handed over by the workers, worker by worker. */
  function Sent(evss: seq<seq<Event>>): seq<ExchangeStats>
  {
    if evss == [] then [] else Run(Fresh, evss[0]).sent + Sent(evss[1..])
  }

  /** The number of messages tagged (e, k) delivered to all the workers. */
  function Deliveries(evss: seq<seq<Event>>, e: string, k: string): nat
  {
    if evss == [] then 0 else |Sizes(evss[0], e, k)| + Deliveries(evss[1..], e, k)
  }

  /** Their total body length. */
  function DeliveredBytes(evss: seq<seq<Event>>, e: string, k: string): nat
  {
    if evss == [] then 0 else NatSum(Sizes(evss[0], e, k)) + DeliveredBytes(evss[1..], e, k)
  }

  /** A flushed worker has handed over everything it received. */
  lemma FlushedWorkerTotals(evs: seq<Event>, e: string, k: string)
    requires Flushed(evs)
    ensures TagSum(Run(Fresh, evs).sent, e, k, CountOf) == |Sizes(evs, e, k)|
    ensures TagSum(Run(Fresh, evs).sent, e, k, BytesOf) == NatSum(Sizes(evs, e, k))
  {
    Conservation(Fresh, evs, e, k);
    if evs != [] {
      TickEmitsAndResets(Fresh, evs);
    }
  }

  lemma {:induction false} SentTotals(evss: seq<seq<Event>>, e: string, k: string)
    requires forall w :: 0 <= w < |evss| ==> Flushed(evss[w])
    ensures TagSum(Sent(evss), e, k, CountOf) == Deliveries(evss, e, k)
    ensures TagSum(Sent(evss), e, k, BytesOf) == DeliveredBytes(evss, e, k)
    decreases |evss|
  {
    if evss != [] {
      SentTotals(evss[1..], e, k);
      FlushedWorkerTotals(evss[0], e, k);
      TagSumConcat(Run(Fresh, evss[0]).sent, Sent(evss[1..]), e, k, CountOf);
      TagSumConcat(Run(Fresh, evss[0]).sent, Sent(evss[1..]), e, k, BytesOf);
    }
  }

  /** Once every worker has flushed and the merger has received every table,
      in any order, the global counter of each tag holds exactly the number of
      messages delivered with that tag and their total body length. */
  lemma EndToEnd(evss: seq<seq<Event>>, arrivals: seq<ExchangeStats>, e: string, k: string)
    requires forall w :: 0 <= w < |evss| ==> Flushed(evss[w])
    requires multiset(arrivals) == multiset(Sent(evss))
    ensures Lookup(MergeAll(map[], arrivals), e, k).count == Deliveries(evss, e, k)
    ensures Lookup(MergeAll(map[], arrivals), e, k).bodySize == DeliveredBytes(evss, e, k)
  {
    MergeAllPermutation(map[], arrivals, Sent(evss));
    MergeAllTotals(map[], Sent(evss), e, k);
    SentTotals(evss, e, k);
  }

  lemma {:induction false} SentLive(evss: seq<seq<Event>>)
    ensures forall i :: 0 <= i < |Sent(evss)| ==> Live(Sent(evss)[i])
    decreases |evss|
  {
    if evss != [] {
      RunLive(Fresh, evss[0]);
      SentLive(evss[1..]);
      var a := Run(Fresh, evss[0]).sent;
      var b := Sent(evss[1..]);
      forall i | 0 <= i < |a + b|
        ensures Live((a + b)[i])
      {
        if i >= |a| {
          assert (a + b)[i] == b[i - |a|];
        } else {
          assert (a + b)[i] == a[i];
        }
      }
    }
  }

  /** The global table only ever holds live counters, so the unguarded
      snapshot is defined exactly when some message has been delivered. While
      the queue is idle the workers still hand over their empty tables on
      every tick; those leave the global table empty, and the snapshot
      panics. */
  lemma SnapshotDefinedOnceDelivered(evss: seq<seq<Event>>, arrivals: seq<ExchangeStats>)
    requires forall w :: 0 <= w < |evss| ==> Flushed(evss[w])
    requires multiset(arrivals) == multiset(Sent(evss))
    ensures (exists e, k :: Deliveries(evss, e, k) > 0) ==>
      SnapshotAsWritten(MergeAll(map[], arrivals)) == Some(Snapshot(MergeAll(map[], arrivals)))
    ensures (forall e, k :: Deliveries(evss, e, k) == 0) ==>
      SnapshotAsWritten(MergeAll(map[], arrivals)) == None
  {
    var g := MergeAll(map[], arrivals);
    SentLive(evss);
    forall i | 0 <= i < |arrivals|
      ensures Live(arrivals[i])
    {
      assert arrivals[i] in multiset(Sent(evss));
    }
    MergeAllLive(map[], arrivals);
    if exists e, k :: Deliveries(evss, e, k) > 0 {
      var e, k :| Deliveries(evss, e, k) > 0;
      EndToEnd(evss, arrivals, e, k);
      assert Has(g, e, k);
      LiveSnapshotDefined(g);
    }
    if forall e, k :: Deliveries(evss, e, k) == 0 {
      forall x | x in g
        ensures false
      {
        var j :| j in g[x];
        EndToEnd(evss, arrivals, x, j);
      }
      assert g == map[];
      EmptyTableSnapshotPanics();
    }
  }

  /** A worker that has seen only a tick has handed over one empty table. */
  lemma IdleTickSendsEmpty()
    ensures Run(Fresh, [Tick]).sent == [map[]]
  {
    assert [Tick][1..] == [];
  }

  /** Two workers' tables for `ex1/rk1` in the same merge window: three
      messages of at most 150 bytes, and two of at most 80. */
  const WorkerA: ExchangeStats := map["ex1" := map["rk1" := RoutingStat(3, 300, 150)]]
  const WorkerB: ExchangeStats := map["ex1" := map["rk1" := RoutingStat(2, 100, 80)]]

  lemma TwoWorkerFolds()
    ensures TagSum([WorkerA, WorkerB], "ex1", "rk1", CountOf) == 5
    ensures TagSum([WorkerA, WorkerB], "ex1", "rk1", BytesOf) == 400
    ensures TagMax([WorkerA, WorkerB], "ex1", "rk1", BytesOf) == 300
  {
    assert Lookup(WorkerA, "ex1", "rk1") == RoutingStat(3, 300, 150);
    assert Lookup(WorkerB, "ex1", "rk1") == RoutingStat(2, 100, 80);
    assert [WorkerB][1..] == [];
    assert TagSum([WorkerB], "ex1", "rk1", CountOf) == 2;
    assert TagSum([WorkerB], "ex1", "rk1", BytesOf) == 100;
    assert TagMax([WorkerB], "ex1", "rk1", BytesOf) == 100;
    assert [WorkerA, WorkerB][1..] == [WorkerB];
  }

  /** The merger adds counts and sizes but takes each table's total size, not
      its maximum, as the candidate maximum: the global maximum becomes 300,
      the larger window total, although no single message was longer than
      150. */
  lemma TwoWorkerMaximum()
    ensures Lookup(MergeAll(map[], [WorkerA, WorkerB]), "ex1", "rk1") == RoutingStat(5, 400, 300)
  {
    TwoWorkerFolds();
    FreshMergeLookup([WorkerA, WorkerB], "ex1", "rk1");
  }

  /** A tag's counter after merging tables into an empty global table. */
  lemma FreshMergeLookup(ls: seq<ExchangeStats>, e: string, k: string)
    ensures Lookup(MergeAll(map[], ls), e, k)
      == RoutingStat(TagSum(ls, e, k, CountOf), TagSum(ls, e, k, BytesOf), TagMax(ls, e, k, BytesOf))
  {
    MergeAllTotals(map[], ls, e, k);
  }

  /** The `orders` exchange with keys `created` and `cancelled`. */
  const OrdersKeys: MsgStats := map["created" := RoutingStat(10, 1000, 200), "cancelled" := RoutingStat(5, 500, 150)]
  const Orders: ExchangeStats := map["orders" := OrdersKeys]

  lemma OrdersSorted()
    ensures SortedKeys(OrdersKeys) == ["cancelled", "created"]
    ensures SortedKeys(Orders) == ["orders"]
  {
    assert Below("ancelled", "reated");
    AscendingUnique(SortedKeys(OrdersKeys), ["cancelled", "created"]);
    AscendingUnique(SortedKeys(Orders), ["orders"]);
  }

  lemma OrdersKeyRows()
    ensures ExchangeKeyRows(Orders, "orders")
      == [Cancelled, Created]
  {
    OrdersSorted();
  }

  lemma OrdersSubtotal()
    ensures Accumulate(Zero, [Cancelled, Created])
      == RoutingStat(15, 1500, 200)
  {
    var rows := [Cancelled, Created];
    assert rows[1..] == [Created];
    assert Accumulate(Zero, rows) == Accumulate(RoutingStat(5, 500, 150), [Created]);
    assert [Created][1..] == [];
  }

  const Cancelled := Row("orders", "cancelled", RoutingStat(5, 500, 150))
  const Created := Row("orders", "created", RoutingStat(10, 1000, 200))

  lemma LabelTwo()
    ensures SubtotalLabel(2) == "# (2 routing keys)"
  {
    assert Decimal(2) == "2";
  }

  lemma BlockShape(t: ExchangeStats, e: string, kr: seq<Row>, st: RoutingStat)
    requires e in t
    requires ExchangeKeyRows(t, e) == kr
    requires Accumulate(Zero, kr) == st
    ensures Block(t, e) == [Row(e, SubtotalLabel(|kr|), st)] + kr
  {
  }

  lemma OrdersBlock()
    ensures Block(Orders, "orders") == [Row("orders", "# (2 routing keys)", RoutingStat(15, 1500, 200)), Cancelled, Created]
  {
    OrdersKeyRows();
    OrdersSubtotal();
    LabelTwo();
    BlockShape(Orders, "orders", [Cancelled, Created], RoutingStat(15, 1500, 200));
  }

  lemma OrdersTotal()
    ensures TotalRow(Orders, ["orders"]) == Row(TotalExchange, TotalKey, RoutingStat(15, 1500, 200))
  {
    var es := ["orders"];
    OrdersKeyRows();
    OrdersSubtotal();
    assert es[1..] == [];
    assert AllKeyRows(Orders, es[1..]) == [];
    assert AllKeyRows(Orders, es) == ExchangeKeyRows(Orders, "orders") + [];
    assert AllKeyRows(Orders, es) == [Cancelled, Created];
  }

  lemma OrdersLayoutOver()
    ensures LayoutOver(Orders, ["orders"]) == [
      Row(TotalExchange, TotalKey, RoutingStat(15, 1500, 200)),
      Row("orders", "# (2 routing keys)", RoutingStat(15, 1500, 200)),
      Cancelled, Created]
  {
    var es := ["orders"];
    OrdersBlock();
    OrdersTotal();
    assert BlockList(Orders, es) == [Block(Orders, "orders")];
    FlattenSingle(Block(Orders, "orders"));
  }

  /** One exchange `orders` with keys `created` and `cancelled`: the list is
      the grand total, the subtotal "# (2 routing keys)", then `cancelled`
      before `created`; subtotal and grand total agree, summing counts and
      sizes and taking the larger maximum. */
  lemma OrdersLayout()
    ensures Layout(Orders) == [
      Row(TotalExchange, TotalKey, RoutingStat(15, 1500, 200)),
      Row("orders", "# (2 routing keys)", RoutingStat(15, 1500, 200)),
      Row("orders", "cancelled", RoutingStat(5, 500, 150)),
      Row("orders", "created", RoutingStat(10, 1000, 200))]
  {
    OrdersSorted();
    OrdersLayoutOver();
  }
}
