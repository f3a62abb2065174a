/** The pure steps of one consumer goroutine (`consumer`, main.go): a private
    table updated once per delivered message and handed off, then replaced by
    an empty one, on every tick. Channels, `select` and acknowledgements are
    not modelled; the interleaving of deliveries and ticks one worker sees is
    an event sequence. */
module Worker {

  import opened RoutingStats
  import opened Tables

  /** What one worker's `select` can receive: a delivery carrying the body
      length `len(msg.Body)`, or a tick. */
  datatype Event = Delivery(exchange: string, routingKey: string, bodyLength: nat) | Tick

  /** The per-message update: `get(exchange).get(routingKey).add(1, n, n)`. */
  function Receive(t: ExchangeStats, e: string, k: string, n: nat): (r: ExchangeStats)
    ensures Has(r, e, k)
    ensures Lookup(r, e, k).count == Lookup(t, e, k).count + 1
    ensures Lookup(r, e, k).bodySize == Lookup(t, e, k).bodySize + n
    ensures Lookup(r, e, k).maxSize == Max(Lookup(t, e, k).maxSize, n)
    ensures r.Keys == t.Keys + {e}
    ensures forall x, j :: !(x == e && j == k) ==> (Has(r, x, j) <==> Has(t, x, j)) && Lookup(r, x, j) == Lookup(t, x, j)
  {
    ApplyAddPointwise(t, e, k, 1, n, n);
    ApplyAdd(t, e, k, 1, n, n)
  }

  /** A delivery creates at most one counter, and it has count at least 1. */
  lemma ReceiveLive(t: ExchangeStats, e: string, k: string, n: nat)
    requires Live(t)
    ensures Live(Receive(t, e, k, n))
  {
  }

  /** The worker's state: its private table and, in order, every table it
      has handed to the merger so far. */
  datatype WorkerState = WorkerState(table: ExchangeStats, sent: seq<ExchangeStats>)

  /** A worker that has just started: empty table, nothing sent. */
  const Fresh := WorkerState(map[], [])

  /** One turn of the worker's loop. On a tick the whole table is sent as one
      unit and the worker continues with an empty table. */
  function Step(w: WorkerState, ev: Event): (r: WorkerState)
    ensures ev.Tick? ==> r.table == map[] && r.sent == w.sent + [w.table]
    ensures ev.Delivery? ==> r.sent == w.sent
    ensures ev.Delivery? ==> r.table == Receive(w.table, ev.exchange, ev.routingKey, ev.bodyLength)
  {
    match ev
    case Delivery(e, k, n) => WorkerState(Receive(w.table, e, k, n), w.sent)
    case Tick => WorkerState(map[], w.sent + [w.table])
  }

  /** The number of ticks among the events. */
  function Ticks(evs: seq<Event>): nat
  {
    if evs == [] then 0 else (if evs[0].Tick? then 1 else 0) + Ticks(evs[1..])
  }

  /** The worker's loop over a sequence of events, first event first. It
      hands over one table per tick and never takes back or rewrites a table
      already sent. */
  function Run(w: WorkerState, evs: seq<Event>): (r: WorkerState)
    ensures |r.sent| == |w.sent| + Ticks(evs)
    ensures r.sent[..|w.sent|] == w.sent
    decreases |evs|
  {
    if evs == [] then w
    else
      var w1 := Step(w, evs[0]);
      var r := Run(w1, evs[1..]);
      assert r.sent[..|w.sent|] == r.sent[..|w1.sent|][..|w.sent|];
      r
  }

  /** The body lengths of the deliveries tagged (e, k), in arrival order. */
  function Sizes(evs: seq<Event>, e: string, k: string): seq<nat>
  {
    if evs == [] then []
    else
      var here := if evs[0].Delivery? && evs[0].exchange == e && evs[0].routingKey == k
        then [evs[0].bodyLength] else [];
      here + Sizes(evs[1..], e, k)
  }

  function NatSum(s: seq<nat>): nat
  {
    if s == [] then 0 else s[0] + NatSum(s[1..])
  }

  /** The largest element, 0 for the empty sequence. */
  function NatMax(s: seq<nat>): nat
  {
    if s == [] then 0 else Max(s[0], NatMax(s[1..]))
  }

  lemma {:induction false} NatSumConcat(a: seq<nat>, b: seq<nat>)
    ensures NatSum(a + b) == NatSum(a) + NatSum(b)
    decreases a
  {
    if a == [] {
      assert a + b == b;
    } else {
      assert (a + b)[1..] == a[1..] + b;
      NatSumConcat(a[1..], b);
    }
  }

  /** Tick emission: right after a tick the worker's table is empty, and what
      it held is the last table sent. */
  lemma TickEmitsAndResets(w: WorkerState, evs: seq<Event>)
    requires |evs| > 0 && evs[|evs| - 1] == Tick
    ensures Run(w, evs).table == map[]
    ensures |Run(w, evs).sent| > 0
    ensures Run(w, evs).sent[|Run(w, evs).sent| - 1] == Run(w, evs[..|evs| - 1]).table
    ensures Run(w, evs).sent == Run(w, evs[..|evs| - 1]).sent + [Run(w, evs[..|evs| - 1]).table]
  {
    RunSnoc(w, evs[..|evs| - 1], Tick);
    assert evs[..|evs| - 1] + [Tick] == evs;
  }

  lemma {:induction false} RunSnoc(w: WorkerState, evs: seq<Event>, ev: Event)
    ensures Run(w, evs + [ev]) == Step(Run(w, evs), ev)
    decreases |evs|
  {
    if evs == [] {
      assert Run(Step(w, ev), []) == Step(w, ev);
    } else {
      assert (evs + [ev])[1..] == evs[1..] + [ev];
      RunSnoc(Step(w, evs[0]), evs[1..], ev);
    }
  }

  /** What one delivery does to the counter of a given tag. */
  lemma StepLookup(w: WorkerState, ev: Event, e: string, k: string)
    requires ev.Delivery?
    ensures Lookup(Step(w, ev).table, e, k) == (
      if ev.exchange == e && ev.routingKey == k
      then Add(Lookup(w.table, e, k), 1, ev.bodyLength, ev.bodyLength)
      else Lookup(w.table, e, k))
  {
  }

  /** The first event's share of `Sizes`, `NatSum` and `NatMax`. */
  lemma SizesHead(evs: seq<Event>, e: string, k: string)
    requires evs != []
    ensures var rest := Sizes(evs[1..], e, k);
      if evs[0].Delivery? && evs[0].exchange == e && evs[0].routingKey == k then
        && |Sizes(evs, e, k)| == 1 + |rest|
        && NatSum(Sizes(evs, e, k)) == evs[0].bodyLength + NatSum(rest)
        && NatMax(Sizes(evs, e, k)) == Max(evs[0].bodyLength, NatMax(rest))
      else Sizes(evs, e, k) == rest
  {
    var rest := Sizes(evs[1..], e, k);
    if evs[0].Delivery? && evs[0].exchange == e && evs[0].routingKey == k {
      assert Sizes(evs, e, k) == [evs[0].bodyLength] + rest;
      assert ([evs[0].bodyLength] + rest)[1..] == rest;
    } else {
      assert Sizes(evs, e, k) == [] + rest;
    }
  }

  /** Within one window (no tick), the counter for a tag has grown by the
      number of its deliveries and their total length, and its maximum is the
      larger of the old maximum and the longest of those deliveries. */
  lemma {:induction false} WindowTotals(w: WorkerState, evs: seq<Event>, e: string, k: string)
    requires forall i :: 0 <= i < |evs| ==> evs[i].Delivery?
    ensures Run(w, evs).sent == w.sent
    ensures Lookup(Run(w, evs).table, e, k).count == Lookup(w.table, e, k).count + |Sizes(evs, e, k)|
    ensures Lookup(Run(w, evs).table, e, k).bodySize == Lookup(w.table, e, k).bodySize + NatSum(Sizes(evs, e, k))
    ensures Lookup(Run(w, evs).table, e, k).maxSize == Max(Lookup(w.table, e, k).maxSize, NatMax(Sizes(evs, e, k)))
    decreases |evs|
  {
    if evs != [] {
      WindowTotals(Step(w, evs[0]), evs[1..], e, k);
      StepLookup(w, evs[0], e, k);
      SizesHead(evs, e, k);
    }
  }

  /** No message is lost or counted twice across ticks: what is still in the
      table plus what has been sent, for any tag, grows by exactly the
      deliveries of that tag, in count and in bytes. */
  lemma {:induction false} Conservation(w: WorkerState, evs: seq<Event>, e: string, k: string)
    ensures Lookup(Run(w, evs).table, e, k).count + TagSum(Run(w, evs).sent, e, k, CountOf)
      == Lookup(w.table, e, k).count + TagSum(w.sent, e, k, CountOf) + |Sizes(evs, e, k)|
    ensures Lookup(Run(w, evs).table, e, k).bodySize + TagSum(Run(w, evs).sent, e, k, BytesOf)
      == Lookup(w.table, e, k).bodySize + TagSum(w.sent, e, k, BytesOf) + NatSum(Sizes(evs, e, k))
    decreases |evs|
  {
    if evs != [] {
      Conservation(Step(w, evs[0]), evs[1..], e, k);
      SizesHead(evs, e, k);
      if evs[0].Tick? {
        TagSumConcat(w.sent, [w.table], e, k, CountOf);
        TagSumConcat(w.sent, [w.table], e, k, BytesOf);
      } else {
        StepLookup(w, evs[0], e, k);
      }
    }
  }

  /** Every table a worker holds or sends is `Live`: lazy creation happens
      only together with an `add` of count 1. */
  lemma {:induction false} RunLive(w: WorkerState, evs: seq<Event>)
    requires Live(w.table) && forall i :: 0 <= i < |w.sent| ==> Live(w.sent[i])
    ensures Live(Run(w, evs).table)
    ensures forall i :: 0 <= i < |Run(w, evs).sent| ==> Live(Run(w, evs).sent[i])
    decreases |evs|
  {
    if evs != [] {
      var w1 := Step(w, evs[0]);
      if evs[0].Delivery? {
        ReceiveLive(w.table, evs[0].exchange, evs[0].routingKey, evs[0].bodyLength);
      }
      assert Live(w1.table);
      assert forall i :: 0 <= i < |w1.sent| ==> Live(w1.sent[i]);
      RunLive(w1, evs[1..]);
    }
  }
}
