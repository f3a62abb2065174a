/** Optional values: `None` stands for "no value", used here for a computation
    that the Go program aborts with a runtime panic. */
module Options {

  datatype Option<+T> = None | Some(value: T)
}

/** The per-(exchange, routing key) running counter and the record derived
    from it for display (types.go). Go's `uint64` fields are modelled by
    unbounded naturals: wrap-around at 2^64 is not modelled. */
module RoutingStats {

  import opened Options

  /** A running counter: number of messages, total body bytes, largest single
      size seen. */
  datatype RoutingStat = RoutingStat(count: nat, bodySize: nat, maxSize: nat)

  /** The zero value `RoutingStat{}` that lazy creation inserts. */
  const Zero := RoutingStat(0, 0, 0)

  function Max(a: nat, b: nat): nat
  {
    if a < b then b else a
  }

  /** `addWithMaxSize(count, msgSize, maxSize)`, which is also the semantics of
      the three-argument `add` that main.go calls: both sums grow and the
      maximum is raised to the candidate when the candidate is larger. */
  function Add(st: RoutingStat, count: nat, msgSize: nat, maxSize: nat): (r: RoutingStat)
    ensures r.count == st.count + count
    ensures r.bodySize == st.bodySize + msgSize
    ensures st.maxSize <= r.maxSize && maxSize <= r.maxSize
    ensures r.maxSize == st.maxSize || r.maxSize == maxSize
  {
    var m := if maxSize > st.maxSize then maxSize else st.maxSize;
    RoutingStat(st.count + count, st.bodySize + msgSize, m)
  }

  /** The two-argument `add(count, msgSize)` of types.go: the message size is
      also the candidate for the maximum. */
  function AddSize(st: RoutingStat, count: nat, msgSize: nat): (r: RoutingStat)
    ensures r.count == st.count + count
    ensures r.bodySize == st.bodySize + msgSize
    ensures r.maxSize == Max(st.maxSize, msgSize)
  {
    var m := if msgSize > st.maxSize then msgSize else st.maxSize;
    RoutingStat(st.count + count, st.bodySize + msgSize, m)
  }

  /** `add(c, s)` is `addWithMaxSize(c, s, s)`. */
  lemma AddSizeIsAdd(st: RoutingStat, count: nat, msgSize: nat)
    ensures AddSize(st, count, msgSize) == Add(st, count, msgSize, msgSize)
  {
  }

  /** Adding the triple (0, 0, 0) changes nothing. */
  lemma AddZeroIsIdentity(st: RoutingStat)
    ensures Add(st, 0, 0, 0) == st
  {
  }

  /** Two triples folded into a counter give the same counter in either order. */
  lemma AddCommutes(st: RoutingStat, c1: nat, s1: nat, m1: nat, c2: nat, s2: nat, m2: nat)
    ensures Add(Add(st, c1, s1, m1), c2, s2, m2) == Add(Add(st, c2, s2, m2), c1, s1, m1)
  {
  }

  /** Two triples folded one after the other equal their combined triple
      folded once: sums add up and the candidates' maximum is taken. */
  lemma AddAssociates(st: RoutingStat, c1: nat, s1: nat, m1: nat, c2: nat, s2: nat, m2: nat)
    ensures Add(Add(st, c1, s1, m1), c2, s2, m2) == Add(st, c1 + c2, s1 + s2, Max(m1, m2))
  {
  }

  /** One display row, the integer part of Go's `Stats` (the main.go revision,
      which carries the exchange and routing-key labels). The floating-point
      rates are not modelled. */
  datatype Stats = Stats(
    exchange: string,
    routingKey: string,
    count: nat,
    totalSize: nat,
    maxSize: nat,
    avgBodySize: nat)

  /** `stats` as written: `avgBodySize = BodySize / Count` with no guard, so a
      zero count is a runtime panic (integer division by zero), here `None`. */
  function StatsOf(st: RoutingStat, exchange: string, routingKey: string): (r: Option<Stats>)
    ensures r.None? <==> st.count == 0
    ensures r.Some? ==>
      && r.value.exchange == exchange && r.value.routingKey == routingKey
      && r.value.count == st.count && r.value.totalSize == st.bodySize
      && r.value.maxSize == st.maxSize
      && r.value.avgBodySize * st.count <= st.bodySize < (r.value.avgBodySize + 1) * st.count
  {
    if st.count == 0 then None
    else Some(Stats(exchange, routingKey, st.count, st.bodySize, st.maxSize, st.bodySize / st.count))
  }

  /** `stats` with the zero-count policy of emitting an average of 0 instead
      of dividing by zero; equal to `StatsOf` whenever that one is defined. */
  function GuardedStatsOf(st: RoutingStat, exchange: string, routingKey: string): (r: Stats)
    ensures r.exchange == exchange && r.routingKey == routingKey
    ensures r.count == st.count && r.totalSize == st.bodySize && r.maxSize == st.maxSize
    ensures r.count == 0 ==> r.avgBodySize == 0
    ensures r.count > 0 ==> r.avgBodySize * r.count <= r.totalSize < (r.avgBodySize + 1) * r.count
    ensures StatsOf(st, exchange, routingKey).Some? ==> StatsOf(st, exchange, routingKey).value == r
  {
    if st.count == 0 then Stats(exchange, routingKey, 0, st.bodySize, st.maxSize, 0)
    else Stats(exchange, routingKey, st.count, st.bodySize, st.maxSize, st.bodySize / st.count)
  }
}
