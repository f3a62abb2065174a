# amqp-statisticator: the statistics core in Dafny

amqp-statisticator consumes messages from an AMQP broker and shows live
per-exchange, per-routing-key statistics. Several consumer goroutines each keep
a private two-level table, exchange -> routing key -> `RoutingStat` (message
count, total body bytes, largest size). They count every delivery into it and
hand the table to a collector on every tick. The collector folds each table it
receives into a global table (`collectAggregates`). On its own tick it builds a
snapshot list: a grand-total row, then for each exchange in ascending order a
subtotal row labelled `# (N routing keys)`, followed by that exchange's
routing-key rows in ascending order.

This project models that core as pure functions over immutable maps:

- `routing_stat.dfy` (modules `Options`, `RoutingStats`): the counter update
  (`add`, `addWithMaxSize`) and the integer part of `stats`.
- `sorted_keys.dfy` (`KeyOrder`): lexicographic order and `sortedKeys`.
- `tables.dfy` (`Sums`, `Tables`): the two-level table, its lazy
  get-or-create accessors and `countOfRoutingKeys`.
- `worker.dfy` (`Worker`): one consumer as a function over its event sequence
  (deliveries and ticks).
- `merger.dfy` (`Merger`): `collectAggregates` over any iteration order, its
  order-free reference, and folds over many worker tables. Go's
  `total.get(ex)` runs only inside the inner loop, so an exchange that arrives
  with no routing keys is not created in the global table; the contract says
  so, rather than claiming a plain union of exchange names.
- `snapshot.dfy` (`Flattening`, `Snapshots`): the fixed snapshot layout, the
  list-filling loop, the rollups and the division in `stats`.
- `pipeline.dfy` (`Pipeline`): workers and merger together, and the concrete
  scenarios.

Go's `uint64` is modelled by `nat`. Go's map iteration order is unspecified:
each loop over a map picks any remaining key (`:|`), and every property is
proved for all such orders. Strings are sequences of code points. Their
lexicographic order coincides with the byte order that `sort.Strings` uses on
UTF-8.

The files come from two revisions of the program. main.go calls a
three-argument `add` and a three-argument `stats(exchange, routingKey, dur)`,
and neither appears in types.go. The model follows main.go:

- `Add` has the semantics of `addWithMaxSize`;
- the `Stats` record carries the exchange and routing-key labels.

Two behaviours of the code may surprise a reader. The model keeps both as
written:

- Two workers sending `ex1/rk1` windows of (3, 300 bytes, max 150) and
  (2, 100 bytes, max 80) might be expected to give a global maximum of 150.
  main.go:223 passes each window's `BodySize` as the max candidate, so the
  maximum is 300 (`Pipeline.TwoWorkerMaximum`).
- A snapshot taken while no message has been delivered might be expected to
  be a single zero row. In types.go as shown, `stats` divides the grand
  total's size by its count of 0, which panics. The three-argument `stats`
  that main.go:208 calls is not among these files, so the model follows the
  division of types.go:45. By that reading the panic happens even while idle
  workers keep handing over empty tables on every tick
  (`Pipeline.SnapshotDefinedOnceDelivered`; see Findings).

## Model

| member | source | states |
|---|---|---|
| RoutingStats.Add | types.go:23-30 | count and size grow by the given amounts; the new maximum is one of the old maximum and the candidate, and at least both |
| RoutingStats.AddSize | types.go:14-21 | the two-argument `add`: sums grow and the maximum becomes the larger of the old maximum and the message size |
| RoutingStats.AddSizeIsAdd | types.go:14-30 | `add(c, s)` has the same effect as `addWithMaxSize(c, s, s)` |
| RoutingStats.AddZeroIsIdentity | types.go:23-30 | adding (0, 0, 0) leaves a counter unchanged |
| RoutingStats.AddCommutes | types.go:23-30 | two updates applied in either order give the same counter |
| RoutingStats.AddAssociates | types.go:23-30 | two updates in a row equal one update with summed amounts and the larger candidate |
| RoutingStats.StatsOf | types.go:41-48 | `stats` as written: no result (a panic) exactly when the count is 0; otherwise it copies count, size and maximum and sets the average to the floor of size / count |
| RoutingStats.GuardedStatsOf | types.go:41-48 | the same fields with an average of 0 at count 0, and the same record as `StatsOf` wherever that one is defined |
| KeyOrder.SortedKeys | types.go:55-71 | every key of the map exactly once, strictly ascending, as many as the map has |
| KeyOrder.AscendingUnique | types.go:96-112 | two strictly ascending listings of the same keys are equal, so the order in which the keys are collected before sorting does not matter |
| Tables.GetStat | types.go:73-81 | a present key returns its counter and changes nothing; an absent key returns a zero counter that is inserted; no other key changes |
| Tables.GetExchange | types.go:114-123 | a present exchange returns its table; an absent one returns an empty table that is inserted; no other exchange changes |
| Tables.GetStatIdempotent | types.go:73-81 | a second `get` of the same key finds what the first one returned and changes nothing more |
| Tables.GetExchangeIdempotent | types.go:114-123 | likewise for exchanges |
| Tables.ApplyAdd | main.go:128-135 | the `get(e).get(k).add(...)` chain updates the one tag's counter, creates at most that exchange and key, and leaves every other exchange and key as it was |
| Tables.ApplyAddPointwise | main.go:128-135 | tag by tag: the updated tag gains the update; every other tag is present exactly when it was and keeps its counter |
| Tables.CountOfRoutingKeys | types.go:87-94 | whatever the iteration order, the result is the sum over exchanges of (number of routing keys + 1) |
| Tables.RowCountSorted | types.go:87-94 | summing those weights along the sorted exchange listing gives the same count |
| Worker.Receive | main.go:127-135 | one message of length n on (e, k): that counter gains count 1, size n and maximum max(old, n), and is created if absent; exchanges grow by at most e; every other tag is unchanged |
| Worker.ReceiveLive | main.go:127-135 | a delivery keeps every exchange non-empty and every counter positive |
| Worker.Step | main.go:120-142 | on a tick the whole table is sent and the worker continues with an empty one; on a delivery nothing is sent and the table is updated by `Receive` |
| Worker.Run | main.go:120-142 | the loop over events hands over one table per tick and never changes a table already sent |
| Worker.TickEmitsAndResets | main.go:124-126 | after a tick the worker's table is empty, and the last table sent is exactly the table it held before the tick |
| Worker.WindowTotals | main.go:127-135 | within a window with no tick, a tag's counter grows by its deliveries' number and total length, and its maximum is the larger of the old maximum and their longest |
| Worker.Conservation | main.go:116-143 | across ticks, the table plus everything sent grows by exactly a tag's deliveries, in count and in bytes: nothing is lost or counted twice |
| Worker.RunLive | main.go:116-143 | every table a worker holds or sends has non-empty exchanges and positive counters |
| Merger.Merged | main.go:220-226 | the order-free reference of the fold: tags are the union of both sides; a local counter adds its count and size and offers its size as the maximum; other global counters are unchanged; only exchanges with keys are created |
| Merger.MergedStep | main.go:223 | folding one more local counter through the `get`/`get`/`add` chain equals the reference merge of what has been consumed |
| Merger.MergeStat | main.go:223 | no contract; characterised by `Merged` and `CollectAggregates` |
| Merger.MergeExchange | main.go:222-224 | folding exchange x's local counters in any order keeps the global table equal to the reference merge of the counters consumed so far, and afterwards every counter of x has been consumed |
| Merger.CollectAggregates | main.go:220-226 | the nested loops, in any iteration order, compute the reference merge: global count += local count, global size += local size, global maximum = max(old, local size); tags absent locally are unchanged; exchange keys become the global ones plus the occupied local ones |
| Merger.MergeEmptyIsNoOp | main.go:220-226 | merging a just-reset (empty) worker table leaves the global table unchanged |
| Merger.MergeZeroCounters | main.go:220-226 | merging counters that are all zero changes no counter |
| Merger.MergedCommutes | main.go:220-226 | two worker tables merged in either order give the same global table |
| Merger.MergeAll | main.go:175-176 | no contract; characterised by `MergeAllTotals` and `MergeAllPermutation` |
| Merger.MergeAllTotals | main.go:175-176 | after merging a sequence of tables, a tag's count and size are the starting values plus the tables' sums, and its maximum is the largest of the starting maximum and the tables' sizes for that tag |
| Merger.MergeAllPermutation | main.go:175-176 | any arrival order of the same worker tables gives the same global table |
| Merger.MergedLive | main.go:220-226 | merging tables with non-empty exchanges and positive counters keeps the global table so |
| Snapshots.Decimal | main.go:204 | the `%d` text of a count: a non-empty string of decimal digits (`DecimalRoundTrip` states that it denotes the count) |
| Snapshots.DecimalRoundTrip | main.go:204 | the `%d` of the subtotal label reads back as the number written, with no leading zero |
| Snapshots.SubtotalLabel | main.go:204 | no contract; characterised by `SubtotalLabelInjective` and `Pipeline.LabelTwo` |
| Snapshots.SubtotalLabelInjective | main.go:204 | different key counts give different labels, so a subtotal's label determines its exchange's number of routing keys |
| Snapshots.Accumulate | main.go:195-196 | no contract; characterised by `AccumulateIsSumAndMax` |
| Snapshots.AccumulateIsSumAndMax | main.go:195-196 | the running `add` of rows sums counts and sizes and keeps the largest maximum |
| Snapshots.Layout | main.go:178-208 | no contract; characterised by `LayoutIndex`, `LayoutLength`, `TotalRollup` and `BuildRows` |
| Snapshots.LayoutLength | main.go:180-185 | the list has `countOfRoutingKeys() + 1` rows; the first block starts at 1 and the blocks end exactly at the end of the list |
| Snapshots.LayoutOverIndex | main.go:184-206 | for any listing of exchanges: row 0 is the ("_total_", "#") row; exchange i's subtotal row is at its block offset, labelled "# (N routing keys)", followed by its N key rows in ascending key order, each with that key's counter; the next block starts right after |
| Snapshots.LayoutIndex | main.go:184-208 | the same for the sorted exchange listing that the program uses |
| Snapshots.SubtotalRollup | main.go:190-205 | a subtotal's count and size are the sums over its key rows, and its maximum is their largest maximum |
| Snapshots.SubtotalsSumKeyRows | main.go:190-206 | summed over exchanges, the subtotal rows give the same count, size and maximum as all key rows |
| Snapshots.TotalRollup | main.go:182-208 | the grand total's count and size equal the sums over all key rows, which equal the sums over the subtotal rows; likewise for the maximum |
| Snapshots.WriteSlot | main.go:199-205 | a slot is written only while still empty; the write sets that slot and no other |
| Snapshots.FillBlock | main.go:186-205 | one exchange's pass writes its key rows in order after the reserved subtotal slot, then the subtotal; every slot of the block ends up with its layout row, nothing else is written, and the grand total absorbs the block's keys |
| Snapshots.FillBlocks | main.go:184-206 | the exchange loop leaves slot 0 empty, fills every other slot with its layout row, and accumulates every key row into the grand total |
| Snapshots.BuildRows | main.go:178-208 | the list-filling code writes every index exactly once and yields exactly the fixed layout |
| Snapshots.SnapshotAsWritten | main.go:198-208 | with `stats` applied unguarded, the list exists exactly when every row has a positive count, and then each record is `stats` of its row |
| Snapshots.DeriveRows | main.go:198-208 | one guarded `stats` record per row, in order: the row's labels, count, size and maximum, an average of 0 at count 0 and otherwise the floor of size / count |
| Snapshots.Snapshot | main.go:198-208 | the guarded list: one record per layout row, with that row's labels, count, size and maximum; the average is 0 for a row with count 0 and otherwise the floor of size / count |
| Snapshots.SnapshotAgrees | main.go:198-208 | wherever the unguarded list is produced at all, it equals the guarded one |
| Snapshots.EmptyTableSnapshotPanics | main.go:180-208 | on the empty table the unguarded list panics; the guarded list is the single zero grand-total row |
| Snapshots.LiveSnapshotDefined | main.go:198-208 | a non-empty table with non-empty exchanges and positive counters yields the unguarded list, equal to the guarded one |
| Pipeline.FlushedWorkerTotals | main.go:124-135 | a worker whose last event is a tick has sent, summed over its tables, exactly its deliveries' count and bytes for each tag |
| Pipeline.EndToEnd | main.go:170-176 | once every worker has flushed and the merger has received all their tables in any order, each global counter's count is the number of messages delivered with that tag and its size their total length |
| Pipeline.SnapshotDefinedOnceDelivered | main.go:170-208 | once every table sent has arrived: if some message was delivered, the unguarded snapshot of the global table is defined and equals the guarded one; if none was, it panics, however many empty tables idle ticks have handed over |
| Pipeline.IdleTickSendsEmpty | main.go:124-126 | a worker that has seen only a tick has handed over one empty table |
| Pipeline.TwoWorkerMaximum | main.go:220-226 | windows (3, 300, max 150) and (2, 100, max 80) for `ex1/rk1` merge to (5, 400, 300): the maximum is the larger window total |
| Pipeline.OrdersLayout | main.go:178-208 | exchange `orders` with `created` (10, 1000, max 200) and `cancelled` (5, 500, max 150) yields the grand total (15, 1500, 200), the subtotal "# (2 routing keys)" with the same counter, then `cancelled` before `created` |

## Left out

- amqp.go (TLS, dialing, channel set-up, queue binding) is not part of this model. It is broker I/O.
- Goroutines, `select`, channels, `time.Tick` and context cancellation are left out. They are modelled by event sequences for a worker and by an arrival sequence of tables for the merger. The broadcast of the list to the display and persistence sinks is also left out.
- `time.Since(start)`, `avgMsgPerSec` (a `float64`) and `avgBodySizePerSec` (a `uint64` truncated from a float division by the elapsed seconds) are left out. They depend on the wall clock. `Stats` keeps `count`, `totalSize`, `maxSize` and `avgBodySize`, plus the two labels.
- The cview table, `refreshTable`, humanize formatting, JSON output and command-line flags are UI and I/O, and are left out.
- `msg.Ack` and its fatal error path are a broker call followed by a process abort, and are left out.
- RoutingStats.Add: `uint64` wrap-around at 2^64 is not modelled. Counters are unbounded naturals.
- KeyOrder.SortedKeys: `sort.Strings` compares bytes. The model compares code points, which orders UTF-8 strings the same way; invalid UTF-8 names are not modelled.
- Pipeline.EndToEnd: states count and size only. The global maximum is not the longest delivered message: the code offers each window's total size as the candidate (`Merger.MergeAllTotals` states what it is).
- Sharing of `*RoutingStat` pointers between tables is not modelled. Each worker sends its map and starts a fresh one, so no counter is shared between live tables.

## Findings

| source | as written | input that shows it | evidently intended | confidence | as-written member | corrected member |
|---|---|---|---|---|---|---|
| types.go:45 | `avgBodySize = BodySize / Count` with no guard; while no message has been delivered, the global table is empty and the grand-total row built at main.go:208 has count 0 | an idle queue: every worker tick hands over an empty table (main.go:124-126), merging it leaves the global table empty, the grand-total row (`_total_`, `#`) has count 0 and the integer division panics | an average of 0 for a row with no messages, so the first snapshot is a single zero row | not executed; medium, since types.go is from an older revision than main.go | Snapshots.EmptyTableSnapshotPanics | Snapshots.Snapshot |
