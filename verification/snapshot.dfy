/** Concatenating a sequence of sequences, and where each part lands. */
module Flattening {

  function Flatten<T>(parts: seq<seq<T>>): seq<T>
  {
    if parts == [] then [] else parts[0] + Flatten(parts[1..])
  }

  /** The position in `Flatten(parts)` at which part `i` begins. */
  function Start<T>(parts: seq<seq<T>>, i: nat): nat
    requires i <= |parts|
  {
    |Flatten(parts[..i])|
  }

  lemma ConcatAssoc<T>(x: seq<T>, y: seq<T>, z: seq<T>)
    ensures (x + y) + z == x + (y + z)
  {
  }

  lemma {:induction false} FlattenConcat<T>(a: seq<seq<T>>, b: seq<seq<T>>)
    ensures Flatten(a + b) == Flatten(a) + Flatten(b)
    decreases |a|
  {
    if a == [] {
      assert a + b == b;
    } else {
      assert (a + b)[0] == a[0] && (a + b)[1..] == a[1..] + b;
      FlattenConcat(a[1..], b);
      ConcatAssoc(a[0], Flatten(a[1..]), Flatten(b));
    }
  }

  lemma FlattenSingle<T>(x: seq<T>)
    ensures Flatten([x]) == x
  {
    assert [x][1..] == [];
  }

  /** The parts before `i`, part `i` itself, and the parts after it. */
  lemma FlattenSplit<T>(parts: seq<seq<T>>, i: nat)
    requires i < |parts|
    ensures Flatten(parts) == Flatten(parts[..i]) + parts[i] + Flatten(parts[i + 1..])
    ensures Start(parts, i + 1) == Start(parts, i) + |parts[i]|
  {
    assert parts == parts[..i + 1] + parts[i + 1..];
    assert parts[..i + 1] == parts[..i] + [parts[i]];
    FlattenConcat(parts[..i + 1], parts[i + 1..]);
    FlattenConcat(parts[..i], [parts[i]]);
    FlattenSingle(parts[i]);
  }

  /** Element `j` of part `i` sits at `Start(parts, i) + j`. */
  lemma FlattenIndex<T>(parts: seq<seq<T>>, i: nat, j: nat)
    requires i < |parts| && j < |parts[i]|
    ensures Start(parts, i) + j < |Flatten(parts)|
    ensures Flatten(parts)[Start(parts, i) + j] == parts[i][j]
  {
    FlattenSplit(parts, i);
  }

  /** The parts tile the whole: the first begins at 0, the last ends at the
      end. */
  lemma StartBounds<T>(parts: seq<seq<T>>)
    ensures Start(parts, 0) == 0
    ensures Start(parts, |parts|) == |Flatten(parts)|
  {
    assert parts[..0] == [];
    assert parts[..|parts|] == parts;
  }

  /** A property of every element of every part holds of every element of
      the flattening. */
  lemma {:induction false} FlattenAll<T>(parts: seq<seq<T>>, P: T -> bool)
    requires forall i, j :: 0 <= i < |parts| && 0 <= j < |parts[i]| ==> P(parts[i][j])
    ensures forall k :: 0 <= k < |Flatten(parts)| ==> P(Flatten(parts)[k])
    decreases |parts|
  {
    if parts != [] {
      FlattenAll(parts[1..], P);
      forall k | 0 <= k < |Flatten(parts)|
        ensures P(Flatten(parts)[k])
      {
        if k >= |parts[0]| {
          assert Flatten(parts)[k] == Flatten(parts[1..])[k - |parts[0]|];
        } else {
          assert P(parts[0][k]);
        }
      }
    }
  }
}

/** The snapshot list built on every merger tick in
    `collectAggregationsAndMakeFinalStat` (main.go): a grand-total row, then
    for each exchange in ascending order its subtotal row followed by its
    routing-key rows in ascending order. Elapsed time and the floating-point
    rates derived from it are not modelled. */
module Snapshots {

  import opened Options
  import opened RoutingStats
  import opened KeyOrder
  import opened Sums
  import opened Tables
  import opened Flattening

  /** One row of the list before `stats` is applied: the two labels and the
      counter they summarise. */
  datatype Row = Row(exchange: string, routingKey: string, stat: RoutingStat)

  /** Labels of the grand-total row. */
  const TotalExchange: string := "_total_"
  const TotalKey: string := "#"

  function DigitChar(d: nat): char
    requires d < 10
  {
    "0123456789"[d]
  }

  /** `%d` of a non-negative number. */
  function Decimal(n: nat): (r: string)
    ensures |r| >= 1
    ensures forall i :: 0 <= i < |r| ==> '0' <= r[i] <= '9'
  {
    if n < 10 then [DigitChar(n)] else Decimal(n / 10) + [DigitChar(n % 10)]
  }

  /** The number a string of decimal digits denotes, most significant digit
      first. */
  function DigitsValue(s: string): nat
    requires forall i :: 0 <= i < |s| ==> '0' <= s[i] <= '9'
  {
    if s == [] then 0 else 10 * DigitsValue(s[..|s| - 1]) + (s[|s| - 1] as int - '0' as int)
  }

  lemma DigitCharValue(d: nat)
    requires d < 10
    ensures DigitChar(d) as int - '0' as int == d
  {
    assert "0123456789" == ['0', '1', '2', '3', '4', '5', '6', '7', '8', '9'];
  }

  /** `Decimal` writes the number it is given, without leading zeros, so the
      count in a subtotal label reads back as the exchange's key count. */
  lemma {:induction false} DecimalRoundTrip(n: nat)
    ensures DigitsValue(Decimal(n)) == n
    ensures Decimal(n)[0] == '0' <==> n == 0
    decreases n
  {
    DigitCharValue(n % 10);
    if n >= 10 {
      DecimalRoundTrip(n / 10);
      var p := Decimal(n / 10);
      assert (p + [DigitChar(n % 10)])[..|p|] == p;
    } else {
      DigitCharValue(n);
    }
  }

  /** The routing-key label of an exchange's subtotal row. */
  function SubtotalLabel(n: nat): string
  {
    "# (" + Decimal(n) + " routing keys)"
  }

  /** Different key counts give different labels: the label of a subtotal
      row determines its exchange's number of routing keys. */
  lemma SubtotalLabelInjective(a: nat, b: nat)
    requires SubtotalLabel(a) == SubtotalLabel(b)
    ensures a == b
  {
    var da, db := Decimal(a), Decimal(b);
    assert |da| == |db|;
    assert da == SubtotalLabel(a)[3..3 + |da|];
    assert db == SubtotalLabel(b)[3..3 + |db|];
    DecimalRoundTrip(a);
    DecimalRoundTrip(b);
  }

  /** The rows of one exchange's routing keys, in the order of `ks`. */
  function KeyRows(e: string, ms: MsgStats, ks: seq<string>): (r: seq<Row>)
    requires forall i :: 0 <= i < |ks| ==> ks[i] in ms
    ensures |r| == |ks|
  {
    seq(|ks|, i requires 0 <= i < |ks| => Row(e, ks[i], ms[ks[i]]))
  }

  /** A running `add(Count, BodySize, MaxSize)` of each row's counter into
      `acc`, first row first, as the loop does for `wholeExchangeStat` and
      `totalStat`. */
  function Accumulate(acc: RoutingStat, rows: seq<Row>): RoutingStat
    decreases |rows|
  {
    if rows == [] then acc
    else Accumulate(Add(acc, rows[0].stat.count, rows[0].stat.bodySize, rows[0].stat.maxSize), rows[1..])
  }

  function CountSum(rows: seq<Row>): nat
  {
    if rows == [] then 0 else rows[0].stat.count + CountSum(rows[1..])
  }

  function SizeSum(rows: seq<Row>): nat
  {
    if rows == [] then 0 else rows[0].stat.bodySize + SizeSum(rows[1..])
  }

  /** The largest `maxSize` among the rows, 0 when there are none. */
  function MaxOf(rows: seq<Row>): nat
  {
    if rows == [] then 0 else Max(rows[0].stat.maxSize, MaxOf(rows[1..]))
  }

  /** The running accumulation is a sum of counts, a sum of sizes and a
      maximum of maxima, whatever the starting counter. */
  lemma {:induction false} AccumulateIsSumAndMax(acc: RoutingStat, rows: seq<Row>)
    ensures Accumulate(acc, rows).count == acc.count + CountSum(rows)
    ensures Accumulate(acc, rows).bodySize == acc.bodySize + SizeSum(rows)
    ensures Accumulate(acc, rows).maxSize == Max(acc.maxSize, MaxOf(rows))
    decreases |rows|
  {
    if rows != [] {
      var r := rows[0].stat;
      AccumulateIsSumAndMax(Add(acc, r.count, r.bodySize, r.maxSize), rows[1..]);
    }
  }

  /** Accumulating two runs of rows is accumulating the first, then the
      second from there. */
  lemma {:induction false} AccumulateConcat(acc: RoutingStat, a: seq<Row>, b: seq<Row>)
    ensures Accumulate(acc, a + b) == Accumulate(Accumulate(acc, a), b)
    decreases |a|
  {
    if a == [] {
      assert a + b == b;
    } else {
      assert (a + b)[0] == a[0] && (a + b)[1..] == a[1..] + b;
      AccumulateConcat(Add(acc, a[0].stat.count, a[0].stat.bodySize, a[0].stat.maxSize), a[1..], b);
    }
  }

  /** One more row accumulated. */
  lemma AccumulateStep(acc: RoutingStat, rows: seq<Row>, j: nat)
    requires j < |rows|
    ensures Accumulate(acc, rows[..j + 1])
      == Add(Accumulate(acc, rows[..j]), rows[j].stat.count, rows[j].stat.bodySize, rows[j].stat.maxSize)
  {
    assert rows[..j + 1] == rows[..j] + [rows[j]];
    AccumulateConcat(acc, rows[..j], [rows[j]]);
  }

  lemma {:induction false} SumsConcat(a: seq<Row>, b: seq<Row>)
    ensures CountSum(a + b) == CountSum(a) + CountSum(b)
    ensures SizeSum(a + b) == SizeSum(a) + SizeSum(b)
    ensures MaxOf(a + b) == Max(MaxOf(a), MaxOf(b))
    decreases |a|
  {
    if a == [] {
      assert a + b == b;
    } else {
      assert (a + b)[1..] == a[1..] + b;
      SumsConcat(a[1..], b);
    }
  }

  /** The routing keys of exchange `e`, ascending. */
  function KeysOf(t: ExchangeStats, e: string): (ks: seq<string>)
    requires e in t
    ensures |ks| == |t[e]|
    ensures forall i :: 0 <= i < |ks| ==> ks[i] in t[e]
  {
    SortedKeys(t[e])
  }

  /** The key rows of exchange `e`. */
  function ExchangeKeyRows(t: ExchangeStats, e: string): (r: seq<Row>)
    requires e in t
    ensures |r| == |t[e]|
  {
    KeyRows(e, t[e], KeysOf(t, e))
  }

  /** One exchange's block: its subtotal row, then its key rows. */
  function Block(t: ExchangeStats, e: string): (r: seq<Row>)
    requires e in t
    ensures |r| == |t[e]| + 1
  {
    var kr := ExchangeKeyRows(t, e);
    [Row(e, SubtotalLabel(|kr|), Accumulate(Zero, kr))] + kr
  }

  predicate AllIn(t: ExchangeStats, es: seq<string>)
  {
    forall i :: 0 <= i < |es| ==> es[i] in t
  }

  /** The blocks of the exchanges `es`, one per exchange, in that order. */
  function BlockList(t: ExchangeStats, es: seq<string>): (r: seq<seq<Row>>)
    requires AllIn(t, es)
    ensures |r| == |es|
  {
    seq(|es|, i requires 0 <= i < |es| => Block(t, es[i]))
  }

  /** Every key row of the exchanges `es`, in block order: what `totalStat`
      accumulates. */
  function AllKeyRows(t: ExchangeStats, es: seq<string>): seq<Row>
    requires AllIn(t, es)
  {
    if es == [] then [] else ExchangeKeyRows(t, es[0]) + AllKeyRows(t, es[1..])
  }

  /** The subtotal rows of the exchanges `es`, in order. */
  function SubtotalRows(t: ExchangeStats, es: seq<string>): seq<Row>
    requires AllIn(t, es)
  {
    if es == [] then [] else [Block(t, es[0])[0]] + SubtotalRows(t, es[1..])
  }

  /** The grand-total row: every key row of `es` accumulated. */
  function TotalRow(t: ExchangeStats, es: seq<string>): Row
    requires AllIn(t, es)
  {
    Row(TotalExchange, TotalKey, Accumulate(Zero, AllKeyRows(t, es)))
  }

  /** The list for the exchanges `es`, in that order: the grand-total row,
      then the blocks. */
  function LayoutOver(t: ExchangeStats, es: seq<string>): seq<Row>
    requires AllIn(t, es)
  {
    [TotalRow(t, es)] + Flatten(BlockList(t, es))
  }

  /** The snapshot list before derivation: exchanges in ascending order. */
  function Layout(t: ExchangeStats): seq<Row>
  {
    LayoutOver(t, SortedKeys(t))
  }

  /** Where the block of the `i`-th exchange of `es` starts in the list. */
  function Offset(t: ExchangeStats, es: seq<string>, i: nat): nat
    requires AllIn(t, es) && i <= |es|
  {
    1 + Start(BlockList(t, es), i)
  }

  lemma {:induction false} AllKeyRowsConcat(t: ExchangeStats, a: seq<string>, b: seq<string>)
    requires AllIn(t, a) && AllIn(t, b)
    ensures AllIn(t, a + b)
    ensures AllKeyRows(t, a + b) == AllKeyRows(t, a) + AllKeyRows(t, b)
    decreases |a|
  {
    if a == [] {
      assert a + b == b;
    } else {
      assert (a + b)[0] == a[0] && (a + b)[1..] == a[1..] + b;
      AllKeyRowsConcat(t, a[1..], b);
      ConcatAssoc(ExchangeKeyRows(t, a[0]), AllKeyRows(t, a[1..]), AllKeyRows(t, b));
    }
  }

  lemma {:induction false} SeqSumSnoc(es: seq<string>, x: string, f: string -> nat)
    ensures SeqSum(es + [x], f) == SeqSum(es, f) + f(x)
    decreases |es|
  {
    if es == [] {
      assert es + [x] == [x];
      assert [x][1..] == [];
    } else {
      assert (es + [x])[1..] == es[1..] + [x];
      SeqSumSnoc(es[1..], x, f);
    }
  }

  /** When part `k` is as long as the weight of `es[k]`, part `i` starts
      after the weights of the names before it. */
  lemma {:induction false} StartIsSeqSum<T>(parts: seq<seq<T>>, es: seq<string>, f: string -> nat, i: nat)
    requires |parts| == |es| && i <= |es|
    requires forall k :: 0 <= k < |es| ==> |parts[k]| == f(es[k])
    ensures Start(parts, i) == SeqSum(es[..i], f)
    decreases i
  {
    if i == 0 {
      StartBounds(parts);
      assert es[..0] == [];
    } else {
      StartIsSeqSum(parts, es, f, i - 1);
      FlattenSplit(parts, i - 1);
      assert es[..i] == es[..i - 1] + [es[i - 1]];
      SeqSumSnoc(es[..i - 1], es[i - 1], f);
    }
  }

  /** Each block is as long as its exchange's weight in `countOfRoutingKeys`,
      so block `i` starts one row (the grand total) after the weights of the
      exchanges before it. */
  lemma OffsetIsWeight(t: ExchangeStats, es: seq<string>, i: nat)
    requires AllIn(t, es) && i <= |es|
    ensures Offset(t, es, i) == 1 + SeqSum(es[..i], RowWeight(t))
  {
    var parts := BlockList(t, es);
    forall k | 0 <= k < |es|
      ensures |parts[k]| == RowWeight(t)(es[k])
    {
    }
    StartIsSeqSum(parts, es, RowWeight(t), i);
  }

  /** The list has `countOfRoutingKeys() + 1` rows, and the exchange blocks
      tile everything after the grand-total row. */
  lemma LayoutLength(t: ExchangeStats)
    ensures |Layout(t)| == RowCount(t) + 1
    ensures Offset(t, SortedKeys(t), 0) == 1
    ensures Offset(t, SortedKeys(t), |SortedKeys(t)|) == |Layout(t)|
  {
    var es := SortedKeys(t);
    StartBounds(BlockList(t, es));
    OffsetIsWeight(t, es, |es|);
    assert es[..|es|] == es;
    RowCountSorted(t);
  }

  /** The first row of a block is the exchange's subtotal row. */
  lemma BlockHead(t: ExchangeStats, e: string)
    requires e in t
    ensures Block(t, e)[0].exchange == e
    ensures Block(t, e)[0].routingKey == SubtotalLabel(|t[e]|)
    ensures Block(t, e)[0].stat == Accumulate(Zero, KeyRows(e, t[e], SortedKeys(t[e])))
  {
  }

  /** Row `1 + j` of a block carries the `j`-th routing key in ascending
      order and its counter. */
  lemma BlockKeyRow(t: ExchangeStats, e: string, j: nat)
    requires e in t && j < |t[e]|
    ensures Block(t, e)[1 + j] == KeyRows(e, t[e], SortedKeys(t[e]))[j]
    ensures Block(t, e)[1 + j] == Row(e, KeysOf(t, e)[j], t[e][KeysOf(t, e)[j]])
  {
  }

  /** Row `Offset(i) + j` of the list is row `j` of the `i`-th exchange's
      block, and the next block starts right after this one. */
  lemma LayoutBlock(t: ExchangeStats, es: seq<string>, i: nat, j: nat)
    requires AllIn(t, es) && i < |es| && j <= |t[es[i]]|
    ensures Offset(t, es, i) + j < |LayoutOver(t, es)|
    ensures LayoutOver(t, es)[Offset(t, es, i) + j] == Block(t, es[i])[j]
    ensures Offset(t, es, i + 1) == Offset(t, es, i) + |t[es[i]]| + 1 <= |LayoutOver(t, es)|
  {
    var parts := BlockList(t, es);
    FlattenIndex(parts, i, j);
    FlattenSplit(parts, i);
  }

  /** The layout over any listing of exchanges: row 0 is the ("_total_", "#")
      row; the block of the `i`-th exchange starts at `Offset(i)` with its
      subtotal row, labelled "# (N routing keys)", followed by one row per
      routing key in ascending order carrying that key's counter; the next
      block starts right after. */
  lemma LayoutOverIndex(t: ExchangeStats, es: seq<string>, i: nat)
    requires AllIn(t, es) && i < |es|
    ensures LayoutOver(t, es)[0].exchange == TotalExchange && LayoutOver(t, es)[0].routingKey == TotalKey
    ensures Offset(t, es, i + 1) == Offset(t, es, i) + |t[es[i]]| + 1 <= |LayoutOver(t, es)|
    ensures LayoutOver(t, es)[Offset(t, es, i)].exchange == es[i]
    ensures LayoutOver(t, es)[Offset(t, es, i)].routingKey == SubtotalLabel(|t[es[i]]|)
    ensures forall j :: 0 <= j < |t[es[i]]| ==>
      LayoutOver(t, es)[Offset(t, es, i) + 1 + j] == Row(es[i], KeysOf(t, es[i])[j], t[es[i]][KeysOf(t, es[i])[j]])
  {
    BlockHead(t, es[i]);
    LayoutBlock(t, es, i, 0);
    forall j | 0 <= j < |t[es[i]]|
      ensures LayoutOver(t, es)[Offset(t, es, i) + 1 + j] == Row(es[i], KeysOf(t, es[i])[j], t[es[i]][KeysOf(t, es[i])[j]])
    {
      LayoutKeyRow(t, es, i, j);
    }
  }

  /** One key row of the `i`-th block, at its place in the list. */
  lemma LayoutKeyRow(t: ExchangeStats, es: seq<string>, i: nat, j: nat)
    requires AllIn(t, es) && i < |es| && j < |t[es[i]]|
    ensures Offset(t, es, i) + 1 + j < |LayoutOver(t, es)|
    ensures LayoutOver(t, es)[Offset(t, es, i) + 1 + j] == Row(es[i], KeysOf(t, es[i])[j], t[es[i]][KeysOf(t, es[i])[j]])
    ensures LayoutOver(t, es)[Offset(t, es, i) + 1 + j] == KeyRows(es[i], t[es[i]], SortedKeys(t[es[i]]))[j]
  {
    LayoutBlock(t, es, i, 1 + j);
    BlockKeyRow(t, es[i], j);
  }

  /** The snapshot's fixed layout, exchanges in ascending order. */
  lemma LayoutIndex(t: ExchangeStats, i: nat)
    requires i < |t|
    ensures Layout(t)[0].exchange == TotalExchange && Layout(t)[0].routingKey == TotalKey
    ensures var es := SortedKeys(t);
      Offset(t, es, i + 1) == Offset(t, es, i) + |t[es[i]]| + 1 <= |Layout(t)|
    ensures var es := SortedKeys(t);
      && Layout(t)[Offset(t, es, i)].exchange == es[i]
      && Layout(t)[Offset(t, es, i)].routingKey == SubtotalLabel(|t[es[i]]|)
    ensures var es := SortedKeys(t); var ks := KeysOf(t, es[i]);
      forall j :: 0 <= j < |ks| ==> Layout(t)[Offset(t, es, i) + 1 + j] == Row(es[i], ks[j], t[es[i]][ks[j]])
  {
    LayoutOverIndex(t, SortedKeys(t), i);
  }

  /** Each exchange subtotal's count and size are the sums over its key rows
      and its maximum is the largest maximum among them. */
  lemma SubtotalRollup(t: ExchangeStats, e: string)
    requires e in t
    ensures Block(t, e)[0].stat.count == CountSum(Block(t, e)[1..])
    ensures Block(t, e)[0].stat.bodySize == SizeSum(Block(t, e)[1..])
    ensures Block(t, e)[0].stat.maxSize == MaxOf(Block(t, e)[1..])
  {
    var kr := ExchangeKeyRows(t, e);
    assert Block(t, e)[1..] == kr;
    AccumulateIsSumAndMax(Zero, kr);
  }

  lemma {:induction false} SubtotalsSumKeyRows(t: ExchangeStats, es: seq<string>)
    requires AllIn(t, es)
    ensures CountSum(SubtotalRows(t, es)) == CountSum(AllKeyRows(t, es))
    ensures SizeSum(SubtotalRows(t, es)) == SizeSum(AllKeyRows(t, es))
    ensures MaxOf(SubtotalRows(t, es)) == MaxOf(AllKeyRows(t, es))
    decreases |es|
  {
    if es != [] {
      SubtotalsSumKeyRows(t, es[1..]);
      SubtotalRollup(t, es[0]);
      assert Block(t, es[0])[1..] == ExchangeKeyRows(t, es[0]);
      SumsConcat([Block(t, es[0])[0]], SubtotalRows(t, es[1..]));
      SumsConcat(ExchangeKeyRows(t, es[0]), AllKeyRows(t, es[1..]));
    }
  }

  /** The grand-total row's count and size equal the sums over all key rows,
      which equal the sums over the subtotal rows; its maximum is the largest
      maximum of either. */
  lemma TotalRollup(t: ExchangeStats)
    ensures var es := SortedKeys(t);
      && Layout(t)[0].stat.count == CountSum(AllKeyRows(t, es)) == CountSum(SubtotalRows(t, es))
      && Layout(t)[0].stat.bodySize == SizeSum(AllKeyRows(t, es)) == SizeSum(SubtotalRows(t, es))
      && Layout(t)[0].stat.maxSize == MaxOf(AllKeyRows(t, es)) == MaxOf(SubtotalRows(t, es))
  {
    var es := SortedKeys(t);
    AccumulateIsSumAndMax(Zero, AllKeyRows(t, es));
    SubtotalsSumKeyRows(t, es);
  }

  /** Every row of the list has counted at least one message. */
  predicate AllCounted(rows: seq<Row>)
  {
    forall p :: 0 <= p < |rows| ==> rows[p].stat.count > 0
  }

  /** The snapshot as written: `stats` is applied to every row, and the first
      row whose counter is still zero divides by zero, which panics; `None`
      models that panic. */
  function SnapshotAsWritten(t: ExchangeStats): (r: Option<seq<Stats>>)
    ensures r.Some? <==> AllCounted(Layout(t))
    ensures r.Some? ==> |r.value| == |Layout(t)|
    ensures r.Some? ==> forall p :: 0 <= p < |r.value| ==>
      StatsOf(Layout(t)[p].stat, Layout(t)[p].exchange, Layout(t)[p].routingKey) == Some(r.value[p])
  {
    var rows := Layout(t);
    if AllCounted(rows) then
      Some(seq(|rows|, p requires 0 <= p < |rows| => StatsOf(rows[p].stat, rows[p].exchange, rows[p].routingKey).value))
    else None
  }

  /** `stats` with the zero-count guard, applied to every row in order. */
  function DeriveRows(rows: seq<Row>): (r: seq<Stats>)
    ensures |r| == |rows|
    ensures forall p :: 0 <= p < |r| ==>
      && r[p].exchange == rows[p].exchange && r[p].routingKey == rows[p].routingKey
      && r[p].count == rows[p].stat.count && r[p].totalSize == rows[p].stat.bodySize
      && r[p].maxSize == rows[p].stat.maxSize
    ensures forall p :: 0 <= p < |r| && r[p].count == 0 ==> r[p].avgBodySize == 0
    ensures forall p :: 0 <= p < |r| && r[p].count > 0 ==>
      r[p].avgBodySize * r[p].count <= r[p].totalSize < (r[p].avgBodySize + 1) * r[p].count
  {
    seq(|rows|, p requires 0 <= p < |rows| => GuardedStatsOf(rows[p].stat, rows[p].exchange, rows[p].routingKey))
  }

  /** The snapshot with the division guarded: one record per layout row,
      and a row with no messages reports an average body size of 0. */
  function Snapshot(t: ExchangeStats): (r: seq<Stats>)
    ensures |r| == |Layout(t)|
    ensures forall p :: 0 <= p < |r| ==>
      && r[p].exchange == Layout(t)[p].exchange && r[p].routingKey == Layout(t)[p].routingKey
      && r[p].count == Layout(t)[p].stat.count && r[p].totalSize == Layout(t)[p].stat.bodySize
      && r[p].maxSize == Layout(t)[p].stat.maxSize
    ensures forall p :: 0 <= p < |r| && r[p].count == 0 ==> r[p].avgBodySize == 0
    ensures forall p :: 0 <= p < |r| && r[p].count > 0 ==>
      r[p].avgBodySize * r[p].count <= r[p].totalSize < (r[p].avgBodySize + 1) * r[p].count
  {
    DeriveRows(Layout(t))
  }

  /** Wherever the unguarded list is produced at all, the guarded one is the
      same list. */
  lemma SnapshotAgrees(t: ExchangeStats)
    ensures SnapshotAsWritten(t).Some? ==> SnapshotAsWritten(t).value == Snapshot(t)
  {
    if SnapshotAsWritten(t).Some? {
      var a := SnapshotAsWritten(t).value;
      var b := Snapshot(t);
      forall p | 0 <= p < |a|
        ensures a[p] == b[p]
      {
        var row := Layout(t)[p];
        assert StatsOf(row.stat, row.exchange, row.routingKey) == Some(a[p]);
      }
    }
  }

  /** With nothing received yet, the list is the grand-total row alone. */
  lemma EmptyLayout()
    ensures Layout(map[]) == [Row(TotalExchange, TotalKey, Zero)]
  {
    var t: ExchangeStats := map[];
    var es := SortedKeys(t);
    assert es == [];
    assert BlockList(t, es) == [];
  }

  /** The first merger tick before any consumer has handed over a table
      finds the global table empty; the grand-total row then has count 0 and
      the unguarded division panics. The guarded list is a single zero row. */
  lemma EmptyTableSnapshotPanics()
    ensures SnapshotAsWritten(map[]) == None
    ensures Snapshot(map[]) == [Stats(TotalExchange, TotalKey, 0, 0, 0, 0)]
  {
    var t: ExchangeStats := map[];
    EmptyLayout();
    assert Layout(t)[0].stat.count == 0;
    assert Snapshot(t)[0] == GuardedStatsOf(Zero, TotalExchange, TotalKey);
  }

  lemma {:induction false} CountSumPositive(rows: seq<Row>)
    requires rows != [] && AllCounted(rows)
    ensures CountSum(rows) > 0
  {
    assert rows[0].stat.count > 0;
  }

  /** In a live table each exchange's key rows are non-empty and counted, so
      its subtotal is counted too. */
  lemma LiveBlockCounted(t: ExchangeStats, e: string)
    requires Live(t) && e in t
    ensures AllCounted(ExchangeKeyRows(t, e))
    ensures CountSum(ExchangeKeyRows(t, e)) > 0
    ensures AllCounted(Block(t, e))
  {
    var kr := ExchangeKeyRows(t, e);
    var ks := KeysOf(t, e);
    forall j | 0 <= j < |kr|
      ensures kr[j].stat.count > 0
    {
      assert Has(t, e, ks[j]);
    }
    assert t[e] != map[];
    CountSumPositive(kr);
    SubtotalRollup(t, e);
    assert Block(t, e)[1..] == kr;
  }

  /** In a live table every row of every block is counted. */
  lemma LiveBlocksCounted(t: ExchangeStats, es: seq<string>)
    requires Live(t) && AllIn(t, es)
    ensures AllCounted(Flatten(BlockList(t, es)))
  {
    var parts: seq<seq<Row>> := BlockList(t, es);
    forall i, j | 0 <= i < |parts| && 0 <= j < |parts[i]|
      ensures parts[i][j].stat.count > 0
    {
      LiveBlockCounted(t, es[i]);
    }
    FlattenAll(parts, (r: Row) => r.stat.count > 0);
  }

  /** A live table with at least one exchange has a counted grand total. */
  lemma LiveTotalCounted(t: ExchangeStats, es: seq<string>)
    requires Live(t) && AllIn(t, es) && es != []
    ensures TotalRow(t, es).stat.count > 0
  {
    LiveBlockCounted(t, es[0]);
    SumsConcat(ExchangeKeyRows(t, es[0]), AllKeyRows(t, es[1..]));
    AccumulateIsSumAndMax(Zero, AllKeyRows(t, es));
  }

  lemma ConsCounted(x: Row, rows: seq<Row>)
    requires x.stat.count > 0 && AllCounted(rows)
    ensures AllCounted([x] + rows)
  {
    forall p | 0 <= p < |[x] + rows|
      ensures ([x] + rows)[p].stat.count > 0
    {
      if p > 0 {
        assert ([x] + rows)[p] == rows[p - 1];
      }
    }
  }

  /** A live table with at least one exchange has every row counted. */
  lemma LiveLayoutCounted(t: ExchangeStats)
    requires Live(t) && t != map[]
    ensures AllCounted(Layout(t))
  {
    var es := SortedKeys(t);
    assert |es| > 0 by {
      var x :| x in t;
      assert x in es;
    }
    LiveBlocksCounted(t, es);
    LiveTotalCounted(t, es);
    ConsCounted(TotalRow(t, es), Flatten(BlockList(t, es)));
  }

  /** Once the global table holds at least one tag, every row is counted and
      the unguarded list is defined and equals the guarded one. */
  lemma LiveSnapshotDefined(t: ExchangeStats)
    requires Live(t) && t != map[]
    ensures SnapshotAsWritten(t) == Some(Snapshot(t))
  {
    LiveLayoutCounted(t);
    SnapshotAgrees(t);
  }

  /** Slots `lo` up to (not including) `hi` hold the rows of `L` at the
      same positions. */
  predicate Filled(slots: seq<Option<Row>>, L: seq<Row>, lo: nat, hi: nat)
  {
    forall p :: lo <= p < hi && p < |slots| && p < |L| ==> slots[p] == Some(L[p])
  }

  /** No slot from `lo` on has been written yet. */
  predicate Unwritten(slots: seq<Option<Row>>, lo: nat)
  {
    forall p :: lo <= p < |slots| ==> slots[p] == None
  }

  /** `statsList[p] = row`, allowed only into a slot not yet written: every
      write of the builder goes through here, so no slot is written twice. */
  function WriteSlot(slots: seq<Option<Row>>, p: nat, row: Row): (r: seq<Option<Row>>)
    requires p < |slots| && slots[p] == None
    ensures |r| == |slots| && r[p] == Some(row)
    ensures forall q :: 0 <= q < |slots| && q != p ==> r[q] == slots[q]
  {
    slots[p := Some(row)]
  }

  /** The rows held by slots that have all been written. */
  function Values(slots: seq<Option<Row>>): (r: seq<Row>)
    requires forall p :: 0 <= p < |slots| ==> slots[p].Some?
    ensures |r| == |slots|
    ensures forall p :: 0 <= p < |slots| ==> slots[p] == Some(r[p])
  {
    seq(|slots|, p requires 0 <= p < |slots| => slots[p].value)
  }

  /** Slots that hold `L` position by position yield exactly `L`. */
  lemma FilledValues(slots: seq<Option<Row>>, L: seq<Row>)
    requires |slots| == |L| && |L| > 0 && slots[0] == Some(L[0]) && Filled(slots, L, 1, |L|)
    ensures forall p :: 0 <= p < |slots| ==> slots[p].Some?
    ensures Values(slots) == L
  {
    assert forall p :: 0 <= p < |slots| ==> slots[p] == Some(L[p]);
  }

  /** Adding one more exchange's key rows into the running grand total. */
  lemma TotalStep(t: ExchangeStats, es: seq<string>, i: nat)
    requires AllIn(t, es) && i < |es|
    ensures Accumulate(Zero, AllKeyRows(t, es[..i + 1]))
      == Accumulate(Accumulate(Zero, AllKeyRows(t, es[..i])), ExchangeKeyRows(t, es[i]))
  {
    var e := es[i];
    assert es[..i + 1] == es[..i] + [e];
    AllKeyRowsConcat(t, es[..i], [e]);
    assert AllKeyRows(t, [e]) == ExchangeKeyRows(t, e) by {
      assert [e][1..] == [];
    }
    AccumulateConcat(Zero, AllKeyRows(t, es[..i]), ExchangeKeyRows(t, e));
  }

  /** The block of exchange `e` sits in `L` at `id0`: its subtotal row, then
      one row per key of `keys`, in that order. */
  predicate BlockAt(L: seq<Row>, id0: nat, e: string, ms: MsgStats, keys: seq<string>)
    requires forall i :: 0 <= i < |keys| ==> keys[i] in ms
  {
    && id0 + |keys| < |L|
    && L[id0] == Row(e, SubtotalLabel(|keys|), Accumulate(Zero, KeyRows(e, ms, keys)))
    && forall j :: 0 <= j < |keys| ==> L[id0 + 1 + j] == KeyRows(e, ms, keys)[j]
  }

  /** The `i`-th exchange's block of the layout is where `Offset` says. */
  lemma BlockInLayout(t: ExchangeStats, es: seq<string>, i: nat)
    requires AllIn(t, es) && i < |es|
    ensures BlockAt(LayoutOver(t, es), Offset(t, es, i), es[i], t[es[i]], SortedKeys(t[es[i]]))
    ensures Offset(t, es, i + 1) == Offset(t, es, i) + |t[es[i]]| + 1
  {
    var e := es[i];
    LayoutBlock(t, es, i, |t[e]|);
    LayoutBlock(t, es, i, 0);
    BlockHead(t, e);
    forall j | 0 <= j < |t[e]|
      ensures LayoutOver(t, es)[Offset(t, es, i) + 1 + j] == KeyRows(e, t[e], SortedKeys(t[e]))[j]
    {
      LayoutKeyRow(t, es, i, j);
    }
  }

  /** One pass of the outer loop, for exchange `e` with routing-key table `ms`
      and its key listing `keys` (the caller passes them sorted): reserve slot
      `id` for the subtotal, then for each key in order write its row into the
      next slot while adding its counter into the subtotal `whole` and into
      the running grand total, and finally write the subtotal into the
      reserved slot. When the layout `L` has this block at `id`, every slot of
      the block ends up holding its row of `L`, nothing outside it is written,
      and `id` points just past it. */
  method FillBlock(e: string, ms: MsgStats, keys: seq<string>, ghost L: seq<Row>,
                   slots0: seq<Option<Row>>, id0: nat, total0: RoutingStat)
    returns (slots: seq<Option<Row>>, id: nat, total: RoutingStat)
    requires |keys| == |ms| && forall i :: 0 <= i < |keys| ==> keys[i] in ms
    requires 1 <= id0 && |slots0| == |L| && BlockAt(L, id0, e, ms, keys)
    requires slots0[0] == None && Filled(slots0, L, 1, id0) && Unwritten(slots0, id0)
    ensures |slots| == |slots0| && id == id0 + |keys| + 1
    ensures slots[0] == None && Filled(slots, L, 1, id) && Unwritten(slots, id)
    ensures total == Accumulate(total0, KeyRows(e, ms, keys))
  {
    ghost var kr := KeyRows(e, ms, keys);
    var exchangeId := id0;
    id := id0 + 1;
    var whole := Zero;
    slots, total := slots0, total0;
    for j := 0 to |keys|
      invariant |slots| == |L| && id == exchangeId + 1 + j
      invariant slots[0] == None && slots[exchangeId] == None
      invariant Filled(slots, L, 1, exchangeId) && Filled(slots, L, exchangeId + 1, id)
      invariant Unwritten(slots, id)
      invariant whole == Accumulate(Zero, kr[..j])
      invariant total == Accumulate(total0, kr[..j])
    {
      var st := ms[keys[j]];
      AccumulateStep(Zero, kr, j);
      AccumulateStep(total0, kr, j);
      whole := Add(whole, st.count, st.bodySize, st.maxSize);
      total := Add(total, st.count, st.bodySize, st.maxSize);
      slots := WriteSlot(slots, id, Row(e, keys[j], st));
      id := id + 1;
    }
    assert kr[..|keys|] == kr;
    slots := WriteSlot(slots, exchangeId, Row(e, SubtotalLabel(|keys|), whole));
  }

  /** The outer loop of `collectAggregationsAndMakeFinalStat` over the
      exchanges `es`, in order: a position counter `id` starts at 1 and each
      exchange fills its block from there, while the grand total collects
      every key row. Slot 0 is left for the grand total; every other slot ends
      up holding its row of the layout. */
  method FillBlocks(t: ExchangeStats, es: seq<string>, ghost L: seq<Row>, slots0: seq<Option<Row>>)
    returns (slots: seq<Option<Row>>, total: RoutingStat)
    requires AllIn(t, es) && L == LayoutOver(t, es)
    requires |slots0| == |L| && Unwritten(slots0, 0)
    ensures |slots| == |L| && slots[0] == None && Filled(slots, L, 1, |L|)
    ensures total == Accumulate(Zero, AllKeyRows(t, es))
  {
    StartBounds(BlockList(t, es));
    slots, total := slots0, Zero;
    var id := 1;
    for i := 0 to |es|
      invariant |slots| == |L|
      invariant id == Offset(t, es, i)
      invariant slots[0] == None && Filled(slots, L, 1, id) && Unwritten(slots, id)
      invariant total == Accumulate(Zero, AllKeyRows(t, es[..i]))
    {
      var exchange := es[i];
      TotalStep(t, es, i);
      BlockInLayout(t, es, i);
      slots, id, total := FillBlock(exchange, t[exchange], SortedKeys(t[exchange]), L, slots, id, total);
    }
    assert es[..|es|] == es;
  }

  /** The list-filling part of `collectAggregationsAndMakeFinalStat`: a list
      of `countOfRoutingKeys() + 1` slots, the exchanges' blocks in ascending
      order, and the grand total written into slot 0 last. A slot is `None`
      until written and every slot is written exactly once; the slots end up
      holding exactly the fixed layout. */
  method BuildRows(t: ExchangeStats) returns (rows: seq<Row>)
    ensures rows == Layout(t)
  {
    var n := CountOfRoutingKeys(t);
    LayoutLength(t);
    var slots: seq<Option<Row>> := seq(n + 1, _ => None);
    var total;
    slots, total := FillBlocks(t, SortedKeys(t), Layout(t), slots);
    slots := WriteSlot(slots, 0, Row(TotalExchange, TotalKey, total));
    FilledValues(slots, Layout(t));
    rows := Values(slots);
  }
}
