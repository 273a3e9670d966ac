/** The register protocol of a daisy-chain of MAX7219 chips: register addresses, the
    configuration sent at start-up, and the transactions that copy the canvas to the
    chips' row registers. */
module Protocol {
  import opened Bus
  import Canvas

  const NOOP: bv8 := 0
  const DIGIT0: bv8 := 1        // row registers are DIGIT0 .. DIGIT0 + 7
  const DECODEMODE: bv8 := 9
  const INTENSITY: bv8 := 10
  const SCANLIMIT: bv8 := 11
  const SHUTDOWN: bv8 := 12
  const DISPLAYTEST: bv8 := 15

  /** A broadcast transaction: the same register/value pair once for each of `num` chips. */
  function Broadcast(reg: bv8, val: bv8, num: nat): seq<Pair> {
    seq(num, _ => Pair(reg, val))
  }

  /** The configuration written at start-up, in order: display off, test mode off,
      all eight rows scanned, no digit decoding, full intensity, display on. */
  const InitWrites: seq<Pair> := [
    Pair(SHUTDOWN, 0),
    Pair(DISPLAYTEST, 0),
    Pair(SCANLIMIT, 7),
    Pair(DECODEMODE, 0),
    Pair(INTENSITY, 15),
    Pair(SHUTDOWN, 1)
  ]

  /** The start-up transactions: each configuration pair broadcast to the chain. */
  function InitTxs(num: nat): seq<seq<Pair>> {
    seq(|InitWrites|, k requires 0 <= k < |InitWrites| => Broadcast(InitWrites[k].reg, InitWrites[k].val, num))
  }

  /** The byte of canvas row `y` that belongs to module `m`. */
  function ModuleByte(buf: seq<bv8>, num: nat, y: nat, m: nat): bv8
    requires |buf| == 8 * num && y < 8 && m < num
  {
    Canvas.RowMajor(y, m, num);
    buf[y * num + m]
  }

  /** The refresh transaction of row `y`: module m gets its own byte of that row. */
  function RowTx(buf: seq<bv8>, num: nat, y: nat): seq<Pair>
    requires |buf| == 8 * num && y < 8
  {
    seq(num, m requires 0 <= m < num => Pair(DIGIT0 + y as bv8, ModuleByte(buf, num, y, m)))
  }

  /** The eight refresh transactions, row 0 first. */
  function ShowTxs(buf: seq<bv8>, num: nat): seq<seq<Pair>>
    requires |buf| == 8 * num
  {
    seq(8, y requires 0 <= y < 8 => RowTx(buf, num, y))
  }

  /** The m-th write of the y-th refresh transaction sends row register y + 1 and
      byte y * num + m of the buffer. */
  lemma ShowTxsAt(buf: seq<bv8>, num: nat, y: nat, m: nat)
    requires |buf| == 8 * num && y < 8 && m < num
    ensures y * num + m < |buf|
    ensures |ShowTxs(buf, num)| == 8 && |ShowTxs(buf, num)[y]| == num
    ensures ShowTxs(buf, num)[y][m] == Pair(DIGIT0 + y as bv8, buf[y * num + m])
  {
    Canvas.RowMajor(y, m, num);
  }

  /** Sending the next write of row y extends the traffic of a partly sent refresh. */
  lemma RowWriteStep(start: seq<Event>, cur: seq<Event>, buf: seq<bv8>, num: nat, y: nat, m: nat)
    requires |buf| == 8 * num && y < 8 && m < num
    requires cur == start + Wire(ShowTxs(buf, num)[..y]) + [CsLow] + Writes(ShowTxs(buf, num)[y][..m])
    ensures y * num + m < |buf|
    ensures cur + [Write(Pair(DIGIT0 + y as bv8, buf[y * num + m]))]
            == start + Wire(ShowTxs(buf, num)[..y]) + [CsLow] + Writes(ShowTxs(buf, num)[y][..m + 1])
  {
    var row := ShowTxs(buf, num)[y];
    ShowTxsAt(buf, num, y, m);
    assert row[..m + 1] == row[..m] + [row[m]];
    WritesSnoc(row[..m], row[m]);
  }

  /** Closing row y after its last write completes the traffic of rows 0..y. */
  lemma RowCloseStep(start: seq<Event>, cur: seq<Event>, buf: seq<bv8>, num: nat, y: nat)
    requires |buf| == 8 * num && y < 8
    requires cur == start + Wire(ShowTxs(buf, num)[..y]) + [CsLow] + Writes(ShowTxs(buf, num)[y][..num])
    ensures cur + [CsHigh] == start + Wire(ShowTxs(buf, num)[..y + 1])
  {
    var txs := ShowTxs(buf, num);
    assert txs[y][..num] == txs[y];
    WireSnoc(txs[..y], txs[y]);
    assert txs[..y + 1] == txs[..y] + [txs[y]];
  }

  /** Start-up traffic is six select-wrapped transactions, the k-th carrying `num`
      identical copies of the k-th configuration pair. */
  lemma InitDecodes(num: nat)
    ensures var t := Transactions(Wire(InitTxs(num)));
      t.Some? && |t.value| == 6 &&
      (forall k :: 0 <= k < 6 ==> |t.value[k]| == num) &&
      (forall k, m :: 0 <= k < 6 && 0 <= m < num ==> t.value[k][m] == InitWrites[k])
  {
    TransactionsWire(InitTxs(num));
  }

  /** A broadcast write is one select-wrapped transaction with `num` copies of the pair. */
  lemma BroadcastDecodes(reg: bv8, val: bv8, num: nat)
    ensures var t := Transactions(Wire([Broadcast(reg, val, num)]));
      t.Some? && |t.value| == 1 && |t.value[0]| == num &&
      (forall m :: 0 <= m < num ==> t.value[0][m] == Pair(reg, val))
  {
    TransactionsWire([Broadcast(reg, val, num)]);
  }

  /** Refresh traffic is eight select-wrapped transactions; in the y-th, the m-th write
      addresses row register y + 1 (so always one of 1..8) and carries byte
      y * num + m of the buffer. */
  lemma ShowDecodes(buf: seq<bv8>, num: nat)
    requires |buf| == 8 * num
    ensures var t := Transactions(Wire(ShowTxs(buf, num)));
      t.Some? && |t.value| == 8 &&
      (forall y :: 0 <= y < 8 ==> |t.value[y]| == num) &&
      (forall y, m :: 0 <= y < 8 && 0 <= m < num ==>
         t.value[y][m].reg as int == y + 1 && 1 <= t.value[y][m].reg <= 8 &&
         t.value[y][m].val == ModuleByte(buf, num, y, m))
  {
    TransactionsWire(ShowTxs(buf, num));
  }

  /** The data bytes of a refresh, taken in the order they are sent, are the whole
      buffer in index order. */
  lemma ShowValues(buf: seq<bv8>, num: nat)
    requires |buf| == 8 * num
    ensures Values(ShowTxs(buf, num)) == buf
  {
    RowsValues(buf, num, 0);
    assert ShowTxs(buf, num)[0..] == ShowTxs(buf, num);
  }

  lemma {:induction false} RowsValues(buf: seq<bv8>, num: nat, k: nat)
    requires |buf| == 8 * num && k <= 8
    ensures k * num <= |buf|
    ensures Values(ShowTxs(buf, num)[k..]) == buf[k * num..]
    decreases 8 - k
  {
    var txs := ShowTxs(buf, num)[k..];
    assert k * num <= 8 * num by { MulLe(k, 8, num); }
    if k == 8 {
      assert txs == [];
      assert buf[k * num..] == [];
    } else {
      RowsValues(buf, num, k + 1);
      assert txs[1..] == ShowTxs(buf, num)[k + 1..];
      var row := txs[0];
      assert row == RowTx(buf, num, k);
      var vals := seq(|row|, i requires 0 <= i < |row| => row[i].val);
      assert (k + 1) * num == k * num + num;
      assert vals == buf[k * num..(k + 1) * num];
      assert buf[k * num..] == buf[k * num..(k + 1) * num] + buf[(k + 1) * num..];
    }
  }

  /** A refresh puts exactly 8 * (num + 2) events on the wire: per row, the two select
      edges and one write per module. */
  lemma ShowLength(buf: seq<bv8>, num: nat)
    requires |buf| == 8 * num
    ensures |Wire(ShowTxs(buf, num))| == 8 * (num + 2)
  {
    WireLength(ShowTxs(buf, num));
    RowsCount(buf, num, 0);
    assert ShowTxs(buf, num)[0..] == ShowTxs(buf, num);
  }

  lemma {:induction false} RowsCount(buf: seq<bv8>, num: nat, k: nat)
    requires |buf| == 8 * num && k <= 8
    ensures EventCount(ShowTxs(buf, num)[k..]) == (8 - k) * (num + 2)
    decreases 8 - k
  {
    if k < 8 {
      RowsCount(buf, num, k + 1);
      assert ShowTxs(buf, num)[k..][1..] == ShowTxs(buf, num)[k + 1..];
      assert (8 - k) * (num + 2) == (num + 2) + (8 - (k + 1)) * (num + 2);
    } else {
      assert ShowTxs(buf, num)[k..] == [];
    }
  }

  lemma MulLe(a: nat, b: nat, n: nat)
    requires a <= b
    ensures a * n <= b * n
  {
    assert b * n == a * n + (b - a) * n;
  }
}
