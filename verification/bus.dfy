/** What the driver puts on the wire: chip-select edges and two-byte SPI writes, and how
    a stream of them splits back into select-wrapped transactions. */
module Bus {

  datatype Option<T> = None | Some(value: T)

  /** One two-byte SPI write: a register address, then the value for that register. */
  datatype Pair = Pair(reg: bv8, val: bv8)

  /** How a scroll waits between frames: a blocking sleep or a cooperative yield. */
  datatype Wait = Blocking | Cooperative

  /** One observable action of the driver, in the order it happens. */
  datatype Event =
    | CsLow                      // chip select driven to 0: a transaction opens
    | Write(p: Pair)             // the two bytes [p.reg, p.val] shifted out on the bus
    | CsHigh                     // chip select driven to 1: the chips latch what they hold
    | Delay(wait: Wait, ms: int) // a pause of `ms` milliseconds between scroll frames

  /** The writes of one transaction, in order. */
  function Writes(ps: seq<Pair>): seq<Event> {
    seq(|ps|, i requires 0 <= i < |ps| => Write(ps[i]))
  }

  lemma WritesSnoc(ps: seq<Pair>, p: Pair)
    ensures Writes(ps + [p]) == Writes(ps) + [Write(p)]
  {
  }

  /** One select-wrapped transaction carrying the writes `ps`. */
  function Frame(ps: seq<Pair>): seq<Event> {
    [CsLow] + Writes(ps) + [CsHigh]
  }

  /** The traffic of a run of transactions sent one after the other. */
  function Wire(txs: seq<seq<Pair>>): seq<Event> {
    if txs == [] then [] else Frame(txs[0]) + Wire(txs[1..])
  }

  /** Reads the writes of an open transaction up to and including its CsHigh;
      gives them together with the traffic that follows. */
  function Body(ev: seq<Event>): (r: Option<(seq<Pair>, seq<Event>)>)
    ensures r.Some? ==> |r.value.1| < |ev|
  {
    if ev == [] then None
    else match ev[0]
      case CsHigh => Some(([], ev[1..]))
      case Write(p) =>
        (match Body(ev[1..])
         case Some((ps, rest)) => Some(([p] + ps, rest))
         case None => None)
      case _ => None
  }

  /** Splits traffic into its select-wrapped transactions, skipping the pauses between
      them; None when it is not a sequence of such transactions and pauses. */
  function Transactions(ev: seq<Event>): Option<seq<seq<Pair>>>
    decreases |ev|
  {
    if ev == [] then Some([])
    else if ev[0].Delay? then Transactions(ev[1..])
    else if ev[0] != CsLow then None
    else match Body(ev[1..])
      case None => None
      case Some((ps, rest)) =>
        (match Transactions(rest)
         case None => None
         case Some(txs) => Some([ps] + txs))
  }

  lemma {:induction false} BodyWrites(ps: seq<Pair>, rest: seq<Event>)
    ensures Body(Writes(ps) + [CsHigh] + rest) == Some((ps, rest))
  {
    var ev := Writes(ps) + [CsHigh] + rest;
    if ps == [] {
      assert ev == [CsHigh] + rest;
    } else {
      assert ev[0] == Write(ps[0]);
      assert ev[1..] == Writes(ps[1..]) + [CsHigh] + rest;
      BodyWrites(ps[1..], rest);
      assert [ps[0]] + ps[1..] == ps;
    }
  }

  /** Splitting the traffic of a run of transactions gives back exactly that run:
      the wire format loses nothing, so each write can be attributed to its transaction. */
  lemma {:induction false} TransactionsWire(txs: seq<seq<Pair>>)
    ensures Transactions(Wire(txs)) == Some(txs)
  {
    if txs != [] {
      var ev := Wire(txs);
      assert ev == [CsLow] + (Writes(txs[0]) + [CsHigh] + Wire(txs[1..]));
      assert ev[1..] == Writes(txs[0]) + [CsHigh] + Wire(txs[1..]);
      BodyWrites(txs[0], Wire(txs[1..]));
      TransactionsWire(txs[1..]);
      assert [txs[0]] + txs[1..] == txs;
    }
  }

  /** Traffic that follows a complete transaction is read as it would be on its own. */
  lemma {:induction false} BodyAppend(ev: seq<Event>, b: seq<Event>)
    requires Body(ev).Some?
    ensures Body(ev + b) == Some((Body(ev).value.0, Body(ev).value.1 + b))
  {
    assert (ev + b)[0] == ev[0];
    assert (ev + b)[1..] == ev[1..] + b;
    if ev[0].Write? {
      BodyAppend(ev[1..], b);
    }
  }

  /** Decoding distributes over concatenation: two stretches of traffic that each decode,
      sent one after the other, decode to their transactions one after the other. So a
      log built from decodable pieces decodes as a whole. */
  lemma {:induction false} TransactionsAppend(a: seq<Event>, b: seq<Event>)
    requires Transactions(a).Some? && Transactions(b).Some?
    ensures Transactions(a + b) == Some(Transactions(a).value + Transactions(b).value)
    decreases |a|
  {
    if a == [] {
      assert a + b == b;
      assert Transactions(a).value + Transactions(b).value == Transactions(b).value;
    } else {
      assert (a + b)[0] == a[0];
      assert (a + b)[1..] == a[1..] + b;
      if a[0].Delay? {
        TransactionsAppend(a[1..], b);
      } else {
        var ps, rest := Body(a[1..]).value.0, Body(a[1..]).value.1;
        BodyAppend(a[1..], b);
        TransactionsAppend(rest, b);
        assert [ps] + (Transactions(rest).value + Transactions(b).value)
               == ([ps] + Transactions(rest).value) + Transactions(b).value;
      }
    }
  }

  /** Appending one transaction to a run appends its frame to the traffic. */
  lemma {:induction false} WireSnoc(txs: seq<seq<Pair>>, ps: seq<Pair>)
    ensures Wire(txs + [ps]) == Wire(txs) + Frame(ps)
  {
    if txs == [] {
      assert txs + [ps] == [ps];
    } else {
      assert (txs + [ps])[0] == txs[0];
      assert (txs + [ps])[1..] == txs[1..] + [ps];
      WireSnoc(txs[1..], ps);
    }
  }

  /** Every transaction costs its writes plus the two select edges. */
  function EventCount(txs: seq<seq<Pair>>): nat {
    if txs == [] then 0 else |txs[0]| + 2 + EventCount(txs[1..])
  }

  lemma {:induction false} WireLength(txs: seq<seq<Pair>>)
    ensures |Wire(txs)| == EventCount(txs)
  {
    if txs != [] {
      WireLength(txs[1..]);
    }
  }

  /** The data bytes of all writes of a run, in order. */
  function Values(txs: seq<seq<Pair>>): seq<bv8> {
    if txs == [] then [] else seq(|txs[0]|, i requires 0 <= i < |txs[0]| => txs[0][i].val) + Values(txs[1..])
  }

  /** Number of pauses in a stretch of traffic. */
  function Delays(ev: seq<Event>): nat {
    if ev == [] then 0 else (if ev[0].Delay? then 1 else 0) + Delays(ev[1..])
  }

  lemma {:induction false} DelaysAppend(a: seq<Event>, b: seq<Event>)
    ensures Delays(a + b) == Delays(a) + Delays(b)
  {
    if a == [] {
      assert a + b == b;
    } else {
      assert (a + b)[0] == a[0];
      assert (a + b)[1..] == a[1..] + b;
      DelaysAppend(a[1..], b);
    }
  }

  /** Transactions contain no pauses. */
  lemma {:induction false} WireHasNoDelays(txs: seq<seq<Pair>>)
    ensures Delays(Wire(txs)) == 0
  {
    if txs != [] {
      var f := Frame(txs[0]);
      assert forall i :: 0 <= i < |f| ==> !f[i].Delay?;
      FrameHasNoDelays(f);
      DelaysAppend(f, Wire(txs[1..]));
      WireHasNoDelays(txs[1..]);
    }
  }

  lemma {:induction false} FrameHasNoDelays(ev: seq<Event>)
    requires forall i :: 0 <= i < |ev| ==> !ev[i].Delay?
    ensures Delays(ev) == 0
  {
    if ev != [] {
      FrameHasNoDelays(ev[1..]);
    }
  }

  /** Blocks of traffic sent one after the other. */
  function Flatten(bs: seq<seq<Event>>): seq<Event> {
    if bs == [] then [] else Flatten(bs[..|bs| - 1]) + bs[|bs| - 1]
  }

  /** When every block has length b, block i occupies positions i * b .. (i + 1) * b. */
  lemma {:induction false} FlattenBlock(bs: seq<seq<Event>>, b: nat, i: nat)
    requires forall k :: 0 <= k < |bs| ==> |bs[k]| == b
    requires i < |bs|
    ensures |Flatten(bs)| == |bs| * b
    ensures (i + 1) * b <= |bs| * b
    ensures Flatten(bs)[i * b..(i + 1) * b] == bs[i]
  {
    var n := |bs| - 1;
    var pre := bs[..n];
    assert (n + 1) * b == n * b + b;
    assert (i + 1) * b == i * b + b;
    if i < n {
      FlattenBlock(pre, b, i);
      assert Flatten(bs)[i * b..(i + 1) * b] == Flatten(pre)[i * b..(i + 1) * b];
    } else {
      if n > 0 {
        FlattenBlock(pre, b, 0);
      } else {
        assert pre == [];
      }
      assert i * b == |Flatten(pre)|;
    }
  }

  /** When every block holds exactly one pause, the whole run holds one per block. */
  lemma {:induction false} FlattenDelays(bs: seq<seq<Event>>)
    requires forall k :: 0 <= k < |bs| ==> Delays(bs[k]) == 1
    ensures Delays(Flatten(bs)) == |bs|
  {
    if bs != [] {
      var n := |bs| - 1;
      FlattenDelays(bs[..n]);
      DelaysAppend(Flatten(bs[..n]), bs[n]);
    }
  }
}
