/** The driver for a chain of `num` 8x8 LED matrices, each run by a MAX7219 chip. It owns
    the canvas buffer and turns it, and its configuration, into bus traffic. The bus is
    observed through `log`, the events the driver has put on the wire so far. */
module Max7219 {
  import opened Bus
  import opened Protocol
  import opened Canvas
  import opened Glyphs

  /** Result of a brightness change: done, or refused because the value is not in 0..15. */
  datatype Outcome = Done | OutOfRange

  /** The scroll distance: the one asked for, or eight columns per character of the
      prefixed text when none is given or it is zero. */
  function ScrollDistance(len: nat, distance: Option<int>): int {
    if distance == None || distance == Some(0) then len * 8 else distance.value
  }

  /** How many frames a scroll over distance `d` draws; a negative distance draws none. */
  function FrameCount(d: int): nat {
    if d > 0 then d else 0
  }

  /** The traffic of one scroll frame: a refresh of the text laid out at column -i, then
      a pause. */
  function FrameTraffic(num: nat, font: Font, t: string, i: int, wait: Wait, delay: int): seq<Event> {
    Wire(ShowTxs(TextCanvas(num, font, t, -i, 0, 1), num)) + [Delay(wait, delay)]
  }

  /** The frames 0 .. frames - 1 of a scroll of text `t`. */
  function ScrollFrames(num: nat, font: Font, t: string, frames: nat, wait: Wait, delay: int): seq<seq<Event>> {
    seq(frames, i => FrameTraffic(num, font, t, i, wait, delay))
  }

  /** The traffic of the first `frames` frames of a scroll of text `t`. */
  function ScrollTraffic(num: nat, font: Font, t: string, frames: nat, wait: Wait, delay: int): seq<Event> {
    Flatten(ScrollFrames(num, font, t, frames, wait, delay))
  }

  lemma ScrollTrafficSnoc(num: nat, font: Font, t: string, i: nat, wait: Wait, delay: int)
    ensures ScrollTraffic(num, font, t, i + 1, wait, delay)
            == ScrollTraffic(num, font, t, i, wait, delay) + FrameTraffic(num, font, t, i, wait, delay)
  {
    assert ScrollFrames(num, font, t, i + 1, wait, delay)[..i] == ScrollFrames(num, font, t, i, wait, delay);
  }

  /** One more frame: refreshing the text at column -i and pausing extends the traffic
      of the first i frames to that of the first i + 1. */
  lemma ScrollStep(start: seq<Event>, before: seq<Event>, shown: seq<Event>, canvas: seq<bv8>,
                   num: nat, font: Font, t: string, i: nat, wait: Wait, delay: int)
    requires before == start + ScrollTraffic(num, font, t, i, wait, delay)
    requires canvas == TextCanvas(num, font, t, -(i as int), 0, 1)
    requires shown == before + Wire(ShowTxs(canvas, num))
    ensures shown + [Delay(wait, delay)] == start + ScrollTraffic(num, font, t, i + 1, wait, delay)
  {
    ScrollTrafficSnoc(num, font, t, i, wait, delay);
  }

  lemma FrameShape(num: nat, font: Font, t: string, i: int, wait: Wait, delay: int)
    ensures |FrameTraffic(num, font, t, i, wait, delay)| == 8 * (num + 2) + 1
    ensures Delays(FrameTraffic(num, font, t, i, wait, delay)) == 1
  {
    var txs := ShowTxs(TextCanvas(num, font, t, -i, 0, 1), num);
    ShowLength(TextCanvas(num, font, t, -i, 0, 1), num);
    WireHasNoDelays(txs);
    DelaysAppend(Wire(txs), [Delay(wait, delay)]);
  }

  /** A scroll of `frames` frames is `frames` blocks of equal length, and block i is
      exactly the refresh of the text drawn at column -i followed by one pause. */
  lemma ScrollFrame(num: nat, font: Font, t: string, frames: nat, wait: Wait, delay: int, i: nat)
    requires i < frames
    ensures |ScrollTraffic(num, font, t, frames, wait, delay)| == frames * (8 * (num + 2) + 1)
    ensures (i + 1) * (8 * (num + 2) + 1) <= frames * (8 * (num + 2) + 1)
    ensures ScrollTraffic(num, font, t, frames, wait, delay)[i * (8 * (num + 2) + 1)..(i + 1) * (8 * (num + 2) + 1)]
            == FrameTraffic(num, font, t, i, wait, delay)
  {
    var bs := ScrollFrames(num, font, t, frames, wait, delay);
    forall k | 0 <= k < |bs|
      ensures |bs[k]| == 8 * (num + 2) + 1
    {
      FrameShape(num, font, t, k, wait, delay);
    }
    FlattenBlock(bs, 8 * (num + 2) + 1, i);
  }

  /** The transactions of the first `frames` frames of a scroll: the refreshes of the
      text laid out at columns 0, -1, ..., -(frames - 1), one after the other. */
  function ScrollTxs(num: nat, font: Font, t: string, frames: nat): seq<seq<Pair>> {
    if frames == 0 then []
    else ScrollTxs(num, font, t, frames - 1) + ShowTxs(TextCanvas(num, font, t, -(frames - 1), 0, 1), num)
  }

  /** One frame decodes to its eight refresh transactions; its pause is skipped. */
  lemma FrameDecodes(num: nat, font: Font, t: string, i: int, wait: Wait, delay: int)
    ensures Transactions(FrameTraffic(num, font, t, i, wait, delay))
            == Some(ShowTxs(TextCanvas(num, font, t, -i, 0, 1), num))
  {
    var txs := ShowTxs(TextCanvas(num, font, t, -i, 0, 1), num);
    TransactionsWire(txs);
    assert [Delay(wait, delay)][1..] == [];
    TransactionsAppend(Wire(txs), [Delay(wait, delay)]);
    assert txs + [] == txs;
  }

  /** The traffic of a scroll, pauses included, decodes to the refresh transactions of
      its frames in order: eight per frame. */
  lemma {:induction false} ScrollDecodes(num: nat, font: Font, t: string, frames: nat, wait: Wait, delay: int)
    ensures Transactions(ScrollTraffic(num, font, t, frames, wait, delay)) == Some(ScrollTxs(num, font, t, frames))
    ensures |ScrollTxs(num, font, t, frames)| == 8 * frames
  {
    if frames == 0 {
      assert ScrollFrames(num, font, t, 0, wait, delay) == [];
    } else {
      var i: nat := frames - 1;
      ScrollDecodes(num, font, t, i, wait, delay);
      ScrollTrafficSnoc(num, font, t, i, wait, delay);
      FrameDecodes(num, font, t, i, wait, delay);
      TransactionsAppend(ScrollTraffic(num, font, t, i, wait, delay), FrameTraffic(num, font, t, i, wait, delay));
    }
  }

  /** A scroll of `frames` frames pauses exactly `frames` times. */
  lemma ScrollDelays(num: nat, font: Font, t: string, frames: nat, wait: Wait, delay: int)
    ensures Delays(ScrollTraffic(num, font, t, frames, wait, delay)) == frames
  {
    var bs := ScrollFrames(num, font, t, frames, wait, delay);
    forall k | 0 <= k < |bs|
      ensures Delays(bs[k]) == 1
    {
      FrameShape(num, font, t, k, wait, delay);
    }
    FlattenDelays(bs);
  }

  class Matrix8x8 {
    const num: nat              // modules in the chain
    const font: Font            // the 5x7 font the text is drawn with
    const buffer: array<bv8>    // the canvas, 8 * num bytes; never replaced or resized
    ghost var log: seq<Event>   // everything put on the bus so far

    ghost predicate Valid() {
      buffer.Length == 8 * num
    }

    /** Allocates a cleared canvas of 8 * num bytes and configures the chain. */
    constructor (num: nat, font: Font)
      ensures Valid() && fresh(buffer)
      ensures this.num == num && this.font == font
      ensures buffer[..] == Filled(8 * num, 0)
      ensures log == Wire(InitTxs(num))
    {
      this.num := num;
      this.font := font;
      buffer := new bv8[8 * num](_ => 0);
      log := [];
      new;
      Init();
    }

    /** Sends the pair (reg, val) to every module of the chain in one transaction. */
    method WriteAll(reg: bv8, val: bv8)
      modifies this
      ensures log == old(log) + Wire([Broadcast(reg, val, num)])
    {
      log := log + [CsLow];
      for m := 0 to num
        invariant log == old(log) + [CsLow] + Writes(Broadcast(reg, val, m))
      {
        assert Writes(Broadcast(reg, val, m + 1)) == Writes(Broadcast(reg, val, m)) + [Write(Pair(reg, val))];
        log := log + [Write(Pair(reg, val))];
      }
      log := log + [CsHigh];
      assert Wire([Broadcast(reg, val, num)]) == Frame(Broadcast(reg, val, num)) + Wire([]);
    }

    /** Broadcasts the six configuration writes, in order. */
    method Init()
      modifies this
      ensures log == old(log) + Wire(InitTxs(num))
    {
      ghost var txs := InitTxs(num);
      for k := 0 to |InitWrites|
        invariant log == old(log) + Wire(txs[..k])
      {
        WriteAll(InitWrites[k].reg, InitWrites[k].val);
        assert Wire([txs[k]]) == Frame(txs[k]) + Wire([]);
        WireSnoc(txs[..k], txs[k]);
        assert txs[..k + 1] == txs[..k] + [txs[k]];
      }
      assert txs[..|InitWrites|] == txs;
    }

    /** Sets the intensity of every module; a value outside 0..15 is refused before
        anything reaches the bus. */
    method Brightness(value: int) returns (r: Outcome)
      modifies this
      ensures unchanged(buffer)
      ensures r == OutOfRange <==> !(0 <= value <= 15)
      ensures r == OutOfRange ==> log == old(log)
      ensures r == Done ==> log == old(log) + Wire([Broadcast(INTENSITY, value as bv8, num)])
    {
      if !(0 <= value <= 15) {
        return OutOfRange;
      }
      WriteAll(INTENSITY, value as bv8);
      r := Done;
    }

    /** Copies the canvas to the chips: one transaction per row, in which module m gets
        its own byte of that row. The canvas is only read. */
    method Show()
      requires Valid()
      modifies this
      ensures unchanged(buffer)
      ensures log == old(log) + Wire(ShowTxs(buffer[..], num))
    {
      for y := 0 to 8
        invariant log == old(log) + Wire(ShowTxs(buffer[..], num)[..y])
      {
        log := log + [CsLow];
        for m := 0 to num
          invariant log == old(log) + Wire(ShowTxs(buffer[..], num)[..y]) + [CsLow] + Writes(ShowTxs(buffer[..], num)[y][..m])
        {
          RowWriteStep(old(log), log, buffer[..], num, y, m);
          log := log + [Write(Pair(DIGIT0 + y as bv8, buffer[y * num + m]))];
        }
        RowCloseStep(old(log), log, buffer[..], num, y);
        log := log + [CsHigh];
      }
      assert ShowTxs(buffer[..], num)[..8] == ShowTxs(buffer[..], num);
    }

    /** Fills the whole canvas with colour c. */
    method Fill(c: int)
      requires Valid()
      modifies buffer
      ensures buffer[..] == Filled(8 * num, c)
    {
      forall i | 0 <= i < buffer.Length {
        buffer[i] := if c != 0 then 0xFF else 0;
      }
    }

    /** Sets pixel (x, y) to colour c; a pixel off the canvas is ignored. */
    method Pixel(x: int, y: int, c: int)
      requires Valid()
      modifies buffer
      ensures buffer[..] == SetPixel(old(buffer[..]), num, x, y, c)
    {
      if InBounds(num, x, y) {
        var i := ByteIndex(num, x, y);
        buffer[i] := if c != 0 then buffer[i] | Mask(x) else buffer[i] & !Mask(x);
      }
    }

    /** Draws the glyph of `ch` (or of a space, when the font lacks `ch`) with its top-left
        cell at (x, y): each set bit in rows 0..6 of a column sets one pixel. */
    method DrawChar(ch: char, x: int, y: int, c: int := 1)
      requires Valid()
      modifies buffer
      ensures buffer[..] == DrawGlyph(old(buffer[..]), num, Glyph(font, ch), x, y, c)
    {
      var g := Glyph(font, ch);
      for col := 0 to |g|
        invariant buffer[..] == DrawColumns(old(buffer[..]), num, g, x, y, c, col)
      {
        for row := 0 to GlyphRows
          invariant buffer[..] == DrawColumn(DrawColumns(old(buffer[..]), num, g, x, y, c, col), num, g[col], x + col, y, c, row)
        {
          if Bit(g[col], row) {
            Pixel(x + col, y + row, c);
          }
        }
      }
    }

    /** Clears the canvas, lays the message out from (xpos, ypos) one glyph every six
        columns, and refreshes the display once. */
    method Text(message: string, xpos: int := 0, ypos: int := 0, color: int := 1)
      requires Valid()
      modifies this, buffer
      ensures buffer[..] == TextCanvas(num, font, message, xpos, ypos, color)
      ensures log == old(log) + Wire(ShowTxs(buffer[..], num))
    {
      Fill(0);
      var xOffset := xpos;
      for i := 0 to |message|
        invariant xOffset == xpos + 6 * i
        invariant buffer[..] == Run(Filled(8 * num, 0), num, font, message[..i], xpos, ypos, color)
        invariant log == old(log)
      {
        DrawChar(message[i], xOffset, ypos, color);
        assert message[..i + 1][..i] == message[..i];
        xOffset := xOffset + 6;
      }
      assert message[..|message|] == message;
      Show();
    }

    /** Scrolls prefix + text across the display: frame i draws it at column -i and then
        pauses `delay` milliseconds, the pause being of kind `wait`. */
    method ScrollWith(text: string, delay: int, distance: Option<int>, prefix: string, wait: Wait)
      requires Valid()
      modifies this, buffer
      ensures var t := prefix + text;
              var n := FrameCount(ScrollDistance(|t|, distance));
              log == old(log) + ScrollTraffic(num, font, t, n, wait, delay) &&
              buffer[..] == if n == 0 then old(buffer[..]) else TextCanvas(num, font, t, -(n - 1), 0, 1)
    {
      var t := prefix + text;
      var d := ScrollDistance(|t|, distance);
      var i := 0;
      while i < d
        invariant i <= FrameCount(d)
        invariant log == old(log) + ScrollTraffic(num, font, t, i, wait, delay)
        invariant buffer[..] == if i == 0 then old(buffer[..]) else TextCanvas(num, font, t, -(i - 1), 0, 1)
      {
        ghost var before := log;
        Text(t, -i);
        ScrollStep(old(log), before, log, buffer[..], num, font, t, i, wait, delay);
        log := log + [Delay(wait, delay)];
        i := i + 1;
      }
    }

    /** The blocking scroll: pauses by sleeping. */
    method Scroll(text: string, delay: int := 10, distance: Option<int> := None, prefix: string := "  ")
      requires Valid()
      modifies this, buffer
      ensures var t := prefix + text;
              var n := FrameCount(ScrollDistance(|t|, distance));
              log == old(log) + ScrollTraffic(num, font, t, n, Blocking, delay) &&
              buffer[..] == if n == 0 then old(buffer[..]) else TextCanvas(num, font, t, -(n - 1), 0, 1)
    {
      ScrollWith(text, delay, distance, prefix, Blocking);
    }

    /** The cooperative scroll: pauses by yielding to the scheduler. */
    method AsyncScroll(text: string, delay: int := 10, distance: Option<int> := None, prefix: string := "  ")
      requires Valid()
      modifies this, buffer
      ensures var t := prefix + text;
              var n := FrameCount(ScrollDistance(|t|, distance));
              log == old(log) + ScrollTraffic(num, font, t, n, Cooperative, delay) &&
              buffer[..] == if n == 0 then old(buffer[..]) else TextCanvas(num, font, t, -(n - 1), 0, 1)
    {
      ScrollWith(text, delay, distance, prefix, Cooperative);
    }
  }
}
