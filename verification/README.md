# Matrix8x8: a verified model of a MAX7219 LED-matrix driver

This project models the `Matrix8x8` driver of `max7219.py`, a MicroPython driver for a
daisy-chain of `num` 8x8 LED matrices, each run by a MAX7219 chip on a shared SPI bus
with one chip-select line. The driver owns a byte buffer of `8 * num` bytes, which is a
monochrome canvas `8 * num` pixels wide and 8 high. It configures the chips at
construction. `show` copies the canvas to the chips' row registers. `text` lays a string
out on the canvas in a 5x7 font, and `scroll` redraws that text at shifting offsets.

What the driver does to the outside world is recorded in a ghost field `log` of bus
events: `CsLow`, `Write(Pair(reg, val))` for each two-byte SPI write, `CsHigh`, and a
`Delay` for each pause between scroll frames. Each operation's contract says exactly
what it appends to `log` and what it leaves in the buffer. The lemmas then say what that
traffic means:

- the traffic of a broadcast, of the start-up sequence, of a refresh and of a whole
  scroll decodes back to its select-wrapped transactions (`Bus.Transactions`, which
  skips the pauses between transactions). Decoding distributes over concatenation, so
  traffic made of these pieces, one after the other, also decodes;
- a refresh is eight transactions whose data bytes, in order, are the buffer;
- a glyph or a text call lights exactly the pixels its glyphs ink.

Modules, one per part of the driver:

- `Bus` (bus.dfy): events, transactions, the wire format and its decoding.
- `Protocol` (protocol.dfy): register addresses, the start-up configuration, broadcasts and the refresh transactions.
- `Canvas` (canvas.dfy): the pixel layout of the buffer, `pixel` and `fill`.
- `Glyphs` (glyphs.dfy): the font, `draw_char` and the text layout.
- `Max7219` (matrix.dfy): the class `Matrix8x8` and the scroll traffic.

The pixel layout is the one the driver asks its frame buffer for at `max7219.py:22`
(horizontal, most significant bit first): pixel (x, y) is bit `7 - x % 8` of byte
`y * num + x / 8`. Row y of module m is therefore byte `y * num + m`, the byte `show`
sends to module m in row y.

## Model

| member | source | states |
|---|---|---|
| Max7219.Matrix8x8.constructor | max7219.py:16-32 | The buffer is a fresh array of exactly `8 * num` zero bytes. `buffer` is a `const` field, so no operation can replace or resize it. The log holds exactly the start-up traffic. |
| Max7219.Matrix8x8.WriteAll | max7219.py:34-38 | `_write` appends one transaction: `CsLow`, then `num` writes of the same pair `[command, data]`, then `CsHigh`. Only the log changes. |
| Protocol.BroadcastDecodes | max7219.py:34-38 | The broadcast traffic decodes to exactly one transaction holding `num` copies of the pair. |
| Max7219.Matrix8x8.Init | max7219.py:40-49 | `init` appends six broadcast transactions, in order: shutdown 0, display-test 0, scan-limit 7, decode-mode 0, intensity 15, shutdown 1. |
| Protocol.InitDecodes | max7219.py:7-13 | The start-up traffic decodes to six transactions. The k-th is `num` copies of the k-th configuration pair, with the register numbers 12, 15, 11, 9, 10, 12. |
| Max7219.Matrix8x8.Brightness | max7219.py:51-54 | A value outside 0..15 is refused (the result is `OutOfRange`) and nothing is added to the log. A value in 0..15 appends exactly one broadcast of `[10, value]`. The buffer is unchanged either way. |
| Max7219.Matrix8x8.Show | max7219.py:56-61 | `show` appends the eight row transactions of the current buffer and leaves the buffer unchanged. |
| Protocol.ShowDecodes | max7219.py:56-61 | Refresh traffic decodes to exactly 8 transactions of `num` writes each. The m-th write of transaction y sends register `y + 1`, which lies in 1..8, with byte `y * num + m` of the buffer. |
| Protocol.ShowValues | max7219.py:60 | The data bytes of a refresh, in the order sent, are the whole buffer in index order. |
| Protocol.ShowLength | max7219.py:56-61 | A refresh puts exactly `8 * (num + 2)` events on the bus. |
| Bus.TransactionsWire | max7219.py:56-61 | Decoding the traffic of any run of select-wrapped transactions gives back exactly that run, so within that traffic each write can be attributed to its transaction. |
| Bus.TransactionsAppend | max7219.py:34-38 | Two stretches of traffic that each decode, sent one after the other, decode to the first one's transactions followed by the second one's. |
| Bus.Body | max7219.py:58-61 | Reading one transaction up to its `CsHigh` consumes at least one event. This is what makes the decoder terminate. |
| Canvas.ByteIndex | max7219.py:22 | In the horizontal layout, an on-canvas pixel lies in a byte below `8 * num`. That byte's row is y and its module is `x / 8`. |
| Canvas.SetPixelLit | max7219.py:25 | `pixel(x, y, c)` makes pixel (x, y) show `c != 0` and leaves every other pixel as it was. Off the canvas it changes no pixel. |
| Canvas.FilledLit | max7219.py:24 | After `fill(c)` every pixel shows `c != 0`. |
| Max7219.Matrix8x8.Pixel | max7219.py:25 | The buffer becomes `SetPixel` of the old buffer: the byte `y * num + x / 8` has its bit for column x set or cleared, and only when (x, y) is on the canvas. |
| Max7219.Matrix8x8.Fill | max7219.py:24 | Every byte of the buffer becomes 0xFF for a non-zero colour and 0 otherwise. |
| Max7219.Matrix8x8.DrawChar | max7219.py:72-78 | The buffer becomes the old one with the glyph of `ch` drawn at (x, y), or the space glyph when the font lacks `ch`. The drawing goes column by column, rows 0..6, and each set bit sets its pixel. |
| Glyphs.DrawColumnLit | max7219.py:76-78 | Drawing one column sets to colour c exactly the pixels `(x, y + row)` for which bit `row` (below 7) of the column byte is set. Every other pixel is untouched. |
| Glyphs.DrawGlyphLit | max7219.py:72-78 | A drawn glyph sets to colour c exactly the pixels (px, py) whose glyph cell `(px - x, py - y)` is inked. Pixels under clear bits, under bit 7 and outside the glyph keep their values. |
| Max7219.Matrix8x8.Text | max7219.py:63-70 | The buffer becomes the cleared canvas with character i drawn at `(xpos + 6 * i, ypos)`. The log gains exactly one refresh of that final buffer. |
| Glyphs.RunLit | max7219.py:66-69 | After laying out a message, a pixel shows colour c if some character i inks it at offset `x + 6 * i`, and keeps its old value otherwise. |
| Glyphs.TextLit | max7219.py:63-70 | After `text`, a pixel is lit exactly when the colour is non-zero and some character's glyph inks it at that character's offset. Nothing of the previous canvas survives. |
| Max7219.Matrix8x8.ScrollWith | max7219.py:80-86 | Draws `prefix + text` for `FrameCount(ScrollDistance(...))` frames. The distance defaults to eight times the length of the prefixed text when it is absent or 0, and a negative distance gives no frames. Frame i is one text call at column -i followed by one pause. Afterwards the buffer holds the last frame, or is unchanged if there were no frames. |
| Max7219.Matrix8x8.Scroll | max7219.py:80-86 | The blocking scroll: the `ScrollWith` traffic with every pause a blocking sleep of `delay` ms, with the source's defaults (delay 10, prefix two spaces). |
| Max7219.Matrix8x8.AsyncScroll | max7219.py:88-94 | The cooperative scroll: the same frames as `Scroll`, with each pause a yield to the scheduler. |
| Max7219.ScrollFrame | max7219.py:84-86 | The traffic of a scroll of n frames is n blocks of `8 * (num + 2) + 1` events. Block i is exactly a refresh of the text laid out at column -i, then one pause. |
| Max7219.FrameDecodes | max7219.py:84-86 | The traffic of one scroll frame decodes to exactly the eight refresh transactions of the text at column -i. The pause is skipped. |
| Max7219.ScrollDecodes | max7219.py:80-86 | The whole traffic of a scroll of n frames, pauses included, decodes to `8 * n` transactions: the refreshes of frames 0..n-1, in order. |
| Max7219.ScrollDelays | max7219.py:84-86 | A scroll of n frames pauses exactly n times. |
| Max7219.ScrollStep | max7219.py:84-86 | One text call at column -i followed by a pause extends the traffic of frames 0..i-1 to that of frames 0..i. |

## Left out

- The frame-buffer primitives `hline`, `vline`, `line`, `rect`, `fill_rect` and `blit` (max7219.py:26-31) are calls into the foreign `framebuf` library, and the driver never uses them itself. Only `pixel` and `fill` are modelled, by the layout the driver selects.
- The read form of `pixel(x, y)` is the predicate `Canvas.Lit`, not a method.
- SPI and chip-select hardware are not modelled as I/O: each `cs(0)`, `spi.write` and `cs(1)` is an append to the ghost `log`. `cs.init(cs.OUT, True)` (max7219.py:19) configures the pin and is not logged. Transport failures and their propagation are not modelled.
- `sleep_ms` and `uasyncio.sleep_ms` (max7219.py:86, 94) are `Delay` events in the log, one per frame, marked blocking or cooperative. No time passes in the model, and the scheduling of other tasks during a yield is not modelled.
- The contents of the font table `FONT_5x7` (max7219.py:5) are not part of this model. The font is an abstract map from characters to column-byte sequences that always contains `' '`, and it is given to the constructor.
- Max7219.Matrix8x8.constructor: takes `num` as a natural number, so the error `bytearray` raises for a negative count is not modelled. A count of 0 is accepted; whether the frame-buffer library refuses a zero-width canvas is outside the model.
- Colours are unbounded integers, with any non-zero colour lighting a pixel. The frame-buffer library's conversion of a colour to a machine word is not modelled.
- Glyph column values are bytes (`bv8`); font values above 255 are not modelled.
- Max7219.Matrix8x8.Brightness: takes an integer. The `ValueError` is the result `OutOfRange`, and non-integer arguments are not modelled.
- Max7219.Matrix8x8.ScrollWith: the distance is `None` or an integer. Other falsy or non-integer values Python would accept are not modelled.
- The `framebuf` attribute and the method aliases that the constructor copies from it (max7219.py:23-31) are modelled only by the `Pixel` and `Fill` methods.
