/** Text on the canvas: glyphs of a 5x7 column-encoded font drawn pixel by pixel, and
    a message laid out one glyph every six columns. */
module Glyphs {
  import opened Canvas

  /** The font: each character maps to its glyph, one byte per column, bit `r` of a
      column byte lighting row `r` (bit 0 is the top row). A space is always present. */
  type Font = f: map<char, seq<bv8>> | ' ' in f witness map[' ' := []]

  /** The glyph drawn for `ch`: its own, or the space glyph when the font lacks it. */
  function Glyph(font: Font, ch: char): seq<bv8> {
    if ch in font then font[ch] else font[' ']
  }

  /** Rows of a glyph; bit 7 of a column byte is never drawn. */
  const GlyphRows: nat := 7

  /** Bit `row` of a column byte, counting from the least significant bit. */
  predicate Bit(b: bv8, row: nat)
    requires row < 8
  {
    (b >> row) & 1 == 1
  }

  /** Whether glyph `g` inks its cell (col, row). Only rows 0..6 exist, so bit 7 of a
      column byte never inks anything. */
  predicate Ink(g: seq<bv8>, col: int, row: int) {
    0 <= col < |g| && 0 <= row < GlyphRows && Bit(g[col], row)
  }

  /** Rows 0 .. rows - 1 of one glyph column drawn at column x with its top row at y:
      each set bit sets its pixel to colour c, a clear bit leaves its pixel alone. */
  function DrawColumn(buf: seq<bv8>, num: nat, bits: bv8, x: int, y: int, c: int, rows: nat): (r: seq<bv8>)
    requires |buf| == 8 * num && rows <= GlyphRows
    ensures |r| == |buf|
  {
    if rows == 0 then buf
    else
      var b := DrawColumn(buf, num, bits, x, y, c, rows - 1);
      if Bit(bits, rows - 1) then SetPixel(b, num, x, y + rows - 1, c) else b
  }

  /** Columns 0 .. cols - 1 of glyph g drawn with its top-left cell at (x, y). */
  function DrawColumns(buf: seq<bv8>, num: nat, g: seq<bv8>, x: int, y: int, c: int, cols: nat): (r: seq<bv8>)
    requires |buf| == 8 * num && cols <= |g|
    ensures |r| == |buf|
  {
    if cols == 0 then buf
    else DrawColumn(DrawColumns(buf, num, g, x, y, c, cols - 1), num, g[cols - 1], x + cols - 1, y, c, GlyphRows)
  }

  /** The whole glyph g drawn with its top-left cell at (x, y). */
  function DrawGlyph(buf: seq<bv8>, num: nat, g: seq<bv8>, x: int, y: int, c: int): seq<bv8>
    requires |buf| == 8 * num
  {
    DrawColumns(buf, num, g, x, y, c, |g|)
  }

  lemma {:induction false} DrawColumnLit(buf: seq<bv8>, num: nat, bits: bv8, x: int, y: int, c: int, rows: nat, px: int, py: int)
    requires |buf| == 8 * num && rows <= GlyphRows && InBounds(num, px, py)
    ensures Lit(DrawColumn(buf, num, bits, x, y, c, rows), num, px, py) ==
            if px == x && 0 <= py - y < rows && Bit(bits, py - y) then c != 0 else Lit(buf, num, px, py)
  {
    if rows > 0 {
      var b := DrawColumn(buf, num, bits, x, y, c, rows - 1);
      DrawColumnLit(buf, num, bits, x, y, c, rows - 1, px, py);
      if Bit(bits, rows - 1) {
        SetPixelLit(b, num, x, y + rows - 1, c, px, py);
      }
    }
  }

  lemma {:induction false} DrawColumnsLit(buf: seq<bv8>, num: nat, g: seq<bv8>, x: int, y: int, c: int, cols: nat, px: int, py: int)
    requires |buf| == 8 * num && cols <= |g| && InBounds(num, px, py)
    ensures Lit(DrawColumns(buf, num, g, x, y, c, cols), num, px, py) ==
            if px - x < cols && Ink(g, px - x, py - y) then c != 0 else Lit(buf, num, px, py)
  {
    if cols > 0 {
      var b := DrawColumns(buf, num, g, x, y, c, cols - 1);
      DrawColumnsLit(buf, num, g, x, y, c, cols - 1, px, py);
      DrawColumnLit(b, num, g[cols - 1], x + cols - 1, y, c, GlyphRows, px, py);
    }
  }

  /** Drawing a glyph sets to colour c exactly the canvas pixels that fall on an inked
      cell of the glyph (its column `px - x`, its row `py - y`); every other pixel,
      including those under clear bits and under bit 7, keeps its value. */
  lemma DrawGlyphLit(buf: seq<bv8>, num: nat, g: seq<bv8>, x: int, y: int, c: int, px: int, py: int)
    requires |buf| == 8 * num && InBounds(num, px, py)
    ensures |DrawGlyph(buf, num, g, x, y, c)| == |buf|
    ensures Lit(DrawGlyph(buf, num, g, x, y, c), num, px, py) ==
            if Ink(g, px - x, py - y) then c != 0 else Lit(buf, num, px, py)
  {
    DrawColumnsLit(buf, num, g, x, y, c, |g|, px, py);
  }

  /** The characters of msg drawn one after the other, the i-th with its left column at
      x + 6 * i and its top row at y. */
  function Run(buf: seq<bv8>, num: nat, font: Font, msg: string, x: int, y: int, c: int): (r: seq<bv8>)
    requires |buf| == 8 * num
    ensures |r| == |buf|
  {
    if msg == [] then buf
    else
      var n := |msg| - 1;
      DrawGlyph(Run(buf, num, font, msg[..n], x, y, c), num, Glyph(font, msg[n]), x + 6 * n, y, c)
  }

  /** A pixel of a laid-out message shows colour c when some character's glyph inks it
      at that character's offset, and keeps its old value otherwise. */
  lemma {:induction false} RunLit(buf: seq<bv8>, num: nat, font: Font, msg: string, x: int, y: int, c: int, px: int, py: int)
    requires |buf| == 8 * num && InBounds(num, px, py)
    ensures Lit(Run(buf, num, font, msg, x, y, c), num, px, py) ==
            if exists i :: 0 <= i < |msg| && Ink(Glyph(font, msg[i]), px - x - 6 * i, py - y)
            then c != 0 else Lit(buf, num, px, py)
  {
    if msg != [] {
      var n := |msg| - 1;
      var pre := msg[..n];
      var b := Run(buf, num, font, pre, x, y, c);
      RunLit(buf, num, font, pre, x, y, c, px, py);
      DrawGlyphLit(b, num, Glyph(font, msg[n]), x + 6 * n, y, c, px, py);
      assert forall i :: 0 <= i < n ==> pre[i] == msg[i];
      if Ink(Glyph(font, msg[n]), px - x - 6 * n, py - y) {
      } else if exists i :: 0 <= i < n && Ink(Glyph(font, pre[i]), px - x - 6 * i, py - y) {
      } else {
        assert !exists i :: 0 <= i < |msg| && Ink(Glyph(font, msg[i]), px - x - 6 * i, py - y);
      }
    }
  }

  /** The canvas a text call leaves behind: cleared, then the message laid out at (x, y). */
  function TextCanvas(num: nat, font: Font, msg: string, x: int, y: int, c: int): seq<bv8> {
    Run(Filled(8 * num, 0), num, font, msg, x, y, c)
  }

  /** After rendering a message, a pixel is lit exactly when the colour is non-zero and
      some character's glyph inks it at that character's offset: nothing from the
      previous canvas survives. */
  lemma TextLit(num: nat, font: Font, msg: string, x: int, y: int, c: int, px: int, py: int)
    requires InBounds(num, px, py)
    ensures |TextCanvas(num, font, msg, x, y, c)| == 8 * num
    ensures Lit(TextCanvas(num, font, msg, x, y, c), num, px, py) <==>
            c != 0 && exists i :: 0 <= i < |msg| && Ink(Glyph(font, msg[i]), px - x - 6 * i, py - y)
  {
    RunLit(Filled(8 * num, 0), num, font, msg, x, y, c, px, py);
    FilledLit(num, 0, px, py);
  }
}
