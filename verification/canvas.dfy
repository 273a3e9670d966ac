/** The pixel canvas behind the driver: a byte buffer of `8 * num` bytes, seen as a
    monochrome surface `8 * num` pixels wide and 8 pixels high. The layout is the
    horizontal, most-significant-bit-first one that the driver selects for its frame
    buffer: row `y` occupies bytes `y * num .. y * num + num - 1`, and the pixel at
    column `x` of that row is bit `7 - x % 8` of byte `y * num + x / 8`. */
module Canvas {

  /** True when (x, y) lies on a canvas of `num` modules. */
  predicate InBounds(num: nat, x: int, y: int) {
    0 <= x < 8 * num && 0 <= y < 8
  }

  /** The byte that holds pixel (x, y). */
  function ByteIndex(num: nat, x: int, y: int): (i: nat)
    requires InBounds(num, x, y)
    ensures i < 8 * num
    ensures i / num == y && i % num == x / 8
  {
    RowMajor(y, x / 8, num);
    y * num + x / 8
  }

  /** The bit of its byte that holds a pixel in column `x`. */
  function Mask(x: nat): bv8 {
    0x80 >> (x % 8)
  }

  /** Whether pixel (x, y) is lit in `buf`. */
  predicate Lit(buf: seq<bv8>, num: nat, x: int, y: int)
    requires |buf| == 8 * num && InBounds(num, x, y)
  {
    buf[ByteIndex(num, x, y)] & Mask(x) != 0
  }

  /** The buffer after filling the whole canvas with colour `c` (any non-zero colour lights). */
  function Filled(n: nat, c: int): seq<bv8> {
    seq(n, _ => if c != 0 then 0xFF else 0)
  }

  /** The buffer after setting pixel (x, y) to colour `c`; a pixel off the canvas is ignored. */
  function SetPixel(buf: seq<bv8>, num: nat, x: int, y: int, c: int): (r: seq<bv8>)
    requires |buf| == 8 * num
    ensures |r| == |buf|
  {
    if InBounds(num, x, y) then
      var i := ByteIndex(num, x, y);
      buf[i := if c != 0 then buf[i] | Mask(x) else buf[i] & !Mask(x)]
    else
      buf
  }

  /** Row-major addressing is one-to-one: a row and a column below `n` give a distinct index. */
  lemma RowMajor(row: nat, col: nat, n: nat)
    requires col < n
    ensures (row * n + col) / n == row && (row * n + col) % n == col
    ensures row < 8 ==> row * n + col < 8 * n
  {
    var a := row * n + col;
    var q, r := a / n, a % n;
    assert a == n * q + r;
    assert n * (q - row) == col - r by {
      assert n * q + r == n * row + col;
    }
    if q > row {
      MulAtLeast(n, q - row);
      assert false;
    } else if q < row {
      MulAtLeast(n, row - q);
      assert false;
    }
    if row < 8 {
      assert n * row + col < n * row + n == n * (row + 1) <= n * 8;
    }
  }

  lemma MulAtLeast(n: nat, k: int)
    requires k >= 1
    ensures n * k >= n
  {
    assert n * k == n + n * (k - 1);
  }

  /** Two different columns of the same byte have disjoint masks, and setting or
      clearing one leaves the other as it was. */
  lemma MaskIndependent(b: bv8, x: nat, px: nat)
    requires x % 8 != px % 8
    ensures (b | Mask(x)) & Mask(px) == b & Mask(px)
    ensures (b & !Mask(x)) & Mask(px) == b & Mask(px)
  {
  }

  /** Writing pixel (x, y) makes exactly that pixel show colour `c` and leaves every
      other pixel as it was; writing off the canvas changes no pixel at all. */
  lemma SetPixelLit(buf: seq<bv8>, num: nat, x: int, y: int, c: int, px: int, py: int)
    requires |buf| == 8 * num && InBounds(num, px, py)
    ensures Lit(SetPixel(buf, num, x, y, c), num, px, py) ==
            if px == x && py == y then c != 0 else Lit(buf, num, px, py)
  {
    if InBounds(num, x, y) {
      var i, j := ByteIndex(num, x, y), ByteIndex(num, px, py);
      if i == j && !(px == x && py == y) {
        assert px / 8 == x / 8;
        assert px % 8 != x % 8;
        MaskIndependent(buf[i], x, px);
      }
    }
  }

  /** After a fill every pixel of the canvas shows the fill colour. */
  lemma FilledLit(num: nat, c: int, px: int, py: int)
    requires InBounds(num, px, py)
    ensures Lit(Filled(8 * num, c), num, px, py) == (c != 0)
  {
  }
}
