/**
 * The canvas buffer as Rust lays it out (src/render.rs): a flat row-major
 * RGB byte buffer, three bytes per pixel. This module gives the meaning of
 * such a buffer in pixel coordinates, the effect of drawing a rectangle
 * (`Paint`) and the background `Canvas::new` draws (`Background`).
 */
module Pixels {
  import opened Geometry

  /** Rust's u8. */
  type byte = x: int | 0 <= x < 256

  datatype Color = Color(r: byte, g: byte, b: byte)

  const White: Color := Color(255, 255, 255)
  const Black: Color := Color(0, 0, 0)
  /** `FILLED_COLOR`: a settled (permanent) placement. */
  const FilledColor: Color := Color(0, 255, 0)
  /** `OVERLAY_COLOR`: the placement being attempted in the current frame. */
  const OverlayColor: Color := Color(255, 0, 0)

  /** Byte `k` of a colour in the buffer: red, green, then blue. */
  function Component(c: Color, k: nat): byte
    requires k < 3
  {
    if k == 0 then c.r else if k == 1 then c.g else c.b
  }

  /** The index of the first byte of pixel (x, y), as `write_color` computes it. */
  function Offset(x: nat, y: nat, width: nat): nat
  {
    (x + y * width) * 3
  }

  /** The column of the pixel that byte `i` belongs to. */
  function Col(i: nat, width: nat): nat
    requires width > 0
  {
    (i / 3) % width
  }

  /** The row of the pixel that byte `i` belongs to. */
  function Row(i: nat, width: nat): nat
    requires width > 0
  {
    (i / 3) / width
  }

  lemma DivModUnique(p: int, d: int, q: int, r: int)
    requires d > 0 && 0 <= r < d && p == q * d + r
    ensures p / d == q && p % d == r
  {
    var q', r' := p / d, p % d;
    assert p == q' * d + r';
    if q' > q {
      assert (q' - q) * d >= d by { MulAtLeast(q' - q, d); }
      assert false;
    } else if q' < q {
      assert (q - q') * d >= d by { MulAtLeast(q - q', d); }
      assert false;
    }
  }

  lemma MulAtLeast(a: int, d: int)
    requires a >= 1 && d > 0
    ensures a * d >= d
  {
  }

  /**
   * The three bytes of pixel (x, y) are exactly the bytes whose column is x
   * and whose row is y; byte `Offset + k` holds colour component k.
   */
  lemma BytesOfPixel(i: nat, x: nat, y: nat, width: nat)
    requires x < width
    ensures (Col(i, width) == x && Row(i, width) == y) <==>
            Offset(x, y, width) <= i < Offset(x, y, width) + 3
    ensures Offset(x, y, width) <= i < Offset(x, y, width) + 3 ==> i % 3 == i - Offset(x, y, width)
  {
    var p := i / 3;
    if Col(i, width) == x && Row(i, width) == y {
      assert p == y * width + x;
    }
    if Offset(x, y, width) <= i < Offset(x, y, width) + 3 {
      assert p == y * width + x;
      DivModUnique(p, width, y, x);
    }
  }

  /** Every byte of a buffer of `Height` rows lies in a pixel row of the canvas. */
  lemma RowInCanvas(i: nat, width: nat)
    requires width > 0 && i < width * Height * 3
    ensures Row(i, width) < Height && Col(i, width) < width
  {
    var p := i / 3;
    assert p < width * Height;
    assert p == (p / width) * width + p % width;
  }

  /** The three bytes of pixel (x, y). */
  function PixelAt(s: seq<byte>, width: nat, x: nat, y: nat): Color
    requires Offset(x, y, width) + 3 <= |s|
  {
    var o := Offset(x, y, width);
    Color(s[o], s[o + 1], s[o + 2])
  }

  /** Pixel (x, y) of a canvas of the given width exists when x < width and y < Height. */
  lemma PixelInBuffer(x: nat, y: nat, width: nat)
    requires x < width && y < Height
    ensures Offset(x, y, width) + 3 <= width * Height * 3
  {
    MulLeq(y + 1, Height, width);
  }

  predicate IsWhite(s: seq<byte>, width: nat, x: nat, y: nat)
    requires Offset(x, y, width) + 3 <= |s|
  {
    PixelAt(s, width, x, y) == White
  }

  /** Columns [left, left + cols) times rows [top, bottom]. */
  datatype Rect = Rect(left: int, cols: nat, top: int, bottom: int)
  {
    predicate Contains(x: int, y: int)
    {
      left <= x < left + cols && top <= y <= bottom
    }
  }

  /**
   * The buffer after `draw_rect` has filled the rectangle with a colour:
   * a byte changes exactly when its pixel lies in the rectangle.
   */
  function Paint(s: seq<byte>, width: nat, r: Rect, c: Color): (t: seq<byte>)
    requires width > 0
    ensures |t| == |s|
  {
    seq(|s|, i requires 0 <= i < |s| =>
      if r.Contains(Col(i, width), Row(i, width)) then Component(c, i % 3) else s[i])
  }

  /** In pixel terms: a pixel in the rectangle takes the colour, every other pixel keeps its own. */
  lemma PaintPixel(s: seq<byte>, width: nat, r: Rect, c: Color, x: nat, y: nat)
    requires x < width && Offset(x, y, width) + 3 <= |s|
    ensures PixelAt(Paint(s, width, r, c), width, x, y) ==
            if r.Contains(x, y) then c else PixelAt(s, width, x, y)
  {
    var o := Offset(x, y, width);
    BytesOfPixel(o, x, y, width);
    BytesOfPixel(o + 1, x, y, width);
    BytesOfPixel(o + 2, x, y, width);
  }

  /** Painting the same rectangle twice gives the pixels of painting it once. */
  lemma PaintIdempotent(s: seq<byte>, width: nat, r: Rect, c: Color)
    requires width > 0
    ensures Paint(Paint(s, width, r, c), width, r, c) == Paint(s, width, r, c)
  {
  }

  /** Painting with a colour other than white never turns a pixel white. */
  lemma PaintKeepsNonWhite(s: seq<byte>, width: nat, r: Rect, c: Color, x: nat, y: nat)
    requires x < width && Offset(x, y, width) + 3 <= |s|
    requires c != White && !IsWhite(s, width, x, y)
    ensures !IsWhite(Paint(s, width, r, c), width, x, y)
  {
    PaintPixel(s, width, r, c, x, y);
  }

  /** The spacer column offset x + SpacerWidth, split into a bank and a position. */
  function SpacerBank(x: nat, bankWidth: nat): nat
  {
    (x + SpacerWidth) / (bankWidth + SpacerWidth)
  }

  function SpacerPos(x: nat, bankWidth: nat): nat
  {
    (x + SpacerWidth) % (bankWidth + SpacerWidth)
  }

  /**
   * Column x is one of the SpacerWidth columns just left of the start of
   * bank 1 .. nbBanks - 1.
   */
  predicate IsSpacerColumn(x: nat, bankWidth: nat, nbBanks: nat)
  {
    1 <= SpacerBank(x, bankWidth) < nbBanks && SpacerPos(x, bankWidth) < SpacerWidth
  }

  /** The separator columns as `Canvas::new` enumerates them. */
  ghost predicate SeparatesBanks(x: nat, bankWidth: nat, nbBanks: nat)
  {
    exists bank: nat :: 1 <= bank < nbBanks &&
      (x == BankStart(bank, bankWidth) - 1 || x == BankStart(bank, bankWidth) - 2)
  }

  /** Where the spacer column of bank `bank` at distance `xofs` from its start lies. */
  lemma SpacerColumnOf(bank: nat, xofs: nat, bankWidth: nat)
    requires bank >= 1 && 1 <= xofs <= SpacerWidth
    ensures BankStart(bank, bankWidth) >= xofs
    ensures SpacerBank(BankStart(bank, bankWidth) - xofs, bankWidth) == bank
    ensures SpacerPos(BankStart(bank, bankWidth) - xofs, bankWidth) == SpacerWidth - xofs
  {
    MulAtLeast(bank, bankWidth + SpacerWidth);
    DivModUnique(BankStart(bank, bankWidth) - xofs + SpacerWidth, bankWidth + SpacerWidth, bank, SpacerWidth - xofs);
  }

  lemma SpacerColumnIff(x: nat, bankWidth: nat, nbBanks: nat)
    ensures IsSpacerColumn(x, bankWidth, nbBanks) <==> SeparatesBanks(x, bankWidth, nbBanks)
  {
    if IsSpacerColumn(x, bankWidth, nbBanks) {
      var bank := SpacerBank(x, bankWidth);
      assert x + SpacerWidth == bank * (bankWidth + SpacerWidth) + SpacerPos(x, bankWidth);
      assert x == BankStart(bank, bankWidth) - 1 || x == BankStart(bank, bankWidth) - 2;
    }
    if SeparatesBanks(x, bankWidth, nbBanks) {
      var bank: nat :| 1 <= bank < nbBanks &&
        (x == BankStart(bank, bankWidth) - 1 || x == BankStart(bank, bankWidth) - 2);
      SpacerColumnOf(bank, BankStart(bank, bankWidth) - x, bankWidth);
    }
  }

  /** A spacer column lies inside the canvas and outside every bank's columns. */
  lemma SpacerOutsideBanks(x: nat, bank: nat, bankWidth: nat, nbBanks: nat)
    requires IsSpacerColumn(x, bankWidth, nbBanks)
    ensures nbBanks >= 1 && x < Width(bankWidth, nbBanks)
    ensures !(BankStart(bank, bankWidth) <= x < BankStart(bank, bankWidth) + bankWidth)
  {
    var k := SpacerBank(x, bankWidth);
    SpacerBeforeBank(x, bankWidth);
    BankColumnsInside(k, bankWidth, nbBanks);
    if bank < k {
      BankStartMonotone(bank + 1, k, bankWidth);
      NextBankStart(bank, bankWidth);
    } else {
      BankStartMonotone(k, bank, bankWidth);
    }
  }

  /** A column whose spacer position is below SpacerWidth lies just left of its bank's start. */
  lemma SpacerBeforeBank(x: nat, bankWidth: nat)
    requires SpacerPos(x, bankWidth) < SpacerWidth
    ensures var k := SpacerBank(x, bankWidth);
      BankStart(k, bankWidth) - SpacerWidth <= x < BankStart(k, bankWidth)
  {
    var d := bankWidth + SpacerWidth;
    assert x + SpacerWidth == (x + SpacerWidth) / d * d + (x + SpacerWidth) % d;
  }

  lemma NextBankStart(bank: nat, bankWidth: nat)
    ensures BankStart(bank + 1, bankWidth) == BankStart(bank, bankWidth) + bankWidth + SpacerWidth
  {
  }

  lemma BankStartMonotone(a: nat, b: nat, bankWidth: nat)
    requires a <= b
    ensures BankStart(a, bankWidth) <= BankStart(b, bankWidth)
  {
    MulLeq(a, b, bankWidth + SpacerWidth);
  }

  /**
   * The buffer `Canvas::new` produces: white everywhere except the spacer
   * columns, which are black on every row.
   */
  function Background(nbBanks: nat): (s: seq<byte>)
    requires 1 <= nbBanks <= 512
    ensures |s| == Width(BankWidth(nbBanks), nbBanks) * Height * 3
  {
    var bw := BankWidth(nbBanks);
    var w := Width(bw, nbBanks);
    BankWidthFits(nbBanks);
    seq(w * Height * 3, i requires 0 <= i < w * Height * 3 =>
      if IsSpacerColumn(Col(i, w), bw, nbBanks) then 0 else 255)
  }

  lemma BackgroundPixel(nbBanks: nat, x: nat, y: nat)
    requires 1 <= nbBanks <= 512
    requires x < Width(BankWidth(nbBanks), nbBanks) && y < Height
    ensures var w := Width(BankWidth(nbBanks), nbBanks);
      Offset(x, y, w) + 3 <= |Background(nbBanks)| &&
      PixelAt(Background(nbBanks), w, x, y) ==
        if SeparatesBanks(x, BankWidth(nbBanks), nbBanks) then Black else White
  {
    var w := Width(BankWidth(nbBanks), nbBanks);
    PixelInBuffer(x, y, w);
    var o := Offset(x, y, w);
    BytesOfPixel(o, x, y, w);
    BytesOfPixel(o + 1, x, y, w);
    BytesOfPixel(o + 2, x, y, w);
    SpacerColumnIff(x, BankWidth(nbBanks), nbBanks);
  }
}
