/**
 * The canvas and the frame sequencer of src/render.rs. The canvas owns the
 * permanent pixel buffer; `Settle` paints a placement into it for good and
 * `Overlay` returns a copy with the current attempt highlighted. `Render`
 * walks the attempts with a one-element lookahead and collects one sample
 * per attempt where the original hands the buffer to the video encoder.
 */
module Render {
  import opened Domain
  import opened Geometry
  import opened Pixels

  /** The rectangle `draw_rect` fills for `nbBytes` bytes at `location`. */
  function PlacementRect(location: Location, nbBytes: nat, bankWidth: nat): Rect
    requires Drawable(location.addr, nbBytes)
  {
    Rect(BankStart(location.bank, bankWidth), bankWidth, FirstRow(location.addr), LastRow(location.addr, nbBytes))
  }

  /** Progress of `draw_rect`: the pixels of `r` already written when the loops are at (y, xofs). */
  ghost predicate RectDone(r: Rect, x: int, row: int, y: int, xofs: int)
  {
    r.left <= x < r.left + r.cols && r.top <= row &&
    (row < y || (row == y && x < r.left + xofs))
  }

  /**
   * Progress of the separator loops of `Canvas::new`: the spacer pixels
   * already painted black when the loops are at (y, bank, xofs).
   */
  ghost predicate SpacerDone(x: nat, row: nat, y: nat, bank: nat, xofs: nat, bankWidth: nat, nbBanks: nat)
  {
    IsSpacerColumn(x, bankWidth, nbBanks) &&
    (row < y || (row == y &&
      (SpacerBank(x, bankWidth) < bank ||
       (SpacerBank(x, bankWidth) == bank && SpacerPos(x, bankWidth) + xofs > SpacerWidth))))
  }

  /** Painting spacer column `BankStart(bank) - xofs` on row y advances the separator loops by one step. */
  lemma SpacerStep(x: nat, row: nat, y: nat, bank: nat, xofs: nat, bankWidth: nat, nbBanks: nat)
    requires 1 <= bank < nbBanks && 1 <= xofs <= SpacerWidth
    ensures SpacerDone(x, row, y, bank, xofs + 1, bankWidth, nbBanks) <==>
      SpacerDone(x, row, y, bank, xofs, bankWidth, nbBanks) ||
      (x == BankStart(bank, bankWidth) - xofs && row == y)
  {
    SpacerColumnOf(bank, xofs, bankWidth);
    var d := bankWidth + SpacerWidth;
    assert x + SpacerWidth == (x + SpacerWidth) / d * d + (x + SpacerWidth) % d;
  }

  class Canvas {
    const bankWidth: nat
    const nbBanks: nat
    /** The permanent buffer: the background and every settled placement. */
    const pixels: array<byte>

    ghost predicate Valid()
    {
      1 <= nbBanks <= 512 && bankWidth == BankWidth(nbBanks) &&
      pixels.Length == Geometry.Width(bankWidth, nbBanks) * Geometry.Height * 3
    }

    function Width(): nat
      requires nbBanks >= 1
    {
      Geometry.Width(bankWidth, nbBanks)
    }

    /** `Canvas::new`: a white buffer with black separator columns between the banks. */
    constructor (nbBanks: nat)
      requires 1 <= nbBanks <= 512
      ensures Valid() && this.nbBanks == nbBanks && fresh(pixels)
      ensures pixels[..] == Background(nbBanks)
    {
      var bankWidth := BankWidth(nbBanks);
      var width := Geometry.Width(bankWidth, nbBanks);
      BankWidthFits(nbBanks);
      this.bankWidth := bankWidth;
      this.nbBanks := nbBanks;
      this.pixels := new byte[width * Geometry.Height * 3](_ => 255);
      new;
      for y := 0 to Geometry.Height
        invariant forall i | 0 <= i < pixels.Length ::
          pixels[i] == if SpacerDone(Col(i, width), Row(i, width), y, 1, 1, bankWidth, nbBanks) then 0 else 255
      {
        for bank := 1 to nbBanks
          invariant forall i | 0 <= i < pixels.Length ::
            pixels[i] == if SpacerDone(Col(i, width), Row(i, width), y, bank, 1, bankWidth, nbBanks) then 0 else 255
        {
          for xofs := 1 to SpacerWidth + 1
            invariant forall i | 0 <= i < pixels.Length ::
              pixels[i] == if SpacerDone(Col(i, width), Row(i, width), y, bank, xofs, bankWidth, nbBanks) then 0 else 255
          {
            SpacerColumnOf(bank, xofs, bankWidth);
            var x := bank * (bankWidth + SpacerWidth) - xofs;
            SpacerOutsideBanks(x, 0, bankWidth, nbBanks);
            PixelInBuffer(x, y, width);
            WriteColor(pixels, x, y, width, Black);
            forall i | 0 <= i < pixels.Length
              ensures pixels[i] == if SpacerDone(Col(i, width), Row(i, width), y, bank, xofs + 1, bankWidth, nbBanks) then 0 else 255
            {
              BytesOfPixel(i, x, y, width);
              SpacerStep(Col(i, width), Row(i, width), y, bank, xofs, bankWidth, nbBanks);
            }
          }
        }
      }
      forall i | 0 <= i < pixels.Length
        ensures pixels[i] == Background(nbBanks)[i]
      {
        RowInCanvas(i, width);
      }
    }

    /** `write_color`: the three bytes of pixel (x, y) take the colour, nothing else changes. */
    static method WriteColor(pixels: array<byte>, x: nat, y: nat, width: nat, color: Color)
      requires Offset(x, y, width) + 3 <= pixels.Length
      modifies pixels
      ensures forall i | 0 <= i < pixels.Length ::
        pixels[i] == if Offset(x, y, width) <= i < Offset(x, y, width) + 3
                     then Component(color, i - Offset(x, y, width)) else old(pixels[i])
    {
      var idx := (x + y * width) * 3;
      pixels[idx] := color.r;
      pixels[idx + 1] := color.g;
      pixels[idx + 2] := color.b;
    }

    /**
     * `draw_rect`: fills the rows of the placement, across the whole width of
     * its bank, and leaves every other byte unchanged. The bank must lie
     * inside the canvas, which the source leaves to its callers.
     */
    static method DrawRect(pixels: array<byte>, location: Location, nbBytes: nat, width: nat,
                           bankWidth: nat, color: Color)
      requires width > 0 && pixels.Length == width * Geometry.Height * 3
      requires BankStart(location.bank, bankWidth) + bankWidth <= width
      requires Drawable(location.addr, nbBytes)
      modifies pixels
      ensures pixels[..] == Paint(old(pixels[..]), width, PlacementRect(location, nbBytes, bankWidth), color)
    {
      var addr := location.addr % BankSize;
      var x := location.bank * (bankWidth + SpacerWidth);
      var firstRow := addr / BytesPerRow;
      var last := if addr + nbBytes - 1 < BankSize - 1 then addr + nbBytes - 1 else BankSize - 1;
      var lastRow := last / BytesPerRow;
      ghost var before := pixels[..];
      ghost var r := PlacementRect(location, nbBytes, bankWidth);
      RowSpanBounds(location.addr, nbBytes);
      for y := firstRow to lastRow + 1
        invariant forall i | 0 <= i < pixels.Length ::
          pixels[i] == if RectDone(r, Col(i, width), Row(i, width), y, 0) then Component(color, i % 3) else before[i]
      {
        for xofs := 0 to bankWidth
          invariant forall i | 0 <= i < pixels.Length ::
            pixels[i] == if RectDone(r, Col(i, width), Row(i, width), y, xofs) then Component(color, i % 3) else before[i]
        {
          PixelInBuffer(x + xofs, y, width);
          WriteColor(pixels, x + xofs, y, width, color);
          forall i | 0 <= i < pixels.Length
            ensures pixels[i] == if RectDone(r, Col(i, width), Row(i, width), y, xofs + 1) then Component(color, i % 3) else before[i]
          {
            BytesOfPixel(i, x + xofs, y, width);
          }
        }
      }
      assert pixels[..] == Paint(before, width, r, color);
    }

    /** `settle`: paints the placement into the permanent buffer in the settled colour. */
    method Settle(section: Section, location: Location)
      requires Valid() && location.bank < nbBanks && Drawable(location.addr, section.size)
      modifies pixels
      ensures Valid()
      ensures pixels[..] == Paint(old(pixels[..]), Width(), PlacementRect(location, section.size, bankWidth), FilledColor)
    {
      BankColumnsInside(location.bank, bankWidth, nbBanks);
      BankWidthFits(nbBanks);
      DrawRect(pixels, location, section.size, Width(), bankWidth, FilledColor);
    }

    /**
     * `overlay`: a fresh copy of the permanent buffer with the placement in the
     * overlay colour; the permanent buffer is left as it was.
     */
    method Overlay(section: Section, location: Location) returns (frame: array<byte>)
      requires Valid() && location.bank < nbBanks && Drawable(location.addr, section.size)
      ensures fresh(frame) && unchanged(pixels)
      ensures frame[..] == Paint(pixels[..], Width(), PlacementRect(location, section.size, bankWidth), OverlayColor)
    {
      frame := new byte[pixels.Length](i requires 0 <= i < pixels.Length reads pixels => pixels[i]);
      BankColumnsInside(location.bank, bankWidth, nbBanks);
      BankWidthFits(nbBanks);
      DrawRect(frame, location, section.size, Width(), bankWidth, OverlayColor);
    }
  }

  /** What the MP4 writer receives for one attempt, the encoded bytes replaced by the RGB buffer. */
  datatype Sample = Sample(startTime: nat, duration: nat, pixels: seq<byte>)

  /** An element of the render loop's iterator: the frame's index in `frames`, and the frame. */
  datatype Item = Item(index: nat, frame: Frame)

  predicate SectionIdsInRange(sq: Sequence)
  {
    forall i | 0 <= i < |sq.frames| :: sq.frames[i].sectionId < |sq.sections|
  }

  predicate IsRomFrame(sq: Sequence, f: Frame)
    requires f.sectionId < |sq.sections|
  {
    IsRom(sq.sections[f.sectionId].memType)
  }

  /**
   * The iterator `frames.iter().enumerate()` filtered to ROM0 and ROMX
   * sections, over the first n frames: every ROM frame, in order, with its
   * original index, and nothing else.
   */
  function RomItems(sq: Sequence, n: nat): (items: seq<Item>)
    requires n <= |sq.frames| && SectionIdsInRange(sq)
    ensures forall k | 0 <= k < |items| ::
      items[k].index < n && sq.frames[items[k].index] == items[k].frame && IsRomFrame(sq, items[k].frame)
    ensures forall k, l | 0 <= k < l < |items| :: items[k].index < items[l].index
  {
    if n == 0 then []
    else
      var f := sq.frames[n - 1];
      var prefix := RomItems(sq, n - 1);
      var items := prefix + if IsRomFrame(sq, f) then [Item(n - 1, f)] else [];
      assert forall k | 0 <= k < |prefix| :: items[k] == prefix[k];
      items
  }

  /** No ROM frame is dropped by the filter. */
  lemma {:induction false} RomItemsComplete(sq: Sequence, n: nat, i: nat)
    requires n <= |sq.frames| && SectionIdsInRange(sq)
    requires i < n && IsRomFrame(sq, sq.frames[i])
    ensures exists k :: 0 <= k < |RomItems(sq, n)| && RomItems(sq, n)[k].index == i
  {
    var prefix := RomItems(sq, n - 1);
    if i < n - 1 {
      RomItemsComplete(sq, n - 1, i);
      var k :| 0 <= k < |prefix| && prefix[k].index == i;
      assert RomItems(sq, n)[k] == prefix[k];
    } else {
      assert RomItems(sq, n)[|prefix|].index == i;
    }
  }

  /** A frame `draw_rect` can draw: its section exists and its bank lies inside the canvas. */
  predicate Drawn(sq: Sequence, f: Frame)
  {
    f.sectionId < |sq.sections| && f.location.bank < sq.nbBanks &&
    Drawable(f.location.addr, sq.sections[f.sectionId].size)
  }

  /**
   * What `render` needs of the parser's output: a bank count `Canvas::new`
   * accepts, section indices that exist and ROM frames that can be drawn.
   */
  predicate Renderable(sq: Sequence)
  {
    1 <= sq.nbBanks <= 512 && SectionIdsInRange(sq) &&
    forall i | 0 <= i < |sq.frames| && IsRomFrame(sq, sq.frames[i]) :: Drawn(sq, sq.frames[i])
  }

  predicate AllDrawn(sq: Sequence, items: seq<Item>)
  {
    forall k | 0 <= k < |items| :: Drawn(sq, items[k].frame)
  }

  function CanvasWidth(sq: Sequence): nat
    requires 1 <= sq.nbBanks <= 512
  {
    Geometry.Width(BankWidth(sq.nbBanks), sq.nbBanks)
  }

  function FrameRect(sq: Sequence, f: Frame): Rect
    requires 1 <= sq.nbBanks <= 512 && Drawn(sq, f)
  {
    PlacementRect(f.location, sq.sections[f.sectionId].size, BankWidth(sq.nbBanks))
  }

  /** The lookahead rule: attempt k is settled when the next attempt targets another section. */
  predicate Settles(items: seq<Item>, k: nat)
  {
    k + 1 < |items| && items[k + 1].frame.sectionId != items[k].frame.sectionId
  }

  /** The permanent buffer when attempt k is drawn: the background, then every earlier settle. */
  function CanvasBefore(sq: Sequence, items: seq<Item>, k: nat): (s: seq<byte>)
    requires 1 <= sq.nbBanks <= 512 && AllDrawn(sq, items) && k <= |items|
    ensures |s| == CanvasWidth(sq) * Geometry.Height * 3
  {
    if k == 0 then Background(sq.nbBanks)
    else
      var prev := CanvasBefore(sq, items, k - 1);
      BankWidthFits(sq.nbBanks);
      if Settles(items, k - 1)
      then Paint(prev, CanvasWidth(sq), FrameRect(sq, items[k - 1].frame), FilledColor)
      else prev
  }

  /** The sample emitted for attempt k: the permanent buffer with attempt k in the overlay colour. */
  function FrameSample(sq: Sequence, items: seq<Item>, k: nat): Sample
    requires 1 <= sq.nbBanks <= 512 && AllDrawn(sq, items) && k < |items|
  {
    BankWidthFits(sq.nbBanks);
    Sample(items[k].index, 1,
      Paint(CanvasBefore(sq, items, k), CanvasWidth(sq), FrameRect(sq, items[k].frame), OverlayColor))
  }

  lemma RomItemsDrawn(sq: Sequence)
    requires Renderable(sq)
    ensures AllDrawn(sq, RomItems(sq, |sq.frames|))
  {
  }

  /**
   * The loop of `render`: one sample per ROM attempt, in order, at the
   * attempt's index, each the overlay of the canvas as it stands; the
   * canvas is settled with the attempt when the next one targets another
   * section.
   */
  method Render(sq: Sequence) returns (samples: seq<Sample>)
    requires Renderable(sq)
    ensures var items := RomItems(sq, |sq.frames|);
      AllDrawn(sq, items) && |samples| == |items| &&
      forall k | 0 <= k < |items| :: samples[k] == FrameSample(sq, items, k)
  {
    var canvas := new Canvas(sq.nbBanks);
    var items := RomItems(sq, |sq.frames|);
    RomItemsDrawn(sq);
    samples := [];
    var k := 0;
    while k < |items|
      invariant 0 <= k <= |items| && |samples| == k
      invariant canvas.Valid() && canvas.nbBanks == sq.nbBanks && fresh(canvas.pixels)
      invariant canvas.pixels[..] == CanvasBefore(sq, items, k)
      invariant forall j | 0 <= j < k :: samples[j] == FrameSample(sq, items, j)
    {
      var Item(i, frame) := items[k];
      var section := sq.sections[frame.sectionId];
      var pixels := canvas.Overlay(section, frame.location);
      assert Sample(i, 1, pixels[..]) == FrameSample(sq, items, k);
      samples := samples + [Sample(i, 1, pixels[..])];
      if k + 1 < |items| && items[k + 1].frame.sectionId != frame.sectionId {
        canvas.Settle(section, frame.location);
      }
      assert canvas.pixels[..] == CanvasBefore(sq, items, k + 1);
      k := k + 1;
    }
  }

  /** Pixel (x, y) of the permanent buffer lies in the rectangle of an attempt settled before attempt k. */
  ghost predicate SettledAt(sq: Sequence, items: seq<Item>, k: nat, x: nat, y: nat)
    requires 1 <= sq.nbBanks <= 512 && AllDrawn(sq, items) && k <= |items|
  {
    exists j :: 0 <= j < k && Settles(items, j) && FrameRect(sq, items[j].frame).Contains(x, y)
  }

  /**
   * The permanent buffer before attempt k, pixel by pixel: settled colour
   * where an earlier attempt was settled, the background elsewhere.
   */
  lemma {:induction false} CanvasBeforePixel(sq: Sequence, items: seq<Item>, k: nat, x: nat, y: nat)
    requires 1 <= sq.nbBanks <= 512 && AllDrawn(sq, items) && k <= |items|
    requires x < CanvasWidth(sq) && y < Geometry.Height
    ensures Offset(x, y, CanvasWidth(sq)) + 3 <= |CanvasBefore(sq, items, k)|
    ensures PixelAt(CanvasBefore(sq, items, k), CanvasWidth(sq), x, y) ==
      if SettledAt(sq, items, k, x, y) then FilledColor
      else PixelAt(Background(sq.nbBanks), CanvasWidth(sq), x, y)
  {
    var w := CanvasWidth(sq);
    PixelInBuffer(x, y, w);
    if k > 0 {
      CanvasBeforePixel(sq, items, k - 1, x, y);
      SettledAtStep(sq, items, k, x, y);
      if Settles(items, k - 1) {
        PaintPixel(CanvasBefore(sq, items, k - 1), w, FrameRect(sq, items[k - 1].frame), FilledColor, x, y);
      }
    }
  }

  lemma SettledAtStep(sq: Sequence, items: seq<Item>, k: nat, x: nat, y: nat)
    requires 1 <= sq.nbBanks <= 512 && AllDrawn(sq, items) && 0 < k <= |items|
    ensures SettledAt(sq, items, k, x, y) <==>
      SettledAt(sq, items, k - 1, x, y) ||
      (Settles(items, k - 1) && FrameRect(sq, items[k - 1].frame).Contains(x, y))
  {
    if SettledAt(sq, items, k, x, y) && !SettledAt(sq, items, k - 1, x, y) {
      var j :| 0 <= j < k && Settles(items, j) && FrameRect(sq, items[j].frame).Contains(x, y);
      assert j == k - 1;
    }
  }

  /**
   * The frame emitted for attempt k, pixel by pixel: the overlay colour on
   * the attempt's rectangle, the permanent buffer elsewhere.
   */
  lemma FramePixel(sq: Sequence, items: seq<Item>, k: nat, x: nat, y: nat)
    requires 1 <= sq.nbBanks <= 512 && AllDrawn(sq, items) && k < |items|
    requires x < CanvasWidth(sq) && y < Geometry.Height
    ensures Offset(x, y, CanvasWidth(sq)) + 3 <= |FrameSample(sq, items, k).pixels|
    ensures PixelAt(FrameSample(sq, items, k).pixels, CanvasWidth(sq), x, y) ==
      if FrameRect(sq, items[k].frame).Contains(x, y) then OverlayColor
      else if SettledAt(sq, items, k, x, y) then FilledColor
      else PixelAt(Background(sq.nbBanks), CanvasWidth(sq), x, y)
  {
    CanvasBeforePixel(sq, items, k, x, y);
    PaintPixel(CanvasBefore(sq, items, k), CanvasWidth(sq), FrameRect(sq, items[k].frame), OverlayColor, x, y);
  }

  /** The last attempt is never settled: the permanent buffer ends without it. */
  lemma LastAttemptNeverSettled(sq: Sequence, items: seq<Item>)
    requires 1 <= sq.nbBanks <= 512 && AllDrawn(sq, items) && |items| > 0
    ensures !Settles(items, |items| - 1)
    ensures CanvasBefore(sq, items, |items|) == CanvasBefore(sq, items, |items| - 1)
  {
  }

  /**
   * The separator columns stay black in every permanent buffer and every
   * frame: no bank's rectangle reaches them.
   */
  lemma SeparatorsStayBlack(sq: Sequence, items: seq<Item>, k: nat, x: nat, y: nat)
    requires 1 <= sq.nbBanks <= 512 && AllDrawn(sq, items) && k < |items|
    requires SeparatesBanks(x, BankWidth(sq.nbBanks), sq.nbBanks) && y < Geometry.Height
    ensures x < CanvasWidth(sq)
    ensures Offset(x, y, CanvasWidth(sq)) + 3 <= |CanvasBefore(sq, items, k)|
    ensures |FrameSample(sq, items, k).pixels| == |CanvasBefore(sq, items, k)|
    ensures PixelAt(CanvasBefore(sq, items, k), CanvasWidth(sq), x, y) == Black
    ensures PixelAt(FrameSample(sq, items, k).pixels, CanvasWidth(sq), x, y) == Black
  {
    SeparatorOutsideEveryRect(sq, items, x, y);
    BackgroundPixel(sq.nbBanks, x, y);
    CanvasBeforePixel(sq, items, k, x, y);
    FramePixel(sq, items, k, x, y);
  }

  lemma SeparatorOutsideEveryRect(sq: Sequence, items: seq<Item>, x: nat, y: nat)
    requires 1 <= sq.nbBanks <= 512 && AllDrawn(sq, items)
    requires SeparatesBanks(x, BankWidth(sq.nbBanks), sq.nbBanks)
    ensures x < CanvasWidth(sq)
    ensures forall j | 0 <= j < |items| :: !FrameRect(sq, items[j].frame).Contains(x, y)
  {
    var bw := BankWidth(sq.nbBanks);
    SpacerColumnIff(x, bw, sq.nbBanks);
    SpacerOutsideBanks(x, 0, bw, sq.nbBanks);
    forall j | 0 <= j < |items|
      ensures !FrameRect(sq, items[j].frame).Contains(x, y)
    {
      SpacerOutsideBanks(x, items[j].frame.location.bank, bw, sq.nbBanks);
    }
  }

  /** A pixel that is not white in the permanent buffer never becomes white again. */
  lemma NonWhiteStaysNonWhite(sq: Sequence, items: seq<Item>, j: nat, k: nat, x: nat, y: nat)
    requires 1 <= sq.nbBanks <= 512 && AllDrawn(sq, items) && j <= k <= |items|
    requires x < CanvasWidth(sq) && y < Geometry.Height
    requires Offset(x, y, CanvasWidth(sq)) + 3 <= |CanvasBefore(sq, items, j)|
    requires !IsWhite(CanvasBefore(sq, items, j), CanvasWidth(sq), x, y)
    ensures Offset(x, y, CanvasWidth(sq)) + 3 <= |CanvasBefore(sq, items, k)|
    ensures !IsWhite(CanvasBefore(sq, items, k), CanvasWidth(sq), x, y)
  {
    CanvasBeforePixel(sq, items, j, x, y);
    CanvasBeforePixel(sq, items, k, x, y);
    if SettledAt(sq, items, j, x, y) {
      var i :| 0 <= i < j && Settles(items, i) && FrameRect(sq, items[i].frame).Contains(x, y);
      assert SettledAt(sq, items, k, x, y);
    }
  }

  /** Section indices never decrease along the attempts: each section's attempts form one run. */
  predicate RunsContiguous(items: seq<Item>)
  {
    forall k, l | 0 <= k < l < |items| :: items[k].frame.sectionId <= items[l].frame.sectionId
  }

  /**
   * When each section's attempts form one run, an attempt is settled
   * exactly when it is the last attempt of its section and not the last
   * attempt overall.
   */
  lemma SettlesAtEndOfRun(items: seq<Item>, k: nat)
    requires RunsContiguous(items) && k < |items|
    ensures Settles(items, k) <==>
      k + 1 < |items| &&
      forall l | k < l < |items| :: items[l].frame.sectionId != items[k].frame.sectionId
  {
  }

  /** Under contiguous runs, a section is settled at most once. */
  lemma SettledAtMostOnce(items: seq<Item>, k: nat, l: nat)
    requires RunsContiguous(items) && k < l < |items|
    requires items[k].frame.sectionId == items[l].frame.sectionId
    ensures !Settles(items, k)
  {
  }

  /** When every frame is a ROM frame, the filter keeps all of them with their own indices. */
  lemma {:induction false} AllRomKeepsEveryFrame(sq: Sequence, n: nat)
    requires n <= |sq.frames| && SectionIdsInRange(sq)
    requires forall i | 0 <= i < |sq.frames| :: IsRomFrame(sq, sq.frames[i])
    ensures |RomItems(sq, n)| == n
    ensures forall k | 0 <= k < n :: RomItems(sq, n)[k] == Item(k, sq.frames[k])
  {
    if n > 0 {
      AllRomKeepsEveryFrame(sq, n - 1);
      assert RomItems(sq, n) == RomItems(sq, n - 1) + [Item(n - 1, sq.frames[n - 1])];
    }
  }

  /** Two attempts for one section then one for another: only the second attempt is settled. */
  lemma ThreeAttemptsScenario(a: Location, b: Location, c: Location)
    ensures var items := [Item(0, Frame(a, 0)), Item(1, Frame(b, 0)), Item(2, Frame(c, 1))];
      !Settles(items, 0) && Settles(items, 1) && !Settles(items, 2)
  {
  }
}
