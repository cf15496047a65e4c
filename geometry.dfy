/**
 * The pure layout arithmetic of the canvas (src/render.rs): how many pixel
 * columns each bank gets, how wide the canvas is, where a bank starts, and
 * which pixel rows an address range covers.
 */
module Geometry {

  const Height: nat := 512
  const MaxWidth: nat := Height * 2
  const SpacerWidth: nat := 2
  const MaxBankWidth: nat := 32 - SpacerWidth
  /** Size of one ROM bank; only the offset inside a bank selects the rows. */
  const BankSize: nat := 0x4000
  /** How many bytes one row of pixels stands for. */
  const BytesPerRow: nat := BankSize / Height

  /** `n & !1` on an unsigned integer: n rounded down to an even number. */
  function RoundDownEven(n: nat): (r: nat)
    ensures r % 2 == 0 && r <= n < r + 2
  {
    n - n % 2
  }

  /**
   * The width of one bank, as chosen by `Canvas::new`. Rust computes it in
   * u32, so the subtraction would underflow for more than 512 banks, and
   * the division fails for 0 banks.
   */
  function BankWidth(nbBanks: nat): (bw: nat)
    requires 1 <= nbBanks <= 512
    ensures bw % 2 == 0 && bw <= MaxBankWidth
  {
    DivLowerBound(nbBanks);
    var raw := RoundDownEven(MaxWidth / nbBanks);
    if raw - SpacerWidth < MaxBankWidth then raw - SpacerWidth else MaxBankWidth
  }

  lemma DivLowerBound(nbBanks: nat)
    requires 1 <= nbBanks <= 512
    ensures MaxWidth / nbBanks >= 2
  {
  }

  /** `n_banks_width`: every bank followed by a spacer, except the last one. */
  function Width(bankWidth: nat, nbBanks: nat): nat
    requires nbBanks >= 1
  {
    (bankWidth + SpacerWidth) * nbBanks - SpacerWidth
  }

  /** The first pixel column of a bank. */
  function BankStart(bank: nat, bankWidth: nat): nat
  {
    bank * (bankWidth + SpacerWidth)
  }

  /**
   * The bank width is the widest even width, up to MaxBankWidth, for which
   * all banks and the spacers between them fit in MaxWidth columns; the
   * resulting canvas width is even (the video encoder needs that).
   */
  lemma BankWidthFits(nbBanks: nat)
    requires 1 <= nbBanks <= 512
    ensures var bw := BankWidth(nbBanks);
      && (bw + SpacerWidth) * nbBanks <= MaxWidth
      && (bw == MaxBankWidth || (bw + SpacerWidth + 2) * nbBanks > MaxWidth)
      && Width(bw, nbBanks) <= MaxWidth
      && Width(bw, nbBanks) % 2 == 0
      && Width(bw, nbBanks) >= bw
      && Width(bw, nbBanks) > 0
  {
    var bw := BankWidth(nbBanks);
    var q := MaxWidth / nbBanks;
    BankWidthAgainstQuotient(nbBanks);
    QuotientBounds(nbBanks, q);
    MulLeq(bw + SpacerWidth, q, nbBanks);
    if bw != MaxBankWidth {
      MulLeq(q + 1, bw + SpacerWidth + 2, nbBanks);
    }
    EvenWidth(bw, nbBanks);
    WidthPositive(bw, nbBanks);
  }

  lemma WidthPositive(bw: nat, nbBanks: nat)
    requires nbBanks >= 1 && (nbBanks == 1 ==> bw > 0)
    ensures Width(bw, nbBanks) >= bw && Width(bw, nbBanks) > 0
  {
    MulLeq(1, nbBanks, bw + SpacerWidth);
    if nbBanks > 1 {
      MulLeq(2, nbBanks, bw + SpacerWidth);
    }
  }

  lemma EvenWidth(bw: nat, nbBanks: nat)
    requires bw % 2 == 0 && nbBanks >= 1
    ensures Width(bw, nbBanks) % 2 == 0
  {
    var k := (bw + SpacerWidth) / 2;
    var p := k * nbBanks;
    assert bw + SpacerWidth == k + k;
    assert (k + k) * nbBanks == p + p;
    assert Width(bw, nbBanks) == p + p - 2;
  }

  lemma BankWidthAgainstQuotient(nbBanks: nat)
    requires 1 <= nbBanks <= 512
    ensures BankWidth(nbBanks) + SpacerWidth <= MaxWidth / nbBanks
    ensures BankWidth(nbBanks) == MaxBankWidth || BankWidth(nbBanks) + SpacerWidth + 2 > MaxWidth / nbBanks
  {
    DivLowerBound(nbBanks);
  }

  lemma QuotientBounds(n: nat, q: nat)
    requires n >= 1 && q == MaxWidth / n
    ensures q * n <= MaxWidth < (q + 1) * n
  {
    assert MaxWidth == q * n + MaxWidth % n;
  }

  lemma MulLeq(a: nat, b: nat, c: nat)
    requires a <= b
    ensures a * c <= b * c
  {
  }

  /** Two scenarios: two banks get 30 columns each on a 62-column canvas. */
  lemma TwoBanksLayout()
    ensures BankWidth(2) == 30 && Width(30, 2) == 62
    ensures BankWidth(512) == 0 && Width(0, 512) == 1022
  {
  }

  /**
   * Bank `bank` occupies columns [BankStart, BankStart + bankWidth), which
   * lie inside the canvas for every bank below the bank count; the last
   * bank ends exactly at the right edge (no trailing spacer).
   */
  lemma BankColumnsInside(bank: nat, bankWidth: nat, nbBanks: nat)
    requires bank < nbBanks
    ensures BankStart(bank, bankWidth) + bankWidth <= Width(bankWidth, nbBanks)
    ensures bank == nbBanks - 1 ==> BankStart(bank, bankWidth) + bankWidth == Width(bankWidth, nbBanks)
  {
    MulLeq(bank + 1, nbBanks, bankWidth + SpacerWidth);
    assert (bank + 1) * (bankWidth + SpacerWidth) == BankStart(bank, bankWidth) + bankWidth + SpacerWidth;
  }

  /** The offset inside the bank: `addr % 0x4000`. */
  function BankOffset(addr: nat): nat
  {
    addr % BankSize
  }

  /** The pixel row that stands for the byte at offset `b` of a bank. */
  function ByteRow(b: nat): nat
  {
    b / BytesPerRow
  }

  /**
   * `draw_rect` computes `addr + nb_bytes - 1` in u32: it underflows when
   * both the size and the in-bank offset are zero.
   */
  predicate Drawable(addr: nat, nbBytes: nat)
  {
    nbBytes >= 1 || BankOffset(addr) != 0
  }

  function FirstRow(addr: nat): nat
  {
    ByteRow(BankOffset(addr))
  }

  /** The last row, with the placement capped at the end of its bank. */
  function LastRow(addr: nat, nbBytes: nat): int
    requires Drawable(addr, nbBytes)
  {
    var last := BankOffset(addr) + nbBytes - 1;
    ByteRow(if last < BankSize - 1 then last else BankSize - 1)
  }

  /** Row `r` stands for the 32 bytes from `32 * r` on. */
  lemma ByteRowRange(b: nat)
    ensures BytesPerRow == 32
    ensures 32 * ByteRow(b) <= b < 32 * ByteRow(b) + 32
  {
  }

  /**
   * The rows span stays inside the canvas whatever the size; a non-empty
   * placement covers at least its first row; a zero-byte placement covers
   * its first row or nothing.
   */
  lemma RowSpanBounds(addr: nat, nbBytes: nat)
    requires Drawable(addr, nbBytes)
    ensures FirstRow(addr) < Height && LastRow(addr, nbBytes) < Height
    ensures nbBytes >= 1 ==> FirstRow(addr) <= LastRow(addr, nbBytes)
    ensures nbBytes == 0 ==> FirstRow(addr) - 1 <= LastRow(addr, nbBytes) <= FirstRow(addr)
  {
    var lo := BankOffset(addr);
    var last := lo + nbBytes - 1;
    var capped := if last < BankSize - 1 then last else BankSize - 1;
    assert lo < BankSize;
    assert LastRow(addr, nbBytes) == ByteRow(capped);
    ByteRowRange(lo);
    ByteRowRange(capped);
  }

  /**
   * The rows drawn are exactly the rows of the bytes the placement covers
   * within its bank, the size being capped at the end of the bank.
   */
  lemma RowsCoverPlacement(addr: nat, nbBytes: nat, y: int)
    requires nbBytes >= 1
    ensures var lo := BankOffset(addr);
      var hi := if lo + nbBytes < BankSize then lo + nbBytes else BankSize;
      FirstRow(addr) <= y <= LastRow(addr, nbBytes) <==>
        exists b: nat :: lo <= b < hi && ByteRow(b) == y
  {
    var lo := BankOffset(addr);
    var hi := if lo + nbBytes < BankSize then lo + nbBytes else BankSize;
    assert lo < BankSize;
    assert LastRow(addr, nbBytes) == ByteRow(hi - 1);
    if FirstRow(addr) <= y <= LastRow(addr, nbBytes) {
      var b: nat := if y == FirstRow(addr) then lo else 32 * y;
      ByteRowRange(lo);
      ByteRowRange(hi - 1);
      ByteRowRange(b);
      assert lo <= b < hi && ByteRow(b) == y;
    }
    if exists b: nat :: lo <= b < hi && ByteRow(b) == y {
      var b: nat :| lo <= b < hi && ByteRow(b) == y;
      ByteRowMonotone(lo, b);
      ByteRowMonotone(b, hi - 1);
    }
  }

  lemma ByteRowMonotone(a: nat, b: nat)
    requires a <= b
    ensures ByteRow(a) <= ByteRow(b)
  {
    ByteRowRange(a);
    ByteRowRange(b);
  }
}
