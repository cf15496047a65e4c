# gb-packing-visualizer, modelled in Dafny

gb-packing-visualizer reads the placement log a Game Boy linker writes while it
packs sections into memory. It turns that log into a video with one frame per
placement attempt. This project models the three core parts of the tool:

- **Log ingestion** (`src/parse.rs`, data types of `src/main.rs`):
  - the `bank:addr` location grammar;
  - the section header `TYPE @ bank:addr & mask + ofs ] size name`;
  - the line loop of `parse_input`. It normalises each line, attaches attempts
    to the latest section, drops attempts under non-ROM sections and raises the
    bank count to powers of two.
- **The canvas** (`Canvas` in `src/render.rs`): a flat RGB byte buffer with one
  column band per ROM bank and black spacer columns between the bands. It has
  two drawing operations:
  - `settle` paints a placement green into the permanent buffer;
  - `overlay` returns a fresh copy with the placement in red.
- **The frame sequencer** (the loop of `render`): one overlay frame per ROM
  attempt. An attempt is settled when the next attempt belongs to another
  section.

Modules, one concept each:
- `Wrappers`: Option and Result.
- `Domain`: locations, memory kinds, sections, frames and the sequence.
- `Text`: Rust's `trim`, `split_once`, `from_str_radix` and number formatting.
- `Parse`: the two `FromStr` implementations.
- `Input`: `parse_input`.
- `Geometry`: the layout arithmetic.
- `Pixels`: the meaning of a byte buffer in pixel coordinates.
- `Render`: the `Canvas` class over an `array<byte>`, and the sequencer.
- `Pipeline`: how the parser's output meets the renderer's needs.

Imperative code is modelled imperatively, and each method is proved against a
specification function:
- `Canvas.constructor` paints the separators with the source's nested loops,
  proved against `Background`.
- `WriteColor` and `DrawRect` write into the array, proved against `Paint`.
- `Settle` and `Overlay` follow the source's in-place and copy semantics.
- `Render` carries the loop invariant "the permanent buffer equals
  `CanvasBefore(k)`".
- `ParseInput` runs the line loop, proved against the fold `Ingest`.

Two behaviours of the code are easy to miss:

- A zero-byte placement does not always cover its first row. At a bank offset
  that is a nonzero multiple of 32, the last row is one above the first and
  nothing is drawn. At offset 0 the source's u32 subtraction underflows. So
  `first_row <= last_row` holds only for sizes of at least one byte
  (`Geometry.RowSpanBounds`), and drawing requires `Drawable`.
- The bank count is `next_power_of_two(bank)`, which equals the bank when the
  bank is itself a power of two. The parser therefore admits ROMX frames at
  bank `nb_banks`. Such a log is accepted but lies outside `Render.Render`'s
  precondition `Renderable` (`Pipeline.PowerOfTwoBankNotRenderable`). The
  source still draws it, wrongly: the band starts at x = width + 2, so
  `write_color` paints row y + 1 at columns 2 to bank_width + 1. Those
  columns are bank 0's band and the black separator after it. The program
  panics on the index only when the placement reaches row 511.

## Model

| member | source | states |
|---|---|---|
| Domain.ParseMemType | src/main.rs:16-27 | A token parses to a memory kind only if it is that kind's upper-case name; every other token is rejected |
| Domain.MemTypeRoundTrip | src/main.rs:16-27 | Each of the eight upper-case names parses back to its own kind |
| Parse.FloatingAddress | src/main.rs:52-55 | A location is floating exactly when its address is the u16 maximum, written `ffff` |
| Parse.FloatingBank | src/main.rs:57-59 | A location has a floating bank exactly when its bank is the u32 maximum, written `ffffffff` |
| Domain.Location.IsFloating | src/main.rs:53-55 | `Location::is_floating`: the address is the u16 maximum (stated in terms of its written form by Parse.FloatingAddress) |
| Domain.Location.IsFloatingBank | src/main.rs:57-59 | `Location::is_floating_bank`: the bank is the u32 maximum (stated by Parse.FloatingBank) |
| Domain.Section.IsFloating | src/main.rs:63-65 | `Section::is_floating`: the section's own location is floating |
| Domain.Section.IsFloatingBank | src/main.rs:67-69 | `Section::is_floating_bank`: the section's own location has a floating bank |
| Parse.SectionFloating | src/main.rs:62-70 | A section is floating exactly when its address is written `ffff`, and has a floating bank exactly when its bank is written `ffffffff` |
| Text.TrimStart | src/parse.rs:148 | The result is a suffix of the input; everything dropped is Unicode whitespace; the result does not start with whitespace |
| Text.TrimEnd | src/parse.rs:91-92 | The result is a prefix of the input; everything dropped is whitespace; the result does not end with whitespace |
| Text.TrimKeepsNonWhitespace | src/parse.rs:91-92 | Trimming never removes a character that is not whitespace |
| Text.Trim | src/parse.rs:91-92 | `str::trim`: trailing whitespace dropped from the start-trimmed text; its properties are TrimKeepsNonWhitespace and TrimPlain |
| Text.TrimPlain | src/parse.rs:91-92 | A string with no whitespace at either end is left unchanged by trimming |
| Text.FindFirst | src/parse.rs:87-89 | `split_once` finds the first occurrence of the character, with no earlier one; it reports none only when the character is absent |
| Text.DigitValue | src/parse.rs:91-92 | An accepted digit has a value below the radix |
| Text.ParseUnsigned | src/parse.rs:91-92 | `from_str_radix` for an unsigned type only yields values below the type's bound; ParseDigits and ParsedShape characterise what it accepts in both directions |
| Text.ParseDigits | src/parse.rs:91-92 | Any non-empty digit string of the radix, in either case, with leading zeros and after an optional `+`, is accepted with its value when that is below the bound, and rejected otherwise |
| Text.FormatTooLarge | src/parse.rs:91-92 | A number at or above the type's bound is rejected |
| Text.ParsedShape | src/parse.rs:91-92 | The converse of ParseDigits: a string that parses is non-empty, has `+` at most in front, and after it a non-empty run of digits whose value is the result; so `""`, `+`, `1+2` and `++1` are rejected |
| Text.ParsedCharacters | src/parse.rs:91-92 | A string that parses holds only `+` and digits of the radix |
| Text.FormatCharacters | src/parse.rs:121-125 | `Format` is the model's own printer, the inverse the parser is checked against: a formatted number consists of lower-case hexadecimal or decimal digits only |
| Text.FormatDigits | src/parse.rs:121-125 | The model's printer `Format` yields a digit string that `from_str_radix` reads as the number: a formatted number is a digit string whose value is the number |
| Text.FormatRoundTrip | src/parse.rs:121-125 | Parsing a formatted number below the bound gives back the number, in radix 16 and in radix 10 |
| Text.FormatInjective | src/parse.rs:121-125 | The model's printer `Format` loses nothing the parser reads: two numbers format alike only if they are equal |
| Parse.ParseLocation | src/parse.rs:86-94 | The error is `MissingColon` exactly when the line holds no colon |
| Parse.BankTooLarge | src/parse.rs:87-91 | A bank written in canonical hexadecimal (lower case, no leading zeros) that does not fit in 32 bits is `BadBank`, whatever follows the colon |
| Parse.AddressTooLarge | src/parse.rs:87-92 | After a bank that fits, an address written in canonical hexadecimal that does not fit in 16 bits is `BadAddr` |
| Parse.AddressMissing | src/parse.rs:87-92 | After a bank that fits, a colon followed by nothing but whitespace (as in `ffff:`) is `BadAddr` |
| Parse.LocationRoundTrip | src/parse.rs:86-94 | A location written as `bank:addr` in hexadecimal parses back to that location |
| Parse.NoColonInNumber | src/parse.rs:87-92 | Text whose trimmed form parses as a number holds no colon |
| Parse.LocationHasOneColon | src/parse.rs:86-94 | Every accepted attempt line holds exactly one colon |
| Parse.RunLengthFacts | src/parse.rs:105-110 | A field's run lies inside its character class and stops at the first character outside it |
| Parse.SkipBlanksFacts | src/parse.rs:106-110 | Skipping blanks drops only spaces and tabs, and what remains does not start with one |
| Parse.FieldOf | src/parse.rs:105-109 | A field followed by blanks, its delimiter and blanks is split off exactly, whatever follows |
| Parse.FieldSound | src/parse.rs:105-109 | Whatever a field split returns is a field of the class, the blanks around the delimiter, and the rest |
| Parse.AssembleFromStart | src/parse.rs:105-109 | Every stage of the header grammar starts with a non-blank character |
| Parse.AssembleFromEndsWithName | src/parse.rs:110 | The name is the tail of a header text, after at least one other character |
| Parse.SplitFromComplete | src/parse.rs:103-110 | Each stage of the header scanner recovers the captures of any text the grammar spells |
| Parse.SplitFromSound | src/parse.rs:103-110 | Each stage of the header scanner returns only captures that spell the text it was given |
| Parse.SplitHeader | src/parse.rs:102-115 | The header regex matched against the text after `[` by a scanner over its fields; SplitHeaderComplete and SplitHeaderSound prove it matches exactly the texts of the regex, with their captures |
| Parse.SplitHeaderComplete | src/parse.rs:101-115 | Every text the header regex matches is split into the captures it was built from |
| Parse.SplitHeaderSound | src/parse.rs:101-115 | Every header that is split is a text the regex matches, spelt from the captures found |
| Parse.ParseSection | src/parse.rs:100-128 | `Section::from_str`: `SyntaxError` when the regex does not match, else the field conversions in order; ParseSectionErrors and SectionRoundTrip state its behaviour |
| Parse.DecodeComplaints | src/parse.rs:116-127 | Building a section succeeds exactly when no capture is faulty; otherwise it reports the first faulty one in field order |
| Parse.ParseSectionErrors | src/parse.rs:115-127 | `SyntaxError` exactly when the regex does not match; otherwise accepted iff every capture converts, else the error of the first faulty capture |
| Parse.FormattedField | src/parse.rs:105-109 | A formatted number is a field of any class whose delimiter is not a digit |
| Parse.LocationField | src/parse.rs:106 | A written location is a valid location capture |
| Parse.MemTypeField | src/parse.rs:105 | Every memory kind's name is a valid type capture |
| Parse.SectionHeaderShape | src/parse.rs:103-110 | The written form of a section is a header the regex matches |
| Parse.SectionRoundTrip | src/parse.rs:100-127 | A section whose name has no line feed parses back unchanged from its written header |
| Input.NormalizeLine | src/parse.rs:147-150 | Leading whitespace, then one `\n`, then one `\r` removed; NormalizeLineShape and NormalizeLineLead state what survives |
| Input.StripTerminatorShape | src/parse.rs:149-150 | Only a line feed, a carriage return, or CR LF is cut from the end, and the longest of them the text ends with is cut |
| Input.NormalizeLineShape | src/parse.rs:147-150 | The normalised line is the whitespace-trimmed text less the longest line terminator (`\r\n`, `\n` or `\r`) it ends with; trailing spaces survive |
| Input.NormalizeLineLead | src/parse.rs:147-148 | Only leading whitespace is dropped in front, and the line never starts with whitespace |
| Input.NormalizePlain | src/parse.rs:147-150 | A line with nothing to trim is its own normal form |
| Input.NormalizeTerminated | src/parse.rs:145-150 | Such a line read with the `\n` or `\r\n` that `read_line` leaves on it normalises back to itself |
| Input.NextPowerOfTwo | src/parse.rs:180 | The result is a power of two at or above the input |
| Input.NextPowerOfTwoLeast | src/parse.rs:180 | No power of two at or above the input is smaller than the result |
| Input.PowerBelow | src/parse.rs:180 | A power of two below another is at most half of it |
| Input.RaisedBankCount | src/parse.rs:178-182 | The count never drops; it stays when the bank is below it, else it becomes a power of two covering the bank |
| Input.RaisedToPowerOfTwoBank | src/parse.rs:179-180 | A bank that is itself a power of two raises the count to exactly that bank |
| Input.Classify | src/parse.rs:152-168 | An empty line is skipped, a line starting with `[` is parsed as a section from the next character, any other line as a location |
| Input.Apply | src/parse.rs:156-191 | What a classified line does: parse errors with line number and text, a section appended, an attempt before any section rejected, a frame for the last section under ROM0 or ROMX (with the count raised under ROMX), nothing under other kinds |
| Input.Step | src/parse.rs:145-191 | One iteration of the loop: normalise, classify, apply |
| Input.Fold | src/parse.rs:141-193 | The loop as a fold over numbered lines from the initial sequence, the first error ending it; ErrorStops and FoldGrows state its properties |
| Input.Ingest | src/parse.rs:134-193 | `parse_input` over the first n lines: start with 2 banks and nothing else, fold the per-line step |
| Input.ParseInput | src/parse.rs:131-202 | The line loop returns the fold of the per-line step over the whole log, stopping at the first error |
| Input.ReadLine | src/parse.rs:145-191 | One loop iteration computes exactly the per-line step on the state so far |
| Input.ErrorStops | src/parse.rs:159-174 | Once a line is rejected, no later line changes the outcome |
| Input.ApplyGrows | src/parse.rs:156-191 | An accepted line adds at most one frame or one section and never lowers the bank count |
| Input.ApplyConsistent | src/parse.rs:171-190 | An accepted line keeps frames pointing at ROM sections, in section order, and inside a power-of-two bank count of at least 2 |
| Input.IngestConsistent | src/parse.rs:134-193 | Every accepted prefix of the log yields a consistent sequence |
| Input.FoldGrows | src/parse.rs:141-193 | Under a step that only extends, every accepted prefix extends each shorter prefix, which is also accepted |
| Input.StepOnlyExtends | src/parse.rs:156-191 | The per-line step only extends the sequence |
| Input.IngestGrows | src/parse.rs:141-193 | Reading more lines only appends frames and sections and never lowers the bank count |
| Input.BlankLineIgnored | src/parse.rs:151-154 | A blank or whitespace-only line leaves the sequence unchanged |
| Input.AttemptFirst | src/parse.rs:171-174 | A well-formed attempt before any section is `AttemptBeforeSection` with its number and text |
| Input.MalformedAttemptReported | src/parse.rs:166-170 | A malformed attempt is `BadAttempt`, whether or not a section came before it |
| Input.MalformedSectionReported | src/parse.rs:158-161 | A section line that does not parse is `BadSection` with the header's reason |
| Input.ApplyErrorNamesLine | src/parse.rs:159-174 | Every error carries the number and normalised text of the line that caused it |
| Input.RejectedAtItsLine | src/parse.rs:140-174 | The line that stops ingestion is the one the error names, with blank lines counted |
| Input.AttemptLineOf | src/parse.rs:166-170 | A written location has nothing to normalise away and reads back as an attempt at that location |
| Input.SectionLineOf | src/parse.rs:156-161 | A written section after `[` has nothing to normalise away and reads back as that section |
| Input.StepSection | src/parse.rs:156-164 | Any raw line (terminated or indented) that normalises to a section line appends the section and changes nothing else |
| Input.FirstLineSection | src/parse.rs:134-164 | A log whose first raw line normalises to a section line holds just that section, with 2 banks and no frames |
| Input.StepAttempt | src/parse.rs:166-190 | Any raw line that normalises to an attempt, under a ROMX section, records a frame for the last section and raises the bank count |
| Input.StepAttemptRom0 | src/parse.rs:183-190 | Any raw line that normalises to an attempt, under a ROM0 section, records a frame for the last section and leaves the bank count alone |
| Input.SecondLineAttempt | src/parse.rs:178-190 | Under a lone ROMX section, a second line normalising to an attempt at a power-of-two bank sets the count to that bank |
| Input.AttemptExample | src/parse.rs:178-190 | A line normalising to an attempt at bank b under a ROMX section records the frame with the raised count |
| Input.BankFiveGivesEight | src/parse.rs:178-181 | A ROMX attempt line `5:4000\n` raises the initial count of 2 to 8 |
| Input.BankTwoStaysTwo | src/parse.rs:178-181 | A ROMX attempt line `2:4000\r\n` leaves the count at 2, equal to the frame's bank |
| Input.NonRomAttemptDropped | src/parse.rs:177-185 | An attempt under a non-ROM section is read but produces no frame |
| Geometry.RoundDownEven | src/render.rs:103 | `n & !1` is the even number just below or at n |
| Geometry.BankWidth | src/render.rs:99-105 | For 1 to 512 banks the bank width is even and at most 30 |
| Geometry.Width | src/render.rs:134-136 | `n_banks_width`: every bank followed by a spacer except the last; BankWidthFits and BankColumnsInside state its bounds |
| Geometry.BankWidthFits | src/render.rs:102-106 | The widest even bank width up to 30 for which all bands and spacers fit in 1024 columns; the canvas width is even, positive and at most 1024 |
| Geometry.WidthPositive | src/render.rs:134-136 | The canvas is at least one bank wide and never empty |
| Geometry.TwoBanksLayout | src/render.rs:99-106 | Two banks get 30 columns each on a 62-column canvas; 512 banks get 0 columns on a 1022-column canvas |
| Geometry.BankColumnsInside | src/render.rs:134-136 | Every bank below the count has its columns inside the canvas; the last one ends at the right edge |
| Geometry.FirstRow | src/render.rs:161-164 | The row of the placement's offset inside its bank |
| Geometry.LastRow | src/render.rs:161-166 | The row of its last byte, capped at the end of the bank; RowSpanBounds and RowsCoverPlacement state its meaning |
| Geometry.Drawable | src/render.rs:166 | The u32 subtraction `addr + nb_bytes - 1` does not underflow: size at least 1 or a nonzero offset in the bank |
| Geometry.ByteRowRange | src/render.rs:94 | Each pixel row stands for the 32 bytes from 32 times its index |
| Geometry.RowSpanBounds | src/render.rs:161-166 | Both rows lie in the canvas; a non-empty placement covers at least its first row; a zero-byte one covers its first row or none |
| Geometry.RowsCoverPlacement | src/render.rs:161-168 | The rows drawn are exactly the rows of the bytes the placement covers, capped at the end of its bank |
| Geometry.ByteRowMonotone | src/render.rs:164-166 | A later byte never maps to an earlier row |
| Pixels.BytesOfPixel | src/render.rs:146-151 | The three bytes of pixel (x, y) are exactly those whose column is x and row is y, holding red, green and blue in order |
| Pixels.RowInCanvas | src/render.rs:112 | Every byte of a buffer of 512 rows lies in a pixel of the canvas |
| Pixels.PixelInBuffer | src/render.rs:147 | Every pixel inside the canvas has its three bytes in the buffer |
| Pixels.Paint | src/render.rs:153-173 | The buffer after filling a rectangle: the same length, each byte taking the colour's component exactly when its pixel lies in the rectangle (pixel-level meaning in PaintPixel) |
| Pixels.PaintPixel | src/render.rs:168-172 | A pixel inside the rectangle takes the colour; every other pixel keeps its own |
| Pixels.PaintIdempotent | src/render.rs:153-173 | Painting the same rectangle twice gives the same buffer as painting it once |
| Pixels.PaintKeepsNonWhite | src/render.rs:175-187 | Painting with a non-white colour never turns a pixel white |
| Pixels.SpacerColumnOf | src/render.rs:117-128 | The column the separator loop writes for bank b and offset xofs is a spacer of bank b |
| Pixels.SpacerColumnIff | src/render.rs:117-128 | A column is a spacer exactly when it is one of the two columns just left of bank 1 to nb_banks - 1 |
| Pixels.SpacerOutsideBanks | src/render.rs:117-128 | A spacer column lies inside the canvas and outside every bank's columns |
| Pixels.Background | src/render.rs:108-113 | The initial buffer holds width × 512 pixels of three bytes |
| Pixels.BackgroundPixel | src/render.rs:108-129 | After construction a pixel is black on a separator column and white elsewhere, on every row |
| Render.SpacerStep | src/render.rs:119-127 | One iteration of the separator loops paints exactly one more spacer pixel |
| Render.Canvas.constructor | src/render.rs:99-132 | `Canvas::new` produces a buffer equal to the white background with black separators |
| Render.Canvas.WriteColor | src/render.rs:146-151 | Writes the three bytes of one pixel and changes nothing else |
| Render.Canvas.DrawRect | src/render.rs:153-173 | Fills the placement's rectangle with the colour and leaves every other byte unchanged |
| Render.Canvas.Settle | src/render.rs:175-187 | Paints the placement green into the permanent buffer, and nothing else; the canvas stays valid |
| Render.Canvas.Overlay | src/render.rs:189-203 | Returns a fresh buffer: the permanent one with the placement in red; the permanent buffer is unchanged |
| Render.RomItems | src/render.rs:242-248 | The filtered iterator yields only ROM frames, with their original indices, in increasing order |
| Render.RomItemsComplete | src/render.rs:242-248 | No ROM frame is dropped by the filter |
| Render.RomItemsDrawn | src/render.rs:242-253 | For a renderable sequence every filtered frame can be drawn |
| Render.CanvasBefore | src/render.rs:274-281 | Every permanent buffer has the canvas's length |
| Render.Render | src/render.rs:242-282 | One sample per ROM attempt, in order, at start time i and duration 1, each the overlay of the buffer after every earlier settle |
| Render.Settles | src/render.rs:274-281 | The lookahead rule: an attempt is settled when a next attempt exists and targets another section |
| Render.FrameSample | src/render.rs:253-272 | The sample written for attempt k: start time the frame's index, duration 1, the overlay of the buffer before k |
| Render.CanvasBeforePixel | src/render.rs:274-281 | Before attempt k a pixel is green if an earlier settled attempt covers it, and background otherwise |
| Render.SettledAtStep | src/render.rs:274-281 | A pixel is settled before attempt k iff it was before k - 1, or k - 1 is settled and covers it |
| Render.FramePixel | src/render.rs:253 | In frame k a pixel is red on the attempt's rectangle, green where an earlier settle covers it, and background elsewhere |
| Render.LastAttemptNeverSettled | src/render.rs:274-281 | The last attempt is never settled, so the final buffer is the one before it |
| Render.SeparatorOutsideEveryRect | src/render.rs:163-172 | No drawable attempt's rectangle reaches a separator column |
| Render.SeparatorsStayBlack | src/render.rs:115-128 | Separator columns stay black in every permanent buffer and every emitted frame |
| Render.NonWhiteStaysNonWhite | src/render.rs:175-187 | A pixel that is not white in the permanent buffer never becomes white again |
| Render.SettlesAtEndOfRun | src/render.rs:274-281 | With contiguous runs, an attempt is settled iff it is its section's last and not the last overall |
| Render.SettledAtMostOnce | src/render.rs:274-281 | With contiguous runs, an attempt followed later by one of its own section is not settled |
| Render.AllRomKeepsEveryFrame | src/render.rs:242-248 | When every frame is a ROM frame, the filter keeps all of them with their own indices |
| Render.ThreeAttemptsScenario | src/render.rs:274-281 | For attempts (S1, S1, S2) only the second one is settled |
| Pipeline.ParsedFramesReachRender | src/main.rs:84-92 | An accepted log feeds every frame to the renderer, in order and with its own index, in contiguous per-section runs |
| Pipeline.ConsistentRenderable | src/main.rs:84-92 | A consistent sequence is renderable iff it has at most 512 banks and every frame lies below the count and is drawable |
| Pipeline.ParsedRenderable | src/main.rs:84-92 | The same for every accepted log: the parser guarantees section indices and at least 2 banks, but not the rest |
| Pipeline.PowerOfTwoBankNotRenderable | src/parse.rs:178-181 | A log of a ROMX section line and one attempt line at a power-of-two bank, each ending in `\n`, is accepted with the count equal to that bank, and the result is not renderable |

## Left out

- The H.264 encoder, the RGB-to-YUV conversion and the MP4 writer are foreign libraries. Each frame becomes a `Sample` that holds the RGB buffer, its start time and its duration.
- The `RenderError` kinds are left out, since they come only from those libraries and from file I/O.
- Reading standard input is I/O. `parse_input` takes the log as a sequence of lines, each with its terminator if any, so the `Io` variant of `ParseError` is not modelled.
- Creating the output file is I/O and is left out.
- The `eprint!` progress messages, `usage` and the argument handling and `exit` of `main` are process plumbing.
- The `Display` and `Error` implementations only format messages.
- The payloads of `ParseIntError` and of the `parse_display` error are dropped. The errors say which field failed, but not how.
- The regex engine is not modelled. The header regex is modelled as a scanner and proved equal to the grammar the regex denotes.
- Input.NextPowerOfTwo: does not model the u32 overflow of `next_power_of_two` for banks above 2^31. The bank count is an unbounded natural.
- Render.Canvas.DrawRect: does not model the u32 overflow of `bank * (bank_width + 2)` for huge banks. It requires the bank's columns to lie inside the canvas.
- Render.Canvas.Settle: requires `bank < nb_banks` and a drawable placement. The source leaves these to its callers.
- Render.Canvas.Overlay: requires `bank < nb_banks` and a drawable placement, like `Settle`.
- Render.Canvas.constructor: requires 1 to 512 banks, because the source's width computation underflows above 512 and divides by zero at 0.
- Render.Render: requires `Renderable`, which is those three conditions for every ROM frame. The parser does not guarantee it (see Pipeline.ParsedRenderable). The model does not describe what the source draws outside it, such as a frame at bank `nb_banks`, which lands one row lower over bank 0 and its separator.
- Render.RomItems: frames whose section index is out of range would panic in the source. They are excluded by a precondition, which every parsed log meets.
