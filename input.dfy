/**
 * `parse_input` of src/parse.rs: reads the placement log line by line and
 * builds the sequence of sections and ROM placement attempts, with the
 * bank count raised as ROMX attempts come in. The lines are a parameter;
 * reading them from standard input is not part of this model.
 */
module Input {
  import opened Wrappers
  import opened Domain
  import opened Text
  import opened Parse

  /** Why ingestion stopped: the line number (from 1) and the normalised line. */
  datatype ParseError =
    | AttemptBeforeSection(lineNo: nat, line: string)
    | BadSection(sectionError: SectionParseError, lineNo: nat, line: string)
    | BadAttempt(attemptError: LocationParseError, lineNo: nat, line: string)

  // ---------------------------------------------------------------------
  // Lines
  // ---------------------------------------------------------------------

  /** Drops leading whitespace, then one trailing `\n`, then one trailing `\r`. */
  function NormalizeLine(raw: string): string
  {
    StripTerminator(TrimStart(raw))
  }

  function StripTerminator(t: string): string
  {
    var u := if |t| > 0 && t[|t| - 1] == '\n' then t[..|t| - 1] else t;
    if |u| > 0 && u[|u| - 1] == '\r' then u[..|u| - 1] else u
  }

  /** What `read_line` may leave at the end of a line, and normalisation removes. */
  predicate IsTerminator(s: string)
  {
    s == "" || s == "\n" || s == "\r" || s == "\r\n"
  }

  /**
   * Only a line feed, a carriage return, or both in that order are cut off
   * the end, and the longest of them that the text ends with is cut.
   */
  lemma StripTerminatorShape(t: string)
    ensures var line := StripTerminator(t);
      |line| <= |t| && line == t[..|line|] && IsTerminator(t[|line|..])
    ensures t != [] && (t[|t| - 1] == '\n' || t[|t| - 1] == '\r') ==> |StripTerminator(t)| < |t|
    ensures |t| >= 2 && t[|t| - 2..] == "\r\n" ==> |StripTerminator(t)| == |t| - 2
  {
    var line := StripTerminator(t);
    if |t| > 0 && t[|t| - 1] == '\n' {
      var u := t[..|t| - 1];
      if |u| > 0 && u[|u| - 1] == '\r' {
        assert t[|line|..] == "\r\n";
      } else {
        assert t[|line|..] == "\n";
      }
    } else if |t| > 0 && t[|t| - 1] == '\r' {
      assert t[|line|..] == "\r";
    }
  }

  /**
   * The normalised line is the text after the leading whitespace, less a
   * line terminator: trailing spaces are kept.
   */
  lemma NormalizeLineShape(raw: string)
    ensures var t, line := TrimStart(raw), NormalizeLine(raw);
      |line| <= |t| && line == t[..|line|] && IsTerminator(t[|line|..])
    ensures var t := TrimStart(raw);
      t != [] && (t[|t| - 1] == '\n' || t[|t| - 1] == '\r') ==> |NormalizeLine(raw)| < |t|
    ensures var t := TrimStart(raw);
      |t| >= 2 && t[|t| - 2..] == "\r\n" ==> |NormalizeLine(raw)| == |t| - 2
  {
    StripTerminatorShape(TrimStart(raw));
  }

  /** Only whitespace is dropped in front, and the normalised line never starts with whitespace. */
  lemma NormalizeLineLead(raw: string)
    ensures var line := NormalizeLine(raw);
      AllWhitespace(raw[..|raw| - |TrimStart(raw)|]) && (line == [] || !IsWhitespace(line[0]))
  {
    var t := TrimStart(raw);
    var line := StripTerminator(t);
    StripTerminatorShape(t);
    if line != [] {
      assert line[0] == t[0];
    }
  }

  /** A line with nothing for normalisation to remove: no whitespace in front, no terminator behind. */
  predicate Plain(line: string)
  {
    line != [] && !IsWhitespace(line[0]) && line[|line| - 1] != '\n' && line[|line| - 1] != '\r'
  }

  /** A line with nothing to trim is its own normal form. */
  lemma NormalizePlain(line: string)
    requires Plain(line)
    ensures NormalizeLine(line) == line
  {
  }

  /**
   * The terminator `read_line` leaves on a line, `\n` or `\r\n`, is
   * removed: a plain line read with either comes back as itself.
   */
  lemma NormalizeTerminated(text: string)
    requires Plain(text)
    ensures NormalizeLine(text + "\n") == text && NormalizeLine(text + "\r\n") == text
  {
    TerminatedPlain(text, "\n");
    TerminatedPlain(text, "\r\n");
  }

  lemma TrimStartPlain(s: string)
    requires s != [] && !IsWhitespace(s[0])
    ensures TrimStart(s) == s
  {
  }

  lemma TerminatedPlain(text: string, term: string)
    requires Plain(text) && (term == "\n" || term == "\r\n")
    ensures NormalizeLine(text + term) == text
  {
    var t := text + term;
    assert t[0] == text[0];
    TrimStartPlain(t);
    var u := t[..|t| - 1];
    if term == "\n" {
      assert u == text;
    } else {
      assert u == text + "\r";
      assert u[..|u| - 1] == text;
    }
  }

  // ---------------------------------------------------------------------
  // Bank count
  // ---------------------------------------------------------------------

  predicate IsPowerOfTwo(n: nat)
    decreases n
  {
    n == 1 || (n >= 2 && n % 2 == 0 && IsPowerOfTwo(n / 2))
  }

  function NextPowerFrom(n: nat, p: nat): (r: nat)
    requires IsPowerOfTwo(p) && (p == 1 || p / 2 < n)
    ensures IsPowerOfTwo(r) && n <= r && (r == 1 || r / 2 < n)
    decreases n - p
  {
    if n <= p then p else NextPowerFrom(n, 2 * p)
  }

  /** `u32::next_power_of_two`: the least power of two at or above n (1 for 0). */
  function NextPowerOfTwo(n: nat): (p: nat)
    ensures IsPowerOfTwo(p) && n <= p
  {
    NextPowerFrom(n, 1)
  }

  /** A power of two below another is at most half of it. */
  lemma {:induction false} PowerBelow(q: nat, p: nat)
    requires IsPowerOfTwo(q) && IsPowerOfTwo(p) && q < p
    ensures q <= p / 2
    decreases p
  {
    if q > 1 {
      if p / 2 == 1 {
        assert false;
      }
      PowerBelow(q / 2, p / 2);
    }
  }

  /** No power of two at or above n is smaller than NextPowerOfTwo(n). */
  lemma NextPowerOfTwoLeast(n: nat, q: nat)
    requires IsPowerOfTwo(q) && n <= q
    ensures NextPowerOfTwo(n) <= q
  {
    var p := NextPowerOfTwo(n);
    if q < p {
      PowerBelow(q, p);
    }
  }

  /** The bank count after a ROMX attempt: raised to the next power of two when the bank reaches it. */
  function RaisedBankCount(nbBanks: nat, bank: nat): (nb: nat)
    ensures nb >= nbBanks && (bank < nbBanks ==> nb == nbBanks)
    ensures bank >= nbBanks ==> IsPowerOfTwo(nb) && nb >= bank
  {
    if bank >= nbBanks then NextPowerOfTwo(bank) else nbBanks
  }

  /** An attempt at a bank that is already a power of two leaves the count at that bank, not above it. */
  lemma RaisedToPowerOfTwoBank(nbBanks: nat, bank: nat)
    requires IsPowerOfTwo(bank) && bank >= nbBanks
    ensures RaisedBankCount(nbBanks, bank) == bank
  {
    NextPowerOfTwoLeast(bank, bank);
  }

  // ---------------------------------------------------------------------
  // The loop
  // ---------------------------------------------------------------------

  /** The sequence before the first line. */
  const Start := Sequence(2, [], [])

  /** What a normalised line turned out to be. */
  datatype Parsed =
    | Empty
    | SectionLine(section: Result<Section, SectionParseError>)
    | AttemptLine(location: Result<Location, LocationParseError>)

  /** A line starting with `[` declares a section, any other non-empty line is an attempt. */
  function Classify(line: string): Parsed
  {
    if line == [] then Empty
    else if line[0] == '[' then SectionLine(ParseSection(line[1..]))
    else AttemptLine(ParseLocation(line))
  }

  /** What one line, once parsed, does to the sequence built so far. */
  function Apply(sq: Sequence, lineNo: nat, line: string, parsed: Parsed): Result<Sequence, ParseError>
  {
    match parsed
    case Empty => Ok(sq)
    case SectionLine(Err(e)) => Err(BadSection(e, lineNo, line))
    case SectionLine(Ok(section)) => Ok(sq.(sections := sq.sections + [section]))
    case AttemptLine(Err(e)) => Err(BadAttempt(e, lineNo, line))
    case AttemptLine(Ok(location)) =>
      if |sq.sections| == 0 then Err(AttemptBeforeSection(lineNo, line))
      else
        var sectionId := |sq.sections| - 1;
        match sq.sections[sectionId].memType
        case Romx =>
          Ok(sq.(nbBanks := RaisedBankCount(sq.nbBanks, location.bank),
                 frames := sq.frames + [Frame(location, sectionId)]))
        case Rom0 => Ok(sq.(frames := sq.frames + [Frame(location, sectionId)]))
        case _ => Ok(sq)
  }

  /** What one line of the log does to the sequence built so far. */
  function Step(sq: Sequence, lineNo: nat, raw: string): Result<Sequence, ParseError>
  {
    var line := NormalizeLine(raw);
    Apply(sq, lineNo, line, Classify(line))
  }

  /** What reading one numbered line does to the sequence built so far. */
  type LineStep = (Sequence, nat, string) -> Result<Sequence, ParseError>

  /** The outcome of the first n lines under `step`; the first error stops everything. */
  function Fold(step: LineStep, lines: seq<string>, n: nat): Result<Sequence, ParseError>
    requires n <= |lines|
  {
    if n == 0 then Ok(Start)
    else match Fold(step, lines, n - 1)
      case Err(e) => Err(e)
      case Ok(sq) => step(sq, n, lines[n - 1])
  }

  /** The outcome of the first n lines of the log. */
  function Ingest(lines: seq<string>, n: nat): Result<Sequence, ParseError>
    requires n <= |lines|
  {
    Fold(Step, lines, n)
  }

  /** `parse_input`, with the log given as its lines (each with its terminator, if any). */
  method ParseInput(lines: seq<string>) returns (r: Result<Sequence, ParseError>)
    ensures r == Ingest(lines, |lines|)
  {
    var nbBanks: nat := 2;
    var frames: seq<Frame> := [];
    var sections: seq<Section> := [];
    var lineNo := 0;
    while lineNo < |lines|
      invariant lineNo <= |lines|
      invariant Ingest(lines, lineNo) == Ok(Sequence(nbBanks, frames, sections))
    {
      var next := ReadLine(nbBanks, frames, sections, lineNo + 1, lines[lineNo]);
      lineNo := lineNo + 1;
      if next.Err? {
        ErrorStops(Step, lines, lineNo, |lines|);
        return next;
      }
      nbBanks, frames, sections := next.value.nbBanks, next.value.frames, next.value.sections;
    }
    r := Ok(Sequence(nbBanks, frames, sections));
  }

  /** The body of the loop of `parse_input`: one line read on top of the sequence so far. */
  method ReadLine(nbBanks: nat, frames: seq<Frame>, sections: seq<Section>, lineNo: nat, raw: string)
      returns (r: Result<Sequence, ParseError>)
    ensures r == Step(Sequence(nbBanks, frames, sections), lineNo, raw)
  {
    var line := NormalizeLine(raw);
    match Classify(line) {
      case Empty =>
        return Ok(Sequence(nbBanks, frames, sections));
      case SectionLine(section) =>
        if section.Err? {
          return Err(BadSection(section.error, lineNo, line));
        }
        return Ok(Sequence(nbBanks, frames, sections + [section.value]));
      case AttemptLine(location) =>
        if location.Err? {
          return Err(BadAttempt(location.error, lineNo, line));
        }
        if |sections| == 0 {
          return Err(AttemptBeforeSection(lineNo, line));
        }
        var sectionId := |sections| - 1;
        var nb := nbBanks;
        match sections[sectionId].memType {
          case Romx =>
            if location.value.bank >= nb {
              nb := NextPowerOfTwo(location.value.bank);
            }
          case Rom0 =>
          case _ =>
            return Ok(Sequence(nbBanks, frames, sections));
        }
        return Ok(Sequence(nb, frames + [Frame(location.value, sectionId)], sections));
    }
  }

  // ---------------------------------------------------------------------
  // Properties
  // ---------------------------------------------------------------------

  /** Once a line is rejected, no later line changes the outcome, whatever a line does. */
  lemma {:induction false} ErrorStops(step: LineStep, lines: seq<string>, m: nat, n: nat)
    requires m <= n <= |lines| && Fold(step, lines, m).Err?
    ensures Fold(step, lines, n) == Fold(step, lines, m)
    decreases n - m
  {
    if m < n {
      ErrorStops(step, lines, m, n - 1);
    }
  }

  /** Every frame refers to an existing ROM section. */
  predicate FramesAreRom(sq: Sequence)
  {
    forall i | 0 <= i < |sq.frames| ::
      sq.frames[i].sectionId < |sq.sections| && IsRom(sq.sections[sq.frames[i].sectionId].memType)
  }

  /** Frames come in the order of their sections' lines: section ids never decrease. */
  predicate FramesInSectionOrder(sq: Sequence)
  {
    forall i, j | 0 <= i < j < |sq.frames| :: sq.frames[i].sectionId <= sq.frames[j].sectionId
  }

  /** The bank count is a power of two, at least 2, and no ROMX frame lies beyond it. */
  predicate BankCountCovers(sq: Sequence)
  {
    IsPowerOfTwo(sq.nbBanks) && sq.nbBanks >= 2 &&
    forall i | 0 <= i < |sq.frames| && sq.frames[i].sectionId < |sq.sections| &&
                sq.sections[sq.frames[i].sectionId].memType == Romx ::
      sq.frames[i].location.bank <= sq.nbBanks
  }

  predicate Consistent(sq: Sequence)
  {
    FramesAreRom(sq) && FramesInSectionOrder(sq) && BankCountCovers(sq)
  }

  /** One line only extends the sequence: at most one frame or one section more, and no fewer banks. */
  lemma ApplyGrows(sq: Sequence, lineNo: nat, line: string, parsed: Parsed)
    requires Apply(sq, lineNo, line, parsed).Ok?
    ensures var next := Apply(sq, lineNo, line, parsed).value;
      Extends(sq, next) && |next.frames| <= |sq.frames| + 1 && |next.sections| <= |sq.sections| + 1
  {
  }

  /** One line keeps the sequence consistent. */
  lemma ApplyConsistent(sq: Sequence, lineNo: nat, line: string, parsed: Parsed)
    requires Consistent(sq) && Apply(sq, lineNo, line, parsed).Ok?
    ensures Consistent(Apply(sq, lineNo, line, parsed).value)
  {
    var next := Apply(sq, lineNo, line, parsed).value;
    if |next.frames| > |sq.frames| {
      var id := |sq.sections| - 1;
      assert next.sections == sq.sections && next.frames == sq.frames + [next.frames[|sq.frames|]];
      assert next.frames[|sq.frames|].sectionId == id;
      forall i | 0 <= i < |next.frames| && next.frames[i].sectionId < |next.sections| &&
                 next.sections[next.frames[i].sectionId].memType == Romx
        ensures next.frames[i].location.bank <= next.nbBanks
      {
        if i < |sq.frames| {
          assert next.frames[i] == sq.frames[i];
        }
      }
    }
  }

  lemma IngestNext(lines: seq<string>, n: nat)
    requires 0 < n <= |lines| && Ingest(lines, n - 1).Ok?
    ensures var line := NormalizeLine(lines[n - 1]);
      Ingest(lines, n) == Apply(Ingest(lines, n - 1).value, n, line, Classify(line))
  {
  }

  /** Every prefix of the log that is accepted yields a consistent sequence. */
  lemma {:induction false} IngestConsistent(lines: seq<string>, n: nat)
    requires n <= |lines| && Ingest(lines, n).Ok?
    ensures Consistent(Ingest(lines, n).value)
  {
    if n > 0 {
      IngestConsistent(lines, n - 1);
      var line := NormalizeLine(lines[n - 1]);
      IngestNext(lines, n);
      ApplyConsistent(Ingest(lines, n - 1).value, n, line, Classify(line));
    }
  }

  /** `b` is `a` with possibly more frames, more sections and more banks. */
  predicate Extends(a: Sequence, b: Sequence)
  {
    a.frames <= b.frames && a.sections <= b.sections && a.nbBanks <= b.nbBanks
  }

  lemma ExtendsTransitive(a: Sequence, b: Sequence, c: Sequence)
    requires Extends(a, b) && Extends(b, c)
    ensures Extends(a, c)
  {
    PrefixTransitive(a.frames, b.frames, c.frames);
    PrefixTransitive(a.sections, b.sections, c.sections);
  }

  lemma PrefixTransitive<T>(a: seq<T>, b: seq<T>, c: seq<T>)
    requires a <= b && b <= c
    ensures a <= c
  {
    assert a == b[..|a|] && b == c[..|b|];
    assert c[..|b|][..|a|] == c[..|a|];
  }

  /** A line step that, when it accepts a line, only extends the sequence. */
  ghost predicate OnlyExtends(step: LineStep)
  {
    forall sq, n, raw :: step(sq, n, raw).Ok? ==> Extends(sq, step(sq, n, raw).value)
  }

  /** Under a step that only extends, every accepted prefix extends every shorter one. */
  lemma {:induction false} FoldGrows(step: LineStep, lines: seq<string>, m: nat, n: nat)
    requires OnlyExtends(step) && m <= n <= |lines| && Fold(step, lines, n).Ok?
    ensures Fold(step, lines, m).Ok? && Extends(Fold(step, lines, m).value, Fold(step, lines, n).value)
    decreases n - m
  {
    if m < n {
      FoldGrows(step, lines, m, n - 1);
      ExtendsTransitive(Fold(step, lines, m).value, Fold(step, lines, n - 1).value, Fold(step, lines, n).value);
    }
  }

  lemma StepOnlyExtends()
    ensures OnlyExtends(Step)
  {
    forall sq, n, raw | Step(sq, n, raw).Ok?
      ensures Extends(sq, Step(sq, n, raw).value)
    {
      var line := NormalizeLine(raw);
      ApplyGrows(sq, n, line, Classify(line));
    }
  }

  /** Reading more lines only extends the sections and frames and never lowers the bank count. */
  lemma IngestGrows(lines: seq<string>, m: nat, n: nat)
    requires m <= n <= |lines| && Ingest(lines, n).Ok?
    ensures Ingest(lines, m).Ok? && Extends(Ingest(lines, m).value, Ingest(lines, n).value)
  {
    StepOnlyExtends();
    FoldGrows(Step, lines, m, n);
  }

  /** Blank lines and whitespace-only lines leave the sequence as it is. */
  lemma BlankLineIgnored(sq: Sequence, lineNo: nat, raw: string)
    requires AllWhitespace(raw)
    ensures Step(sq, lineNo, raw) == Ok(sq)
  {
  }

  /** An attempt that parses, met before any section, is the error `AttemptBeforeSection`. */
  lemma AttemptFirst(sq: Sequence, lineNo: nat, raw: string)
    requires sq.sections == []
    requires var line := NormalizeLine(raw); line != [] && line[0] != '[' && ParseLocation(line).Ok?
    ensures Step(sq, lineNo, raw) == Err(AttemptBeforeSection(lineNo, NormalizeLine(raw)))
  {
    var line := NormalizeLine(raw);
    var l := ParseLocation(line).value;
    assert Classify(line) == AttemptLine(Ok(l));
    assert Step(sq, lineNo, raw) == Apply(sq, lineNo, line, AttemptLine(Ok(l)));
  }

  /** The first line is read on top of the initial sequence. */
  lemma IngestFirst(lines: seq<string>)
    requires |lines| >= 1
    ensures Ingest(lines, 1) == Step(Start, 1, lines[0])
  {
    assert Fold(Step, lines, 0) == Ok(Start);
  }

  /** A written location on a line of its own is read back as an attempt at it. */
  lemma AttemptLineOf(l: Location)
    ensures Plain(FormatLocation(l)) && NormalizeLine(FormatLocation(l)) == FormatLocation(l)
    ensures Classify(FormatLocation(l)) == AttemptLine(Ok(l))
  {
    var text := FormatLocation(l);
    var b := Format(l.bank, 16);
    var a := Format(l.addr, 16);
    assert text == b + ":" + a;
    FormatCharacters(l.bank, 16, 0);
    FormatCharacters(l.addr, 16, |a| - 1);
    assert text[0] == b[0];
    assert text[|text| - 1] == a[|a| - 1];
    NormalizePlain(text);
    LocationRoundTrip(l);
  }

  /** A written section, after its opening bracket, is read back as that section. */
  lemma SectionLineOf(sec: Section)
    requires '\n' !in sec.name && (sec.name == [] || sec.name[|sec.name| - 1] != '\r')
    ensures var line := "[" + FormatSection(sec);
      Plain(line) && NormalizeLine(line) == line && Classify(line) == SectionLine(Ok(sec))
  {
    var body := FormatSection(sec);
    var line := "[" + body;
    SectionLinePlain(sec);
    NormalizePlain(line);
    assert line[1..] == body;
    SectionRoundTrip(sec);
  }

  lemma SectionLinePlain(sec: Section)
    requires sec.name == [] || (sec.name[|sec.name| - 1] != '\n' && sec.name[|sec.name| - 1] != '\r')
    ensures Plain("[" + FormatSection(sec))
  {
    AssembleFromEndsWithName(SectionHeader(sec), 0, [" ", " ", " ", " ", " ", " ", " ", " "], ' ');
    BracketedPlain(FormatSection(sec), sec.name);
  }

  lemma BracketedPlain(body: string, name: string)
    requires |name| < |body| && body[|body| - |name| - 1..] == [' '] + name
    requires name == [] || (name[|name| - 1] != '\n' && name[|name| - 1] != '\r')
    ensures Plain("[" + body)
  {
    var line := "[" + body;
    var tail := body[|body| - |name| - 1..];
    assert line[|line| - 1] == body[|body| - 1] == tail[|tail| - 1];
    assert line[0] == '[';
  }

  /** A line that reads as a section appends it and changes nothing else. */
  lemma StepSection(sq: Sequence, lineNo: nat, raw: string, sec: Section)
    requires Classify(NormalizeLine(raw)) == SectionLine(Ok(sec))
    ensures Step(sq, lineNo, raw) == Ok(sq.(sections := sq.sections + [sec]))
  {
  }

  /** A log whose first line reads as a section holds just that section after it. */
  lemma FirstLineSection(lines: seq<string>, sec: Section)
    requires |lines| >= 1 && Classify(NormalizeLine(lines[0])) == SectionLine(Ok(sec))
    ensures Ingest(lines, 1) == Ok(Sequence(2, [], [sec]))
  {
    IngestFirst(lines);
    StepSection(Start, 1, lines[0], sec);
    assert Start.sections + [sec] == [sec];
    assert Start.(sections := [sec]) == Sequence(2, [], [sec]);
  }

  /**
   * A line that reads as an attempt, under a ROMX section, records a frame
   * for the last section and raises the bank count to cover its bank.
   */
  lemma StepAttempt(sq: Sequence, lineNo: nat, raw: string, l: Location)
    requires Classify(NormalizeLine(raw)) == AttemptLine(Ok(l))
    requires |sq.sections| > 0 && sq.sections[|sq.sections| - 1].memType == Romx
    ensures Step(sq, lineNo, raw) ==
      Ok(Sequence(RaisedBankCount(sq.nbBanks, l.bank), sq.frames + [Frame(l, |sq.sections| - 1)], sq.sections))
  {
  }

  /**
   * A line that reads as an attempt, under a ROM0 section, records a frame
   * for the last section and leaves the bank count alone.
   */
  lemma StepAttemptRom0(sq: Sequence, lineNo: nat, raw: string, l: Location)
    requires Classify(NormalizeLine(raw)) == AttemptLine(Ok(l))
    requires |sq.sections| > 0 && sq.sections[|sq.sections| - 1].memType == Rom0
    ensures Step(sq, lineNo, raw) == Ok(sq.(frames := sq.frames + [Frame(l, |sq.sections| - 1)]))
  {
  }

  /** An attempt under a lone ROMX section at a power-of-two bank sets the count to that bank. */
  lemma SecondLineAttempt(lines: seq<string>, sec: Section, l: Location)
    requires sec.memType == Romx && IsPowerOfTwo(l.bank) && l.bank >= 2
    requires |lines| >= 2 && NormalizeLine(lines[1]) == FormatLocation(l)
    requires Ingest(lines, 1) == Ok(Sequence(2, [], [sec]))
    ensures Ingest(lines, 2) == Ok(Sequence(l.bank, [Frame(l, 0)], [sec]))
  {
    var first := Sequence(2, [], [sec]);
    AttemptLineOf(l);
    StepAttempt(first, 2, lines[1], l);
    RaisedToPowerOfTwoBank(2, l.bank);
    assert first.frames + [Frame(l, 0)] == [Frame(l, 0)];
    assert Ingest(lines, 2) == Step(first, 2, lines[1]);
  }

  /** A line reading as an attempt at 0x4000 in a bank, under a lone ROMX section. */
  lemma AttemptExample(bank: U32, text: string)
    requires NormalizeLine(text) == FormatLocation(Location(bank, 0x4000))
    ensures Step(Sequence(2, [], [Section(Romx, Location(bank, 0x4000), 0, 0, 16, "code")]), 2, text) ==
      Ok(Sequence(RaisedBankCount(2, bank), [Frame(Location(bank, 0x4000), 0)],
                  [Section(Romx, Location(bank, 0x4000), 0, 0, 16, "code")]))
  {
    var l := Location(bank, 0x4000);
    var sq := Sequence(2, [], [Section(Romx, l, 0, 0, 16, "code")]);
    AttemptLineOf(l);
    StepAttempt(sq, 2, text, l);
    assert sq.frames + [Frame(l, 0)] == [Frame(l, 0)];
  }

  /** A ROMX attempt at bank 5, read with its line feed, raises the initial count of 2 to 8. */
  lemma BankFiveGivesEight()
    ensures var sec := Section(Romx, Location(5, 0x4000), 0, 0, 16, "code");
      Step(Sequence(2, [], [sec]), 2, "5:4000\n") ==
        Ok(Sequence(8, [Frame(Location(5, 0x4000), 0)], [sec]))
  {
    assert FormatLocation(Location(5, 0x4000)) == "5:4000";
    AttemptLineOf(Location(5, 0x4000));
    NormalizeTerminated("5:4000");
    assert "5:4000" + "\n" == "5:4000\n";
    AttemptExample(5, "5:4000\n");
    NextPowerOfTwoLeast(5, 8);
    assert NextPowerOfTwo(5) == 8;
  }

  /**
   * A ROMX attempt at bank 2, read with a CR LF ending, leaves the count at
   * 2, so the frame's bank is not below the count.
   */
  lemma BankTwoStaysTwo()
    ensures var sec := Section(Romx, Location(2, 0x4000), 0, 0, 16, "code");
      Step(Sequence(2, [], [sec]), 2, "2:4000\r\n") ==
        Ok(Sequence(2, [Frame(Location(2, 0x4000), 0)], [sec]))
  {
    assert FormatLocation(Location(2, 0x4000)) == "2:4000";
    AttemptLineOf(Location(2, 0x4000));
    NormalizeTerminated("2:4000");
    assert "2:4000" + "\r\n" == "2:4000\r\n";
    AttemptExample(2, "2:4000\r\n");
  }

  /** Attempts under sections outside ROM are read but produce no frame. */
  lemma NonRomAttemptDropped(sq: Sequence, lineNo: nat, raw: string)
    requires |sq.sections| > 0 && !IsRom(sq.sections[|sq.sections| - 1].memType)
    requires var line := NormalizeLine(raw); line != [] && line[0] != '[' && ParseLocation(line).Ok?
    ensures Step(sq, lineNo, raw) == Ok(sq)
  {
  }

  /**
   * The location is parsed before the sections are looked at: a malformed
   * attempt is `BadAttempt`, whether or not a section came before it.
   */
  lemma MalformedAttemptReported(sq: Sequence, lineNo: nat, raw: string)
    requires var line := NormalizeLine(raw); line != [] && line[0] != '[' && ParseLocation(line).Err?
    ensures var line := NormalizeLine(raw);
      Step(sq, lineNo, raw) == Err(BadAttempt(ParseLocation(line).error, lineNo, line))
  {
    var line := NormalizeLine(raw);
    assert Classify(line) == AttemptLine(ParseLocation(line));
  }

  /** A section line that does not parse is `BadSection`, with the reason the header gave. */
  lemma MalformedSectionReported(sq: Sequence, lineNo: nat, raw: string)
    requires var line := NormalizeLine(raw); line != [] && line[0] == '[' && ParseSection(line[1..]).Err?
    ensures var line := NormalizeLine(raw);
      Step(sq, lineNo, raw) == Err(BadSection(ParseSection(line[1..]).error, lineNo, line))
  {
    var line := NormalizeLine(raw);
    assert Classify(line) == SectionLine(ParseSection(line[1..]));
  }

  /** Whatever a line is rejected for, the error carries its number and its normalised text. */
  lemma ApplyErrorNamesLine(sq: Sequence, lineNo: nat, line: string, parsed: Parsed)
    requires Apply(sq, lineNo, line, parsed).Err?
    ensures Apply(sq, lineNo, line, parsed).error.lineNo == lineNo
    ensures Apply(sq, lineNo, line, parsed).error.line == line
  {
  }

  /**
   * The line that stops ingestion is the one the error names: blank lines
   * before it are counted in its number.
   */
  lemma RejectedAtItsLine(lines: seq<string>, n: nat)
    requires 0 < n <= |lines| && Ingest(lines, n - 1).Ok? && Ingest(lines, n).Err?
    ensures Ingest(lines, n).error.lineNo == n
    ensures Ingest(lines, n).error.line == NormalizeLine(lines[n - 1])
  {
    var line := NormalizeLine(lines[n - 1]);
    IngestNext(lines, n);
    ApplyErrorNamesLine(Ingest(lines, n - 1).value, n, line, Classify(line));
  }
}
