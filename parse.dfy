/**
 * The `FromStr` implementations of src/parse.rs: a placement attempt
 * `bank:addr`, and the header of a section line
 * `type @ bank:addr & align_mask + align_ofs ] size name`.
 */
module Parse {
  import opened Wrappers
  import opened Domain
  import opened Text

  /** Why a location did not parse; the `ParseIntError` payloads are dropped. */
  datatype LocationParseError = MissingColon | BadBank | BadAddr

  /** Why a section header did not parse, field by field. */
  datatype SectionParseError =
    | SyntaxError
    | BadType
    | BadLocation(locationError: LocationParseError)
    | BadAlignMask
    | BadAlignOfs
    | BadSize

  // ---------------------------------------------------------------------
  // Locations
  // ---------------------------------------------------------------------

  /** `Location::from_str`: hexadecimal bank and address around the first colon, each trimmed. */
  function ParseLocation(line: string): (r: Result<Location, LocationParseError>)
    ensures r == Err(MissingColon) <==> ':' !in line
  {
    match FindFirst(line, ':')
    case None => Err(MissingColon)
    case Some(k) =>
      match ParseUnsigned(Trim(line[..k]), 16, 0x1_0000_0000)
      case None => Err(BadBank)
      case Some(bank) =>
        match ParseUnsigned(Trim(line[k + 1..]), 16, 0x1_0000)
        case None => Err(BadAddr)
        case Some(addr) => Ok(Location(bank, addr))
  }

  /** A location written the way the parser reads it back. */
  function FormatLocation(l: Location): string
  {
    Format(l.bank, 16) + ":" + Format(l.addr, 16)
  }

  lemma FindFirstAt(s: string, c: char, k: nat)
    requires k < |s| && s[k] == c && c !in s[..k]
    ensures FindFirst(s, c) == Some(k)
  {
  }

  /** Formatted numbers contain no whitespace, so trimming leaves them alone. */
  lemma TrimFormatted(n: nat, radix: nat)
    requires 2 <= radix <= 16
    ensures Trim(Format(n, radix)) == Format(n, radix)
  {
    var s := Format(n, radix);
    FormatCharacters(n, radix, 0);
    FormatCharacters(n, radix, |s| - 1);
    TrimPlain(s);
  }

  /** The formatted location parses back to the same location. */
  lemma LocationRoundTrip(l: Location)
    ensures ParseLocation(FormatLocation(l)) == Ok(l)
  {
    var b, a := Format(l.bank, 16), Format(l.addr, 16);
    var s := FormatLocation(l);
    assert ':' !in b by {
      forall i | 0 <= i < |b|
        ensures b[i] != ':'
      {
        FormatCharacters(l.bank, 16, i);
      }
    }
    assert s[..|b|] == b && s[|b|] == ':' && s[|b| + 1..] == a;
    FindFirstAt(s, ':', |b|);
    assert ParseUnsigned(Trim(s[..|b|]), 16, 0x1_0000_0000) == Some(l.bank) by {
      TrimFormatted(l.bank, 16);
      FormatRoundTrip(l.bank, 16, 0x1_0000_0000);
    }
    assert ParseUnsigned(Trim(s[|b| + 1..]), 16, 0x1_0000) == Some(l.addr) by {
      TrimFormatted(l.addr, 16);
      FormatRoundTrip(l.addr, 16, 0x1_0000);
    }
  }

  /** Text made of a formatted number, a colon and anything splits at that colon. */
  lemma SplitAfterNumber(n: nat, rest: string)
    ensures var b := Format(n, 16); var s := b + ":" + rest;
      FindFirst(s, ':') == Some(|b|) && s[..|b|] == b && s[|b| + 1..] == rest
  {
    var b := Format(n, 16);
    var s := b + ":" + rest;
    assert ':' !in b by {
      forall i | 0 <= i < |b|
        ensures b[i] != ':'
      {
        FormatCharacters(n, 16, i);
      }
    }
    assert s[..|b|] == b && s[|b|] == ':' && s[|b| + 1..] == rest;
    FindFirstAt(s, ':', |b|);
  }

  /** A bank written in canonical hexadecimal that does not fit in 32 bits is `BadBank`, whatever follows the colon. */
  lemma BankTooLarge(bank: nat, rest: string)
    requires bank >= 0x1_0000_0000
    ensures ParseLocation(Format(bank, 16) + ":" + rest) == Err(BadBank)
  {
    var b := Format(bank, 16);
    var s := b + ":" + rest;
    SplitAfterNumber(bank, rest);
    TrimmedTooLarge(bank, 0x1_0000_0000);
    assert ParseUnsigned(Trim(s[..|b|]), 16, 0x1_0000_0000).None?;
  }

  /** After a bank that fits, an address written in canonical hexadecimal that does not fit in 16 bits is `BadAddr`. */
  lemma AddressTooLarge(bank: nat, addr: nat)
    requires bank < 0x1_0000_0000 && addr >= 0x1_0000
    ensures ParseLocation(Format(bank, 16) + ":" + Format(addr, 16)) == Err(BadAddr)
  {
    var b, a := Format(bank, 16), Format(addr, 16);
    var s := b + ":" + a;
    SplitAfterNumber(bank, a);
    TrimmedFits(bank, 0x1_0000_0000);
    TrimmedTooLarge(addr, 0x1_0000);
    assert ParseUnsigned(Trim(s[..|b|]), 16, 0x1_0000_0000).Some?;
    assert ParseUnsigned(Trim(s[|b| + 1..]), 16, 0x1_0000).None?;
  }

  /** After a bank that fits, a colon followed by nothing but whitespace is `BadAddr`. */
  lemma AddressMissing(bank: nat, rest: string)
    requires bank < 0x1_0000_0000 && AllWhitespace(rest)
    ensures ParseLocation(Format(bank, 16) + ":" + rest) == Err(BadAddr)
  {
    var b := Format(bank, 16);
    var s := b + ":" + rest;
    SplitAfterNumber(bank, rest);
    TrimmedFits(bank, 0x1_0000_0000);
    assert Trim(rest) == [];
    assert ParseUnsigned(Trim(s[..|b|]), 16, 0x1_0000_0000).Some?;
    assert ParseUnsigned(Trim(s[|b| + 1..]), 16, 0x1_0000).None?;
  }

  lemma TrimmedFits(n: nat, bound: nat)
    requires n < bound
    ensures ParseUnsigned(Trim(Format(n, 16)), 16, bound) == Some(n)
  {
    TrimFormatted(n, 16);
    FormatRoundTrip(n, 16, bound);
  }

  lemma TrimmedTooLarge(n: nat, bound: nat)
    requires n >= bound
    ensures ParseUnsigned(Trim(Format(n, 16)), 16, bound).None?
  {
    TrimFormatted(n, 16);
    FormatTooLarge(n, 16, bound);
  }

  /** A colon is neither whitespace nor a digit, so no text that parses as a number holds one. */
  lemma NoColonInNumber(s: string, bound: nat)
    requires ParseUnsigned(Trim(s), 16, bound).Some?
    ensures ':' !in s
  {
    if ':' in s {
      var t := Trim(s);
      TrimKeepsNonWhitespace(s, ':');
      var i :| 0 <= i < |t| && t[i] == ':';
      ParsedCharacters(t, 16, bound, i);
    }
  }

  lemma CountAround(s: string, k: nat, c: char)
    requires k < |s| && s[k] == c && c !in s[..k] && c !in s[k + 1..]
    ensures multiset(s)[c] == 1
  {
    assert s == s[..k] + [c] + s[k + 1..];
  }

  /** An accepted attempt line holds exactly one colon: the bank and the address admit none. */
  lemma LocationHasOneColon(line: string)
    requires ParseLocation(line).Ok?
    ensures multiset(line)[':'] == 1
  {
    var k := FindFirst(line, ':').value;
    NoColonInNumber(line[k + 1..], 0x1_0000);
    CountAround(line, k, ':');
  }

  /** The floating sentinel of an address is the one written `ffff`. */
  lemma FloatingAddress(l: Location)
    ensures l.IsFloating() <==> Format(l.addr, 16) == "ffff"
  {
    assert Format(0xFFFF, 16) == "ffff";
    if Format(l.addr, 16) == "ffff" {
      FormatInjective(l.addr, 0xFFFF, 16);
    }
  }

  /** The floating sentinel of a bank is the one written `ffffffff`. */
  lemma FloatingBank(l: Location)
    ensures l.IsFloatingBank() <==> Format(l.bank, 16) == "ffffffff"
  {
    assert Format(0xFFFF_FFFF, 16) == "ffffffff";
    if Format(l.bank, 16) == "ffffffff" {
      FormatInjective(l.bank, 0xFFFF_FFFF, 16);
    }
  }

  /** A section is floating, or has a floating bank, exactly when its own location is or has. */
  lemma SectionFloating(sec: Section)
    ensures sec.IsFloating() <==> Format(sec.location.addr, 16) == "ffff"
    ensures sec.IsFloatingBank() <==> Format(sec.location.bank, 16) == "ffffffff"
  {
    FloatingAddress(sec.location);
    FloatingBank(sec.location);
  }

  // ---------------------------------------------------------------------
  // Section headers
  // ---------------------------------------------------------------------

  /** `[[:blank:]]`: a space or a tab. */
  predicate IsBlank(c: char)
  {
    c == ' ' || c == '\t'
  }

  predicate Blanks(g: string)
  {
    forall i | 0 <= i < |g| :: IsBlank(g[i])
  }

  /** The character classes of the header's fields: `[^[:blank:]stop]` and `[^[:blank:]]`. */
  datatype CharClass = NotBlankOr(stop: char) | NotBlank
  {
    predicate Has(c: char)
    {
      !IsBlank(c) && (NotBlankOr? ==> c != stop)
    }
  }

  /** The length of the longest prefix of `s` inside the class. */
  function RunLength(s: string, cl: CharClass): (n: nat)
    ensures n <= |s|
  {
    if s == [] || !cl.Has(s[0]) then 0 else 1 + RunLength(s[1..], cl)
  }

  /** The run is inside the class and stops at the first character outside it. */
  lemma {:induction false} RunLengthFacts(s: string, cl: CharClass)
    ensures forall i | 0 <= i < RunLength(s, cl) :: cl.Has(s[i])
    ensures RunLength(s, cl) < |s| ==> !cl.Has(s[RunLength(s, cl)])
    decreases |s|
  {
    if s != [] && cl.Has(s[0]) {
      RunLengthFacts(s[1..], cl);
      assert forall i | 1 <= i < RunLength(s, cl) :: s[i] == s[1..][i - 1];
    }
  }

  /** Drops the leading blanks of `s`. */
  function SkipBlanks(s: string): (r: string)
    ensures |r| <= |s| && r == s[|s| - |r|..]
  {
    if s != [] && IsBlank(s[0]) then SkipBlanks(s[1..]) else s
  }

  /** What is dropped is blank, and what is kept does not start with a blank. */
  lemma {:induction false} SkipBlanksFacts(s: string)
    ensures Blanks(s[..|s| - |SkipBlanks(s)|])
    ensures SkipBlanks(s) == [] || !IsBlank(SkipBlanks(s)[0])
    decreases |s|
  {
    if s != [] && IsBlank(s[0]) {
      var t := s[1..];
      SkipBlanksFacts(t);
      var r := SkipBlanks(t);
      assert SkipBlanks(s) == r;
      var k := |s| - |r|;
      assert s[..k] == [s[0]] + t[..k - 1];
    }
  }

  /**
   * One field of the header and the delimiter after it,
   * `(class+) blank* stop blank*`: the field and what follows.
   */
  function Field(s: string, stop: char): Option<(string, string)>
  {
    var n := RunLength(s, NotBlankOr(stop));
    var t := SkipBlanks(s[n..]);
    if n == 0 || t == [] || t[0] != stop then None
    else Some((s[..n], SkipBlanks(t[1..])))
  }

  /** The six captures of the header regex. */
  datatype Header = Header(memType: string, location: string, alignMask: string,
                           alignOfs: string, size: string, name: string)
  {
    /** The four captures that end at a delimiter, in order. */
    function Delimited(): seq<string>
    {
      [memType, location, alignMask, alignOfs]
    }
  }

  /** The delimiters after the first four captures: `@`, `&`, `+` and `]`. */
  const Delimiters: string := "@&+]"

  /**
   * Matches the header regex against the text after `[`: four delimited
   * fields, the size, exactly one blank, and a name that runs to the end
   * of the text without a line feed.
   */
  function SplitHeader(s: string): Option<Header>
  {
    SplitFrom([], s)
  }

  /** The rest of the match once the captures `done` are taken. */
  function SplitFrom(done: seq<string>, s: string): Option<Header>
    requires |done| <= 4
    decreases 4 - |done|
  {
    if |done| == 4 then
      var n := RunLength(s, NotBlank);
      if n == 0 || n == |s| || '\n' in s[n + 1..] then None
      else Some(Header(done[0], done[1], done[2], done[3], s[..n], s[n + 1..]))
    else
      match Field(s, Delimiters[|done|])
      case None => None
      case Some((f, rest)) => SplitFrom(done + [f], rest)
  }

  predicate IsField(f: string, cl: CharClass)
  {
    |f| > 0 && forall i | 0 <= i < |f| :: cl.Has(f[i])
  }

  /** A field, the blanks around its delimiter, and the text after them. */
  function Join(field: string, before: string, stop: char, after: string, rest: string): string
  {
    field + before + [stop] + after + rest
  }

  /**
   * The header regex read as a grammar: the text spelt by the captures and
   * the eight blank runs around the delimiters, with `sep` before the name.
   */
  function Assemble(h: Header, gaps: seq<string>, sep: char): string
    requires |gaps| == 8
  {
    AssembleFrom(h, 0, gaps, sep)
  }

  function AssembleFrom(h: Header, k: nat, gaps: seq<string>, sep: char): string
    requires k <= 4 && |gaps| == 8
    decreases 4 - k
  {
    if k == 4 then h.size + [sep] + h.name
    else Join(h.Delimited()[k], gaps[2 * k], Delimiters[k], gaps[2 * k + 1], AssembleFrom(h, k + 1, gaps, sep))
  }

  /** The name is the tail of an assembled header, right after the separator. */
  lemma {:induction false} AssembleFromEndsWithName(h: Header, k: nat, gaps: seq<string>, sep: char)
    requires k <= 4 && |gaps| == 8
    ensures var s := AssembleFrom(h, k, gaps, sep);
      |h.name| < |s| && s[|s| - |h.name| - 1..] == [sep] + h.name
    decreases 4 - k
  {
    if k == 4 {
      assert AssembleFrom(h, k, gaps, sep) == h.size + ([sep] + h.name);
      SuffixOfAppend(h.size, [sep] + h.name, |h.name| + 1);
    } else {
      var t := AssembleFrom(h, k + 1, gaps, sep);
      AssembleFromEndsWithName(h, k + 1, gaps, sep);
      var p := h.Delimited()[k] + gaps[2 * k] + [Delimiters[k]] + gaps[2 * k + 1];
      assert AssembleFrom(h, k, gaps, sep) == p + t;
      SuffixOfAppend(p, t, |h.name| + 1);
    }
  }

  lemma SuffixOfAppend<T>(p: seq<T>, t: seq<T>, m: nat)
    requires m <= |t|
    ensures (p + t)[|p + t| - m..] == t[|t| - m..]
  {
  }

  /** The captures and gaps the regex admits. */
  predicate WellShaped(h: Header, gaps: seq<string>, sep: char)
  {
    |gaps| == 8 && (forall k | 0 <= k < 8 :: Blanks(gaps[k])) && IsBlank(sep) &&
    (forall k | 0 <= k < 4 :: IsField(h.Delimited()[k], NotBlankOr(Delimiters[k]))) &&
    IsField(h.size, NotBlank) && '\n' !in h.name
  }

  lemma JoinNested(field: string, before: string, stop: char, after: string, rest: string)
    ensures Join(field, before, stop, after, rest) == field + (before + ([stop] + (after + rest)))
  {
  }

  lemma {:induction false} RunLengthOf(f: string, x: string, cl: CharClass)
    requires forall i | 0 <= i < |f| :: cl.Has(f[i])
    requires x == [] || !cl.Has(x[0])
    ensures RunLength(f + x, cl) == |f|
    decreases |f|
  {
    if f == [] {
      assert f + x == x;
    } else {
      assert (f + x)[1..] == f[1..] + x;
      RunLengthOf(f[1..], x, cl);
    }
  }

  lemma {:induction false} SkipBlanksOf(g: string, x: string)
    requires Blanks(g) && (x == [] || !IsBlank(x[0]))
    ensures SkipBlanks(g + x) == x
    decreases |g|
  {
    if g == [] {
      assert g + x == x;
    } else {
      assert (g + x)[1..] == g[1..] + x;
      SkipBlanksOf(g[1..], x);
    }
  }

  /** A field followed by its delimiter is split off, whatever follows. */
  lemma FieldOf(f: string, before: string, stop: char, after: string, rest: string)
    requires IsField(f, NotBlankOr(stop)) && !IsBlank(stop) && Blanks(before) && Blanks(after)
    requires rest == [] || !IsBlank(rest[0])
    ensures Field(Join(f, before, stop, after, rest), stop) == Some((f, rest))
  {
    var s := Join(f, before, stop, after, rest);
    var x := before + ([stop] + (after + rest));
    JoinNested(f, before, stop, after, rest);
    RunLengthOf(f, x, NotBlankOr(stop));
    assert s[..|f|] == f && s[|f|..] == x;
    SkipBlanksOf(before, [stop] + (after + rest));
    assert ([stop] + (after + rest))[1..] == after + rest;
    SkipBlanksOf(after, rest);
  }

  lemma SkipBlanksSplit(u: string) returns (gap: string)
    ensures Blanks(gap) && u == gap + SkipBlanks(u)
  {
    SkipBlanksFacts(u);
    gap := u[..|u| - |SkipBlanks(u)|];
  }

  lemma Reassemble(s: string, n: nat, t: string, before: string, stop: char, after: string, rest: string)
    requires n <= |s| && s[n..] == before + t
    requires t != [] && t[0] == stop && t[1..] == after + rest
    ensures s == Join(s[..n], before, stop, after, rest)
  {
    assert t == [stop] + (after + rest);
    assert s == s[..n] + (before + ([stop] + (after + rest)));
    JoinNested(s[..n], before, stop, after, rest);
  }

  lemma FieldFacts(s: string, stop: char, f: string, rest: string)
    requires Field(s, stop) == Some((f, rest))
    ensures var n := RunLength(s, NotBlankOr(stop));
      var t := SkipBlanks(s[n..]);
      f == s[..n] && t != [] && t[0] == stop && rest == SkipBlanks(t[1..])
  {
  }

  lemma RunIsField(s: string, cl: CharClass, n: nat)
    requires n == RunLength(s, cl) && n > 0
    ensures IsField(s[..n], cl)
  {
    RunLengthFacts(s, cl);
    assert forall i | 0 <= i < n :: s[..n][i] == s[i];
  }

  lemma FieldShape(s: string, stop: char, f: string, rest: string)
    requires Field(s, stop) == Some((f, rest))
    ensures IsField(f, NotBlankOr(stop)) && (rest == [] || !IsBlank(rest[0]))
  {
    FieldFacts(s, stop, f, rest);
    var n := RunLength(s, NotBlankOr(stop));
    RunIsField(s, NotBlankOr(stop), n);
    SkipBlanksFacts(SkipBlanks(s[n..])[1..]);
  }

  lemma FieldSplit(s: string, stop: char, f: string, rest: string, n: nat, t: string) returns (before: string, after: string)
    requires n <= |s| && f == s[..n] && t == SkipBlanks(s[n..])
    requires t != [] && t[0] == stop && rest == SkipBlanks(t[1..])
    ensures Blanks(before) && Blanks(after)
    ensures s == Join(f, before, stop, after, rest)
  {
    before := SkipBlanksSplit(s[n..]);
    after := SkipBlanksSplit(t[1..]);
    Reassemble(s, n, t, before, stop, after, rest);
  }

  /** What a field is split from: the field, blanks, the delimiter, blanks, and the rest. */
  lemma FieldSound(s: string, stop: char, f: string, rest: string) returns (before: string, after: string)
    requires Field(s, stop) == Some((f, rest))
    ensures IsField(f, NotBlankOr(stop))
    ensures Blanks(before) && Blanks(after) && (rest == [] || !IsBlank(rest[0]))
    ensures s == Join(f, before, stop, after, rest)
  {
    FieldFacts(s, stop, f, rest);
    FieldShape(s, stop, f, rest);
    var n := RunLength(s, NotBlankOr(stop));
    before, after := FieldSplit(s, stop, f, rest, n, SkipBlanks(s[n..]));
  }

  /** Every stage of the grammar starts with a capture, never with a blank. */
  lemma AssembleFromStart(h: Header, k: nat, gaps: seq<string>, sep: char)
    requires WellShaped(h, gaps, sep) && k <= 4
    ensures var t := AssembleFrom(h, k, gaps, sep); t != [] && !IsBlank(t[0])
  {
    if k < 4 {
      assert IsField(h.Delimited()[k], NotBlankOr(Delimiters[k]));
    }
  }

  lemma SnocPrefix(xs: seq<string>, k: nat)
    requires k < |xs|
    ensures xs[..k] + [xs[k]] == xs[..k + 1]
  {
  }

  lemma {:induction false} SplitFromComplete(h: Header, k: nat, gaps: seq<string>, sep: char)
    requires WellShaped(h, gaps, sep) && k <= 4
    ensures SplitFrom(h.Delimited()[..k], AssembleFrom(h, k, gaps, sep)) == Some(h)
    decreases 4 - k
  {
    if k == 4 {
      SplitLastComplete(h, gaps, sep);
    } else {
      SplitFromComplete(h, k + 1, gaps, sep);
      SplitStepComplete(h, k, gaps, sep);
    }
  }

  /** The last stage: the size, the separator and the name. */
  lemma SplitLastComplete(h: Header, gaps: seq<string>, sep: char)
    requires WellShaped(h, gaps, sep)
    ensures SplitFrom(h.Delimited(), AssembleFrom(h, 4, gaps, sep)) == Some(h)
  {
    var t := AssembleFrom(h, 4, gaps, sep);
    RunLengthOf(h.size, [sep] + h.name, NotBlank);
    assert t == h.size + ([sep] + h.name);
    assert t[..|h.size|] == h.size && t[|h.size| + 1..] == h.name;
  }

  /** Stage k splits off its field and hands the rest to stage k + 1. */
  lemma SplitStepComplete(h: Header, k: nat, gaps: seq<string>, sep: char)
    requires WellShaped(h, gaps, sep) && k < 4
    requires SplitFrom(h.Delimited()[..k + 1], AssembleFrom(h, k + 1, gaps, sep)) == Some(h)
    ensures SplitFrom(h.Delimited()[..k], AssembleFrom(h, k, gaps, sep)) == Some(h)
  {
    var fields := h.Delimited();
    StageField(h, k, gaps, sep);
    SplitFromStep(fields[..k], AssembleFrom(h, k, gaps, sep), fields[k], AssembleFrom(h, k + 1, gaps, sep));
    SnocPrefix(fields, k);
  }

  /** Stage k of an assembled header starts with its field and delimiter. */
  lemma StageField(h: Header, k: nat, gaps: seq<string>, sep: char)
    requires WellShaped(h, gaps, sep) && k < 4
    ensures Field(AssembleFrom(h, k, gaps, sep), Delimiters[k]) == Some((h.Delimited()[k], AssembleFrom(h, k + 1, gaps, sep)))
  {
    AssembleFromStart(h, k + 1, gaps, sep);
    assert IsField(h.Delimited()[k], NotBlankOr(Delimiters[k]));
    assert Blanks(gaps[2 * k]) && Blanks(gaps[2 * k + 1]);
    FieldOf(h.Delimited()[k], gaps[2 * k], Delimiters[k], gaps[2 * k + 1], AssembleFrom(h, k + 1, gaps, sep));
  }

  lemma SplitFromStep(done: seq<string>, s: string, f: string, rest: string)
    requires |done| < 4 && Field(s, Delimiters[|done|]) == Some((f, rest))
    ensures SplitFrom(done, s) == SplitFrom(done + [f], rest)
  {
  }

  /** Every text the grammar spells is split back into the captures it was spelt from. */
  lemma SplitHeaderComplete(h: Header, gaps: seq<string>, sep: char)
    requires WellShaped(h, gaps, sep)
    ensures SplitHeader(Assemble(h, gaps, sep)) == Some(h)
  {
    SplitFromComplete(h, 0, gaps, sep);
  }

  /** Only the gaps from stage k on take part in the text of stage k. */
  lemma {:induction false} AssembleFromGaps(h: Header, k: nat, gaps: seq<string>, other: seq<string>, sep: char)
    requires k <= 4 && |gaps| == 8 && |other| == 8
    requires forall i | 2 * k <= i < 8 :: gaps[i] == other[i]
    ensures AssembleFrom(h, k, gaps, sep) == AssembleFrom(h, k, other, sep)
    decreases 4 - k
  {
    if k < 4 {
      AssembleFromGaps(h, k + 1, gaps, other, sep);
    }
  }

  /** Putting the gaps of one field in front of the later stages' gaps. */
  lemma SoundStep(h: Header, k: nat, s: string, rest: string, before: string, after: string,
                  later: seq<string>, sep: char) returns (gaps: seq<string>)
    requires k < 4 && WellShaped(h, later, sep) && rest == AssembleFrom(h, k + 1, later, sep)
    requires Blanks(before) && Blanks(after)
    requires s == Join(h.Delimited()[k], before, Delimiters[k], after, rest)
    ensures WellShaped(h, gaps, sep) && s == AssembleFrom(h, k, gaps, sep)
  {
    gaps := later[2 * k := before][2 * k + 1 := after];
    AssembleFromGaps(h, k + 1, gaps, later, sep);
    forall i | 0 <= i < 8
      ensures Blanks(gaps[i])
    {
      if i != 2 * k && i != 2 * k + 1 {
        assert gaps[i] == later[i];
      }
    }
  }

  lemma PrefixesAgree(fields: seq<string>, done: seq<string>, f: string)
    requires |done| < |fields| && fields[..|done| + 1] == done + [f]
    ensures fields[..|done|] == done && fields[|done|] == f
  {
    assert fields[..|done|] == fields[..|done| + 1][..|done|];
    assert fields[|done|] == fields[..|done| + 1][|done|];
  }

  lemma FieldsExtend(done: seq<string>, f: string)
    requires |done| < 4 && IsField(f, NotBlankOr(Delimiters[|done|]))
    requires forall k | 0 <= k < |done| :: IsField(done[k], NotBlankOr(Delimiters[k]))
    ensures forall k | 0 <= k < |done| + 1 :: IsField((done + [f])[k], NotBlankOr(Delimiters[k]))
  {
  }

  lemma {:induction false} SplitFromSound(done: seq<string>, s: string, h: Header) returns (gaps: seq<string>, sep: char)
    requires |done| <= 4 && SplitFrom(done, s) == Some(h)
    requires forall k | 0 <= k < |done| :: IsField(done[k], NotBlankOr(Delimiters[k]))
    ensures h.Delimited()[..|done|] == done
    ensures WellShaped(h, gaps, sep) && s == AssembleFrom(h, |done|, gaps, sep)
    decreases 4 - |done|
  {
    if |done| == 4 {
      var n := RunLength(s, NotBlank);
      RunLengthFacts(s, NotBlank);
      sep := s[n];
      gaps := ["", "", "", "", "", "", "", ""];
      assert s == s[..n] + [sep] + s[n + 1..];
      assert h.Delimited() == done;
    } else {
      var k := |done|;
      var (f, rest) := Field(s, Delimiters[k]).value;
      var before, after := FieldSound(s, Delimiters[k], f, rest);
      FieldsExtend(done, f);
      var later;
      later, sep := SplitFromSound(done + [f], rest, h);
      PrefixesAgree(h.Delimited(), done, f);
      gaps := SoundStep(h, k, s, rest, before, after, later, sep);
    }
  }

  /** Every header that is split is a text of the grammar, spelt from the captures found. */
  lemma SplitHeaderSound(s: string) returns (gaps: seq<string>, sep: char)
    requires SplitHeader(s).Some?
    ensures WellShaped(SplitHeader(s).value, gaps, sep)
    ensures s == Assemble(SplitHeader(s).value, gaps, sep)
  {
    gaps, sep := SplitFromSound([], s, SplitHeader(s).value);
  }

  // ---------------------------------------------------------------------
  // Sections
  // ---------------------------------------------------------------------

  /** `Section::from_str` on the text after `[`: match the header, then convert the captures in order. */
  function ParseSection(rest: string): Result<Section, SectionParseError>
  {
    match SplitHeader(rest)
    case None => Err(SyntaxError)
    case Some(h) => SectionOf(h)
  }

  /** Converts the captures one after the other; the first that fails decides the error. */
  function SectionOf(h: Header): Result<Section, SectionParseError>
  {
    Decode(ParseMemType(h.memType), ParseLocation(h.location), ParseUnsigned(h.alignMask, 16, 0x1_0000),
           ParseUnsigned(h.alignOfs, 16, 0x1_0000), ParseUnsigned(h.size, 10, 0x1_0000), h.name)
  }

  /** Every complaint about the captures of a header, in the order the captures appear. */
  function HeaderErrors(h: Header): seq<SectionParseError>
  {
    Complaints(ParseMemType(h.memType), ParseLocation(h.location), ParseUnsigned(h.alignMask, 16, 0x1_0000),
               ParseUnsigned(h.alignOfs, 16, 0x1_0000), ParseUnsigned(h.size, 10, 0x1_0000))
  }

  /** Builds a section from its parsed captures, failing on the first faulty one. */
  function Decode(t: Option<MemType>, l: Result<Location, LocationParseError>,
                  m: Option<nat>, o: Option<nat>, z: Option<nat>, name: string): Result<Section, SectionParseError>
    requires m.Some? ==> m.value < 0x1_0000
    requires o.Some? ==> o.value < 0x1_0000
    requires z.Some? ==> z.value < 0x1_0000
  {
    match t
    case None => Err(BadType)
    case Some(memType) =>
      match l
      case Err(e) => Err(BadLocation(e))
      case Ok(location) =>
        match m
        case None => Err(BadAlignMask)
        case Some(alignMask) =>
          match o
          case None => Err(BadAlignOfs)
          case Some(alignOfs) =>
            match z
            case None => Err(BadSize)
            case Some(size) => Ok(Section(memType, location, alignMask, alignOfs, size, name))
  }

  function Complaints(t: Option<MemType>, l: Result<Location, LocationParseError>,
                      m: Option<nat>, o: Option<nat>, z: Option<nat>): seq<SectionParseError>
  {
    (if t.None? then [BadType] else []) +
    (if l.Err? then [BadLocation(l.error)] else []) +
    (if m.None? then [BadAlignMask] else []) +
    (if o.None? then [BadAlignOfs] else []) +
    (if z.None? then [BadSize] else [])
  }

  /** Decoding succeeds exactly when nothing is faulty, and reports the first faulty capture. */
  lemma DecodeComplaints(t: Option<MemType>, l: Result<Location, LocationParseError>,
                         m: Option<nat>, o: Option<nat>, z: Option<nat>, name: string)
    requires m.Some? ==> m.value < 0x1_0000
    requires o.Some? ==> o.value < 0x1_0000
    requires z.Some? ==> z.value < 0x1_0000
    ensures Decode(t, l, m, o, z, name).Ok? <==> Complaints(t, l, m, o, z) == []
    ensures Decode(t, l, m, o, z, name).Err? ==>
      Decode(t, l, m, o, z, name).error == Complaints(t, l, m, o, z)[0]
  {
  }

  /**
   * A section line is rejected as a syntax error exactly when the header
   * does not match; otherwise it is accepted exactly when no capture is
   * faulty, and rejected with the complaint about the first faulty one.
   */
  lemma ParseSectionErrors(rest: string)
    ensures ParseSection(rest) == Err(SyntaxError) <==> SplitHeader(rest).None?
    ensures SplitHeader(rest).Some? ==>
      (ParseSection(rest).Ok? <==> HeaderErrors(SplitHeader(rest).value) == [])
    ensures SplitHeader(rest).Some? && ParseSection(rest).Err? ==>
      ParseSection(rest).error == HeaderErrors(SplitHeader(rest).value)[0]
  {
    if SplitHeader(rest).Some? {
      var h := SplitHeader(rest).value;
      DecodeComplaints(ParseMemType(h.memType), ParseLocation(h.location), ParseUnsigned(h.alignMask, 16, 0x1_0000),
                       ParseUnsigned(h.alignOfs, 16, 0x1_0000), ParseUnsigned(h.size, 10, 0x1_0000), h.name);
    }
  }

  /** A section written the way the parser reads it: single spaces around the delimiters. */
  function FormatSection(sec: Section): string
  {
    Assemble(SectionHeader(sec), [" ", " ", " ", " ", " ", " ", " ", " "], ' ')
  }

  function SectionHeader(sec: Section): Header
  {
    Header(MemTypeName(sec.memType), FormatLocation(sec.location), Format(sec.alignMask, 16),
           Format(sec.alignOfs, 16), Format(sec.size, 10), sec.name)
  }

  lemma FormattedField(n: nat, radix: nat, cl: CharClass)
    requires 2 <= radix <= 16
    requires cl.NotBlankOr? ==> !('0' <= cl.stop <= '9' || 'a' <= cl.stop <= 'f')
    ensures IsField(Format(n, radix), cl)
  {
    forall i | 0 <= i < |Format(n, radix)|
      ensures cl.Has(Format(n, radix)[i])
    {
      FormatCharacters(n, radix, i);
    }
  }

  lemma LocationField(l: Location)
    ensures IsField(FormatLocation(l), NotBlankOr('&'))
  {
    var b, a := Format(l.bank, 16), Format(l.addr, 16);
    FormattedField(l.bank, 16, NotBlankOr('&'));
    FormattedField(l.addr, 16, NotBlankOr('&'));
    var s := FormatLocation(l);
    forall i | 0 <= i < |s|
      ensures NotBlankOr('&').Has(s[i])
    {
      if i < |b| {
        assert s[i] == b[i];
      } else if i > |b| {
        assert s[i] == a[i - |b| - 1];
      }
    }
  }

  lemma MemTypeField(m: MemType)
    ensures IsField(MemTypeName(m), NotBlankOr('@'))
  {
  }

  lemma SectionHeaderShape(sec: Section)
    requires '\n' !in sec.name
    ensures WellShaped(SectionHeader(sec), [" ", " ", " ", " ", " ", " ", " ", " "], ' ')
  {
    var h := SectionHeader(sec);
    MemTypeField(sec.memType);
    LocationField(sec.location);
    FormattedField(sec.alignMask, 16, NotBlankOr('+'));
    FormattedField(sec.alignOfs, 16, NotBlankOr(']'));
    FormattedField(sec.size, 10, NotBlank);
    assert forall k | 0 <= k < 4 :: IsField(h.Delimited()[k], NotBlankOr(Delimiters[k])) by {
      assert h.Delimited()[0] == MemTypeName(sec.memType) && Delimiters[0] == '@';
      assert h.Delimited()[1] == FormatLocation(sec.location) && Delimiters[1] == '&';
      assert h.Delimited()[2] == Format(sec.alignMask, 16) && Delimiters[2] == '+';
      assert h.Delimited()[3] == Format(sec.alignOfs, 16) && Delimiters[3] == ']';
    }
  }

  /** A section whose name holds no line feed is read back unchanged from its written form. */
  lemma SectionRoundTrip(sec: Section)
    requires '\n' !in sec.name
    ensures ParseSection(FormatSection(sec)) == Ok(sec)
  {
    var h := SectionHeader(sec);
    SectionHeaderShape(sec);
    SplitHeaderComplete(h, [" ", " ", " ", " ", " ", " ", " ", " "], ' ');
    MemTypeRoundTrip(sec.memType);
    LocationRoundTrip(sec.location);
    FormatRoundTrip(sec.alignMask, 16, 0x1_0000);
    FormatRoundTrip(sec.alignOfs, 16, 0x1_0000);
    FormatRoundTrip(sec.size, 10, 0x1_0000);
  }
}
