/**
 * How the parser's output meets the renderer's needs (src/main.rs hands the
 * result of `parse_input` straight to `render`).
 */
module Pipeline {
  import opened Wrappers
  import opened Domain
  import opened Geometry
  import opened Parse
  import opened Input
  import opened Render

  /**
   * An accepted log feeds the renderer every frame, in order and with its
   * own index, and the attempts of each section form one run, so each
   * section is settled at most once, after its last attempt.
   */
  lemma ParsedFramesReachRender(lines: seq<string>, sq: Sequence)
    requires Ingest(lines, |lines|) == Ok(sq)
    ensures SectionIdsInRange(sq)
    ensures |RomItems(sq, |sq.frames|)| == |sq.frames|
    ensures forall k | 0 <= k < |sq.frames| :: RomItems(sq, |sq.frames|)[k] == Item(k, sq.frames[k])
    ensures RunsContiguous(RomItems(sq, |sq.frames|))
  {
    IngestConsistent(lines, |lines|);
    AllRomKeepsEveryFrame(sq, |sq.frames|);
  }

  /**
   * Of what `render` needs, the parser guarantees the section indices and a
   * bank count of at least 2; what it leaves open is a count of at most 512
   * and frames that lie inside the count and inside the address space.
   */
  lemma ParsedRenderable(lines: seq<string>, sq: Sequence)
    requires Ingest(lines, |lines|) == Ok(sq)
    ensures Renderable(sq) <==>
      sq.nbBanks <= 512 &&
      forall i | 0 <= i < |sq.frames| ::
        sq.frames[i].sectionId < |sq.sections| && sq.frames[i].location.bank < sq.nbBanks &&
        Drawable(sq.frames[i].location.addr, sq.sections[sq.frames[i].sectionId].size)
  {
    IngestConsistent(lines, |lines|);
    ConsistentRenderable(sq);
  }

  lemma ConsistentRenderable(sq: Sequence)
    requires Consistent(sq)
    ensures Renderable(sq) <==>
      sq.nbBanks <= 512 &&
      forall i | 0 <= i < |sq.frames| ::
        sq.frames[i].sectionId < |sq.sections| && sq.frames[i].location.bank < sq.nbBanks &&
        Drawable(sq.frames[i].location.addr, sq.sections[sq.frames[i].sectionId].size)
  {
    assert SectionIdsInRange(sq);
    assert forall i | 0 <= i < |sq.frames| :: IsRomFrame(sq, sq.frames[i]);
  }

  /**
   * A ROMX section followed by an attempt at a bank that is a power of two
   * (2, 4, 8, ...) is accepted with the bank count equal to that bank, so
   * the attempt lies one bank past the canvas and the sequence falls
   * outside `Render`'s precondition. The source draws it all the same, one
   * pixel row lower over bank 0 and its separator, since the band's x is
   * the canvas width plus 2.
   */
  lemma PowerOfTwoBankNotRenderable(sec: Section, l: Location)
    requires sec.memType == Romx
    requires '\n' !in sec.name && (sec.name == [] || sec.name[|sec.name| - 1] != '\r')
    requires IsPowerOfTwo(l.bank) && l.bank >= 2
    ensures var lines := ["[" + FormatSection(sec) + "\n", FormatLocation(l) + "\n"];
      Ingest(lines, 2) == Ok(Sequence(l.bank, [Frame(l, 0)], [sec])) &&
      !Renderable(Sequence(l.bank, [Frame(l, 0)], [sec]))
  {
    var lines := ["[" + FormatSection(sec) + "\n", FormatLocation(l) + "\n"];
    var last := Sequence(l.bank, [Frame(l, 0)], [sec]);
    SectionLineOf(sec);
    NormalizeTerminated("[" + FormatSection(sec));
    AttemptLineOf(l);
    NormalizeTerminated(FormatLocation(l));
    FirstLineSection(lines, sec);
    SecondLineAttempt(lines, sec, l);
    assert !Drawn(last, last.frames[0]);
  }
}
