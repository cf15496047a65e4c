/**
 * The data model of src/main.rs: locations in banked memory, the memory
 * kinds a section can target, sections, placement attempts (frames) and the
 * sequence the parser hands to the renderer.
 */
module Domain {
  import opened Wrappers

  /** Rust's u16 and u32. */
  type U16 = x: int | 0 <= x < 0x1_0000
  type U32 = x: int | 0 <= x < 0x1_0000_0000

  const U16Max: U16 := 0xFFFF
  const U32Max: U32 := 0xFFFF_FFFF

  datatype Location = Location(bank: U32, addr: U16)
  {
    /** The linker has not chosen an address yet. */
    predicate IsFloating()
    {
      addr == U16Max
    }

    /** The linker has not chosen a bank yet. */
    predicate IsFloatingBank()
    {
      bank == U32Max
    }
  }

  datatype MemType = Rom0 | Romx | Vram | Sram | Wram0 | Wramx | Oam | Hram

  /** The token a memory kind is written as: its name in upper case. */
  function MemTypeName(m: MemType): string
  {
    match m
    case Rom0 => "ROM0"
    case Romx => "ROMX"
    case Vram => "VRAM"
    case Sram => "SRAM"
    case Wram0 => "WRAM0"
    case Wramx => "WRAMX"
    case Oam => "OAM"
    case Hram => "HRAM"
  }

  /** The derived `FromStr` of MemType: exactly the eight upper-case names. */
  function ParseMemType(token: string): (r: Option<MemType>)
    ensures r.Some? ==> MemTypeName(r.value) == token
    ensures r.None? ==> forall m: MemType :: MemTypeName(m) != token
  {
    if token == "ROM0" then Some(Rom0)
    else if token == "ROMX" then Some(Romx)
    else if token == "VRAM" then Some(Vram)
    else if token == "SRAM" then Some(Sram)
    else if token == "WRAM0" then Some(Wram0)
    else if token == "WRAMX" then Some(Wramx)
    else if token == "OAM" then Some(Oam)
    else if token == "HRAM" then Some(Hram)
    else None
  }

  /** Parsing the name of a memory kind gives back that kind. */
  lemma MemTypeRoundTrip(m: MemType)
    ensures ParseMemType(MemTypeName(m)) == Some(m)
  {
  }

  /** Only ROM placements are drawn. */
  predicate IsRom(m: MemType)
  {
    m == Rom0 || m == Romx
  }

  datatype Section = Section(
    memType: MemType,
    location: Location,
    alignMask: U16,
    alignOfs: U16,
    size: U16,
    name: string)
  {
    predicate IsFloating()
    {
      location.IsFloating()
    }

    predicate IsFloatingBank()
    {
      location.IsFloatingBank()
    }
  }

  /** One placement attempt: where, and for which section (an index into `sections`). */
  datatype Frame = Frame(location: Location, sectionId: nat)

  /**
   * The parser's output. Rust keeps `nb_banks` in a u32; here it is
   * unbounded.
   */
  datatype Sequence = Sequence(nbBanks: nat, frames: seq<Frame>, sections: seq<Section>)
}
