/** What the encoders learn from the ELF file: its entry point and, per
    section, the flags, address and size, and whether it is a relocation
    section with how many entries. Reading the ELF container itself is not
    part of this model. */
module Elf {

  /** A relocation section with its number of entries, or any other section. */
  datatype SectionKind = Other | RelocationSection(numRelocations: nat)

  datatype Section = Section(kind: SectionKind, flags: bv64, addr: nat, size: nat)

  datatype ElfFile = ElfFile(entry: nat, sections: seq<Section>)

  /** `SH_FLAGS.SHF_ALLOC`: the section occupies memory at run time. */
  const SHF_ALLOC: bv64 := 0x2

  predicate IsAlloc(s: Section)
  {
    s.flags & SHF_ALLOC != 0
  }

  /** A relocation section that carries at least one entry. */
  predicate HasRelocations(s: Section)
  {
    s.kind.RelocationSection? && s.kind.numRelocations > 0
  }

  /** The allocatable sections in file order, as
      `[s for s in sections if s["sh_flags"] & SHF_ALLOC]`. */
  function AllocSections(ss: seq<Section>): (r: seq<Section>)
    ensures forall s :: s in r <==> s in ss && IsAlloc(s)
    ensures |r| <= |ss|
  {
    if ss == [] then []
    else if IsAlloc(ss[0]) then [ss[0]] + AllocSections(ss[1..])
    else AllocSections(ss[1..])
  }
}
