/** The legacy "MP" encoder: a 32-byte header in front of the image with
    its trailing zero bytes stripped, page and stack fields, and two XOR
    check bytes at 0x12 (even bytes) and 0x13 (odd bytes). */
module MpExp {
  import opened Bytes
  import opened PyInt
  import opened Outcome
  import opened Elf
  import opened Layout
  import P3Exp

  const MpHeaderSize: nat := 32
  /** The magic "MP", as bytes. */
  const MpMagic: seq<byte> := [0x4d, 0x50]

  // ---------------------------------------------------------------------
  // Reading the ELF file

  /** The total number of relocations over all relocation sections. */
  function RelocationTotal(ss: seq<Section>): (n: nat)
    ensures n == 0 <==> forall s :: s in ss ==> !HasRelocations(s)
  {
    if ss == [] then 0
    else
      var head := if ss[0].kind.RelocationSection? then ss[0].kind.numRelocations else 0;
      assert head != 0 <==> HasRelocations(ss[0]);
      assert forall s :: s in ss <==> s == ss[0] || s in ss[1..];
      head + RelocationTotal(ss[1..])
  }

  /** The legacy check agrees with `check_relocation`: a nonzero total is
      exactly a relocation section with entries. */
  lemma RelocationTotalAgrees(ss: seq<Section>)
    ensures RelocationTotal(ss) != 0 <==> P3Exp.CheckRelocation(ss).Err?
  {
  }

  /** The accumulator of the `reduce` over the allocatable sections. */
  datatype Extent = Extent(base: int, size: int)

  /** One step of the fold: the lower bound moves down to the section's
      address, the upper bound up to the section's end. */
  function Widen(a: Extent, s: Section): (r: Extent)
    ensures r.base <= a.base && r.base <= s.addr && (r.base == a.base || r.base == s.addr)
    ensures r.size >= a.size && r.size >= s.addr + s.size && (r.size == a.size || r.size == s.addr + s.size)
  {
    Extent(if s.addr < a.base then s.addr else a.base,
           if s.addr + s.size > a.size then s.addr + s.size else a.size)
  }

  /** `reduce(Widen, ss, a)`: the bounds start at `a` and take in every
      section. */
  function Fold(ss: seq<Section>, a: Extent): (r: Extent)
    ensures r.base <= a.base && r.size >= a.size
    ensures forall s :: s in ss ==> r.base <= s.addr && s.addr + s.size <= r.size
    ensures r.base == a.base || exists s :: s in ss && s.addr == r.base
    ensures r.size == a.size || exists s :: s in ss && s.addr + s.size == r.size
  {
    if ss == [] then a
    else
      var r := Fold(ss[1..], Widen(a, ss[0]));
      assert forall s :: s in ss[1..] ==> s in ss;
      r
  }

  /** The fold over the allocatable sections from `(0xffffffff, 0)`. */
  function SectionExtent(elf: ElfFile): (r: Extent)
    ensures r.base <= 0xffff_ffff && r.size >= 0
    ensures forall s :: s in elf.sections && IsAlloc(s) ==> r.base <= s.addr && s.addr + s.size <= r.size
    ensures r.base == 0xffff_ffff || exists s :: s in elf.sections && IsAlloc(s) && s.addr == r.base
    ensures r.size == 0 || exists s :: s in elf.sections && IsAlloc(s) && s.addr + s.size == r.size
  {
    Fold(AllocSections(elf.sections), Extent(0xffff_ffff, 0))
  }

  function Min(a: int, b: int): int
  {
    if a <= b then a else b
  }

  function Max(a: int, b: int): int
  {
    if a >= b then a else b
  }

  /** Over a non-empty list, the fold's upper bound is the larger of its
      start value and `max(sh_addr + sh_size)`. */
  lemma {:induction false} FoldSize(ss: seq<Section>, a: Extent)
    requires ss != []
    ensures Fold(ss, a).size == Max(a.size, P3Exp.MaxEnd(ss))
    decreases |ss|
  {
    if |ss| > 1 {
      FoldSize(ss[1..], Widen(a, ss[0]));
    }
  }

  /** ... and its lower bound the smaller of its start value and
      `min(sh_addr)`. */
  lemma {:induction false} FoldBase(ss: seq<Section>, a: Extent)
    requires ss != []
    ensures Fold(ss, a).base == Min(a.base, P3Exp.MinAddr(ss))
    decreases |ss|
  {
    if |ss| > 1 {
      FoldBase(ss[1..], Widen(a, ss[0]));
    }
  }

  /** The fold and `get_addrs` find the same range, except that the fold's
      bounds are clipped by its start value: no base above 0xFFFFFFFF, and
      with no allocatable section the base stays 0xFFFFFFFF. */
  lemma FoldAgreesWithGetAddrs(elf: ElfFile)
    ensures var x, g := SectionExtent(elf), P3Exp.GetAddrs(elf);
      && x.size == g.end
      && x.base == (if exists s :: s in elf.sections && IsAlloc(s) then Min(g.base, 0xffff_ffff) else 0xffff_ffff)
  {
    var alloc := AllocSections(elf.sections);
    if alloc != [] {
      assert alloc[0] in alloc;
      FoldSize(alloc, Extent(0xffff_ffff, 0));
      FoldBase(alloc, Extent(0xffff_ffff, 0));
    }
  }

  /** The base must be 0 for the image to load: only a section at address 0
      gives it, so a file with no allocatable section is refused. */
  lemma BaseZeroNeedsSectionAtZero(elf: ElfFile)
    ensures SectionExtent(elf).base == 0 <==> exists s :: s in elf.sections && IsAlloc(s) && s.addr == 0
  {
    var alloc := AllocSections(elf.sections);
    var x := SectionExtent(elf);
    if x.base == 0 {
      var u :| u in alloc && u.addr == x.base;
    }
  }

  // ---------------------------------------------------------------------
  // The image and the layout arithmetic

  /** `image.rstrip(b'\x00')`: the raw image without its trailing zeros. */
  function StripZeros(raw: seq<byte>): (image: seq<byte>)
    ensures |image| <= |raw| && raw[..|image|] == image
    ensures forall i :: |image| <= i < |raw| ==> raw[i] == 0
    ensures image == [] || image[|image| - 1] != 0
  {
    if raw == [] || raw[|raw| - 1] != 0 then raw
    else StripZeros(raw[..|raw| - 1])
  }

  /** Stripping leaves nothing more to strip. */
  lemma StripZerosIdempotent(raw: seq<byte>)
    ensures StripZeros(StripZeros(raw)) == StripZeros(raw)
  {
  }

  /** `ceil_n(n, m)`, `n + (m - n) % m`: Python's `%` by a positive number
      is never negative, as Dafny's is. */
  function CeilN(n: int, m: int): (r: int)
    requires m > 0
    ensures r % m == 0 && n <= r < n + m
  {
    var q := (m - n) / m;
    var r := n + (m - n) % m;
    assert r == (1 - q) * m;
    MultipleHasNoRemainder(1 - q, m);
    r
  }

  /** Two multiples of `m` in one window of width `m` are the same. */
  lemma MultiplesInWindow(a: int, b: int, n: int, m: int)
    requires m > 0 && a % m == 0 && b % m == 0
    requires n <= a < n + m && n <= b < n + m
    ensures a == b
  {
    var p, q := a / m, b / m;
    assert a == p * m && b == q * m;
    MultiplesApart(p, q, m);
    MultiplesApart(q, p, m);
  }

  /** Distinct multiples of `m` are at least `m` apart. */
  lemma MultiplesApart(p: int, q: int, m: int)
    requires m > 0
    ensures p < q ==> p * m + m <= q * m
  {
    if p < q {
      assert (p + 1) * m == p * m + m;
      MulMonotone(p + 1, q, m);
    }
  }

  /** `ceil_n` and `align` round up alike. */
  lemma CeilNIsAlign(n: int, m: int)
    requires m > 0
    ensures CeilN(n, m) == P3Exp.Align(n, m)
  {
    MultiplesInWindow(CeilN(n, m), P3Exp.Align(n, m), n, m);
  }

  /** `ceil_n(len, 512) // 512`: the number of 512-byte pages. */
  function Pages(len: int): (r: int)
    ensures (r - 1) * 512 < len <= r * 512
  {
    var c := CeilN(len, 512);
    assert c == c / 512 * 512;
    c / 512
  }

  /** `ceil_n(stack_end, 4096) // 4096`: the number of 4 KiB stack pages. */
  function StackPages(stackEnd: int): (r: int)
    ensures (r - 1) * 4096 < stackEnd <= r * 4096
  {
    var c := CeilN(stackEnd, 4096);
    assert c == c / 4096 * 4096;
    c / 4096
  }

  /** A stack top that is a whole number of pages is that many pages. */
  lemma StackPagesExact(stackEnd: int)
    requires stackEnd % 4096 == 0
    ensures StackPages(stackEnd) * 4096 == stackEnd
  {
    CeilNOfMultiple(stackEnd, 4096);
  }

  /** `ceil_n(end + stack, 4096)`: the stack top rounded up to 4 KiB. */
  function StackEnd(x: Extent, stack: int): (r: int)
    ensures r % 4096 == 0 && x.size + stack <= r < x.size + stack + 4096
  {
    CeilN(x.size + stack, 4096)
  }

  // ---------------------------------------------------------------------
  // The encoding

  /** The header fields in the order the encoder assigns them. The page
      and stack counts divide by a positive number, where Dafny's `/` is
      Python's `//`. */
  function MpFields(len: int, stackEnd: int, entry: int): (fs: seq<Field>)
    ensures Ascending(fs) && |fs| == 12
  {
    [ Str(0x00, MpMagic),
      Word(0x02, len % 512),                    // bytes in the last page
      Word(0x04, Pages(len)),                   // pages in the file
      Word(0x06, 0),                            // relocation entries
      Word(0x08, MpHeaderSize / 16),            // header paragraphs
      Word(0x0a, StackPages(stackEnd)),         // stack pages
      Word(0x0c, 0xffff),
      Dword(0x0e, stackEnd),                    // initial ESP
      Dword(0x14, entry),                       // initial EIP
      Word(0x18, 0x1e),
      Word(0x1a, 0),
      Word(0x1c, 1) ]
  }

  /** Every value the encoder packs fits its field. */
  predicate MpPackable(len: int, stackEnd: int, entry: int)
    ensures MpPackable(len, stackEnd, entry) ==>
      len <= 0xffff * 512 && 0 <= stackEnd <= 0xffff * 4096 && 0 <= entry < 0x1_0000_0000
  {
    && IsU16(Pages(len))
    && IsU16(StackPages(stackEnd))
    && IsU32(stackEnd)
    && IsU32(entry)
  }

  /** All header fields can be packed exactly when the values fit. */
  lemma MpFieldsFit(len: int, stackEnd: int, entry: int)
    requires len >= 0
    ensures Fits(MpFields(len, stackEnd, entry), MpHeaderSize) <==> MpPackable(len, stackEnd, entry)
  {
    var fs := MpFields(len, stackEnd, entry);
    if Fits(fs, MpHeaderSize) {
      assert InRange(fs[2]) && InRange(fs[5]) && InRange(fs[7]) && InRange(fs[8]);
    }
  }

  /** `exp[0x12]` and then `exp[0x13]`: the XOR of the even bytes, then of
      the odd bytes of the buffer as it is after the first store. */
  function Seal(e: seq<byte>): (out: seq<byte>)
    requires |e| >= MpHeaderSize
    ensures |out| == |e|
    ensures forall i :: 0 <= i < |e| && i != 0x12 && i != 0x13 ==> out[i] == e[i]
  {
    var e' := e[0x12 := XorFrom(e, 0) as byte];
    e'[0x13 := XorFrom(e', 1) as byte]
  }

  /** A word clear of the check bytes reads the same after sealing. */
  lemma SealU16(e: seq<byte>, n: nat)
    requires |e| >= MpHeaderSize && n + 2 <= |e| && (n + 2 <= 0x12 || 0x13 < n)
    ensures U16At(Seal(e), n) == U16At(e, n)
  {
  }

  /** A double word clear of the check bytes reads the same after sealing. */
  lemma SealU32(e: seq<byte>, n: nat)
    requires |e| >= MpHeaderSize && n + 4 <= |e| && (n + 4 <= 0x12 || 0x13 < n)
    ensures U32At(Seal(e), n) == U32At(e, n)
  {
  }

  /** Header and image, the XOR bytes still zero. */
  function MpUnsealed(image: seq<byte>, stackEnd: int, entry: int): (e: seq<byte>)
    ensures |e| == MpHeaderSize + |image|
  {
    Fill(Zeros(MpHeaderSize) + image, MpFields(MpHeaderSize + |image|, stackEnd, entry))
  }

  /** The MP file for `image`, or the first field whose value `struct`
      refuses to pack. */
  function MpImage(image: seq<byte>, stackEnd: int, entry: int): (r: Result<seq<byte>>)
    ensures r.Ok? <==> MpPackable(MpHeaderSize + |image|, stackEnd, entry)
    ensures r.Ok? ==> |r.value| == MpHeaderSize + |image|
  {
    var len := MpHeaderSize + |image|;
    if !IsU16(Pages(len)) then Err(PackRange(0x04))
    else if !IsU16(StackPages(stackEnd)) then Err(PackRange(0x0a))
    else if !IsU32(stackEnd) then Err(PackRange(0x0e))
    else if !IsU32(entry) then Err(PackRange(0x14))
    else Ok(Seal(MpUnsealed(image, stackEnd, entry)))
  }

  /** The whole legacy conversion once objcopy has produced `raw`: the
      relocation check, the base check, then the file. */
  function MpFile(elf: ElfFile, raw: seq<byte>, stack: int): (r: Result<seq<byte>>)
    ensures r == Err(Relocations) <==> RelocationTotal(elf.sections) != 0
    ensures r == Err(BaseNotZero) <==> RelocationTotal(elf.sections) == 0 && SectionExtent(elf).base != 0
    ensures r.Ok? <==>
      (RelocationTotal(elf.sections) == 0 && SectionExtent(elf).base == 0 &&
       MpPackable(MpHeaderSize + |StripZeros(raw)|, StackEnd(SectionExtent(elf), stack), elf.entry))
    ensures r.Ok? ==> r == MpImage(StripZeros(raw), StackEnd(SectionExtent(elf), stack), elf.entry)
    ensures r.Ok? ==> |r.value| == MpHeaderSize + |StripZeros(raw)|
    ensures r.Ok? ==> r.value[..2] == MpMagic && r.value[MpHeaderSize..] == StripZeros(raw)
  {
    if RelocationTotal(elf.sections) != 0 then Err(Relocations)
    else
      var x := SectionExtent(elf);
      if x.base != 0 then Err(BaseNotZero)
      else
        var image, stackEnd := StripZeros(raw), StackEnd(x, stack);
        var r := MpImage(image, stackEnd, elf.entry);
        if r.Ok? then MpImageTail(image, stackEnd, elf.entry); r else r
  }

  /** Builds the file as the script does: the zeroed header followed by the
      image in one buffer, the header fields assigned slice by slice, then
      the two XOR bytes stored in place. A value `struct` cannot pack stops
      the script before anything is written out, so the range checks are
      made, in the script's order, before the buffer is filled. */
  method BuildMpImage(image: seq<byte>, stackEnd: int, entry: int) returns (r: Result<seq<byte>>)
    ensures r == MpImage(image, stackEnd, entry)
  {
    var len := MpHeaderSize + |image|;
    if !IsU16(Pages(len)) {
      return Err(PackRange(0x04));
    } else if !IsU16(StackPages(stackEnd)) {
      return Err(PackRange(0x0a));
    } else if !IsU32(stackEnd) {
      return Err(PackRange(0x0e));
    } else if !IsU32(entry) {
      return Err(PackRange(0x14));
    }
    var exp := new byte[len](i requires 0 <= i < len => if i < MpHeaderSize then 0 else image[i - MpHeaderSize]);
    assert exp[..] == Zeros(MpHeaderSize) + image;
    FillMpHeader(exp, stackEnd, entry);
    SealInPlace(exp);
    return Ok(exp[..]);
  }

  /** The slice assignments of the header fields into `exp`. */
  method FillMpHeader(exp: array<byte>, stackEnd: int, entry: int)
    requires exp.Length >= MpHeaderSize && MpPackable(exp.Length, stackEnd, entry)
    modifies exp
    ensures exp[..] == Fill(old(exp[..]), MpFields(exp.Length, stackEnd, entry))
  {
    ghost var rest := MpFields(exp.Length, stackEnd, entry);
    rest := Store(exp, rest, Str(0x00, MpMagic));
    rest := Store(exp, rest, Word(0x02, exp.Length % 512));
    rest := Store(exp, rest, Word(0x04, Pages(exp.Length)));
    rest := Store(exp, rest, Word(0x06, 0));
    rest := Store(exp, rest, Word(0x08, MpHeaderSize / 16));
    rest := Store(exp, rest, Word(0x0a, StackPages(stackEnd)));
    rest := Store(exp, rest, Word(0x0c, 0xffff));
    rest := Store(exp, rest, Dword(0x0e, stackEnd));
    rest := Store(exp, rest, Dword(0x14, entry));
    rest := Store(exp, rest, Word(0x18, 0x1e));
    rest := Store(exp, rest, Word(0x1a, 0));
    rest := Store(exp, rest, Word(0x1c, 1));
    assert rest == [];
  }

  /** `exp[0x12] = reduce(xor, exp[::2])`, then
      `exp[0x13] = reduce(xor, exp[1::2])` on the updated buffer. */
  method SealInPlace(exp: array<byte>)
    requires exp.Length >= MpHeaderSize
    modifies exp
    ensures exp[..] == Seal(old(exp[..]))
  {
    exp[0x12] := XorFrom(exp[..], 0) as byte;
    exp[0x13] := XorFrom(exp[..], 1) as byte;
  }

  // ---------------------------------------------------------------------
  // What the file holds

  /** A multiple of `m` is its own ceiling, so the stack page count
      `ceil_n(stack_end, 4096) // 4096` counts `stack_end` exactly. */
  lemma CeilNOfMultiple(r: int, m: int)
    requires m > 0 && r % m == 0
    ensures CeilN(r, m) == r
  {
    MultiplesInWindow(CeilN(r, m), r, r, m);
  }

  /** The signature and page fields of the header, before sealing. */
  lemma MpUnsealedPages(image: seq<byte>, stackEnd: int, entry: int)
    requires MpPackable(MpHeaderSize + |image|, stackEnd, entry)
    ensures var e, len := MpUnsealed(image, stackEnd, entry), MpHeaderSize + |image|;
      && e[..2] == MpMagic
      && U16At(e, 0x02) == len % 512
      && U16At(e, 0x04) == Pages(len)
      && U16At(e, 0x06) == 0
      && U16At(e, 0x08) == 2
  {
    var len := MpHeaderSize + |image|;
    var s, fs := Zeros(MpHeaderSize) + image, MpFields(len, stackEnd, entry);
    MpFieldsFit(len, stackEnd, entry);
    assert Fits(fs, |s|);
    FillSlice(s, fs, 0);
    FillWord(s, fs, 1);
    FillWord(s, fs, 2);
    FillWord(s, fs, 3);
    FillWord(s, fs, 4);
  }

  /** The stack and entry fields of the header, before sealing. */
  lemma MpUnsealedStack(image: seq<byte>, stackEnd: int, entry: int)
    requires MpPackable(MpHeaderSize + |image|, stackEnd, entry)
    ensures var e := MpUnsealed(image, stackEnd, entry);
      && U16At(e, 0x0a) == StackPages(stackEnd)
      && U32At(e, 0x0e) == stackEnd
      && U32At(e, 0x14) == entry
  {
    var len := MpHeaderSize + |image|;
    var s, fs := Zeros(MpHeaderSize) + image, MpFields(len, stackEnd, entry);
    MpFieldsFit(len, stackEnd, entry);
    assert Fits(fs, |s|);
    FillWord(s, fs, 5);
    FillDword(s, fs, 7);
    FillDword(s, fs, 8);
  }

  /** The constant fields of the header after the signature and page
      fields, before sealing. */
  lemma MpUnsealedConstants(image: seq<byte>, stackEnd: int, entry: int)
    requires MpPackable(MpHeaderSize + |image|, stackEnd, entry)
    ensures var e := MpUnsealed(image, stackEnd, entry);
      && U16At(e, 0x0c) == 0xffff
      && U16At(e, 0x18) == 0x1e
      && U16At(e, 0x1a) == 0
      && U16At(e, 0x1c) == 1
  {
    var len := MpHeaderSize + |image|;
    var s, fs := Zeros(MpHeaderSize) + image, MpFields(len, stackEnd, entry);
    MpFieldsFit(len, stackEnd, entry);
    assert Fits(fs, |s|);
    FillWord(s, fs, 6);
    FillWord(s, fs, 9);
    FillWord(s, fs, 10);
    FillWord(s, fs, 11);
  }

  /** No field covers the check bytes 0x12 and 0x13, the last two header
      bytes or the image. */
  lemma MpUnsealedGaps(image: seq<byte>, stackEnd: int, entry: int)
    ensures var e := MpUnsealed(image, stackEnd, entry);
      && e[0x12] == 0 && e[0x13] == 0 && e[0x1e] == 0 && e[0x1f] == 0
      && e[MpHeaderSize..] == image
  {
    var len := MpHeaderSize + |image|;
    var s, fs := Zeros(MpHeaderSize) + image, MpFields(len, stackEnd, entry);
    forall i | i in {0x12, 0x13, 0x1e, 0x1f} || MpHeaderSize <= i < len
      ensures Fill(s, fs)[i] == s[i]
    {
      FillOutside(s, fs, i);
    }
  }

  /** The byte `b` as a `bv8` and back again. */
  lemma ByteBv(b: bv8)
    ensures (b as byte) as bv8 == b
  {
  }

  /** With both check bytes zero beforehand, the two stores leave the XOR
      of the even bytes and the XOR of the odd bytes both zero. */
  lemma SealBalances(e: seq<byte>)
    requires |e| >= MpHeaderSize && e[0x12] == 0 && e[0x13] == 0
    ensures XorFrom(Seal(e), 0) == 0 && XorFrom(Seal(e), 1) == 0
  {
    var e' := e[0x12 := XorFrom(e, 0) as byte];
    var out := e'[0x13 := XorFrom(e', 1) as byte];
    XorBalance(e, 0, 0x12);
    XorFromOther(e', 0, 0x13, XorFrom(e', 1) as byte);
    XorBalance(e', 1, 0x13);
  }

  /** Storing the XOR of a parity class into one of its zero bytes makes
      the class XOR to zero. */
  lemma XorBalance(s: seq<byte>, i: nat, k: nat)
    requires i <= k < |s| && (k - i) % 2 == 0 && s[k] == 0
    ensures XorFrom(s[k := XorFrom(s, i) as byte], i) == 0
  {
    var a := XorFrom(s, i);
    ByteBv(a);
    assert s[k] as bv8 == 0;
    XorFromUpdate(s, i, k, a as byte);
    XorSelf(a);
  }

  lemma XorSelf(a: bv8)
    ensures a ^ 0 ^ a == 0
  {
  }

  /** The odd-byte check is computed after the even-byte one is stored,
      and does not depend on it. */
  lemma SealOrder(e: seq<byte>)
    requires |e| >= MpHeaderSize
    ensures Seal(e)[0x12] as bv8 == XorFrom(e, 0)
    ensures Seal(e)[0x13] as bv8 == XorFrom(e, 1)
  {
    var x0 := XorFrom(e, 0) as byte;
    ByteBv(XorFrom(e, 0));
    XorFromOther(e, 1, 0x12, x0);
    ByteBv(XorFrom(e[0x12 := x0], 1));
  }

  /** A file the encoder produces is the header followed by the image. */
  lemma MpImageTail(image: seq<byte>, stackEnd: int, entry: int)
    requires MpImage(image, stackEnd, entry).Ok?
    ensures var out := MpImage(image, stackEnd, entry).value;
      && |out| == MpHeaderSize + |image|
      && out[..2] == MpMagic
      && out[MpHeaderSize..] == image
  {
    var e := MpUnsealed(image, stackEnd, entry);
    MpUnsealedPages(image, stackEnd, entry);
    MpUnsealedGaps(image, stackEnd, entry);
    var out := Seal(e);
    assert out[..2] == e[..2];
    assert out[MpHeaderSize..] == e[MpHeaderSize..];
  }

  /** The page fields of a file the encoder produces: the bytes in the last
      page, the least number of 512-byte pages holding the file, no
      relocations and a header of 2 × 16 bytes. */
  lemma MpImagePages(image: seq<byte>, stackEnd: int, entry: int)
    requires MpImage(image, stackEnd, entry).Ok?
    ensures var out := MpImage(image, stackEnd, entry).value;
      && U16At(out, 0x02) == |out| % 512
      && (U16At(out, 0x04) - 1) * 512 < |out| <= U16At(out, 0x04) * 512
      && U16At(out, 0x06) == 0
      && U16At(out, 0x08) * 16 == MpHeaderSize
  {
    var e := MpUnsealed(image, stackEnd, entry);
    MpUnsealedPages(image, stackEnd, entry);
    SealU16(e, 0x02);
    SealU16(e, 0x04);
    SealU16(e, 0x06);
    SealU16(e, 0x08);
  }

  /** The stack and entry fields of a file the encoder produces: the stack
      top is a whole number of 4 KiB pages. */
  lemma MpImageRegisters(image: seq<byte>, stackEnd: int, entry: int)
    requires MpImage(image, stackEnd, entry).Ok?
    requires stackEnd % 4096 == 0
    ensures var out := MpImage(image, stackEnd, entry).value;
      && U16At(out, 0x0a) * 4096 == stackEnd
      && U32At(out, 0x0e) == stackEnd
      && U32At(out, 0x14) == entry
  {
    var e := MpUnsealed(image, stackEnd, entry);
    MpUnsealedStack(image, stackEnd, entry);
    SealU16(e, 0x0a);
    SealU32(e, 0x0e);
    SealU32(e, 0x14);
    StackPagesExact(stackEnd);
  }

  /** The constant fields of a file the encoder produces. */
  lemma MpImageConstants(image: seq<byte>, stackEnd: int, entry: int)
    requires MpImage(image, stackEnd, entry).Ok?
    ensures var out := MpImage(image, stackEnd, entry).value;
      && U16At(out, 0x0c) == 0xffff
      && U16At(out, 0x18) == 0x1e
      && U16At(out, 0x1a) == 0
      && U16At(out, 0x1c) == 1
      && out[0x1e] == 0 && out[0x1f] == 0
  {
    var e := MpUnsealed(image, stackEnd, entry);
    MpUnsealedConstants(image, stackEnd, entry);
    MpUnsealedGaps(image, stackEnd, entry);
    SealU16(e, 0x0c);
    SealU16(e, 0x18);
    SealU16(e, 0x1a);
    SealU16(e, 0x1c);
  }

  /** The check bytes of a file the encoder produces: each is the XOR of
      its parity class in the unsealed file, so each class XORs to zero. */
  lemma MpImageChecks(image: seq<byte>, stackEnd: int, entry: int)
    requires MpImage(image, stackEnd, entry).Ok?
    ensures var out, e := MpImage(image, stackEnd, entry).value, MpUnsealed(image, stackEnd, entry);
      && out[0x12] as bv8 == XorFrom(e, 0)
      && out[0x13] as bv8 == XorFrom(e, 1)
      && XorFrom(out, 0) == 0
      && XorFrom(out, 1) == 0
  {
    var e := MpUnsealed(image, stackEnd, entry);
    MpUnsealedGaps(image, stackEnd, entry);
    SealOrder(e);
    SealBalances(e);
  }

  /** The errors of the legacy conversion, in the order the script checks. */
  lemma MpFileErrors(elf: ElfFile, raw: seq<byte>, stack: int)
    ensures (exists s :: s in elf.sections && HasRelocations(s)) ==> MpFile(elf, raw, stack) == Err(Relocations)
    ensures (forall s :: s in elf.sections ==> !HasRelocations(s)) && (forall s :: s in elf.sections && IsAlloc(s) ==> s.addr != 0) ==>
      MpFile(elf, raw, stack) == Err(BaseNotZero)
    ensures MpFile(elf, raw, stack).Err? ==> MpFile(elf, raw, stack).error in {Relocations, BaseNotZero, PackRange(0x04), PackRange(0x0a), PackRange(0x0e), PackRange(0x14)}
  {
    BaseZeroNeedsSectionAtZero(elf);
  }

  /** A file the legacy conversion produces: a section is loaded at address
      0, the image is the raw image without its trailing zeros, and the
      stack top is the ceiling to 4 KiB of the end of the sections plus the
      stack size, which the stack fields hold. */
  lemma MpFileFields(elf: ElfFile, raw: seq<byte>, stack: int)
    requires MpFile(elf, raw, stack).Ok?
    ensures var out, end := MpFile(elf, raw, stack).value, P3Exp.GetAddrs(elf).end;
      && (exists s :: s in elf.sections && IsAlloc(s) && s.addr == 0)
      && out[MpHeaderSize..] == StripZeros(raw)
      && U32At(out, 0x0e) % 4096 == 0
      && end + stack <= U32At(out, 0x0e) < end + stack + 4096
      && U16At(out, 0x0a) * 4096 == U32At(out, 0x0e)
      && U32At(out, 0x14) == elf.entry
  {
    var x := SectionExtent(elf);
    BaseZeroNeedsSectionAtZero(elf);
    FoldAgreesWithGetAddrs(elf);
    var image, se := StripZeros(raw), StackEnd(x, stack);
    MpImageTail(image, se, elf.entry);
    MpImageRegisters(image, se, elf.entry);
  }
}
