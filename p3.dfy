/** The "P3" flat-model EXP encoder: a 384-byte header and a 128-byte
    parameter block written in front of an already linked image, with a
    16-bit word-sum checksum at 0x0a. */
module P3Exp {
  import opened Bytes
  import opened PyInt
  import opened Outcome
  import opened Elf
  import opened Layout

  /** The address range spanned by the allocatable sections, and the entry. */
  datatype ElfAddress = ElfAddress(base: nat, end: nat, entry: nat)

  /** Bytes of stack reserved above the end of the image. */
  datatype LinkerOptions = LinkerOptions(stack: int)

  const HeaderSize: nat := 384
  const ParamSize: nat := 128
  /** Where the image starts in the output: right after header and parameters. */
  const ImageOffset: nat := 512

  /** The magic "P3" and the parameter block's signature "DX", as bytes. */
  const P3Magic: seq<byte> := [0x50, 0x33]
  const DXMagic: seq<byte> := [0x44, 0x58]

  // ---------------------------------------------------------------------
  // Reading the ELF file

  /** Any relocation section with entries makes the input unusable; otherwise
      nothing happens. */
  function CheckRelocation(ss: seq<Section>): (r: Result<()>)
    ensures r.Err? <==> exists s :: s in ss && HasRelocations(s)
    ensures r.Err? ==> r.error == Relocations
  {
    if ss == [] then Ok(())
    else if HasRelocations(ss[0]) then Err(Relocations)
    else CheckRelocation(ss[1..])
  }

  /** `min(sh_addr)` over a non-empty list of sections. */
  function MinAddr(ss: seq<Section>): (m: nat)
    requires ss != []
    ensures forall s :: s in ss ==> m <= s.addr
    ensures exists s :: s in ss && s.addr == m
  {
    if |ss| == 1 then ss[0].addr
    else
      var m' := MinAddr(ss[1..]);
      if ss[0].addr <= m' then ss[0].addr else m'
  }

  /** `max(sh_addr + sh_size)` over a non-empty list of sections. */
  function MaxEnd(ss: seq<Section>): (m: nat)
    requires ss != []
    ensures forall s :: s in ss ==> s.addr + s.size <= m
    ensures exists s :: s in ss && s.addr + s.size == m
  {
    if |ss| == 1 then ss[0].addr + ss[0].size
    else
      var m' := MaxEnd(ss[1..]);
      if ss[0].addr + ss[0].size >= m' then ss[0].addr + ss[0].size else m'
  }

  /** The range `[base, end)` is the tightest one holding every allocatable
      section; with no allocatable section it is `[0, 0)`. */
  function GetAddrs(elf: ElfFile): (r: ElfAddress)
    ensures r.entry == elf.entry
    ensures r.base <= r.end
    ensures (forall s :: s in elf.sections ==> !IsAlloc(s)) ==> r.base == 0 && r.end == 0
    ensures forall s :: s in elf.sections && IsAlloc(s) ==> r.base <= s.addr && s.addr + s.size <= r.end
    ensures (exists s :: s in elf.sections && IsAlloc(s)) ==>
      (exists s :: s in elf.sections && IsAlloc(s) && s.addr == r.base) &&
      (exists s :: s in elf.sections && IsAlloc(s) && s.addr + s.size == r.end)
  {
    var alloc := AllocSections(elf.sections);
    if |alloc| == 0 then ElfAddress(0, 0, elf.entry)
    else
      var r := ElfAddress(MinAddr(alloc), MaxEnd(alloc), elf.entry);
      assert alloc[0] in alloc;
      r
  }

  // ---------------------------------------------------------------------
  // Layout arithmetic

  /** `(x // -u) * -u`: for positive `u` the least multiple of `u` at or
      above `x`, for negative `u` the greatest multiple of `u` at or below. */
  function Align(x: int, u: int): (r: int)
    requires u != 0
    ensures r % u == 0
    ensures u > 0 ==> x <= r < x + u
    ensures u < 0 ==> x + u < r <= x
  {
    var r := FloorDiv(x, -u) * -u;
    assert r == (-FloorDiv(x, -u)) * u;
    MultipleHasNoRemainder(-FloorDiv(x, -u), u);
    r
  }

  /** No multiple of `u` at or above `x` is below `Align(x, u)`; so an already
      aligned `x` is returned unchanged. */
  lemma AlignIsLeast(x: int, u: int, m: int)
    requires u > 0 && m % u == 0 && x <= m
    ensures Align(x, u) <= m
    ensures x % u == 0 ==> Align(x, u) == x
  {
    AlignBelowMultiple(x, u, m);
    if x % u == 0 {
      AlignBelowMultiple(x, u, x);
    }
  }

  lemma AlignBelowMultiple(x: int, u: int, m: int)
    requires u > 0 && m % u == 0 && x <= m
    ensures Align(x, u) <= m
  {
    var r := Align(x, u);
    var a, b := m / u, r / u;
    assert m == a * u && r == b * u;
    if b > a {
      MulMonotone(a, b - 1, u);
    }
  }

  /** The initial stack pointer: the stack top rounded up to 4 bytes. */
  function InitialEsp(addrs: ElfAddress, opts: LinkerOptions): (r: int)
    ensures r % 4 == 0
    ensures addrs.end + opts.stack <= r < addrs.end + opts.stack + 4
  {
    Align(addrs.end + opts.stack, 4)
  }

  /** The "minimum alloc" field: memory needed above the loaded image. */
  function MinAlloc(image: seq<byte>, addrs: ElfAddress, opts: LinkerOptions): (r: int)
    ensures (addrs.base + |image| + r) % 4 == 0
    ensures addrs.end + opts.stack <= addrs.base + |image| + r < addrs.end + opts.stack + 4
  {
    InitialEsp(addrs, opts) - addrs.base - |image|
  }

  // ---------------------------------------------------------------------
  // The encoding

  /** The header fields in the order the encoder writes them (`hdr_word`,
      `hdr_dword`); the checksum word at 0x0a is written last, elsewhere. */
  function HeaderFields(fileSize: int, imageSize: int, minAlloc: int, base: int, esp: int, entry: int): (fs: seq<Field>)
    requires IsU32(fileSize) && IsU32(imageSize) && IsU32(minAlloc)
    requires IsU32(base) && IsU32(esp) && IsU32(entry)
    ensures Fits(fs, HeaderSize) && Ascending(fs)
  {
    [ Str(0x00, P3Magic),
      Word(0x02, 1),               // flat model
      Word(0x04, HeaderSize),
      Dword(0x06, fileSize),
      Dword(0x0c, HeaderSize),     // parameter block offset
      Dword(0x10, ParamSize),      // parameter block size
      Dword(0x14, ImageOffset),    // relocation table offset
      Dword(0x18, 0),              // relocation table size
      Dword(0x26, ImageOffset),    // load image offset
      Dword(0x2a, imageSize),      // load image size
      Dword(0x56, minAlloc),       // minimum alloc
      Dword(0x5a, 0xffff_ffff),    // maximum alloc
      Dword(0x5e, base),           // offset
      Dword(0x62, esp),            // ESP
      Dword(0x68, entry),          // EIP
      Dword(0x74, imageSize) ]     // size of loaded image
  }

  /** The 384-byte header with every field but the checksum written. */
  function ExpHeader(fileSize: int, imageSize: int, minAlloc: int, base: int, esp: int, entry: int): (h: seq<byte>)
    requires IsU32(fileSize) && IsU32(imageSize) && IsU32(minAlloc)
    requires IsU32(base) && IsU32(esp) && IsU32(entry)
    ensures |h| == HeaderSize
  {
    Fill(Zeros(HeaderSize), HeaderFields(fileSize, imageSize, minAlloc, base, esp, entry))
  }

  /** The header bytes the encoder writes: every field, plus the checksum
      slot 0x0a-0x0b that is filled last. */
  predicate InHeaderField(i: int)
  {
    || 0x00 <= i < 0x1c
    || 0x26 <= i < 0x2e
    || 0x56 <= i < 0x66
    || 0x68 <= i < 0x6c
    || 0x74 <= i < 0x78
  }

  /** The signature, the model and the header and file sizes read back. */
  lemma HeaderSizeFields(fileSize: int, imageSize: int, minAlloc: int, base: int, esp: int, entry: int)
    requires IsU32(fileSize) && IsU32(imageSize) && IsU32(minAlloc)
    requires IsU32(base) && IsU32(esp) && IsU32(entry)
    ensures var h := ExpHeader(fileSize, imageSize, minAlloc, base, esp, entry);
      && h[..2] == P3Magic && U16At(h, 0x02) == 1 && U16At(h, 0x04) == HeaderSize
      && U32At(h, 0x06) == fileSize
  {
    var z := Zeros(HeaderSize);
    var fs := HeaderFields(fileSize, imageSize, minAlloc, base, esp, entry);
    FillSlice(z, fs, 0);
    FillWord(z, fs, 1);
    FillWord(z, fs, 2);
    FillDword(z, fs, 3);
  }

  /** The parameter block, relocation table and load image are located as
      written. */
  lemma HeaderLocationFields(fileSize: int, imageSize: int, minAlloc: int, base: int, esp: int, entry: int)
    requires IsU32(fileSize) && IsU32(imageSize) && IsU32(minAlloc)
    requires IsU32(base) && IsU32(esp) && IsU32(entry)
    ensures var h := ExpHeader(fileSize, imageSize, minAlloc, base, esp, entry);
      && U32At(h, 0x0c) == HeaderSize && U32At(h, 0x10) == ParamSize
      && U32At(h, 0x14) == ImageOffset && U32At(h, 0x18) == 0
      && U32At(h, 0x26) == ImageOffset && U32At(h, 0x2a) == imageSize
  {
    var z := Zeros(HeaderSize);
    var fs := HeaderFields(fileSize, imageSize, minAlloc, base, esp, entry);
    FillDword(z, fs, 4);
    FillDword(z, fs, 5);
    FillDword(z, fs, 6);
    FillDword(z, fs, 7);
    FillDword(z, fs, 8);
    FillDword(z, fs, 9);
  }

  /** The memory fields read back: allocation bounds, load offset, ESP, EIP
      and loaded size. */
  lemma HeaderMemoryFields(fileSize: int, imageSize: int, minAlloc: int, base: int, esp: int, entry: int)
    requires IsU32(fileSize) && IsU32(imageSize) && IsU32(minAlloc)
    requires IsU32(base) && IsU32(esp) && IsU32(entry)
    ensures var h := ExpHeader(fileSize, imageSize, minAlloc, base, esp, entry);
      && U32At(h, 0x56) == minAlloc && U32At(h, 0x5a) == 0xffff_ffff
      && U32At(h, 0x5e) == base && U32At(h, 0x62) == esp
      && U32At(h, 0x68) == entry && U32At(h, 0x74) == imageSize
  {
    var z := Zeros(HeaderSize);
    var fs := HeaderFields(fileSize, imageSize, minAlloc, base, esp, entry);
    FillDword(z, fs, 10);
    FillDword(z, fs, 11);
    FillDword(z, fs, 12);
    FillDword(z, fs, 13);
    FillDword(z, fs, 14);
    FillDword(z, fs, 15);
  }

  /** The bytes no field covers, the checksum slot among them, are zero. */
  lemma ExpHeaderGaps(fileSize: int, imageSize: int, minAlloc: int, base: int, esp: int, entry: int, i: nat)
    requires IsU32(fileSize) && IsU32(imageSize) && IsU32(minAlloc)
    requires IsU32(base) && IsU32(esp) && IsU32(entry)
    requires i < HeaderSize && (!InHeaderField(i) || 0x0a <= i < 0x0c)
    ensures ExpHeader(fileSize, imageSize, minAlloc, base, esp, entry)[i] == 0
  {
    var fs := HeaderFields(fileSize, imageSize, minAlloc, base, esp, entry);
    FillOutside(Zeros(HeaderSize), fs, i);
  }

  /** The fixed parameter values in the order the encoder writes them
      (`param_word`, `param_dword`). */
  const ParamFields: seq<Field> :=
    [ Str(0x00, DXMagic),
      Word(0x02, 0),      // minreal (paragraphs)
      Word(0x04, 0),      // maxreal (paragraphs)
      Word(0x06, 0x01),   // minibuf (kilobytes)
      Word(0x08, 0x40),   // maxibuf (kilobytes)
      Word(0x0a, 0x06),   // nistack
      Word(0x0c, 0x01),   // istksize (kilobytes)
      Dword(0x0e, 0),     // realbreak
      Word(0x12, 0),      // callbufs (kilobytes)
      Word(0x14, 0),      // flags
      Word(0x16, 0) ]     // privileged

  /** The 128-byte parameter block: the signature "DX" and fixed tuning
      values that do not depend on the input. */
  function ParamBlock(): (p: seq<byte>)
    ensures |p| == ParamSize
  {
    Fill(Zeros(ParamSize), ParamFields)
  }

  /** The parameter block holds "DX" and the encoder's real-mode and
      buffer sizes. */
  lemma ParamBlockBuffers()
    ensures var p := ParamBlock();
      && p[..2] == DXMagic
      && U16At(p, 0x02) == 0 && U16At(p, 0x04) == 0
      && U16At(p, 0x06) == 0x01 && U16At(p, 0x08) == 0x40
  {
    var z, fs := Zeros(ParamSize), ParamFields;
    assert Fits(fs, ParamSize) && Ascending(fs);
    FillSlice(z, fs, 0);
    FillWord(z, fs, 1);
    FillWord(z, fs, 2);
    FillWord(z, fs, 3);
    FillWord(z, fs, 4);
  }

  /** ... and its interrupt stack, break, call buffer and privilege values. */
  lemma ParamBlockStacks()
    ensures var p := ParamBlock();
      && U16At(p, 0x0a) == 0x06 && U16At(p, 0x0c) == 0x01
      && U32At(p, 0x0e) == 0
      && U16At(p, 0x12) == 0 && U16At(p, 0x14) == 0 && U16At(p, 0x16) == 0
  {
    var z, fs := Zeros(ParamSize), ParamFields;
    assert Fits(fs, ParamSize) && Ascending(fs);
    FillWord(z, fs, 5);
    FillWord(z, fs, 6);
    FillDword(z, fs, 7);
    FillWord(z, fs, 8);
    FillWord(z, fs, 9);
    FillWord(z, fs, 10);
  }

  /** The rest of the parameter block, from 0x18 on, is never written and
      stays zero. */
  lemma ParamBlockGaps(i: nat)
    requires 0x18 <= i < ParamSize
    ensures ParamBlock()[i] == 0
  {
    FillOutside(Zeros(ParamSize), ParamFields, i);
  }

  /** The value that brings the word sum of `e` to 0xFFFF once it is stored
      into a zeroed word of `e`. */
  function Checksum(e: seq<byte>): (c: int)
    ensures 0 <= c < 0x1_0000
  {
    0xffff - WordSum(e) % 0x1_0000
  }

  /** Every value the encoder packs into a 32-bit field fits. */
  predicate Packable(image: seq<byte>, addrs: ElfAddress, opts: LinkerOptions)
    ensures Packable(image, addrs, opts) ==>
      && |image| <= 0xffff_ffff - ImageOffset
      && 0 <= addrs.base && addrs.end + opts.stack <= 0xffff_fffc
      && addrs.base + |image| <= InitialEsp(addrs, opts)
  {
    && IsU32(HeaderSize + ParamSize + |image|)
    && IsU32(MinAlloc(image, addrs, opts))
    && IsU32(addrs.base)
    && IsU32(InitialEsp(addrs, opts))
    && IsU32(addrs.entry)
  }

  /** The header the encoder writes for `image`. */
  function Header(image: seq<byte>, addrs: ElfAddress, opts: LinkerOptions): (h: seq<byte>)
    requires Packable(image, addrs, opts)
    ensures |h| == HeaderSize
  {
    ExpHeader(HeaderSize + ParamSize + |image|, |image|, MinAlloc(image, addrs, opts),
              addrs.base, InitialEsp(addrs, opts), addrs.entry)
  }

  /** Header, parameter block and image, with the checksum slot still zero. */
  function Unsummed(image: seq<byte>, addrs: ElfAddress, opts: LinkerOptions): (e: seq<byte>)
    requires Packable(image, addrs, opts)
    ensures |e| == ImageOffset + |image|
    ensures e[..HeaderSize] == Header(image, addrs, opts)
    ensures e[HeaderSize..ImageOffset] == ParamBlock()
    ensures e[ImageOffset..] == image
  {
    Header(image, addrs, opts) + ParamBlock() + image
  }

  /** The EXP file for `image`, or the first field whose value `struct`
      refuses to pack. */
  function ExpFile(image: seq<byte>, addrs: ElfAddress, opts: LinkerOptions): (r: Result<seq<byte>>)
    ensures r.Ok? <==> Packable(image, addrs, opts)
    ensures r.Ok? ==> |r.value| == ImageOffset + |image|
  {
    if !IsU32(HeaderSize + ParamSize + |image|) then Err(PackRange(0x06))
    else if !IsU32(MinAlloc(image, addrs, opts)) then Err(PackRange(0x56))
    else if !IsU32(addrs.base) then Err(PackRange(0x5e))
    else if !IsU32(InitialEsp(addrs, opts)) then Err(PackRange(0x62))
    else if !IsU32(addrs.entry) then Err(PackRange(0x68))
    else
      var e := Unsummed(image, addrs, opts);
      Ok(Poke(e, 0x0a, LE16(Checksum(e))))
  }

  // ---------------------------------------------------------------------
  // What the encoder promises about the file

  /** The file is the header, the parameter block and the image, with the
      checksum in the word at 0x0a. */
  lemma ExpFileParts(image: seq<byte>, addrs: ElfAddress, opts: LinkerOptions)
    requires Packable(image, addrs, opts)
    ensures var out, h := ExpFile(image, addrs, opts).value, Header(image, addrs, opts);
      && (forall i :: 0 <= i < HeaderSize && !(0x0a <= i < 0x0c) ==> out[i] == h[i])
      && out[HeaderSize..ImageOffset] == ParamBlock()
      && out[ImageOffset..] == image
      && U16At(out, 0x0a) == Checksum(Unsummed(image, addrs, opts))
  {
  }

  /** The signature, the sizes and the locations of the parameter block,
      relocation table and load image come out as the format lays them down:
      the file size is the length of the file, the image follows the
      parameter block and is the file's tail. */
  lemma ExpFileLayout(image: seq<byte>, addrs: ElfAddress, opts: LinkerOptions)
    requires Packable(image, addrs, opts)
    ensures var out := ExpFile(image, addrs, opts).value;
      && |out| == ImageOffset + |image|
      && out[..2] == P3Magic && U16At(out, 0x02) == 1 && U16At(out, 0x04) == HeaderSize
      && U32At(out, 0x06) == |out|
      && U32At(out, 0x0c) == HeaderSize && U32At(out, 0x10) == ParamSize
      && out[U32At(out, 0x0c)..U32At(out, 0x0c) + U32At(out, 0x10)] == ParamBlock()
      && U32At(out, 0x14) == ImageOffset && U32At(out, 0x18) == 0
      && U32At(out, 0x26) == ImageOffset && U32At(out, 0x2a) == |image|
      && U32At(out, 0x74) == |image|
      && out[U32At(out, 0x26)..] == image
  {
    var h := Header(image, addrs, opts);
    ExpFileParts(image, addrs, opts);
    HeaderSizeFields(HeaderSize + ParamSize + |image|, |image|, MinAlloc(image, addrs, opts),
                     addrs.base, InitialEsp(addrs, opts), addrs.entry);
    HeaderLocationFields(HeaderSize + ParamSize + |image|, |image|, MinAlloc(image, addrs, opts),
                         addrs.base, InitialEsp(addrs, opts), addrs.entry);
    HeaderMemoryFields(HeaderSize + ParamSize + |image|, |image|, MinAlloc(image, addrs, opts),
                       addrs.base, InitialEsp(addrs, opts), addrs.entry);
  }

  /** The memory fields: the load offset and EIP come from the ELF file, ESP
      is the stack top rounded up to a multiple of 4, and the minimum alloc
      is the memory from the end of the loaded image up to ESP, and the
      loaded size is the image's. */
  lemma ExpFileMemory(image: seq<byte>, addrs: ElfAddress, opts: LinkerOptions)
    requires Packable(image, addrs, opts)
    ensures var out := ExpFile(image, addrs, opts).value;
      && U32At(out, 0x5e) == addrs.base
      && U32At(out, 0x68) == addrs.entry
      && U32At(out, 0x62) % 4 == 0
      && addrs.end + opts.stack <= U32At(out, 0x62) < addrs.end + opts.stack + 4
      && U32At(out, 0x56) == U32At(out, 0x62) - addrs.base - |image|
      && U32At(out, 0x5a) == 0xffff_ffff
      && U32At(out, 0x74) == |image|
  {
    ExpFileParts(image, addrs, opts);
    HeaderMemoryFields(HeaderSize + ParamSize + |image|, |image|, MinAlloc(image, addrs, opts),
                       addrs.base, InitialEsp(addrs, opts), addrs.entry);
  }

  /** The header bytes no field covers are zero. */
  lemma ExpFileGaps(image: seq<byte>, addrs: ElfAddress, opts: LinkerOptions, i: nat)
    requires Packable(image, addrs, opts)
    requires i < HeaderSize && !InHeaderField(i)
    ensures ExpFile(image, addrs, opts).value[i] == 0
  {
    ExpFileParts(image, addrs, opts);
    ExpHeaderGaps(HeaderSize + ParamSize + |image|, |image|, MinAlloc(image, addrs, opts),
                  addrs.base, InitialEsp(addrs, opts), addrs.entry, i);
  }

  /** The parameter block bytes from 0x18 on are zero in the file. */
  lemma ExpFileParamGaps(image: seq<byte>, addrs: ElfAddress, opts: LinkerOptions, i: nat)
    requires Packable(image, addrs, opts)
    requires 0x18 <= i < ParamSize
    ensures ExpFile(image, addrs, opts).value[HeaderSize + i] == 0
  {
    var out := ExpFile(image, addrs, opts).value;
    ExpFileParts(image, addrs, opts);
    ParamBlockGaps(i);
    assert out[HeaderSize + i] == out[HeaderSize..ImageOffset][i];
  }

  /** The 16-bit words of the file add up to 0xFFFF modulo 0x10000, and the
      stored checksum is what `Checksum` computes from the file with the
      checksum word zeroed again. */
  lemma ExpFileChecksum(image: seq<byte>, addrs: ElfAddress, opts: LinkerOptions)
    requires Packable(image, addrs, opts)
    ensures var out := ExpFile(image, addrs, opts).value;
      && WordSum(out) % 0x1_0000 == 0xffff
      && U16At(out, 0x0a) == Checksum(Poke(out, 0x0a, [0, 0]))
  {
    var e := Unsummed(image, addrs, opts);
    var h := Header(image, addrs, opts);
    var c := Checksum(e);
    var out := Poke(e, 0x0a, LE16(c));
    ExpHeaderGaps(HeaderSize + ParamSize + |image|, |image|, MinAlloc(image, addrs, opts),
                  addrs.base, InitialEsp(addrs, opts), addrs.entry, 0x0a);
    ExpHeaderGaps(HeaderSize + ParamSize + |image|, |image|, MinAlloc(image, addrs, opts),
                  addrs.base, InitialEsp(addrs, opts), addrs.entry, 0x0b);
    assert e[0x0a] == h[0x0a] && e[0x0b] == h[0x0b];
    WordSumAfterPoke(e, 0x0a, c);
    PokeU16(e, 0x0a, c);
    PokeAt(e, 0x0a, LE16(c));
    PokeAt(out, 0x0a, [0, 0]);
    assert Poke(out, 0x0a, [0, 0]) == e;
  }

  /** The range checks of `struct`, in the order the fields are packed: the
      file size first, then the minimum alloc (negative when ESP lies below
      the end of the image), the load offset, ESP and EIP. */
  lemma ExpFileErrors(image: seq<byte>, addrs: ElfAddress, opts: LinkerOptions)
    ensures !IsU32(ImageOffset + |image|) ==> ExpFile(image, addrs, opts) == Err(PackRange(0x06))
    ensures IsU32(ImageOffset + |image|) && MinAlloc(image, addrs, opts) < 0 ==>
      ExpFile(image, addrs, opts) == Err(PackRange(0x56))
    ensures ExpFile(image, addrs, opts).Err? ==>
      ExpFile(image, addrs, opts).error in {PackRange(0x06), PackRange(0x56), PackRange(0x5e), PackRange(0x62), PackRange(0x68)}
  {
  }

  /** Writes the header fields into a zeroed header buffer, in the order the
      encoder writes them. */
  method FillHeader(h: array<byte>, fileSize: int, imageSize: int, minAlloc: int, base: int, esp: int, entry: int)
    requires h.Length == HeaderSize && h[..] == Zeros(HeaderSize)
    requires IsU32(fileSize) && IsU32(imageSize) && IsU32(minAlloc)
    requires IsU32(base) && IsU32(esp) && IsU32(entry)
    modifies h
    ensures h[..] == ExpHeader(fileSize, imageSize, minAlloc, base, esp, entry)
  {
    ghost var rest := HeaderFields(fileSize, imageSize, minAlloc, base, esp, entry);
    rest := Store(h, rest, Str(0x00, P3Magic));
    rest := Store(h, rest, Word(0x02, 1));
    rest := Store(h, rest, Word(0x04, h.Length));
    rest := Store(h, rest, Dword(0x06, fileSize));
    rest := Store(h, rest, Dword(0x0c, h.Length));
    rest := Store(h, rest, Dword(0x10, ParamSize));
    rest := Store(h, rest, Dword(0x14, h.Length + ParamSize));
    rest := Store(h, rest, Dword(0x18, 0));
    rest := Store(h, rest, Dword(0x26, h.Length + ParamSize));
    rest := Store(h, rest, Dword(0x2a, imageSize));
    rest := Store(h, rest, Dword(0x56, minAlloc));
    rest := Store(h, rest, Dword(0x5a, 0xffff_ffff));
    rest := Store(h, rest, Dword(0x5e, base));
    rest := Store(h, rest, Dword(0x62, esp));
    rest := Store(h, rest, Dword(0x68, entry));
    rest := Store(h, rest, Dword(0x74, imageSize));
    assert rest == [];
  }

  /** Writes the fixed parameter values into a zeroed parameter buffer. */
  method FillParams(p: array<byte>)
    requires p.Length == ParamSize && p[..] == Zeros(ParamSize)
    modifies p
    ensures p[..] == ParamBlock()
  {
    ghost var rest := ParamFields;
    rest := Store(p, rest, Str(0x00, DXMagic));
    rest := Store(p, rest, Word(0x02, 0));
    rest := Store(p, rest, Word(0x04, 0));
    rest := Store(p, rest, Word(0x06, 0x01));
    rest := Store(p, rest, Word(0x08, 0x40));
    rest := Store(p, rest, Word(0x0a, 0x06));
    rest := Store(p, rest, Word(0x0c, 0x01));
    rest := Store(p, rest, Dword(0x0e, 0));
    rest := Store(p, rest, Word(0x12, 0));
    rest := Store(p, rest, Word(0x14, 0));
    rest := Store(p, rest, Word(0x16, 0));
    assert rest == [];
  }

  /** Builds the file as the encoder does: fills zeroed header and parameter
      buffers in place, concatenates them with the image and patches the
      checksum into the result. A field value that `struct` cannot pack
      stops the encoder before anything is returned, so the range checks are
      made, in the encoder's order, before the buffers are filled. */
  method MakeExpImage(image: seq<byte>, addrs: ElfAddress, opts: LinkerOptions) returns (r: Result<seq<byte>>)
    ensures r == ExpFile(image, addrs, opts)
  {
    var h := new byte[HeaderSize](_ => 0);
    var p := new byte[ParamSize](_ => 0);
    assert h[..] == Zeros(HeaderSize) && p[..] == Zeros(ParamSize);

    var initialEsp := InitialEsp(addrs, opts);
    var fileSize := h.Length + p.Length + |image|;
    var minAlloc := MinAlloc(image, addrs, opts);
    if !IsU32(fileSize) {
      return Err(PackRange(0x06));
    } else if !IsU32(minAlloc) {
      return Err(PackRange(0x56));
    } else if !IsU32(addrs.base) {
      return Err(PackRange(0x5e));
    } else if !IsU32(initialEsp) {
      return Err(PackRange(0x62));
    } else if !IsU32(addrs.entry) {
      return Err(PackRange(0x68));
    }
    FillHeader(h, fileSize, |image|, minAlloc, addrs.base, initialEsp, addrs.entry);
    FillParams(p);
    ExpHeaderGaps(fileSize, |image|, minAlloc, addrs.base, initialEsp, addrs.entry, 0x0a);
    ExpHeaderGaps(fileSize, |image|, minAlloc, addrs.base, initialEsp, addrs.entry, 0x0b);

    var out := StoreChecksum(h[..] + p[..] + image);
    return Ok(out);
  }

  /** `exp = h + p + image` and the checksum store into it: the word sum is
      taken while the checksum slot is still zero. */
  method StoreChecksum(e: seq<byte>) returns (out: seq<byte>)
    requires |e| >= HeaderSize && e[0x0a] == 0 && e[0x0b] == 0
    ensures |out| == |e|
    ensures out[..0x0a] == e[..0x0a] && out[0x0c..] == e[0x0c..]
    ensures U16At(out, 0x0a) == Checksum(e)
    ensures WordSum(out) % 0x1_0000 == 0xffff
    ensures out == Poke(e, 0x0a, LE16(Checksum(e)))
  {
    var exp := new byte[|e|](i requires 0 <= i < |e| => e[i]);
    assert exp[..] == e;
    var csum := 0xffff - WordSum(exp[..]) % 0x1_0000;
    PackWord(exp, 0x0a, csum);
    out := exp[..];
    PokeAt(e, 0x0a, LE16(csum));
    PokeU16(e, 0x0a, csum);
    WordSumAfterPoke(e, 0x0a, csum);
  }

  /** The whole conversion once the image is extracted: relocations are
      checked first, and an input with relocations yields no file. */
  function Convert(elf: ElfFile, image: seq<byte>, opts: LinkerOptions): (r: Result<seq<byte>>)
    ensures (exists s :: s in elf.sections && HasRelocations(s)) ==> r == Err(Relocations)
    ensures (forall s :: s in elf.sections ==> !HasRelocations(s)) ==> r == ExpFile(image, GetAddrs(elf), opts)
  {
    match CheckRelocation(elf.sections)
    case Err(e) => Err(e)
    case Ok(_) => ExpFile(image, GetAddrs(elf), opts)
  }

  /** One program section at 0x1000 of 0x200 bytes beside a section that
      is not loaded, entry 0x1000 and a 4 KiB stack: the range is
      0x1000-0x1200, ESP is 0x2200 and 0x1000 bytes are needed above a
      0x200-byte image. */
  lemma ScenarioLayout(image: seq<byte>)
    requires |image| == 0x200
    ensures var elf := ElfFile(0x1000, [Section(Other, 0x6, 0x1000, 0x200), Section(Other, 0x30, 0, 0x44)]);
      var addrs, opts := GetAddrs(elf), LinkerOptions(4096);
      && addrs == ElfAddress(0x1000, 0x1200, 0x1000)
      && InitialEsp(addrs, opts) == 0x2200
      && MinAlloc(image, addrs, opts) == 0x1000
  {
  }

  /** ... and the file for that layout carries the entry, the load offset,
      the image size, ESP and the minimum alloc. */
  lemma ScenarioFile(image: seq<byte>)
    requires |image| == 0x200
    ensures var addrs, opts := ElfAddress(0x1000, 0x1200, 0x1000), LinkerOptions(4096);
      && ExpFile(image, addrs, opts).Ok?
      && var out := ExpFile(image, addrs, opts).value;
      && U32At(out, 0x62) == 0x2200
      && U32At(out, 0x68) == 0x1000
      && U32At(out, 0x5e) == 0x1000
      && U32At(out, 0x74) == 0x200
      && U32At(out, 0x56) == 0x1000
  {
    var addrs, opts := ElfAddress(0x1000, 0x1200, 0x1000), LinkerOptions(4096);
    AlignIsLeast(0x2200, 4, 0x2200);
    assert Packable(image, addrs, opts);
    ExpFileMemory(image, addrs, opts);
  }
}
