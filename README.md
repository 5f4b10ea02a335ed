# elf2exp in Dafny

A model of the header encoders of `elf2exp`. The tool turns a statically
linked 32-bit ELF executable into an `.EXP` file for a protected-mode DOS
extender. There are two encoders:

- **P3** (`src/elf2exp.py`), the current encoder. It first refuses an input
  that still has relocations. It then takes the address range of the
  allocatable sections, rounds the initial stack pointer up to 4 bytes, and
  writes a 384-byte "P3" header, a 128-byte "DX" parameter block and the
  image. Finally it stores a 16-bit word-sum checksum at offset 0x0a.
- **MP** (`elf2exp.py`), the legacy encoder. It sums the relocation counts
  and folds the allocatable sections into a `(base, size)` pair starting
  from `(0xffffffff, 0)`. It requires the base to be 0 and strips the
  image's trailing zero bytes. It then writes a 32-byte "MP" header with
  page counts and a stack top rounded up to 4 KiB. Last it stores two XOR
  check bytes at 0x12 (the even bytes) and 0x13 (the odd bytes).

The modules:

- `Outcome`: the errors (relocations present, base not zero, a value
  `struct` cannot pack at a given offset) and `Result`.
- `PyInt`: Python's floor division and the ranges of `<H` and `<L`.
- `Bytes`: bytes, zero buffers, little-endian packing and reading, the word
  sum and the XOR folds, and the in-place store into a buffer.
- `Elf`: the section records the encoders read.
- `Layout`: a record written as an ordered list of fields (string, word,
  double word at an offset). `Fill` is the pure meaning of that list. The
  method `Store` packs one field into an array, as `struct.pack_into` or a
  slice assignment does.
- `P3Exp` and `MpExp`: the two encoders.

Each encoder has a pure definition of its output (`ExpFile`, `MpImage`) and
the lemmas about it. Each also has a method that fills mutable buffers the
way the script does and is proved equal to that definition (`MakeExpImage`,
`BuildMpImage`).

Python's `struct` raises an error when a value does not fit its field. This
is modelled as `Err(PackRange(offset))` for the first field, in the
script's write order, whose value is out of range. The script raises before
it returns or writes anything. So the methods make the same range checks,
in the same order, before they fill the buffers.

The code has no error of its own for a stack that overflows: a stack top
beyond 32 bits is the `struct` error of the first field that holds it. The
stack size is any integer, as the command line accepts it. A negative one
can make the minimum alloc negative, which is the `struct` error at 0x56.
The legacy encoder is modelled as well, since its script is still part of
the repository.

## Model

| member | source | states |
|---|---|---|
| Elf.AllocSections | src/elf2exp.py:36 | the result holds exactly the sections whose flags have `SHF_ALLOC` set |
| P3Exp.CheckRelocation | src/elf2exp.py:27-30 | fails, with the relocation error, exactly when some relocation section has at least one entry |
| P3Exp.MinAddr | src/elf2exp.py:41 | the returned address is at most every section's address and is the address of one of them |
| P3Exp.MaxEnd | src/elf2exp.py:42 | the returned end is at least every section's end and is the end of one of them |
| P3Exp.GetAddrs | src/elf2exp.py:33-44 | the entry is copied. With no allocatable section the range is `[0, 0)`. Otherwise it is the tightest range holding every allocatable section, and both bounds are attained |
| PyInt.FloorDiv | src/elf2exp.py:54 | Python's `//`: the quotient rounded toward negative infinity, for either sign of the divisor |
| P3Exp.Align | src/elf2exp.py:53-54 | `(x // -u) * -u` is a multiple of `u`. For `u > 0` it lies in `[x, x + u)`, for `u < 0` in `(x + u, x]` |
| P3Exp.AlignIsLeast | src/elf2exp.py:53-54 | no multiple of `u` at or above `x` lies below `Align(x, u)`. An aligned `x` is returned unchanged |
| P3Exp.InitialEsp | src/elf2exp.py:67 | the initial ESP is a multiple of 4 in `[end + stack, end + stack + 4)` |
| P3Exp.MinAlloc | src/elf2exp.py:83 | the minimum alloc, added to the image's end in memory (`base + len(image)`), reaches the initial ESP: a multiple of 4 in `[end + stack, end + stack + 4)` |
| P3Exp.Unsummed | src/elf2exp.py:110 | the file before its checksum is the 384-byte header, then the 128-byte parameter block, then the image |
| P3Exp.ExpHeader | src/elf2exp.py:58-90 | `h` after every header store: 384 bytes, `len(h)`; its contents are stated by the `HeaderSizeFields`, `HeaderLocationFields`, `HeaderMemoryFields` and `ExpHeaderGaps` lemmas |
| P3Exp.Header | src/elf2exp.py:67-90 | the header of a packable input, with the minimum alloc and ESP computed from the address range and stack size, is 384 bytes |
| P3Exp.ParamBlock | src/elf2exp.py:59-108 | `p` after every parameter store: 128 bytes, `len(p)`; its contents are stated by the `ParamBlockBuffers`, `ParamBlockStacks` and `ParamBlockGaps` lemmas |
| P3Exp.HeaderFields | src/elf2exp.py:69-90 | the header fields in write order lie inside the 384-byte header, can be packed, and do not overlap |
| P3Exp.HeaderSizeFields | src/elf2exp.py:69-72 | the header reads back "P3", the flat-model word 1, the header size and the file size |
| P3Exp.HeaderLocationFields | src/elf2exp.py:74-81 | the header reads back the parameter block's offset and size, the empty relocation table at 512, and the load image's offset and size |
| P3Exp.HeaderMemoryFields | src/elf2exp.py:83-90 | the header reads back minimum alloc, maximum alloc 0xFFFFFFFF, load offset, ESP, EIP and the loaded size |
| P3Exp.ExpHeaderGaps | src/elf2exp.py:58 | every header byte no field covers, and the checksum slot before it is filled, stays zero |
| P3Exp.ParamBlockBuffers | src/elf2exp.py:98-102 | the parameter block reads back "DX", minreal 0, maxreal 0, minibuf 1 and maxibuf 0x40 |
| P3Exp.ParamBlockStacks | src/elf2exp.py:103-108 | the parameter block reads back nistack 6, istksize 1, realbreak 0, callbufs 0, flags 0 and the privileged value 0 |
| P3Exp.Checksum | src/elf2exp.py:111 | `0xffff - sum % 0x10000` is a 16-bit value |
| Bytes.WordTerm | src/elf2exp.py:111 | one term `p[0] + p[1] * 256` of the sum: the little-endian word at `i`, or the final byte on its own when the length is odd (`zip_longest` pairs it with 0); below 0x10000 |
| Bytes.WordsFrom | src/elf2exp.py:111 | the sum of the words from byte `i` on is at least 0 and at most 0xFFFF for each word |
| Bytes.WordSum | src/elf2exp.py:111 | the `zip_longest` word sum of the whole buffer is at least 0 and at most 0xFFFF times the number of words |
| Bytes.WordSumPadded | src/elf2exp.py:111 | appending a zero byte does not change the word sum, so pairing an odd final byte with 0 sums as a buffer padded to even length |
| Bytes.Stride | elf2exp.py:67-68 | `exp[i::2]`: `ceil((len - i) / 2)` bytes when `i < len`, none otherwise, the `k`-th being byte `i + 2k` |
| Bytes.XorReduce | elf2exp.py:67-68 | `functools.reduce(xor, xs)` with no start value: on one element it is that element, on more it is the reduce of all but the last XORed with the last |
| Bytes.XorFoldSnoc | elf2exp.py:67-68 | the left fold `XorFold` of XOR from a start value, over a list with one more element at the end, XORs that element onto the fold of the list |
| Bytes.XorFromIsReduce | elf2exp.py:67-68 | `XorFrom(s, i)`, the XOR the check-byte lemmas use, equals `functools.reduce(xor, s[i::2])` with no start value, the stride's first byte being the start; the stride is never empty because the file has its 32-byte header |
| Bytes.WordSumAfterPoke | src/elf2exp.py:111-112 | storing a value into a zeroed, word-aligned word adds exactly that value to the sum of the 16-bit words |
| P3Exp.Packable | src/elf2exp.py:72-88 | true when the file size, minimum alloc, base, ESP and entry each fit 32 bits, and then the file is under 4 GiB, the base is not negative, end + stack is at most 0xFFFFFFFC and the loaded image ends at or below the initial ESP |
| P3Exp.ExpFile | src/elf2exp.py:57-113 | yields a file exactly when every packed value fits, and the file is 512 bytes longer than the image |
| P3Exp.ExpFileParts | src/elf2exp.py:110-112 | the file is the header (except the checksum word), then the parameter block, then the image, and the word at 0x0a is the checksum of the file with that word zero |
| P3Exp.ExpFileLayout | src/elf2exp.py:69-81 | the file size field equals the file's length. The parameter offset and size select the parameter block, the load image offset selects the image as the file's tail, and the image size fields equal its length |
| P3Exp.ExpFileMemory | src/elf2exp.py:67-90 | ESP is a multiple of 4 in `[end + stack, end + stack + 4)`. Minimum alloc is ESP minus base minus image length. Base, EIP, maximum alloc and loaded size are as written |
| P3Exp.ExpFileGaps | src/elf2exp.py:58-59 | every header byte outside the written fields is zero in the file |
| P3Exp.ParamBlockGaps | src/elf2exp.py:59 | the parameter block bytes from 0x18 to 0x7f, which no field writes, are zero |
| P3Exp.ExpFileParamGaps | src/elf2exp.py:98-110 | the parameter block bytes from 0x18 on are zero in the file |
| P3Exp.ExpFileChecksum | src/elf2exp.py:111-112 | the 16-bit words of the file sum to 0xFFFF modulo 0x10000, and the stored checksum is recomputed from the file with the checksum word zeroed |
| P3Exp.ExpFileErrors | src/elf2exp.py:72-88 | a file size beyond 32 bits fails at 0x06 first. Otherwise a negative minimum alloc fails at 0x56. Any failure is at one of 0x06, 0x56, 0x5e, 0x62, 0x68 |
| P3Exp.FillHeader | src/elf2exp.py:69-90 | the `hdr_word`/`hdr_dword` stores turn a zeroed 384-byte buffer into `ExpHeader` |
| P3Exp.FillParams | src/elf2exp.py:98-108 | the `param_word`/`param_dword` stores turn a zeroed 128-byte buffer into `ParamBlock` |
| P3Exp.StoreChecksum | src/elf2exp.py:110-112 | with the slot zero, storing the checksum leaves every other byte alone and makes the word sum 0xFFFF modulo 0x10000 |
| P3Exp.MakeExpImage | src/elf2exp.py:57-113 | the buffer-filling encoder returns exactly `ExpFile`, including its errors |
| P3Exp.Convert | src/elf2exp.py:125-132 | an input with relocations yields the relocation error. Otherwise the result is the file for the range `get_addrs` finds |
| P3Exp.ScenarioLayout | src/elf2exp.py:33-44 | one allocatable section at 0x1000 of 0x200 bytes and a 4 KiB stack give the range 0x1000–0x1200, ESP 0x2200 and minimum alloc 0x1000 |
| P3Exp.ScenarioFile | src/elf2exp.py:83-90 | the file for that range has ESP 0x2200, EIP 0x1000, load offset 0x1000, loaded size 0x200 and minimum alloc 0x1000 |
| Bytes.Zeros | src/elf2exp.py:58-59 | `bytearray(n)`: `n` bytes, every one zero |
| Bytes.Poke | src/elf2exp.py:61-65 | the buffer after `pack_into(fmt, s, n, ...)` or a slice assignment, with `b` written at offset `n`, keeps its length |
| Bytes.PokeAt | src/elf2exp.py:61-65 | every byte of a poked buffer: the written byte inside `[n, n + len(b))`, the former byte everywhere else |
| Layout.InRangeBounds | src/elf2exp.py:61-65 | a field can be packed exactly when a `<H` value lies in `[0, 0x10000)` and a `<L` value in `[0, 0x100000000)`; a byte string always packs. Outside these ranges `struct` raises its error |
| Layout.Packed | src/elf2exp.py:61-65 | the bytes `struct` produces for a field are as many as the field is wide |
| Layout.PackedReadsBack | src/elf2exp.py:61-65 | those bytes are the string itself, or read back, low byte first, as the packed word or double word |
| Layout.Fill | src/elf2exp.py:61-65 | storing fields into a buffer keeps its length |
| Layout.FillOutside | src/elf2exp.py:58-59 | a byte that no field covers keeps its value |
| Layout.FillInside | src/elf2exp.py:61-65 | in a list of fields that fit and ascend (each ends at or before the next one starts), a covered byte holds that field's byte; no later store overwrites it |
| Layout.FillWord | src/elf2exp.py:61-62 | a stored word reads back as its value |
| Layout.FillDword | src/elf2exp.py:64-65 | a stored double word reads back as its value |
| Layout.Store | src/elf2exp.py:61-65 | the array afterwards holds exactly the field's packed bytes at its offset and its former bytes everywhere else; storing the remaining fields from there gives what storing all of them from the former contents gives |
| Bytes.LE16 | src/elf2exp.py:61-62 | `struct.pack('<H', v)` for a value in 16 bits is two bytes; `LE16Value` states they read back, low byte first, as `v` |
| Bytes.LE32 | src/elf2exp.py:64-65 | `struct.pack('<L', v)` for a value in 32 bits is four bytes; `LE32Value` states they read back, low byte first, as `v` |
| Bytes.LE16Value | src/elf2exp.py:62 | `<H` packing reads back as the value |
| Bytes.LE32Value | src/elf2exp.py:65 | `<L` packing reads back as the value |
| Bytes.Splice | elf2exp.py:54-65 | a slice assignment writes exactly its bytes at the offset and leaves the rest of the buffer alone |
| Bytes.PackWord | src/elf2exp.py:112 | `struct.pack_into('<H', exp, n, v)`: the array afterwards is exactly the old one with the two bytes of `v` at `n` |
| MpExp.RelocationTotal | elf2exp.py:25-26 | the sum over relocation sections is 0 exactly when no relocation section has entries |
| MpExp.RelocationTotalAgrees | elf2exp.py:25-29 | the legacy relocation sum refuses exactly the inputs `check_relocation` refuses |
| MpExp.Fold | elf2exp.py:32-34 | the min/max fold only widens its start value. It covers every section, and each bound is either the start value or attained by a section |
| MpExp.FoldSize | elf2exp.py:32-34 | over a non-empty list the fold's upper bound is the larger of its start value and the largest section end |
| MpExp.FoldBase | elf2exp.py:32-34 | over a non-empty list the fold's lower bound is the smaller of its start value and the smallest section address |
| MpExp.FoldAgreesWithGetAddrs | elf2exp.py:31-34 | the fold's size is `get_addrs`' end, and its base is `get_addrs`' base capped at 0xFFFFFFFF (0xFFFFFFFF when no section is allocatable) |
| MpExp.BaseZeroNeedsSectionAtZero | elf2exp.py:36-37 | the base check passes exactly when an allocatable section starts at address 0 |
| MpExp.StripZeros | elf2exp.py:43 | the result is a prefix of the raw image. All bytes it drops are zero, and it does not end in a zero byte |
| MpExp.StripZerosIdempotent | elf2exp.py:43 | stripping twice strips nothing more |
| MpExp.CeilN | elf2exp.py:45-46 | `n + (m - n) % m` is the multiple of `m` in `[n, n + m)` |
| MpExp.CeilNIsAlign | elf2exp.py:45-46 | `ceil_n` and `align` round up to the same value |
| MpExp.CeilNOfMultiple | elf2exp.py:59 | rounding a multiple up again returns it unchanged |
| MpExp.StackPagesExact | elf2exp.py:59 | for a stack top that is a multiple of 4096, the stack page count times 4096 is the stack top |
| MpExp.Pages | elf2exp.py:56 | the page count is the least number of 512-byte pages holding the file |
| MpExp.StackPages | elf2exp.py:59 | the stack page count is the least number of 4 KiB pages reaching the stack top |
| MpExp.StackEnd | elf2exp.py:48 | the stack top is a multiple of 4096 in `[end + stack, end + stack + 4096)` |
| MpExp.Widen | elf2exp.py:33 | one step of the reduce: the new base is the lower of the old base and the section's address, the new end the higher of the old end and the section's end |
| MpExp.SectionExtent | elf2exp.py:31-34 | the base is at most 0xFFFFFFFF and the end at least 0; both bounds enclose every allocatable section; the base is 0xFFFFFFFF or some allocatable section's address, the end is 0 or some allocatable section's end. The end has no upper bound, as in the script |
| MpExp.MpFile | elf2exp.py:25-68 | the relocation error exactly when some relocation section has entries; the base error exactly when there are none and the lowest allocatable address is not 0; a file exactly when besides that every header value fits its field, and then the file starts with "MP", is 32 bytes longer than the image without its trailing zeros, and ends with that image |
| MpExp.MpUnsealed | elf2exp.py:52-65 | `exp` after the header stores and before the check bytes: the 32-byte header plus the image, its length; its contents are stated by the `MpUnsealed…` lemmas below |
| MpExp.MpFields | elf2exp.py:54-65 | the twelve header fields in write order do not overlap |
| MpExp.MpFieldsFit | elf2exp.py:55-65 | every header field fits the 32-byte header and can be packed, exactly when the page count, stack page count, stack top and entry fit their fields |
| MpExp.Seal | elf2exp.py:67-68 | the two check-byte stores change no byte but 0x12 and 0x13 |
| MpExp.SealU16 | elf2exp.py:67-68 | a word clear of 0x12 and 0x13 reads the same after the check bytes are stored |
| MpExp.SealU32 | elf2exp.py:67-68 | a double word clear of 0x12 and 0x13 reads the same after the check bytes are stored |
| MpExp.MpPackable | elf2exp.py:56-62 | true when the page count and stack page count fit 16 bits and the stack top and entry fit 32 bits, and then the file is at most 0xFFFF pages of 512 bytes and the stack top is between 0 and 0xFFFF pages of 4096 bytes |
| MpExp.MpImage | elf2exp.py:52-68 | yields a file exactly when the four computed values fit, and the file is 32 bytes longer than the image |
| MpExp.BuildMpImage | elf2exp.py:52-68 | the buffer-filling legacy encoder returns exactly `MpImage`, including its errors |
| MpExp.FillMpHeader | elf2exp.py:54-65 | the twelve slice assignments turn the buffer into the buffer with `MpFields` stored |
| MpExp.SealInPlace | elf2exp.py:67-68 | the two in-place stores turn the buffer into `Seal` of its former contents |
| MpExp.MpUnsealedPages | elf2exp.py:54-58 | before sealing, the header reads back "MP", length mod 512, the page count, 0 relocations and 2 header paragraphs |
| MpExp.MpUnsealedStack | elf2exp.py:59-62 | before sealing, the header reads back the stack page count, the stack top and the entry |
| MpExp.MpUnsealedConstants | elf2exp.py:60-65 | before sealing, the header reads back 0xFFFF, 0x1e, 0 and 1 |
| MpExp.MpUnsealedGaps | elf2exp.py:52-53 | before sealing, bytes 0x12, 0x13, 0x1e and 0x1f are zero and the image follows the header unchanged |
| MpExp.SealOrder | elf2exp.py:67-68 | 0x12 holds the XOR of the even bytes and 0x13 the XOR of the odd bytes of the unsealed file. The first store does not change the second XOR |
| MpExp.XorBalance | elf2exp.py:67 | storing a parity class's XOR into one of its zero bytes makes that class XOR to zero |
| MpExp.SealBalances | elf2exp.py:67-68 | with both check bytes zero beforehand, the even bytes and the odd bytes of the sealed file each XOR to zero |
| MpExp.MpImageTail | elf2exp.py:53-54 | the file is 32 bytes longer than the image, starts with "MP" and ends with the image |
| MpExp.MpImagePages | elf2exp.py:55-58 | the byte count in the last page is the length mod 512, the page count is the least number of 512-byte pages holding the file, there are no relocations, and the header is 2 × 16 bytes |
| MpExp.MpImageRegisters | elf2exp.py:59-62 | for a 4 KiB-aligned stack top, the stack page count times 4096, the ESP field and the EIP field give the stack top and the entry |
| MpExp.MpImageConstants | elf2exp.py:60-65 | the constant fields 0xFFFF, 0x1e, 0 and 1 are in place and bytes 0x1e–0x1f are zero |
| MpExp.MpImageChecks | elf2exp.py:67-68 | the check bytes are the XORs of the unsealed file's parity classes, and each parity class of the output XORs to zero |
| MpExp.MpFileErrors | elf2exp.py:28-37 | relocations are refused first. If no allocatable section starts at 0, the result is the base error. Any other failure is a pack error at 0x04, 0x0a, 0x0e or 0x14 |
| MpExp.MpFileFields | elf2exp.py:31-62 | an output has an allocatable section at 0 and ends with the stripped image. Its stack top is a multiple of 4096 in `[end + stack, end + stack + 4096)`, with `end` the one `get_addrs` finds, and its stack page count and entry field agree |

## Left out

- Reading the ELF container (pyelftools) is not modelled. The model takes
  the entry point and, per section, the flags, address, size and relocation
  count as given.
- `get_image` and the legacy script's objcopy call are not modelled. They
  run an external tool through a temporary file, so the raw image is a
  parameter.
- The argument parsing, `main` and writing the output file are not
  modelled; the stack size is a parameter.
- Process exits and exception messages are not modelled: a raised error
  becomes an `Err` value.
- The evaluation order of the error checks: `MakeExpImage` and
  `BuildMpImage` make all range checks before writing any field, whereas
  the scripts fail at the first field that does not pack. The result is
  the same, since nothing is returned or written once a pack fails.
- Layout.Fill: skips a field that cannot be packed or does not fit. The
  encoders only store fields that fit, so this branch is never taken.
- P3Exp.ExpFileErrors: states the first two checks in order and lists the
  possible errors, rather than ordering all five checks.
- MpExp.MpImageRegisters: is stated for a stack top that is already a
  multiple of 4096. `MpFileFields` shows that the script's stack top
  always is one.
