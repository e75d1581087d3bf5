# elfcore in Dafny

A model of the two encoders of the `elfcore` Python package, with proofs
about them.

- **Core-file writer** (`elfcore/core.py`). The `Core` class collects memory mappings. `write_to_file_object` then writes a 32-bit little-endian ARM ELF core file to a file object `f`:
  - the 52-byte ELF header;
  - one 32-byte `PT_LOAD` program header per mapping, each declaring a page-aligned file offset;
  - the payloads.
- **Note encoder** (`elfcore/note.py`). `Note.serialize` lays out a note record as in chapter 5 ("Note Section") of the System V gABI. `NoteSection` accumulates notes and their bytes. It builds the two ARM Linux descriptors `NT_PRSTATUS` (148 bytes) and `NT_PRPSINFO` (124 bytes).

## Files

| File | Contents |
|---|---|
| `bytes.dfy` (module `Bytes`) | `byte`/`u16`/`u32` and the `<H`/`<L` packers of `struct`. It also has their readers `U16At`/`U32At`, runs of zeros, and ASCII text as bytes. |
| `core.dfy` (module `ElfCore`) | `round_up_pow_2` with its bit mask, and the format constants. It has the header encoders as pure functions and the layout `write_to_file_object` computes. The `Core` class writes through a `Sink` (the file object `f`: a byte sequence that only grows by appends). |
| `layout.dfy` (module `ElfCoreLayout`) | Where things land: every declared `p_offset` is page-aligned, past the headers and disjoint from the others. Program header `j` of the image sits at `e_phoff + j * e_phentsize` and declares mapping `j`. |
| `findings.dfy` (module `ElfCoreFindings`) | The three places where `core.py` does not do what it evidently means to do. Each is modelled as written, with the input that shows it, and as intended, with the intended property proved. |
| `note.dfy` (module `ElfNote`) | `Note.serialize` as a method with its two padding loops. It has the `NoteSection` class, the two descriptor builders, and readers for note records and C-string fields. |

### How the code is modelled

- **`round_up_pow_2(v, p2)`** computes `(v + p2 - 1) & ~(p2 - 1)`. `RoundUpPow2` models it as `x - x % p2`. `MaskBelow` models the mask itself bit by bit. `RoundUpPow2IsMasked` proves the two forms agree for every power of two.
- **The sink `f`** is the class `Sink`, whose `bytes` field grows by `Write`.
- **`Core.WriteToFileObject`** keeps both loops of `write_to_file_object`. Its postcondition is `f.bytes == old(f.bytes) + CoreImage(mmaps)`, where `CoreImage` is:
  - the ELF header;
  - the table of `PT_LOAD` headers, with `pos` advancing by each payload's padded length;
  - the payloads as the second loop writes them.
- **The second loop never advances `pos`** (`core.py:94-98`). So every payload is preceded by `round_up_pow_2(data_offset, 4096)` zeros, which equals `data_offset` zeros. `Payloads` models exactly that. The findings compare it with the intended image.
- **The descriptor layouts** are pure functions. Lemmas prove their fields and read-back properties.
- **The note methods** (`Serialize`, `AddNote`, `AddPrstatus`, `AddPrpsinfo`) state their new state exactly. `NoteSection.Valid` keeps `data` equal to the in-order records of `notes`. `SectionReadsBack` proves that a reader of the section gets `notes` back.

## Model

| member | source | states |
|---|---|---|
| ElfCore.RoundUpPow2 | elfcore/core.py:7-8 | for a power of two p2, the result is a multiple of p2 with v <= r < v + p2 |
| ElfCore.MaskBelowRoundsDown | elfcore/core.py:8 | clearing the bits of x below a power of two p2 gives a multiple of p2 that is at most x and more than x - p2 |
| ElfCore.MaskBelowIsRemainderCleared | elfcore/core.py:8 | the mask `& ~(p2 - 1)` equals x - x % p2 |
| ElfCore.RoundUpPow2IsMasked | elfcore/core.py:7-8 | the arithmetic form equals `(v + p2 - 1) & ~(p2 - 1)` for every power of two |
| ElfCore.RoundUpPow2IsLeast | elfcore/core.py:7-8 | the result is at most every multiple of p2 that is >= v (the least such multiple) |
| ElfCore.RoundUpPow2Idempotent | elfcore/core.py:7-8 | a multiple of p2 is returned unchanged |
| ElfCore.PageIsPow2 | elfcore/core.py:81 | data_align = 4096 is a power of two |
| ElfCore.PageRoundUp | elfcore/core.py:81-82 | rounding to data_align gives a multiple of 4096 in [v, v + 4096) |
| ElfCore.Ident | elfcore/core.py:12-13 | e_ident is 16 bytes ('7B' and '9x') |
| ElfCore.ElfHeader | elfcore/core.py:12-13 | the packed ELF header is EHDR_SIZE = 52 bytes |
| ElfCore.ElfIdentFields | elfcore/core.py:25-29 | bytes 0-3 are 7F 45 4C 46; class, data and version are 1; bytes 7-15 are zero |
| ElfCore.KindFieldAt | elfcore/core.py:30-31 | e_type = 4 (ET_CORE) at 16 and e_machine = 40 (EM_ARM) at 18 |
| ElfCore.OffsetFieldAt | elfcore/core.py:32-36 | e_version = 1, e_entry = 0, e_phoff = 52, e_shoff = 0, e_flags = 0 at 20-39 |
| ElfCore.SizeFieldAt | elfcore/core.py:37-42 | e_ehsize = 52, e_phentsize = 32, e_phnum = number of mappings, e_shentsize = 40, e_shnum = e_shstrndx = 0 at 40-51 |
| ElfCore.ElfHeaderFields | elfcore/core.py:25-43 | every u16/u32 field of the header reads back as the value packed |
| ElfCore.PtLoadHeader | elfcore/core.py:15-16 | a packed program header is PHDR_SIZE = 32 bytes |
| ElfCore.PtLoadHeaderFields | elfcore/core.py:47-56 | p_type = 1, p_offset, p_vaddr = p_paddr = addr, p_filesz = p_memsz = payload length, p_flags = 7, p_align read back |
| ElfCore.DataOffset | elfcore/core.py:80-82 | data_offset is a multiple of 4096 with hdr_size <= data_offset < hdr_size + 4096 |
| ElfCore.PhdrTableStep | elfcore/core.py:88-91 | one iteration of the header loop writes the header of mapping i at its declared offset and advances pos by its padded length |
| ElfCore.PayloadsStep | elfcore/core.py:94-98 | one iteration of the payload loop writes round_up_pow_2(pos) zeros and the payload, leaving the rest to come |
| ElfCore.Sink.Write | elfcore/core.py:97-98 | `f.write` appends its argument to what the file object holds |
| ElfCore.Core.constructor | elfcore/core.py:21-22 | a new Core has no mappings |
| ElfCore.Core.WriteElfHeader | elfcore/core.py:24-44 | appends the 52-byte ELF header for the current number of mappings |
| ElfCore.Core.WritePtLoadHeader | elfcore/core.py:46-57 | appends the PT_LOAD header of a mapping |
| ElfCore.Core.AddMemMap | elfcore/core.py:59-64 | appends exactly one (addr, data) mapping; earlier ones keep their order |
| ElfCore.Core.WriteToFileObject | elfcore/core.py:73-98 | the file object receives the ELF header, the PT_LOAD table and the payloads as the loops write them (CoreImage) |
| ElfCoreLayout.SumPaddedGrows | elfcore/core.py:88-91 | pos grows between mappings by at least the payload lengths in between |
| ElfCoreLayout.SumPaddedBound | elfcore/core.py:91 | each padded length adds less than a page to the payload length |
| ElfCoreLayout.SumPaddedAligned | elfcore/core.py:91 | the advance of pos is always a multiple of 4096 |
| ElfCoreLayout.DeclaredOffsetAligned | elfcore/core.py:88-91 | every declared p_offset is page-aligned and past hdr_size |
| ElfCoreLayout.SegmentsDisjoint | elfcore/core.py:88-91 | the file range declared for a mapping ends at or before the one declared for any later mapping |
| ElfCoreLayout.PhdrTableLength | elfcore/core.py:88-90 | the header loop writes 32 bytes per mapping |
| ElfCoreLayout.PhdrTableEntry | elfcore/core.py:88-91 | entry j of the table is the PT_LOAD header of mapping j with p_offset = data_offset + sum of earlier padded lengths |
| ElfCoreLayout.ProgramHeaderInImage | elfcore/core.py:34-38 | program header j sits at e_phoff + j * e_phentsize |
| ElfCoreLayout.PtLoadHeaderAt | elfcore/core.py:47-56 | wherever a packed PT_LOAD header lies in an image, its eight fields read back there: p_type = 1, p_offset, p_vaddr = p_paddr = addr, p_filesz = p_memsz = payload length, p_flags = 7, p_align = 4096 |
| ElfCoreLayout.ProgramHeaderFields | elfcore/core.py:88-91 | program header j of the image carries all eight fields for mapping j: PT_LOAD, its declared offset, p_vaddr = p_paddr = its address, p_filesz = p_memsz = its length, flags 7, alignment 4096 |
| ElfCoreLayout.FramedImage | elfcore/core.py:85-91 | an image that starts with the ELF header and the table holds both in place |
| ElfCoreLayout.FramedHeaders | elfcore/core.py:34-56 | in such an image e_phoff = 52, e_phentsize = 32, e_phnum = number of mappings, and header j carries all eight fields for mapping j |
| ElfCoreLayout.CoreImageHeaders | elfcore/core.py:73-91 | the file write_to_file_object produces locates its table through e_phoff, e_phentsize and e_phnum, and header j has p_type 1, the declared offset, p_vaddr = p_paddr = addr, p_filesz = p_memsz = payload length, p_flags 7 and p_align 4096 |
| ElfCoreFindings.ReadDeclaredRange | elfcore/core.py:47-56 | a reader takes segment j from the range program header j declares |
| ElfCoreFindings.FramedDeclares | elfcore/core.py:85-91 | a framed image declares segment j at DeclaredOffset(ms, j) with mapping j's length |
| ElfCoreFindings.PayloadsEntry | elfcore/core.py:94-98 | as written, mapping j lands right after a run of round_up_pow_2(pos) zeros |
| ElfCoreFindings.DataOffsetRounded | elfcore/core.py:94-96 | round_up_pow_2(data_offset, 4096) is data_offset, so each run is data_offset zeros |
| ElfCoreFindings.PayloadPlacedAfter | elfcore/core.py:94-98 | as written, mapping j lies at WrittenAt(ms, j) after the header tables |
| ElfCoreFindings.WrittenAtBounds | elfcore/core.py:94-98 | as written, mapping j is written at least data_offset bytes into the image, and within it |
| ElfCoreFindings.ZerosBeforePayload | elfcore/core.py:94-97 | as written, the data_offset bytes just before mapping j are all zero |
| ElfCoreFindings.PayloadPlacedAsWritten | elfcore/core.py:73-98 | both facts, in the image write_to_file_object produces |
| ElfCoreFindings.PayloadsLength | elfcore/core.py:94-98 | the payload loop writes one run of zeros and one payload per mapping |
| ElfCoreFindings.CoreImageLength | elfcore/core.py:73-98 | the file is hdr_size + data_offset * N + the sum of the payload lengths |
| ElfCoreFindings.PayloadAtClosedForm | elfcore/core.py:94-98 | as written, mapping j lands j + 1 zero runs and the earlier payloads into the payload area |
| ElfCoreFindings.PayloadsMisplaced | elfcore/core.py:88-98 | every program header declares an offset strictly before the place where its payload is written |
| ElfCoreFindings.ReadFromZeroRun | elfcore/core.py:94-97 | a segment declared inside a zero run reads back starting with a zero |
| ElfCoreFindings.PayloadsAsWrittenCounterexample | elfcore/core.py:88-98 | as written, segment 0 reads back starting with a zero byte, so a first payload that starts with any other byte is not read back |
| ElfCoreFindings.IntendedPayloadsEntry | elfcore/core.py:88-91 | in the intended payload area, mapping j starts at its sum of earlier padded lengths |
| ElfCoreFindings.IntendedPlacedAfter | elfcore/core.py:88-91 | in the intended image, mapping j starts at its declared p_offset |
| ElfCoreFindings.IntendedPayloadPlaced | elfcore/core.py:88-91 | the same, for the intended image of any list of mappings |
| ElfCoreFindings.ReadPlacedSegment | elfcore/core.py:47-56 | a segment whose bytes lie where its header says reads back as those bytes |
| ElfCoreFindings.IntendedSegmentsReadBack | elfcore/core.py:88-98 | in the intended image every mapping reads back as its payload |
| ElfCoreFindings.PackBs | elfcore/core.py:25-29 | a run of 'B' fields packs if and only if every argument does, to those bytes |
| ElfCoreFindings.IdentAsWrittenFails | elfcore/core.py:25-26 | the '7B' arguments as written ('E', 'L', 'F' as str) do not pack |
| ElfCoreFindings.IdentIntendedPacks | elfcore/core.py:25-29 | with 0x45, 0x4C, 0x46 they pack to the first seven bytes of e_ident |
| ElfCoreFindings.HeaderFromIntended | elfcore/core.py:25-43 | those bytes complete the ELF header that ElfHeader describes |
| ElfCoreFindings.WriteAsWritten | elfcore/core.py:25-26 | as written, write_to_file_object raises struct.error before writing anything |
| ElfCoreFindings.WriteWithIdentFixed | elfcore/core.py:90 | with only e_ident fixed, one or more mappings raise TypeError after the ELF header is written |
| ElfCoreFindings.WriteCorrected | elfcore/core.py:73-98 | with both fixed, the file holds CoreImage, as Core.WriteToFileObject writes it |
| ElfNote.PadLen | elfcore/note.py:29-30 | the padding is under 4 bytes and ends on a multiple of 4 |
| ElfNote.PadLenLeast | elfcore/note.py:29-30 | no shorter padding ends on a multiple of 4, so the loop stops there |
| ElfNote.PadLenAfter | elfcore/note.py:32-33 | padding after a 4-aligned prefix depends only on what follows it |
| ElfNote.NoteHeader | elfcore/note.py:26-27 | the note header is 12 bytes |
| ElfNote.NameBytes | elfcore/note.py:28 | the name with its NUL is len(name) + 1 bytes |
| ElfNote.Serialize | elfcore/note.py:25-35 | the method with its two padding loops returns the header, the padded NUL-terminated name and the padded descriptor |
| ElfNote.SerializedLength | elfcore/note.py:28-33 | the record is 12 + roundup4(len(name) + 1) + roundup4(len(descriptor)) bytes, a multiple of 4 |
| ElfNote.NoteParts | elfcore/note.py:26-33 | bytes 0-11 are the header, the name and NUL follow padded with zeros, and the descriptor starts at 12 + roundup4(len(name) + 1), padded with zeros |
| ElfNote.NoteHeaderFields | elfcore/note.py:26-27 | the header reads back as len(name) + 1, len(descriptor) and note_type |
| ElfNote.NameReadBack | elfcore/note.py:28 | the name bytes before the NUL decode to the name |
| ElfNote.DescriptorReadBack | elfcore/note.py:31 | the descriptor bytes are the descriptor |
| ElfNote.ParseSerialized | elfcore/note.py:25-35 | reading a record back gives the name, type and descriptor and the record's length |
| ElfNote.SerializeAllSnoc | elfcore/note.py:43-46 | appending a note appends its record to the section's bytes |
| ElfNote.ParseNotesStep | elfcore/note.py:43-46 | a section reader reads one record, then the rest |
| ElfNote.ParseSerializeAll | elfcore/note.py:43-46 | the section's bytes read back as its notes, in order |
| ElfNote.SerializeAllAligned | elfcore/note.py:29-33 | every record starts on a 4-byte boundary of the section |
| ElfNote.SectionReadsBack | elfcore/note.py:43-46 | a section whose data matches its notes reads back as those notes |
| ElfNote.NoteSection.constructor | elfcore/note.py:39-41 | a new section has no notes and no bytes |
| ElfNote.NoteSection.AddNote | elfcore/note.py:43-46 | appends one note, and data becomes the old data followed by that note's record |
| ElfNote.NoteSection.AddPrstatus | elfcore/note.py:48-62 | fails with nothing changed unless 17 or 18 registers are given; otherwise extends the caller's list to 18 and adds the NT_PRSTATUS note |
| ElfNote.NoteSection.AddPrpsinfo | elfcore/note.py:64-71 | adds the 124-byte NT_PRPSINFO note named "CORE" with type 3 |
| ElfNote.PrstatusRegs | elfcore/note.py:57-59 | 18 registers are kept; 17 get a zero appended as the 18th |
| ElfNote.PrstatusHead | elfcore/note.py:60 | the bytes before the registers are 72 long |
| ElfNote.PrstatusDesc | elfcore/note.py:60-61 | the NT_PRSTATUS descriptor is 148 bytes |
| ElfNote.PrstatusHeadLayout | elfcore/note.py:60 | bytes 0-11 are zero, sig is at 12, bytes 14-23 are zero, pid is at 24, bytes 28-71 are zero |
| ElfNote.PrstatusLayout | elfcore/note.py:57-61 | the same, plus register k at 72 + 4k and fpvalid at 144 |
| ElfNote.FixedField | elfcore/note.py:69 | a '15s'/'79s' field is exactly n bytes |
| ElfNote.PrpsinfoDesc | elfcore/note.py:69-70 | the NT_PRPSINFO descriptor is 124 bytes |
| ElfNote.PrpsinfoLayout | elfcore/note.py:69 | bytes 0-27 are zero, pr_fname is at 28-42, byte 43 is zero, pr_psargs is at 44-122, byte 123 is zero |
| ElfNote.CStringOf | elfcore/note.py:69 | a string without NUL bytes followed by a NUL reads back as itself |
| ElfNote.FixedFieldReadBack | elfcore/note.py:69 | a field followed by its pad byte reads back as the string truncated to the field |
| ElfNote.PrpsinfoReadBack | elfcore/note.py:69 | pr_fname and pr_psargs read back as the name and command line, truncated to 15 and 79 bytes |

## Findings

| source | as written | input that shows it | evidently intended | confidence | as-written member | corrected member |
|---|---|---|---|---|---|---|
| elfcore/core.py:94-98 | `pos` is never advanced, so every payload is preceded by `round_up_pow_2(data_offset, 4096)` = `data_offset` zero bytes | one mapping `MemMap(0x1000_0000, [0xAA])`: its header declares offset 4096, where the file holds a zero; the byte lands at 84 + 4096 | each payload at the p_offset its program header declares, padded to the next page | high, not executed | ElfCoreFindings.PayloadsAsWrittenCounterexample | ElfCoreFindings.IntendedSegmentsReadBack |
| elfcore/core.py:25-26 | 'E', 'L', 'F' are passed as str to 'B' fields, which struct.pack rejects with struct.error | any Core, including one with no mappings | the bytes 0x45, 0x4C, 0x46 | high, not executed | ElfCoreFindings.WriteAsWritten | ElfCoreFindings.IdentIntendedPacks |
| elfcore/core.py:90 | `_write_pt_load_header(m, pos, data_align)` leaves out `f`, so p_align is missing and the call raises TypeError | any Core with one or more mappings, once e_ident packs | `_write_pt_load_header(f, m, pos, data_align)`, which writes the header to f | high, not executed | ElfCoreFindings.WriteWithIdentFixed | ElfCoreFindings.WriteCorrected |

`Core.WriteToFileObject` is the corrected writer. It writes e_ident with the byte values and passes `f` to the header writer. Its second loop stays as written, because the code states that behaviour outright.

## Left out

- `Core.write` (elfcore/core.py:66-71) opens a file by path. That is plain I/O. The file object is the `Sink` class.
- `MemMap` comes from `elfcore/mmap.py`, which is not part of this model. It is the datatype `MemMap(addr: u32, data: seq<byte>)`.
- `elfcore/test.py` is a driver script and is not modelled.
- Values that `struct.pack` would reject as out of range are excluded by the types or by preconditions, not modelled as `struct.error`. These are sig, pid, the registers, addr, note_type, n_namesz and n_descsz (via `Packable`), e_phnum, p_offset and p_filesz (via `Encodable`). The one exception is the e_ident finding above.
- Names and command lines are ASCII only (`IsAscii`). For other text, `len(name)` counts characters but `name.encode()` writes more bytes. Unicode encoding is not modelled.
- ElfNote.NoteSection.AddPrstatus: the Python `assert` is modelled as a failure result with nothing changed. Under `python -O` the assertion is skipped and `struct.pack` raises instead; that is not modelled.
- The `assert len(data) == 148` and `assert len(data) == 124` checks are not modelled as run-time checks. The descriptor functions' postconditions prove they always hold.
- `SHDR_FORMAT` is used only for `e_shentsize`. No section headers are written, so none are encoded.
- `ReadSegment`, `ParseNote`, `ParseNotes` and `CString` are readers written for the proofs, standing in for a consumer of the files. They are not part of the package.
