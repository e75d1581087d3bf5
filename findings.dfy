/** Where the code of elfcore/core.py departs from what it evidently means
    to write, each discrepancy modelled twice: as the code stands, with the
    input that exposes it, and as intended, with the intended property
    proved. */
module ElfCoreFindings {
  import opened Bytes
  import opened ElfCore
  import opened ElfCoreLayout

  // ---------------------------------------------------------------------
  // Reading a segment back, as an ELF consumer does

  /** The file bytes of segment j as an ELF reader finds them: e_phoff,
      e_phentsize and e_phnum locate program header j, which must be a
      PT_LOAD header whose p_offset and p_filesz lie inside the image. */
  function ReadSegment(img: seq<byte>, j: nat): (r: Option<seq<byte>>)
    ensures r.Some? ==> |img| >= EHDR_SIZE && j < U16At(img, 44)
  {
    if |img| < EHDR_SIZE || U16At(img, 42) != PHDR_SIZE || j >= U16At(img, 44) then None
    else
      var at := U32At(img, 28) + j * PHDR_SIZE;
      if at + PHDR_SIZE > |img| || U32At(img, at) != PT_LOAD then None
      else
        var off, size := U32At(img, at + 4), U32At(img, at + 16);
        if off + size > |img| then None else Some(img[off..off + size])
  }

  /** The ELF header of img locates its program-header table, whose entry j
      is a PT_LOAD header declaring size bytes at offset off. */
  predicate DeclaresSegment(img: seq<byte>, j: nat, off: nat, size: nat) {
    && HdrSize(j) + PHDR_SIZE <= |img|
    && U32At(img, 28) == EHDR_SIZE && U16At(img, 42) == PHDR_SIZE && j < U16At(img, 44)
    && U32At(img, HdrSize(j)) == PT_LOAD
    && U32At(img, HdrSize(j) + 4) == off && U32At(img, HdrSize(j) + 16) == size
  }

  /** The reader takes segment j from the range its program header
      declares, when that range lies inside the image. */
  lemma ReadDeclaredRange(img: seq<byte>, j: nat, off: nat, size: nat)
    requires DeclaresSegment(img, j, off, size)
    ensures ReadSegment(img, j)
            == if off + size <= |img| then Some(img[off..off + size]) else None
  {
  }

  /** An image framed by the header tables for ms declares segment j at
      DeclaredOffset(ms, j). */
  lemma FramedDeclares(ms: seq<MemMap>, img: seq<byte>, j: nat)
    requires Encodable(ms) && j < |ms| && Framed(img, ms)
    ensures DeclaresSegment(img, j, DeclaredOffset(ms, j), |ms[j].data|)
  {
    FramedHeaders(ms, img, j);
  }

  // ---------------------------------------------------------------------
  // Finding: the payload loop never advances pos (core.py:94-98)

  /** Where the payload loop as written puts mapping j inside
      Payloads(ms, i, pos): every mapping from i on is preceded by the same
      PageRoundUp(pos) zeros. */
  function PayloadAt(ms: seq<MemMap>, i: nat, j: nat, pos: nat): nat
    requires i <= j < |ms|
    decreases j - i
  {
    if i == j then PageRoundUp(pos)
    else PageRoundUp(pos) + |ms[i].data| + PayloadAt(ms, i + 1, j, pos)
  }

  /** Mapping j lands at PayloadAt(ms, i, j, pos) in Payloads(ms, i, pos),
      right after PageRoundUp(pos) zeros. */
  lemma {:induction false} PayloadsEntry(ms: seq<MemMap>, i: nat, j: nat, pos: nat)
    requires i <= j < |ms|
    ensures PageRoundUp(pos) <= PayloadAt(ms, i, j, pos)
    ensures PayloadAt(ms, i, j, pos) + |ms[j].data| <= |Payloads(ms, i, pos)|
    ensures var at := PayloadAt(ms, i, j, pos);
      Payloads(ms, i, pos)[at..at + |ms[j].data|] == ms[j].data
    ensures var at := PayloadAt(ms, i, j, pos);
      Payloads(ms, i, pos)[at - PageRoundUp(pos)..at] == Zeros(PageRoundUp(pos))
    decreases j - i
  {
    var z, d, rest := Zeros(PageRoundUp(pos)), ms[i].data, Payloads(ms, i + 1, pos);
    assert Payloads(ms, i, pos) == z + d + rest;
    if i == j {
      PartsOfConcat(z, d, rest);
    } else {
      PayloadsEntry(ms, i + 1, j, pos);
      var at := PayloadAt(ms, i + 1, j, pos);
      SliceAfter(z + d, rest, at, |ms[j].data|);
      SliceAfter(z + d, rest, at - |z|, |z|);
    }
  }

  /** As written, mapping j sits at WrittenAt(ms, j) in the core image. */
  function WrittenAt(ms: seq<MemMap>, j: nat): nat
    requires j < |ms|
  {
    HdrSize(|ms|) + PayloadAt(ms, 0, j, DataOffset(|ms|))
  }

  /** PageRoundUp leaves data_offset, already a page boundary, alone. */
  lemma DataOffsetRounded(n: nat)
    ensures PageRoundUp(DataOffset(n)) == DataOffset(n)
  {
    PageIsPow2();
    RoundUpPow2Idempotent(DataOffset(n), PAGE);
  }

  /** Mapping j, after any header tables of the right size followed by the
      payload loop's output. */
  lemma PayloadPlacedAfter(ms: seq<MemMap>, ht: seq<byte>, j: nat)
    requires j < |ms| && |ht| == HdrSize(|ms|)
    ensures var img, w := ht + Payloads(ms, 0, DataOffset(|ms|)), WrittenAt(ms, j);
      && w + |ms[j].data| <= |img|
      && img[w..w + |ms[j].data|] == ms[j].data
  {
    var d := DataOffset(|ms|);
    PayloadsEntry(ms, 0, j, d);
    var p, at, w := Payloads(ms, 0, d), PayloadAt(ms, 0, j, d), WrittenAt(ms, j);
    SliceAfterAt(ht, p, at, at + |ms[j].data|, w, w + |ms[j].data|);
  }

  /** Mapping j is written at least data_offset bytes into the image and
      within it, after any header tables of the right size. */
  lemma WrittenAtBounds(ms: seq<MemMap>, ht: seq<byte>, j: nat)
    requires j < |ms| && |ht| == HdrSize(|ms|)
    ensures DataOffset(|ms|) <= WrittenAt(ms, j) <= |ht + Payloads(ms, 0, DataOffset(|ms|))|
  {
    var d := DataOffset(|ms|);
    DataOffsetRounded(|ms|);
    PayloadsEntry(ms, 0, j, d);
  }

  /** The data_offset zeros the payload loop writes before mapping j, after
      any header tables of the right size. */
  lemma ZerosBeforePayload(ms: seq<MemMap>, ht: seq<byte>, j: nat, lo: nat, hi: nat)
    requires j < |ms| && |ht| == HdrSize(|ms|)
    requires hi == WrittenAt(ms, j) && lo + DataOffset(|ms|) == hi
    ensures hi <= |ht + Payloads(ms, 0, DataOffset(|ms|))|
    ensures (ht + Payloads(ms, 0, DataOffset(|ms|)))[lo..hi] == Zeros(DataOffset(|ms|))
  {
    var d := DataOffset(|ms|);
    DataOffsetRounded(|ms|);
    PayloadsEntry(ms, 0, j, d);
    var p, at := Payloads(ms, 0, d), PayloadAt(ms, 0, j, d);
    SliceAfterAt(ht, p, at - d, at, lo, hi);
  }

  /** Mapping j and the data_offset zeros before it, in the core image as
      written. */
  lemma PayloadPlacedAsWritten(ms: seq<MemMap>, j: nat)
    requires Encodable(ms) && j < |ms|
    ensures DataOffset(|ms|) <= WrittenAt(ms, j)
    ensures WrittenAt(ms, j) + |ms[j].data| <= |CoreImage(ms)|
    ensures CoreImage(ms)[WrittenAt(ms, j)..WrittenAt(ms, j) + |ms[j].data|] == ms[j].data
    ensures CoreImage(ms)[WrittenAt(ms, j) - DataOffset(|ms|)..WrittenAt(ms, j)] == Zeros(DataOffset(|ms|))
  {
    PhdrTableLength(ms, 0);
    var ht := ElfHeader(|ms|) + PhdrTable(ms, 0);
    PayloadPlacedAfter(ms, ht, j);
    WrittenAtBounds(ms, ht, j);
    ZerosBeforePayload(ms, ht, j, WrittenAt(ms, j) - DataOffset(|ms|), WrittenAt(ms, j));
  }

  /** The offset at which write_to_file_object as written puts mapping j
      inside Payloads(ms, i, pos): j - i + 1 runs of zeros and the payloads
      in between. */
  lemma {:induction false} PayloadAtClosedForm(ms: seq<MemMap>, i: nat, j: nat, pos: nat)
    requires i <= j < |ms|
    ensures PayloadAt(ms, i, j, pos) + DataLength(ms, i)
            == PageRoundUp(pos) * (j - i + 1) + DataLength(ms, j)
    decreases j - i
  {
    if i < j {
      PayloadAtClosedForm(ms, i + 1, j, pos);
      MulSucc(PageRoundUp(pos), j - i);
    }
  }

  /** The payload loop as written emits |ms| - i runs of PageRoundUp(pos)
      zeros and the payloads of ms[i..]. */
  lemma {:induction false} PayloadsLength(ms: seq<MemMap>, i: nat, pos: nat)
    requires i <= |ms|
    ensures |Payloads(ms, i, pos)| + DataLength(ms, i)
            == PageRoundUp(pos) * (|ms| - i) + DataLength(ms, |ms|)
    decreases |ms| - i
  {
    if i < |ms| {
      PayloadsLength(ms, i + 1, pos);
      MulSucc(PageRoundUp(pos), |ms| - i - 1);
    }
  }

  /** The core image as written is hdr_size bytes of header tables, then
      for each mapping data_offset zeros and its payload. */
  lemma CoreImageLength(ms: seq<MemMap>)
    requires Encodable(ms)
    ensures |CoreImage(ms)| == HdrSize(|ms|) + DataOffset(|ms|) * |ms| + DataLength(ms, |ms|)
  {
    PhdrTableLength(ms, 0);
    DataOffsetRounded(|ms|);
    PayloadsLength(ms, 0, DataOffset(|ms|));
  }

  /** Program header j declares an offset strictly before the place where
      the payload loop as written puts mapping j. */
  lemma PayloadsMisplaced(ms: seq<MemMap>, j: nat)
    requires j < |ms|
    ensures DeclaredOffset(ms, j) < WrittenAt(ms, j)
  {
    var d := DataOffset(|ms|);
    DataOffsetRounded(|ms|);
    var w := PayloadAt(ms, 0, j, d);
    PayloadAtClosedForm(ms, 0, j, d);
    assert w == d * (j + 1) + DataLength(ms, j);
    MulSucc(d, j);
    SumPaddedBound(ms, j);
    MultiplesApart(0, d, PAGE);
    MulMonotone(j, PAGE, d);
    assert j * PAGE <= j * d;
  }

  /** The first byte a reader takes for segment 0 lies inside a run of
      zeros, whatever the payload holds. */
  lemma ReadFromZeroRun(img: seq<byte>, off: nat, len: nat, lo: nat, n: nat)
    requires DeclaresSegment(img, 0, off, len) && 0 < len && off + len <= |img|
    requires lo + n <= |img| && img[lo..lo + n] == Zeros(n) && lo <= off < lo + n
    ensures ReadSegment(img, 0) == Some(img[off..off + len])
    ensures img[off..off + len][0] == 0
  {
    ReadDeclaredRange(img, 0, off, len);
    ZeroInRun(img, lo, n, off);
  }

  /** As written, the first program header points into the data_offset
      zeros the payload loop writes before the first payload, so a reader
      gets a segment that opens with a zero byte; a first payload that
      opens with any other byte is not read back. The smallest input that
      shows it is one mapping of one non-zero byte, such as
      [MemMap(0x1000_0000, [0xAA])]: its header points at offset 4096,
      where the image holds a zero, while the byte lands at 84 + 4096. */
  lemma PayloadsAsWrittenCounterexample(ms: seq<MemMap>)
    requires Encodable(ms) && 0 < |ms| && 0 < |ms[0].data|
    ensures var r := ReadSegment(CoreImage(ms), 0);
      r.Some? && |r.value| == |ms[0].data| && r.value[0] == 0
    ensures ms[0].data[0] != 0 ==> ReadSegment(CoreImage(ms), 0) != Some(ms[0].data)
  {
    var n, img := |ms|, CoreImage(ms);
    var d := DataOffset(n);
    FramedImage(ms, Payloads(ms, 0, d));
    FramedDeclares(ms, img, 0);
    PayloadPlacedAsWritten(ms, 0);
    DataOffsetRounded(n);
    ReadFromZeroRun(img, d, |ms[0].data|, HdrSize(n), d);
  }

  /** The payload area write_to_file_object evidently means to write for
      ms[i..]: each payload followed by zeros up to the next page, so that
      the next one starts where its program header says. */
  function IntendedPayloads(ms: seq<MemMap>, i: nat): seq<byte>
    requires i <= |ms|
    decreases |ms| - i
  {
    if i == |ms| then []
    else
      var len := |ms[i].data|;
      ms[i].data + Zeros(PageRoundUp(len) - len) + IntendedPayloads(ms, i + 1)
  }

  /** The intended image: the header tables, zeros up to data_offset, then
      the padded payloads. */
  function IntendedImage(ms: seq<MemMap>): seq<byte>
    requires Encodable(ms)
  {
    ElfHeader(|ms|) + PhdrTable(ms, 0)
      + (Zeros(DataOffset(|ms|) - HdrSize(|ms|)) + IntendedPayloads(ms, 0))
  }

  /** Mapping j starts SumPadded(ms, j) - SumPadded(ms, i) bytes into the
      intended payload area of ms[i..]. */
  lemma {:induction false} IntendedPayloadsEntry(ms: seq<MemMap>, i: nat, j: nat)
    requires i <= j < |ms|
    ensures var at := SumPadded(ms, j) - SumPadded(ms, i);
      && SumPadded(ms, i) <= SumPadded(ms, j)
      && at + |ms[j].data| <= |IntendedPayloads(ms, i)|
      && IntendedPayloads(ms, i)[at..at + |ms[j].data|] == ms[j].data
    decreases j - i
  {
    var len := |ms[i].data|;
    var d, z, rest := ms[i].data, Zeros(PageRoundUp(len) - len), IntendedPayloads(ms, i + 1);
    assert IntendedPayloads(ms, i) == (d + z) + rest;
    assert SumPadded(ms, i + 1) == SumPadded(ms, i) + |d + z|;
    if i == j {
      assert ((d + z) + rest)[0..|d|] == d;
    } else {
      IntendedPayloadsEntry(ms, i + 1, j);
      SliceAfter(d + z, rest, SumPadded(ms, j) - SumPadded(ms, i + 1), |ms[j].data|);
    }
  }

  /** Mapping j lies at the offset its program header declares, after any
      header tables of the right size followed by the intended payload
      area. */
  lemma IntendedPlacedAfter(ms: seq<MemMap>, ht: seq<byte>, j: nat)
    requires j < |ms| && |ht| == HdrSize(|ms|)
    ensures var img := ht + (Zeros(DataOffset(|ms|) - HdrSize(|ms|)) + IntendedPayloads(ms, 0));
      var off, len := DeclaredOffset(ms, j), |ms[j].data|;
      && off + len <= |img|
      && img[off..off + len] == ms[j].data
  {
    var n := |ms|;
    var z, ip := Zeros(DataOffset(n) - HdrSize(n)), IntendedPayloads(ms, 0);
    IntendedPayloadsEntry(ms, 0, j);
    var len := |ms[j].data|;
    SliceAfter(z, ip, SumPadded(ms, j), len);
    SliceAfter(ht, z + ip, |z| + SumPadded(ms, j), len);
  }

  /** In the intended image, mapping j lies at the offset its program
      header declares. */
  lemma IntendedPayloadPlaced(ms: seq<MemMap>, j: nat)
    requires Encodable(ms) && j < |ms|
    ensures var off := DeclaredOffset(ms, j);
      && off + |ms[j].data| <= |IntendedImage(ms)|
      && IntendedImage(ms)[off..off + |ms[j].data|] == ms[j].data
  {
    PhdrTableLength(ms, 0);
    IntendedPlacedAfter(ms, ElfHeader(|ms|) + PhdrTable(ms, 0), j);
  }

  /** A reader that follows a program header declaring where data lies
      gets data back. */
  lemma ReadPlacedSegment(img: seq<byte>, j: nat, off: nat, data: seq<byte>)
    requires DeclaresSegment(img, j, off, |data|)
    requires off + |data| <= |img| && img[off..off + |data|] == data
    ensures ReadSegment(img, j) == Some(data)
  {
    ReadDeclaredRange(img, j, off, |data|);
  }

  /** The intended image gives every mapping back: a reader that follows
      program header j finds exactly the payload of mapping j. */
  lemma IntendedSegmentsReadBack(ms: seq<MemMap>, j: nat)
    requires Encodable(ms) && j < |ms|
    ensures ReadSegment(IntendedImage(ms), j) == Some(ms[j].data)
  {
    var n := |ms|;
    FramedImage(ms, Zeros(DataOffset(n) - HdrSize(n)) + IntendedPayloads(ms, 0));
    FramedDeclares(ms, IntendedImage(ms), j);
    IntendedPayloadPlaced(ms, j);
    ReadPlacedSegment(IntendedImage(ms), j, DeclaredOffset(ms, j), ms[j].data);
  }

  // ---------------------------------------------------------------------
  // Finding: e_ident packs str values into 'B' fields (core.py:25-26)

  /** An argument handed to struct.pack: an int, or a str. */
  datatype PackArg = Int(n: int) | Str(s: string)

  /** struct.pack's 'B' code: an int in 0..255 packs to that byte; a str,
      or an int out of range, raises struct.error. */
  function PackB(a: PackArg): Option<byte> {
    if a.Int? && 0 <= a.n < 0x100 then Some(a.n) else None
  }

  /** A run of 'B' codes: every argument packed in order, or struct.error
      as soon as one of them cannot be. */
  function PackBs(args: seq<PackArg>): (r: Option<seq<byte>>)
    ensures r.Some? <==> forall i :: 0 <= i < |args| ==> PackB(args[i]).Some?
    ensures r.Some? ==> |r.value| == |args|
    ensures r.Some? ==> forall i :: 0 <= i < |args| ==> r.value[i] == args[i].n
  {
    if args == [] then Some([])
    else
      var rest := PackBs(args[1..]);
      assert forall i :: 1 <= i < |args| ==> args[1..][i - 1] == args[i];
      match PackB(args[0])
      case None => None
      case Some(b) => if rest.None? then None else Some([b] + rest.value)
  }

  /** The leading '7B' arguments of _write_elf_header as written: the magic
      letters are one-character strs. */
  function IdentArgsAsWritten(): seq<PackArg> {
    [Int(0x7F), Str("E"), Str("L"), Str("F"), Int(1), Int(1), Int(1)]
  }

  /** The same arguments with the letters given as their byte values. */
  function IdentArgsIntended(): seq<PackArg> {
    [Int(0x7F), Int(0x45), Int(0x4C), Int(0x46), Int(1), Int(1), Int(1)]
  }

  /** As written, packing the ELF header raises struct.error. */
  lemma IdentAsWrittenFails()
    ensures PackBs(IdentArgsAsWritten()) == None
  {
    assert PackB(IdentArgsAsWritten()[1]) == None;
  }

  /** With the letters as bytes, the arguments pack to the first seven
      bytes of e_ident: the magic number, class, data and version. */
  lemma IdentIntendedPacks()
    ensures PackBs(IdentArgsIntended()) == Some(Ident()[..7])
  {
    var args := IdentArgsIntended();
    assert forall i :: 0 <= i < |args| ==> PackB(args[i]).Some?;
    var r := PackBs(args).value;
    var magic: seq<byte> := [0x7F, 0x45, 0x4C, 0x46, 1, 1, 1];
    assert Ident()[..7] == magic;
    assert r == magic;
  }

  // ---------------------------------------------------------------------
  // Finding: the program-header loop calls _write_pt_load_header without f
  // (core.py:90)

  /** The parameters of _write_pt_load_header after self. */
  const PT_LOAD_HEADER_PARAMS: seq<string> := ["f", "mmap", "p_offset", "p_align"]

  datatype PyError = StructError | TypeError

  /** How a call of write_to_file_object ends: normally, with the bytes it
      wrote, or with an exception, with the bytes written before it. */
  datatype Outcome = Done(image: seq<byte>) | Raised(error: PyError, written: seq<byte>)

  /** The ELF header with its first seven bytes packed from the '7B'
      arguments. */
  function HeaderFrom(ident7: seq<byte>, phnum: u16): seq<byte> {
    ident7 + Zeros(9) + PackU16s(KindValues()) + PackU32s(OffsetValues()) + PackU16s(SizeValues(phnum))
  }

  /** write_to_file_object, given the '7B' arguments _write_elf_header packs
      and the number of positional arguments the first loop passes to
      _write_pt_load_header: struct.pack raises before anything is written
      when the '7B' arguments do not pack, and a call with the wrong number
      of arguments raises TypeError on the first mapping, once the ELF
      header is written. */
  function WriteOutcome(identArgs: seq<PackArg>, phdrArgCount: nat, ms: seq<MemMap>): Outcome
    requires Encodable(ms)
  {
    match PackBs(identArgs)
    case None => Raised(StructError, [])
    case Some(ident7) =>
      var header := HeaderFrom(ident7, |ms|);
      if 0 < |ms| && phdrArgCount != |PT_LOAD_HEADER_PARAMS| then Raised(TypeError, header)
      else Done(header + PhdrTable(ms, 0) + Payloads(ms, 0, DataOffset(|ms|)))
  }

  /** With the byte values as '7B' arguments, the header is ElfHeader. */
  lemma HeaderFromIntended(phnum: u16)
    ensures HeaderFrom(Ident()[..7], phnum) == ElfHeader(phnum)
  {
    assert Ident()[..7] + Zeros(9) == Ident();
  }

  /** As written, write_to_file_object raises struct.error for every list
      of mappings, before it writes anything. */
  lemma WriteAsWritten(ms: seq<MemMap>)
    requires Encodable(ms)
    ensures WriteOutcome(IdentArgsAsWritten(), 3, ms) == Raised(StructError, [])
  {
    IdentAsWrittenFails();
  }

  /** With e_ident fixed but the call on line 90 left as it is, a core with
      at least one mapping raises TypeError (p_align is missing) after only
      the ELF header is written. */
  lemma WriteWithIdentFixed(ms: seq<MemMap>)
    requires Encodable(ms) && 0 < |ms|
    ensures WriteOutcome(IdentArgsIntended(), 3, ms) == Raised(TypeError, ElfHeader(|ms|))
  {
    IdentIntendedPacks();
    HeaderFromIntended(|ms|);
  }

  /** With both fixed, write_to_file_object writes CoreImage(ms), which is
      what Core.WriteToFileObject writes to its sink. */
  lemma WriteCorrected(ms: seq<MemMap>)
    requires Encodable(ms)
    ensures WriteOutcome(IdentArgsIntended(), |PT_LOAD_HEADER_PARAMS|, ms) == Done(CoreImage(ms))
  {
    IdentIntendedPacks();
    HeaderFromIntended(|ms|);
  }
}
