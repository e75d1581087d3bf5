/** Where write_to_file_object puts things: the program-header table right
    after the ELF header, one entry per mapping, and the page-aligned,
    pairwise disjoint file ranges those entries declare. */
module ElfCoreLayout {
  import opened Bytes
  import opened ElfCore

  // ---------------------------------------------------------------------
  // Declared offsets

  /** The padded lengths only grow the running offset, by at least the
      payload lengths in between. */
  lemma {:induction false} SumPaddedGrows(ms: seq<MemMap>, i: nat, j: nat)
    requires i <= j <= |ms|
    ensures SumPadded(ms, i) + DataLength(ms, j) - DataLength(ms, i) <= SumPadded(ms, j)
    decreases j - i
  {
    if i < j {
      SumPaddedGrows(ms, i, j - 1);
    }
  }

  /** Each padded length adds less than a page to the payload length. */
  lemma {:induction false} SumPaddedBound(ms: seq<MemMap>, i: nat)
    requires i <= |ms|
    ensures SumPadded(ms, i) <= DataLength(ms, i) + i * (PAGE - 1)
  {
    if i > 0 {
      SumPaddedBound(ms, i - 1);
    }
  }

  /** The running offset stays on a page boundary. */
  lemma {:induction false} SumPaddedAligned(ms: seq<MemMap>, i: nat)
    requires i <= |ms|
    ensures SumPadded(ms, i) % PAGE == 0
  {
    if i > 0 {
      SumPaddedAligned(ms, i - 1);
      AddMultiples(SumPadded(ms, i - 1), PageRoundUp(|ms[i - 1].data|), PAGE);
    }
  }

  /** Every declared p_offset is page aligned and lies past the header
      tables. */
  lemma DeclaredOffsetAligned(ms: seq<MemMap>, i: nat)
    requires i <= |ms|
    ensures DeclaredOffset(ms, i) % PAGE == 0
    ensures HdrSize(|ms|) <= DeclaredOffset(ms, i)
  {
    SumPaddedAligned(ms, i);
    AddMultiples(DataOffset(|ms|), SumPadded(ms, i), PAGE);
  }

  /** The file range declared for mapping i ends at or before the one
      declared for any later mapping j. */
  lemma SegmentsDisjoint(ms: seq<MemMap>, i: nat, j: nat)
    requires i < j <= |ms|
    ensures DeclaredOffset(ms, i) + |ms[i].data| <= DeclaredOffset(ms, j)
  {
    SumPaddedGrows(ms, i, j);
    DataLengthGrows(ms, i + 1, j);
  }

  lemma {:induction false} DataLengthGrows(ms: seq<MemMap>, i: nat, j: nat)
    requires i <= j <= |ms|
    ensures DataLength(ms, i) <= DataLength(ms, j)
    decreases j - i
  {
    if i < j {
      DataLengthGrows(ms, i, j - 1);
    }
  }

  // ---------------------------------------------------------------------
  // The program-header table

  /** The table holds one PHDR_SIZE entry per mapping. */
  lemma {:induction false} PhdrTableLength(ms: seq<MemMap>, i: nat)
    requires Encodable(ms) && i <= |ms|
    ensures |PhdrTable(ms, i)| == (|ms| - i) * PHDR_SIZE
    decreases |ms| - i
  {
    if i < |ms| {
      PhdrTableLength(ms, i + 1);
    }
  }

  /** Entry j of the table written from mapping i on is the PT_LOAD header of
      mapping j, carrying the offset declared for it. */
  lemma {:induction false} PhdrTableEntry(ms: seq<MemMap>, i: nat, j: nat)
    requires Encodable(ms) && i <= j < |ms|
    ensures (j - i) * PHDR_SIZE + PHDR_SIZE <= |PhdrTable(ms, i)|
    ensures FitsAt(ms, j)
    ensures PhdrTable(ms, i)[(j - i) * PHDR_SIZE..(j - i) * PHDR_SIZE + PHDR_SIZE]
            == PtLoadHeader(ms[j], DeclaredOffset(ms, j), PAGE)
    decreases j - i
  {
    PhdrTableLength(ms, i);
    EntryFits(j - i, |ms| - i);
    assert FitsAt(ms, i);
    var h := PtLoadHeader(ms[i], DeclaredOffset(ms, i), PAGE);
    var rest := PhdrTable(ms, i + 1);
    assert PhdrTable(ms, i) == h + rest;
    if i < j {
      PhdrTableEntry(ms, i + 1, j);
      var k := (j - i - 1) * PHDR_SIZE;
      EntryStep(j - i - 1);
      SliceAfter(h, rest, k, PHDR_SIZE);
      assert rest[k..k + PHDR_SIZE] == PtLoadHeader(ms[j], DeclaredOffset(ms, j), PAGE);
    } else {
      assert (h + rest)[..PHDR_SIZE] == h;
    }
  }

  lemma EntryStep(n: nat)
    ensures (n + 1) * PHDR_SIZE == n * PHDR_SIZE + PHDR_SIZE
  {
  }

  lemma EntryFits(a: nat, b: nat)
    requires a < b
    ensures a * PHDR_SIZE + PHDR_SIZE <= b * PHDR_SIZE
  {
    EntryStep(a);
    MulMonotone(PHDR_SIZE, a + 1, b);
  }

  /** An image holds the program-header table for ms right after an
      ELF-header-sized head. */
  predicate HoldsTable(img: seq<byte>, ms: seq<MemMap>)
    requires Encodable(ms)
  {
    HdrSize(|ms|) <= |img| && img[EHDR_SIZE..HdrSize(|ms|)] == PhdrTable(ms, 0)
  }

  /** An image opens with the header tables write_to_file_object writes for
      ms: the ELF header, then the program-header table. */
  predicate Framed(img: seq<byte>, ms: seq<MemMap>)
    requires Encodable(ms)
  {
    HoldsTable(img, ms) && img[0..EHDR_SIZE] == ElfHeader(|ms|)
  }

  /** Program header j sits at e_phoff + j * e_phentsize in such an image. */
  lemma ProgramHeaderInImage(ms: seq<MemMap>, img: seq<byte>, j: nat)
    requires Encodable(ms) && j < |ms| && HoldsTable(img, ms)
    ensures HdrSize(j) + PHDR_SIZE <= |img|
    ensures FitsAt(ms, j)
    ensures img[HdrSize(j)..HdrSize(j) + PHDR_SIZE] == PtLoadHeader(ms[j], DeclaredOffset(ms, j), PAGE)
  {
    PhdrTableEntry(ms, 0, j);
    EntryFits(j, |ms|);
    SliceOfSlice(img, EHDR_SIZE, HdrSize(|ms|), j * PHDR_SIZE, j * PHDR_SIZE + PHDR_SIZE);
  }

  /** The eight fields of the program header at offset at of img, as
      _write_pt_load_header packs them for mapping m declared at off:
      p_type = PT_LOAD, p_offset = off, p_vaddr = p_paddr = the address,
      p_filesz = p_memsz = the payload length, p_flags = RWX and
      p_align = one page. */
  predicate PtLoadFieldsAt(img: seq<byte>, at: nat, m: MemMap, off: nat) {
    && at + PHDR_SIZE <= |img|
    && U32At(img, at) == PT_LOAD && U32At(img, at + 4) == off
    && U32At(img, at + 8) == m.addr && U32At(img, at + 12) == m.addr
    && U32At(img, at + 16) == |m.data| && U32At(img, at + 20) == |m.data|
    && U32At(img, at + 24) == PF_RWX && U32At(img, at + 28) == PAGE
  }

  /** The fields of a PT_LOAD header found at offset at of an image. */
  lemma PtLoadHeaderAt(img: seq<byte>, at: nat, m: MemMap, pOffset: u32)
    requires |m.data| < 0x1_0000_0000
    requires at + PHDR_SIZE <= |img| && img[at..at + PHDR_SIZE] == PtLoadHeader(m, pOffset, PAGE)
    ensures PtLoadFieldsAt(img, at, m, pOffset)
  {
    PtLoadHeaderFields(m, pOffset, PAGE);
    U32AtSlice(img, at, at + PHDR_SIZE, 0);
    U32AtSlice(img, at, at + PHDR_SIZE, 4);
    U32AtSlice(img, at, at + PHDR_SIZE, 8);
    U32AtSlice(img, at, at + PHDR_SIZE, 12);
    U32AtSlice(img, at, at + PHDR_SIZE, 16);
    U32AtSlice(img, at, at + PHDR_SIZE, 20);
    U32AtSlice(img, at, at + PHDR_SIZE, 24);
    U32AtSlice(img, at, at + PHDR_SIZE, 28);
  }

  /** In such an image, program header j describes a PT_LOAD segment with
      mapping j's address and size at its declared offset, aligned to a
      page. */
  lemma ProgramHeaderFields(ms: seq<MemMap>, img: seq<byte>, j: nat)
    requires Encodable(ms) && j < |ms| && HoldsTable(img, ms)
    ensures PtLoadFieldsAt(img, HdrSize(j), ms[j], DeclaredOffset(ms, j))
  {
    ProgramHeaderInImage(ms, img, j);
    PtLoadHeaderAt(img, HdrSize(j), ms[j], DeclaredOffset(ms, j));
  }

  /** Any image made of the ELF header, the program-header table and
      anything after it is framed by them. */
  lemma FramedImage(ms: seq<MemMap>, rest: seq<byte>)
    requires Encodable(ms)
    ensures Framed(ElfHeader(|ms|) + PhdrTable(ms, 0) + rest, ms)
  {
    PhdrTableLength(ms, 0);
    PartsOfConcat(ElfHeader(|ms|), PhdrTable(ms, 0), rest);
  }

  /** A framed image declares, through its ELF header and program header j,
      a PT_LOAD segment for mapping j at DeclaredOffset(ms, j). */
  lemma FramedHeaders(ms: seq<MemMap>, img: seq<byte>, j: nat)
    requires Encodable(ms) && j < |ms| && Framed(img, ms)
    ensures HdrSize(j) + PHDR_SIZE <= |img|
    ensures U32At(img, 28) == EHDR_SIZE
    ensures U16At(img, 42) == PHDR_SIZE
    ensures U16At(img, 44) == |ms|
    ensures PtLoadFieldsAt(img, HdrSize(j), ms[j], DeclaredOffset(ms, j))
  {
    assert U32At(img, 28) == EHDR_SIZE && U16At(img, 42) == PHDR_SIZE && U16At(img, 44) == |ms| by {
      OffsetFieldAt(|ms|, 2);
      SizeFieldAt(|ms|, 1);
      SizeFieldAt(|ms|, 2);
      U32AtSlice(img, 0, EHDR_SIZE, 28);
      U16AtSlice(img, 0, EHDR_SIZE, 42);
      U16AtSlice(img, 0, EHDR_SIZE, 44);
    }
    ProgramHeaderFields(ms, img, j);
  }

  /** The core image write_to_file_object produces declares, through its
      ELF header and program header j, a PT_LOAD segment for mapping j at
      DeclaredOffset(ms, j). */
  lemma CoreImageHeaders(ms: seq<MemMap>, j: nat)
    requires Encodable(ms) && j < |ms|
    ensures HdrSize(j) + PHDR_SIZE <= |CoreImage(ms)|
    ensures var img := CoreImage(ms);
      && U32At(img, 28) == EHDR_SIZE
      && U16At(img, 42) == PHDR_SIZE
      && U16At(img, 44) == |ms|
      && PtLoadFieldsAt(img, HdrSize(j), ms[j], DeclaredOffset(ms, j))
  {
    FramedImage(ms, Payloads(ms, 0, DataOffset(|ms|)));
    FramedHeaders(ms, CoreImage(ms), j);
  }
}
