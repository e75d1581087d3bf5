/** The core-file writer of elfcore/core.py: a 32-bit little-endian ARM ELF
    core file made of the ELF header, one PT_LOAD program header per memory
    mapping, and the mappings' payloads (System V gABI, chapter 4 "ELF
    Header" and chapter 5 "Program Header"). */
module ElfCore {
  import opened Bytes

  // ---------------------------------------------------------------------
  // round_up_pow_2

  predicate IsPow2(p: int)
    decreases if p > 0 then p else 0
  {
    p == 1 || (p >= 2 && p % 2 == 0 && IsPow2(p / 2))
  }

  /** `x & ~(p2 - 1)` for a non-negative x and a power of two p2: the bits of
      x below p2 are cleared, one binary digit at a time. */
  function MaskBelow(x: nat, p2: int): nat
    requires IsPow2(p2)
    decreases p2
  {
    if p2 == 1 then x else 2 * MaskBelow(x / 2, p2 / 2)
  }

  /** Clearing the bits below p2 rounds x down to a multiple of p2. */
  lemma {:induction false} MaskBelowRoundsDown(x: nat, p2: int)
    requires IsPow2(p2)
    ensures MaskBelow(x, p2) % p2 == 0
    ensures MaskBelow(x, p2) <= x < MaskBelow(x, p2) + p2
    decreases p2
  {
    if p2 != 1 {
      var q := p2 / 2;
      MaskBelowRoundsDown(x / 2, q);
      var r' := MaskBelow(x / 2, q);
      var k := r' / q;
      assert r' == q * k;
      assert 2 * r' == p2 * k;
      MultipleMod(p2, k);
    }
  }

  /** A multiple of p leaves no remainder. */
  lemma MultipleMod(p: int, k: int)
    requires p > 0
    ensures (p * k) % p == 0
  {
    var x := p * k;
    var d := k - x / p;
    assert p * d == x % p;
    if d >= 1 {
      MulMonotone(p, 1, d);
    } else if d <= -1 {
      MulMonotone(p, d, -1);
    }
  }

  /** Subtracting the remainder leaves a multiple of p. */
  lemma RemainderCleared(x: int, p: int)
    requires p > 0
    ensures (x - x % p) % p == 0
  {
    var q := x / p;
    assert x - x % p == p * q;
    MultipleMod(p, q);
  }

  /** `round_up_pow_2(v, p2)`: `(v + p2 - 1) & ~(p2 - 1)`, whose mask clears
      the remainder modulo p2 (MaskBelowIsRemainderCleared). */
  function RoundUpPow2(v: nat, p2: int): (r: nat)
    requires IsPow2(p2)
    ensures r % p2 == 0 && v <= r < v + p2
  {
    var x := v + p2 - 1;
    RemainderCleared(x, p2);
    x - x % p2
  }

  /** The bitwise mask of round_up_pow_2 and the arithmetic form above agree. */
  lemma {:induction false} MaskBelowIsRemainderCleared(x: nat, p2: int)
    requires IsPow2(p2)
    ensures MaskBelow(x, p2) == x - x % p2
  {
    MaskBelowRoundsDown(x, p2);
    RemainderCleared(x, p2);
    SameMultiple(MaskBelow(x, p2), x - x % p2, p2, x);
  }

  /** round_up_pow_2 as written, with its bitwise mask. */
  lemma RoundUpPow2IsMasked(v: nat, p2: int)
    requires IsPow2(p2)
    ensures RoundUpPow2(v, p2) == MaskBelow(v + p2 - 1, p2)
  {
    MaskBelowIsRemainderCleared(v + p2 - 1, p2);
  }

  /** The result is the least multiple of p2 that is at least v. */
  lemma RoundUpPow2IsLeast(v: nat, p2: int, m: int)
    requires IsPow2(p2)
    requires m % p2 == 0 && v <= m
    ensures RoundUpPow2(v, p2) <= m
  {
    var r := RoundUpPow2(v, p2);
    if m < r {
      MultiplesApart(m, r, p2);
    }
  }

  /** Two distinct multiples of p are at least p apart. */
  lemma MultiplesApart(a: int, b: int, p: int)
    requires p > 0 && a % p == 0 && b % p == 0 && a < b
    ensures a + p <= b
  {
    ExactQuotient(a, p);
    ExactQuotient(b, p);
    if a / p >= b / p {
      MulMonotone(p, b / p, a / p);
    } else {
      MulMonotone(p, a / p + 1, b / p);
      MulSucc(p, a / p);
    }
  }

  /** Two multiples of p within p of the same x, both at or below it, are equal. */
  lemma SameMultiple(a: int, b: int, p: int, x: int)
    requires p > 0 && a % p == 0 && b % p == 0
    requires a <= x < a + p && b <= x < b + p
    ensures a == b
  {
    if a < b {
      MultiplesApart(a, b, p);
    } else if b < a {
      MultiplesApart(b, a, p);
    }
  }

  /** The sum of two multiples of p is a multiple of p. */
  lemma AddMultiples(a: int, b: int, p: int)
    requires p > 0 && a % p == 0 && b % p == 0
    ensures (a + b) % p == 0
  {
    ExactQuotient(a, p);
    ExactQuotient(b, p);
    assert a + b == p * (a / p + b / p);
    MultipleMod(p, a / p + b / p);
  }

  lemma ExactQuotient(m: int, p: int)
    requires p > 0 && m % p == 0
    ensures m == p * (m / p)
  {
  }

  lemma MulSucc(p: int, b: int)
    ensures p * (b + 1) == p * b + p
  {
  }

  lemma MulMonotone(p: nat, a: int, b: int)
    requires a <= b
    ensures p * a <= p * b
  {
  }

  /** A value that is already a multiple of p2 is left unchanged. */
  lemma RoundUpPow2Idempotent(v: nat, p2: int)
    requires IsPow2(p2)
    requires v % p2 == 0
    ensures RoundUpPow2(v, p2) == v
  {
    RoundUpPow2IsLeast(v, p2, v);
  }

  // ---------------------------------------------------------------------
  // Constants of the ELF format as core.py packs them

  /** struct.calcsize('<7B9xHHLLLLLHHHHHH') = 7 + 9 + 2*2 + 5*4 + 6*2 */
  const EHDR_SIZE: nat := 52
  /** struct.calcsize('<LLLLLLLL') = 8*4 */
  const PHDR_SIZE: nat := 32
  /** struct.calcsize('<LLLLLLLLLL') = 10*4; used only for e_shentsize */
  const SHDR_SIZE: nat := 40

  /** data_align: payloads start on 4096-byte pages */
  const PAGE: nat := 4096

  const ELF_MAGIC: seq<byte> := [0x7F, 'E' as int, 'L' as int, 'F' as int]
  const ELFCLASS32: byte := 1
  const ELFDATA2LSB: byte := 1
  const EV_CURRENT: byte := 1
  const ET_CORE: u16 := 4
  const EM_ARM: u16 := 40
  const PT_LOAD: u32 := 1
  /** p_flags = PF_R | PF_W | PF_X */
  const PF_RWX: u32 := 7

  lemma PageIsPow2()
    ensures IsPow2(PAGE)
  {
    assert IsPow2(1) && IsPow2(2) && IsPow2(4) && IsPow2(8) && IsPow2(16) && IsPow2(32);
    assert IsPow2(64) && IsPow2(128) && IsPow2(256) && IsPow2(512) && IsPow2(1024) && IsPow2(2048);
  }

  /** `round_up_pow_2(v, data_align)` */
  function PageRoundUp(v: nat): (r: nat)
    ensures r % PAGE == 0 && v <= r < v + PAGE
  {
    PageIsPow2();
    RoundUpPow2(v, PAGE)
  }

  // ---------------------------------------------------------------------
  // Header encoders

  /** e_ident: the magic number, 32-bit class, little-endian data, the
      current version, and nine bytes of padding. */
  function Ident(): (r: seq<byte>)
    ensures |r| == 16
  {
    ELF_MAGIC + [ELFCLASS32, ELFDATA2LSB, EV_CURRENT] + Zeros(9)
  }

  /** e_type, e_machine: the 'HH' after e_ident. */
  function KindValues(): seq<u16> {
    [ET_CORE, EM_ARM]
  }

  /** e_version, e_entry, e_phoff, e_shoff, e_flags: the 'LLLLL'. The
      program headers follow the ELF header directly; there are no section
      headers. */
  function OffsetValues(): seq<u32> {
    [EV_CURRENT, 0, EHDR_SIZE, 0, 0]
  }

  /** e_ehsize, e_phentsize, e_phnum, e_shentsize, e_shnum, e_shstrndx: the
      closing 'HHHHHH'. */
  function SizeValues(phnum: u16): seq<u16> {
    [EHDR_SIZE, PHDR_SIZE, phnum, SHDR_SIZE, 0, 0]
  }

  /** `_write_elf_header`'s struct.pack('<7B9xHHLLLLLHHHHHH', ...): the
      52-byte ELF header of a core file with phnum program headers and no
      section headers. */
  function ElfHeader(phnum: u16): (h: seq<byte>)
    ensures |h| == EHDR_SIZE
  {
    Ident() + PackU16s(KindValues()) + PackU32s(OffsetValues()) + PackU16s(SizeValues(phnum))
  }

  lemma KindFieldAt(phnum: u16, k: nat)
    requires k < 2
    ensures U16At(ElfHeader(phnum), 16 + 2 * k) == KindValues()[k]
  {
    var y := Ident() + PackU16s(KindValues());
    var x := y + PackU32s(OffsetValues());
    U16AtPrefix(x, PackU16s(SizeValues(phnum)), 16 + 2 * k);
    U16AtPrefix(y, PackU32s(OffsetValues()), 16 + 2 * k);
    U16AtSkip(Ident(), PackU16s(KindValues()), 2 * k);
    PackU16sAt(KindValues(), k);
  }

  lemma OffsetFieldAt(phnum: u16, k: nat)
    requires k < 5
    ensures U32At(ElfHeader(phnum), 20 + 4 * k) == OffsetValues()[k]
  {
    var y := Ident() + PackU16s(KindValues());
    var x := y + PackU32s(OffsetValues());
    U32AtPrefix(x, PackU16s(SizeValues(phnum)), 20 + 4 * k);
    U32AtSkip(y, PackU32s(OffsetValues()), 4 * k);
    PackU32sAt(OffsetValues(), k);
  }

  lemma SizeFieldAt(phnum: u16, k: nat)
    requires k < 6
    ensures U16At(ElfHeader(phnum), 40 + 2 * k) == SizeValues(phnum)[k]
  {
    var x := Ident() + PackU16s(KindValues()) + PackU32s(OffsetValues());
    U16AtSkip(x, PackU16s(SizeValues(phnum)), 2 * k);
    PackU16sAt(SizeValues(phnum), k);
  }

  /** The header opens with e_ident: the magic number, ELFCLASS32,
      ELFDATA2LSB, EV_CURRENT and zero padding. */
  lemma ElfIdentFields(phnum: u16)
    ensures var h := ElfHeader(phnum);
      && h[..4] == ELF_MAGIC
      && h[4] == ELFCLASS32 && h[5] == ELFDATA2LSB && h[6] == EV_CURRENT
      && AllZero(h[7..16])
  {
    var y := Ident() + PackU16s(KindValues());
    var x := y + PackU32s(OffsetValues());
    SliceInPrefix(x, PackU16s(SizeValues(phnum)), 0, 16);
    SliceInPrefix(y, PackU32s(OffsetValues()), 0, 16);
    SliceInPrefix(Ident(), PackU16s(KindValues()), 0, 16);
    assert Ident()[0..16] == Ident();
  }

  /** Reading the rest of the header back gives what core.py packs: the runs
      'HH', 'LLLLL' and 'HHHHHH', field by field. */
  lemma ElfHeaderFields(phnum: u16)
    ensures forall k :: 0 <= k < 2 ==> U16At(ElfHeader(phnum), 16 + 2 * k) == KindValues()[k]
    ensures forall k :: 0 <= k < 5 ==> U32At(ElfHeader(phnum), 20 + 4 * k) == OffsetValues()[k]
    ensures forall k :: 0 <= k < 6 ==> U16At(ElfHeader(phnum), 40 + 2 * k) == SizeValues(phnum)[k]
  {
    forall k | 0 <= k < 2
      ensures U16At(ElfHeader(phnum), 16 + 2 * k) == KindValues()[k]
    {
      KindFieldAt(phnum, k);
    }
    forall k | 0 <= k < 5
      ensures U32At(ElfHeader(phnum), 20 + 4 * k) == OffsetValues()[k]
    {
      OffsetFieldAt(phnum, k);
    }
    forall k | 0 <= k < 6
      ensures U16At(ElfHeader(phnum), 40 + 2 * k) == SizeValues(phnum)[k]
    {
      SizeFieldAt(phnum, k);
    }
  }

  /** One memory mapping: a virtual address and the bytes loaded there. */
  datatype MemMap = MemMap(addr: u32, data: seq<byte>)

  /** The eight 'L' fields of a PT_LOAD program header for mapping m,
      declared to sit at pOffset: p_type, p_offset, p_vaddr, p_paddr,
      p_filesz, p_memsz, p_flags, p_align. */
  function PtLoadValues(m: MemMap, pOffset: u32, pAlign: u32): seq<u32>
    requires |m.data| < 0x1_0000_0000
  {
    [PT_LOAD, pOffset, m.addr, m.addr, |m.data|, |m.data|, PF_RWX, pAlign]
  }

  /** `_write_pt_load_header`'s struct.pack('<LLLLLLLL', ...). */
  function PtLoadHeader(m: MemMap, pOffset: u32, pAlign: u32): (h: seq<byte>)
    requires |m.data| < 0x1_0000_0000
    ensures |h| == PHDR_SIZE
  {
    PackU32s(PtLoadValues(m, pOffset, pAlign))
  }

  /** Reading the program header back field by field. */
  lemma PtLoadHeaderFields(m: MemMap, pOffset: u32, pAlign: u32)
    requires |m.data| < 0x1_0000_0000
    ensures var h := PtLoadHeader(m, pOffset, pAlign);
      && U32At(h, 0) == PT_LOAD
      && U32At(h, 4) == pOffset
      && U32At(h, 8) == m.addr && U32At(h, 12) == m.addr
      && U32At(h, 16) == |m.data| && U32At(h, 20) == |m.data|
      && U32At(h, 24) == PF_RWX
      && U32At(h, 28) == pAlign
  {
    var vs := PtLoadValues(m, pOffset, pAlign);
    PackU32sAt(vs, 0);
    PackU32sAt(vs, 1);
    PackU32sAt(vs, 2);
    PackU32sAt(vs, 3);
    PackU32sAt(vs, 4);
    PackU32sAt(vs, 5);
    PackU32sAt(vs, 6);
    PackU32sAt(vs, 7);
  }

  // ---------------------------------------------------------------------
  // Layout computed by write_to_file_object

  /** hdr_size: the ELF header and n program headers. */
  function HdrSize(n: nat): nat {
    EHDR_SIZE + n * PHDR_SIZE
  }

  /** data_offset: the first page boundary at or after the header tables. */
  function DataOffset(n: nat): (d: nat)
    ensures d % PAGE == 0 && HdrSize(n) <= d < HdrSize(n) + PAGE
  {
    PageRoundUp(HdrSize(n))
  }

  /** How far `pos` has advanced after the program headers of ms[..i]: their
      payload lengths, each rounded up to a page. */
  function SumPadded(ms: seq<MemMap>, i: nat): nat
    requires i <= |ms|
  {
    if i == 0 then 0 else SumPadded(ms, i - 1) + PageRoundUp(|ms[i - 1].data|)
  }

  /** The payload lengths of ms[..i], summed. */
  function DataLength(ms: seq<MemMap>, i: nat): nat
    requires i <= |ms|
  {
    if i == 0 then 0 else DataLength(ms, i - 1) + |ms[i - 1].data|
  }

  /** `pos` when the program header of mapping i is written: the p_offset
      that header declares. */
  function DeclaredOffset(ms: seq<MemMap>, i: nat): nat
    requires i <= |ms|
  {
    DataOffset(|ms|) + SumPadded(ms, i)
  }

  /** The p_offset and p_filesz of mapping j fit their 32-bit fields. */
  predicate FitsAt(ms: seq<MemMap>, j: nat)
    requires j < |ms|
  {
    DeclaredOffset(ms, j) < 0x1_0000_0000 && |ms[j].data| < 0x1_0000_0000
  }

  /** Every field the writer packs fits the width struct.pack gives it:
      e_phnum in 16 bits, each p_offset and p_filesz in 32 bits. */
  predicate Encodable(ms: seq<MemMap>) {
    |ms| < 0x1_0000 && forall j :: 0 <= j < |ms| ==> FitsAt(ms, j)
  }

  /** The program headers the first loop writes for ms[i..]. */
  function PhdrTable(ms: seq<MemMap>, i: nat): seq<byte>
    requires Encodable(ms) && i <= |ms|
    decreases |ms| - i
  {
    if i == |ms| then []
    else
      assert FitsAt(ms, i);
      PtLoadHeader(ms[i], DeclaredOffset(ms, i), PAGE) + PhdrTable(ms, i + 1)
  }

  /** The bytes the second loop writes for ms[i..] as the code stands: `pos`
      is never advanced, so every payload is preceded by
      round_up_pow_2(pos, data_align) zeros. */
  function Payloads(ms: seq<MemMap>, i: nat, pos: nat): seq<byte>
    requires i <= |ms|
    decreases |ms| - i
  {
    if i == |ms| then []
    else Zeros(PageRoundUp(pos)) + ms[i].data + Payloads(ms, i + 1, pos)
  }

  /** Everything write_to_file_object sends to its file object. */
  function CoreImage(ms: seq<MemMap>): seq<byte>
    requires Encodable(ms)
  {
    ElfHeader(|ms|) + PhdrTable(ms, 0) + Payloads(ms, 0, DataOffset(|ms|))
  }

  /** One iteration of the program-header loop: with `done` written and
      the headers of ms[i..] still to come, writing the header of mapping i
      at its declared offset leaves the headers of ms[i + 1..] to come, and
      the offset advances by the padded length of mapping i. */
  lemma PhdrTableStep(done: seq<byte>, start: seq<byte>, ms: seq<MemMap>, i: nat)
    requires Encodable(ms) && i < |ms|
    requires done + PhdrTable(ms, i) == start + PhdrTable(ms, 0)
    ensures DeclaredOffset(ms, i) < 0x1_0000_0000 && |ms[i].data| < 0x1_0000_0000
    ensures (done + PtLoadHeader(ms[i], DeclaredOffset(ms, i), PAGE)) + PhdrTable(ms, i + 1)
            == start + PhdrTable(ms, 0)
    ensures DeclaredOffset(ms, i + 1) == DeclaredOffset(ms, i) + PageRoundUp(|ms[i].data|)
  {
    assert FitsAt(ms, i);
    var h := PtLoadHeader(ms[i], DeclaredOffset(ms, i), PAGE);
    assert (done + h) + PhdrTable(ms, i + 1) == done + (h + PhdrTable(ms, i + 1));
  }

  /** One iteration of the payload loop as written. */
  lemma PayloadsStep(done: seq<byte>, start: seq<byte>, ms: seq<MemMap>, i: nat, pos: nat, dataOffset: nat)
    requires i < |ms|
    requires done + Payloads(ms, i, pos) == start + Payloads(ms, 0, dataOffset)
    ensures ((done + Zeros(PageRoundUp(pos))) + ms[i].data) + Payloads(ms, i + 1, pos)
            == start + Payloads(ms, 0, dataOffset)
  {
    var z := Zeros(PageRoundUp(pos));
    assert ((done + z) + ms[i].data) + Payloads(ms, i + 1, pos) == done + (z + ms[i].data + Payloads(ms, i + 1, pos));
  }

  // ---------------------------------------------------------------------
  // The file object and the Core class

  /** The file object `f`: a sink that only supports appending writes. */
  class Sink {
    var bytes: seq<byte>

    constructor ()
      ensures bytes == []
    {
      bytes := [];
    }

    method Write(data: seq<byte>)
      modifies this
      ensures bytes == old(bytes) + data
    {
      bytes := bytes + data;
    }
  }

  class Core {
    var mmaps: seq<MemMap>

    constructor ()
      ensures mmaps == []
    {
      mmaps := [];
    }

    method WriteElfHeader(f: Sink)
      requires |mmaps| < 0x1_0000
      modifies f
      ensures f.bytes == old(f.bytes) + ElfHeader(|mmaps|)
    {
      var data := ElfHeader(|mmaps|);
      f.Write(data);
    }

    method WritePtLoadHeader(f: Sink, m: MemMap, pOffset: u32, pAlign: u32)
      requires |m.data| < 0x1_0000_0000
      modifies f
      ensures f.bytes == old(f.bytes) + PtLoadHeader(m, pOffset, pAlign)
    {
      var data := PtLoadHeader(m, pOffset, pAlign);
      f.Write(data);
    }

    /** Appends one mapping; the earlier ones keep their place and order. */
    method AddMemMap(addr: u32, data: seq<byte>)
      modifies this
      ensures mmaps == old(mmaps) + [MemMap(addr, data)]
    {
      mmaps := mmaps + [MemMap(addr, data)];
    }

    /** Writes the ELF header, one PT_LOAD header per mapping with the
        running page-aligned offset, then the payloads as the second loop
        writes them. */
    method WriteToFileObject(f: Sink)
      requires Encodable(mmaps)
      modifies f
      ensures f.bytes == old(f.bytes) + CoreImage(mmaps)
    {
      var ms := mmaps;
      var hdrSize := HdrSize(|ms|);
      var dataAlign := PAGE;
      PageIsPow2();
      var dataOffset := RoundUpPow2(hdrSize, dataAlign);
      assert dataOffset == DataOffset(|ms|);

      WriteElfHeader(f);
      ghost var headers := f.bytes;

      var pos: nat := dataOffset;
      var i := 0;
      while i < |ms|
        invariant 0 <= i <= |ms|
        invariant pos == DeclaredOffset(ms, i)
        invariant f.bytes + PhdrTable(ms, i) == headers + PhdrTable(ms, 0)
      {
        var m := ms[i];
        PhdrTableStep(f.bytes, headers, ms, i);
        WritePtLoadHeader(f, m, pos, dataAlign);
        pos := pos + RoundUpPow2(|m.data|, dataAlign);
        i := i + 1;
      }
      assert f.bytes + [] == f.bytes;
      ghost var tables := f.bytes;

      pos := dataOffset;
      i := 0;
      while i < |ms|
        invariant 0 <= i <= |ms|
        invariant f.bytes + Payloads(ms, i, pos) == tables + Payloads(ms, 0, dataOffset)
      {
        var m := ms[i];
        var pad := RoundUpPow2(pos, dataAlign);
        PayloadsStep(f.bytes, tables, ms, i, pos, dataOffset);
        f.Write(Zeros(pad));
        f.Write(m.data);
        i := i + 1;
      }
      assert f.bytes + [] == f.bytes;
      Regroup(old(f.bytes), ElfHeader(|ms|), PhdrTable(ms, 0), Payloads(ms, 0, dataOffset));
    }
  }
}
