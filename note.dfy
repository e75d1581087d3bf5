/** The ELF note encoder of elfcore/note.py: note records as the System V
    gABI lays them out (chapter 5, "Note Section"), the NoteSection that
    accumulates them, and the two ARM Linux descriptors it builds,
    NT_PRSTATUS and NT_PRPSINFO. */
module ElfNote {
  import opened Bytes

  // ---------------------------------------------------------------------
  // Note records

  /** A note: an ASCII name, a type and the descriptor bytes. */
  datatype Note = Note(name: string, noteType: u32, descriptor: seq<byte>)

  /** What serialize can pack: an ASCII name (so that len(name) counts the
      bytes name.encode() writes), and n_namesz and n_descsz within their
      32-bit fields. */
  predicate Packable(n: Note) {
    IsAscii(n.name) && |n.name| + 1 < 0x1_0000_0000 && |n.descriptor| < 0x1_0000_0000
  }

  /** The zero bytes that take a length of n up to a multiple of 4. */
  function PadLen(n: nat): (p: nat)
    ensures p < 4 && (n + p) % 4 == 0
  {
    (4 - n % 4) % 4
  }

  /** No length between n and n + PadLen(n) is a multiple of 4: the padding
      loop stops exactly at n + PadLen(n). */
  lemma PadLenLeast(n: nat, m: nat)
    requires n <= m < n + PadLen(n)
    ensures m % 4 != 0
  {
  }

  /** Padding depends only on what follows a multiple of 4. */
  lemma PadLenAfter(a: nat, b: nat)
    requires a % 4 == 0
    ensures PadLen(a + b) == PadLen(b)
  {
  }

  /** roundup4(n) */
  function RoundUp4(n: nat): nat {
    n + PadLen(n)
  }

  /** n_namesz, n_descsz and n_type. */
  function NoteHeader(n: Note): (h: seq<byte>)
    requires Packable(n)
    ensures |h| == 12
  {
    PackU32s([|n.name| + 1, |n.descriptor|, n.noteType])
  }

  /** The NUL-terminated name. */
  function NameBytes(n: Note): (r: seq<byte>)
    requires Packable(n)
    ensures |r| == |n.name| + 1
  {
    AsciiBytes(n.name) + [0]
  }

  /** The note record: the header, the NUL-terminated name padded with
      zeros to a multiple of 4 bytes, then the descriptor padded the same
      way. */
  function Serialized(n: Note): seq<byte>
    requires Packable(n)
  {
    NoteHeader(n) + NameBytes(n) + Zeros(PadLen(|n.name| + 1))
      + n.descriptor + Zeros(PadLen(|n.descriptor|))
  }

  /** Where the descriptor starts in the record. */
  function DescOffset(n: Note): nat {
    12 + RoundUp4(|n.name| + 1)
  }

  /** Zeros(k) followed by one more zero. */
  lemma ZerosSnoc(k: nat)
    ensures Zeros(k) + [0] == Zeros(k + 1)
  {
  }

  /** `Note.serialize`: pack the header, append the name and its NUL, pad
      with zeros while the length is not a multiple of 4, append the
      descriptor and pad again. */
  method Serialize(n: Note) returns (data: seq<byte>)
    requires Packable(n)
    ensures data == Serialized(n)
  {
    data := PackU32s([|n.name| + 1, |n.descriptor|, n.noteType]);
    data := data + (AsciiBytes(n.name) + [0]);
    ghost var named := data;
    while |data| % 4 != 0
      invariant |named| <= |data| <= |named| + PadLen(|named|)
      invariant data == named + Zeros(|data| - |named|)
      decreases |named| + PadLen(|named|) - |data|
    {
      ZerosSnoc(|data| - |named|);
      data := data + [0];
    }
    if |data| < |named| + PadLen(|named|) {
      PadLenLeast(|named|, |data|);
    }
    PadLenAfter(12, |n.name| + 1);
    data := data + n.descriptor;
    ghost var described := data;
    while |data| % 4 != 0
      invariant |described| <= |data| <= |described| + PadLen(|described|)
      invariant data == described + Zeros(|data| - |described|)
      decreases |described| + PadLen(|described|) - |data|
    {
      ZerosSnoc(|data| - |described|);
      data := data + [0];
    }
    if |data| < |described| + PadLen(|described|) {
      PadLenLeast(|described|, |data|);
    }
    PadLenAfter(|named| + PadLen(|named|), |n.descriptor|);
  }

  /** The record is 12 + roundup4(len(name) + 1) + roundup4(len(descriptor))
      bytes, a multiple of 4. */
  lemma SerializedLength(n: Note)
    requires Packable(n)
    ensures |Serialized(n)| == DescOffset(n) + RoundUp4(|n.descriptor|)
    ensures |Serialized(n)| % 4 == 0
  {
    var a, b := RoundUp4(|n.name| + 1), RoundUp4(|n.descriptor|);
    assert |Serialized(n)| == 12 + a + b;
    assert a % 4 == 0 && b % 4 == 0;
    Mod4Sum(12, a);
    Mod4Sum(12 + a, b);
  }

  lemma Mod4Sum(a: nat, b: nat)
    requires a % 4 == 0 && b % 4 == 0
    ensures (a + b) % 4 == 0
  {
  }

  /** The parts of a record, followed by anything. */
  lemma NoteParts(n: Note, rest: seq<byte>)
    requires Packable(n)
    ensures var s := Serialized(n) + rest;
      && |Serialized(n)| <= |s|
      && s[0..12] == NoteHeader(n)
      && s[12..DescOffset(n)] == NameBytes(n) + Zeros(PadLen(|n.name| + 1))
      && s[DescOffset(n)..|Serialized(n)|] == n.descriptor + Zeros(PadLen(|n.descriptor|))
      && s[|Serialized(n)|..] == rest
  {
    var h, nm, d := NoteHeader(n), NameBytes(n) + Zeros(PadLen(|n.name| + 1)),
      n.descriptor + Zeros(PadLen(|n.descriptor|));
    assert Serialized(n) + rest == h + nm + d + rest;
  }

  /** The header reads back as len(name) + 1, len(descriptor) and the
      type. */
  lemma NoteHeaderFields(n: Note)
    requires Packable(n)
    ensures U32At(NoteHeader(n), 0) == |n.name| + 1
    ensures U32At(NoteHeader(n), 4) == |n.descriptor|
    ensures U32At(NoteHeader(n), 8) == n.noteType
  {
    var vs: seq<u32> := [|n.name| + 1, |n.descriptor|, n.noteType];
    PackU32sAt(vs, 0);
    PackU32sAt(vs, 1);
    PackU32sAt(vs, 2);
  }

  /** A reader of one note record at the front of s: the three header
      fields, the name without its NUL, the descriptor, and the length of
      the record with its padding. */
  function ParseNote(s: seq<byte>): (r: Option<(Note, nat)>)
    ensures r.Some? ==> 12 <= r.value.1 <= |s|
  {
    if |s| < 12 then None
    else
      var namesz, descsz, noteType := U32At(s, 0), U32At(s, 4), U32At(s, 8);
      var descOff := 12 + RoundUp4(namesz);
      var end := descOff + RoundUp4(descsz);
      if namesz == 0 || end > |s| then None
      else Some((Note(AsciiChars(s[12..12 + namesz - 1]), noteType, s[descOff..descOff + descsz]), end))
  }

  /** The name bytes of a record, without the NUL, are the name. */
  lemma NameReadBack(n: Note, s: seq<byte>)
    requires Packable(n)
    requires DescOffset(n) <= |s| && s[12..DescOffset(n)] == NameBytes(n) + Zeros(PadLen(|n.name| + 1))
    ensures AsciiChars(s[12..12 + |n.name|]) == n.name
  {
    SliceOfSlice(s, 12, DescOffset(n), 0, |n.name|);
    assert (NameBytes(n) + Zeros(PadLen(|n.name| + 1)))[0..|n.name|] == AsciiBytes(n.name);
    AsciiRoundTrip(n.name);
  }

  /** The descriptor bytes of a record are the descriptor. */
  lemma DescriptorReadBack(n: Note, s: seq<byte>, end: nat)
    requires Packable(n)
    requires DescOffset(n) <= end <= |s|
    requires s[DescOffset(n)..end] == n.descriptor + Zeros(PadLen(|n.descriptor|))
    ensures s[DescOffset(n)..DescOffset(n) + |n.descriptor|] == n.descriptor
  {
    SliceOfSlice(s, DescOffset(n), end, 0, |n.descriptor|);
    assert (n.descriptor + Zeros(PadLen(|n.descriptor|)))[0..|n.descriptor|] == n.descriptor;
  }

  /** Reading a serialised note back gives the note and the record's
      length, whatever follows it. */
  lemma ParseSerialized(n: Note, rest: seq<byte>)
    requires Packable(n)
    ensures ParseNote(Serialized(n) + rest) == Some((n, |Serialized(n)|))
  {
    var s := Serialized(n) + rest;
    SerializedLength(n);
    NoteParts(n, rest);
    NoteHeaderFields(n);
    U32AtSlice(s, 0, 12, 0);
    U32AtSlice(s, 0, 12, 4);
    U32AtSlice(s, 0, 12, 8);
    NameReadBack(n, s);
    DescriptorReadBack(n, s, |Serialized(n)|);
  }

  // ---------------------------------------------------------------------
  // The note section

  predicate AllPackable(ns: seq<Note>) {
    forall i :: 0 <= i < |ns| ==> Packable(ns[i])
  }

  /** The records of ns, in order. */
  function SerializeAll(ns: seq<Note>): seq<byte>
    requires AllPackable(ns)
  {
    if ns == [] then [] else Serialized(ns[0]) + SerializeAll(ns[1..])
  }

  /** Appending a note appends its record. */
  lemma {:induction false} SerializeAllSnoc(ns: seq<Note>, n: Note)
    requires AllPackable(ns) && Packable(n)
    ensures AllPackable(ns + [n])
    ensures SerializeAll(ns + [n]) == SerializeAll(ns) + Serialized(n)
  {
    if ns != [] {
      assert (ns + [n])[1..] == ns[1..] + [n];
      SerializeAllSnoc(ns[1..], n);
    }
  }

  /** A reader of a whole section: one record after another until the
      bytes run out. */
  function ParseNotes(s: seq<byte>): Option<seq<Note>>
    decreases |s|
  {
    if s == [] then Some([])
    else
      match ParseNote(s)
      case None => None
      case Some((n, len)) =>
        match ParseNotes(s[len..])
        case None => None
        case Some(ns) => Some([n] + ns)
  }

  /** Reading a section's bytes back gives its notes, in order. */
  lemma {:induction false} ParseSerializeAll(ns: seq<Note>)
    requires AllPackable(ns)
    ensures ParseNotes(SerializeAll(ns)) == Some(ns)
  {
    if ns != [] {
      var s, rest := SerializeAll(ns), SerializeAll(ns[1..]);
      ParseSerialized(ns[0], rest);
      assert s[|Serialized(ns[0])|..] == rest;
      ParseSerializeAll(ns[1..]);
      ParseNotesStep(s, ns[0], |Serialized(ns[0])|, ns[1..]);
      assert [ns[0]] + ns[1..] == ns;
    }
  }

  /** The section reader takes one record, then reads on after it. */
  lemma ParseNotesStep(s: seq<byte>, n: Note, len: nat, ns: seq<Note>)
    requires ParseNote(s) == Some((n, len)) && ParseNotes(s[len..]) == Some(ns)
    ensures ParseNotes(s) == Some([n] + ns)
  {
  }

  /** The caller's list of registers, which add_prstatus extends in
      place. */
  class RegisterList {
    var items: seq<u32>

    constructor (items: seq<u32>)
      ensures this.items == items
    {
      this.items := items;
    }
  }

  /** `NoteSection`: the notes added so far and the bytes of their
      records. */
  class NoteSection {
    var notes: seq<Note>
    var data: seq<byte>

    /** data is always the records of notes, in order. */
    ghost predicate Valid()
      reads this
    {
      AllPackable(notes) && data == SerializeAll(notes)
    }

    constructor ()
      ensures notes == [] && data == []
      ensures Valid()
    {
      notes := [];
      data := [];
    }

    /** `add_note`: one more note, its record appended to data. */
    method AddNote(name: string, noteType: u32, descriptor: seq<byte>)
      requires Valid() && Packable(Note(name, noteType, descriptor))
      modifies this
      ensures notes == old(notes) + [Note(name, noteType, descriptor)]
      ensures data == old(data) + Serialized(Note(name, noteType, descriptor))
      ensures Valid()
    {
      var n := Note(name, noteType, descriptor);
      SerializeAllSnoc(notes, n);
      notes := notes + [n];
      var record := Serialize(n);
      data := data + record;
    }

    /** `add_prstatus`: the register count must be 17 or 18 (otherwise the
        assertion fails, ok is false and nothing changes); 17 registers get
        a zero FPSCR appended to the caller's list and fpvalid 0, 18 get
        fpvalid 1; the 148-byte descriptor is added as a "CORE" note of
        type NT_PRSTATUS. */
    method AddPrstatus(pid: u32, sig: u16, regs: RegisterList) returns (ok: bool)
      requires Valid()
      modifies this, regs
      ensures ok <==> |old(regs.items)| == 17 || |old(regs.items)| == 18
      ensures !ok ==> notes == old(notes) && data == old(data) && regs.items == old(regs.items)
      ensures ok ==> regs.items == PrstatusRegs(old(regs.items))
      ensures ok ==> notes == old(notes) + [PrstatusNote(pid, sig, old(regs.items))]
      ensures ok ==> data == old(data) + Serialized(PrstatusNote(pid, sig, old(regs.items)))
      ensures Valid()
    {
      if !(|regs.items| == 17 || |regs.items| == 18) {
        return false;
      }
      var fpvalid := |regs.items| == 18;
      if !fpvalid {
        regs.items := regs.items + [0];
      }
      var desc := PrstatusDesc(pid, sig, regs.items, fpvalid);
      assert IsAscii(CORE_NAME);
      AddNote(CORE_NAME, NT_PRSTATUS, desc);
      ok := true;
    }

    /** `add_prpsinfo`: the 124-byte descriptor holding the process name and
        command line, added as a "CORE" note of type NT_PRPSINFO. */
    method AddPrpsinfo(name: string, cmdline: string)
      requires Valid() && IsAscii(name) && IsAscii(cmdline)
      modifies this
      ensures notes == old(notes) + [PrpsinfoNote(name, cmdline)]
      ensures data == old(data) + Serialized(PrpsinfoNote(name, cmdline))
      ensures Valid()
    {
      var desc := PrpsinfoDesc(name, cmdline);
      assert IsAscii(CORE_NAME);
      AddNote(CORE_NAME, NT_PRPSINFO, desc);
    }
  }

  /** A valid section's bytes read back as its notes. */
  lemma SectionReadsBack(notes: seq<Note>, data: seq<byte>)
    requires AllPackable(notes) && data == SerializeAll(notes)
    ensures ParseNotes(data) == Some(notes)
    ensures |data| % 4 == 0
  {
    ParseSerializeAll(notes);
    SerializeAllAligned(notes);
  }

  /** Every record is a multiple of 4 bytes long, so each starts on a
      4-byte boundary of the section. */
  lemma {:induction false} SerializeAllAligned(ns: seq<Note>)
    requires AllPackable(ns)
    ensures |SerializeAll(ns)| % 4 == 0
  {
    if ns != [] {
      SerializedLength(ns[0]);
      SerializeAllAligned(ns[1..]);
      Mod4Sum(|Serialized(ns[0])|, |SerializeAll(ns[1..])|);
    }
  }

  // ---------------------------------------------------------------------
  // The NT_PRSTATUS and NT_PRPSINFO descriptors

  const NT_PRSTATUS: u32 := 1
  const NT_PRPSINFO: u32 := 3
  const CORE_NAME: string := "CORE"

  /** The registers add_prstatus packs: the 18 given, or the 17 given and a
      zero FPSCR. */
  function PrstatusRegs(regs: seq<u32>): (r: seq<u32>)
    requires |regs| == 17 || |regs| == 18
    ensures |r| == 18 && r[..17] == regs[..17]
    ensures r[17] == if |regs| == 18 then regs[17] else 0
  {
    if |regs| == 17 then regs + [0] else regs
  }

  /** The 72 bytes before the registers: 12 zeros, pr_cursig, 10 zeros,
      pr_pid, 44 zeros. */
  function PrstatusHead(pid: u32, sig: u16): (h: seq<byte>)
    ensures |h| == 72
  {
    Zeros(12) + PackU16s([sig]) + Zeros(10) + PackU32s([pid]) + Zeros(44)
  }

  /** struct.pack('<12xH10xL44x18LL', sig, pid, *regs, fpvalid) */
  function PrstatusDesc(pid: u32, sig: u16, regs18: seq<u32>, fpvalid: bool): (d: seq<byte>)
    requires |regs18| == 18
    ensures |d| == 148
  {
    PrstatusHead(pid, sig) + PackU32s(regs18 + [if fpvalid then 1 else 0])
  }

  /** The head of the descriptor: zeros around sig at 12 and pid at 24. */
  lemma PrstatusHeadLayout(pid: u32, sig: u16)
    ensures var h := PrstatusHead(pid, sig);
      && h[0..12] == Zeros(12) && U16At(h, 12) == sig
      && h[14..24] == Zeros(10) && U32At(h, 24) == pid
      && h[28..72] == Zeros(44)
  {
    var a := Zeros(12) + PackU16s([sig]);
    var b := a + Zeros(10);
    var c := b + PackU32s([pid]);
    PackU16sAt([sig], 0);
    PackU32sAt([pid], 0);
    U16AtSkip(Zeros(12), PackU16s([sig]), 0);
    U16AtPrefix(a, Zeros(10), 12);
    U16AtPrefix(b, PackU32s([pid]), 12);
    U16AtPrefix(c, Zeros(44), 12);
    U32AtSkip(b, PackU32s([pid]), 0);
    U32AtPrefix(c, Zeros(44), 24);
    SliceInPrefix(Zeros(12), PackU16s([sig]), 0, 12);
    SliceInPrefix(a, Zeros(10), 0, 12);
    SliceInPrefix(b, PackU32s([pid]), 0, 12);
    SliceInPrefix(c, Zeros(44), 0, 12);
    SliceAfter(a, Zeros(10), 0, |Zeros(10)|);
    SliceInPrefix(b, PackU32s([pid]), 14, 24);
    SliceInPrefix(c, Zeros(44), 14, 24);
    SliceAfter(c, Zeros(44), 0, |Zeros(44)|);
  }

  /** The NT_PRSTATUS descriptor: bytes 0-11 zero, the u16 sig at 12, ten
      zero bytes, pid at 24, 44 zero bytes, the 18 registers at 72-143 and
      fpvalid at 144. */
  lemma PrstatusLayout(pid: u32, sig: u16, regs18: seq<u32>, fpvalid: bool)
    requires |regs18| == 18
    ensures var d := PrstatusDesc(pid, sig, regs18, fpvalid);
      && d[0..12] == Zeros(12) && U16At(d, 12) == sig
      && d[14..24] == Zeros(10) && U32At(d, 24) == pid
      && d[28..72] == Zeros(44)
      && (forall k :: 0 <= k < 18 ==> U32At(d, 72 + 4 * k) == regs18[k])
      && U32At(d, 144) == if fpvalid then 1 else 0
  {
    var h, vs := PrstatusHead(pid, sig), regs18 + [if fpvalid then 1 else 0];
    var r := PackU32s(vs);
    PrstatusHeadLayout(pid, sig);
    U16AtPrefix(h, r, 12);
    U32AtPrefix(h, r, 24);
    SliceInPrefix(h, r, 0, 12);
    SliceInPrefix(h, r, 14, 24);
    SliceInPrefix(h, r, 28, 72);
    forall k | 0 <= k < 18
      ensures U32At(h + r, 72 + 4 * k) == regs18[k]
    {
      U32AtSkip(h, r, 4 * k);
      PackU32sAt(vs, k);
    }
    U32AtSkip(h, r, 4 * 18);
    PackU32sAt(vs, 18);
  }

  /** The note add_prstatus adds for the registers it is given. */
  function PrstatusNote(pid: u32, sig: u16, regs: seq<u32>): Note
    requires |regs| == 17 || |regs| == 18
  {
    Note(CORE_NAME, NT_PRSTATUS, PrstatusDesc(pid, sig, PrstatusRegs(regs), |regs| == 18))
  }

  /** `struct.pack('15s', b)`: b truncated, or padded with zeros, to n
      bytes. */
  function FixedField(b: seq<byte>, n: nat): (r: seq<byte>)
    ensures |r| == n
  {
    if |b| >= n then b[..n] else b + Zeros(n - |b|)
  }

  /** struct.pack('<28x15sx79sx', name.encode(), cmdline.encode()) */
  function PrpsinfoDesc(name: string, cmdline: string): (d: seq<byte>)
    requires IsAscii(name) && IsAscii(cmdline)
    ensures |d| == 124
  {
    Zeros(28) + FixedField(AsciiBytes(name), 15) + [0] + FixedField(AsciiBytes(cmdline), 79) + [0]
  }

  /** The NT_PRPSINFO descriptor: 28 zero bytes, pr_fname at 28 with a zero
      at 43, pr_psargs at 44 with a zero at 123. */
  lemma PrpsinfoLayout(name: string, cmdline: string)
    requires IsAscii(name) && IsAscii(cmdline)
    ensures var d := PrpsinfoDesc(name, cmdline);
      && d[0..28] == Zeros(28)
      && d[28..43] == FixedField(AsciiBytes(name), 15) && d[43] == 0
      && d[44..123] == FixedField(AsciiBytes(cmdline), 79) && d[123] == 0
  {
    var f1, f2 := FixedField(AsciiBytes(name), 15), FixedField(AsciiBytes(cmdline), 79);
    var a := Zeros(28) + f1;
    var b := a + [0];
    var c := b + f2;
    SliceInPrefix(Zeros(28), f1, 0, 28);
    SliceInPrefix(a, [0], 0, 28);
    SliceInPrefix(b, f2, 0, 28);
    SliceInPrefix(c, [0], 0, 28);
    SliceAfter(Zeros(28), f1, 0, |f1|);
    SliceInPrefix(a, [0], 28, 43);
    SliceInPrefix(b, f2, 28, 43);
    SliceInPrefix(c, [0], 28, 43);
    SliceAfter(b, f2, 0, |f2|);
    SliceInPrefix(c, [0], 44, 123);
  }

  /** The note add_prpsinfo adds. */
  function PrpsinfoNote(name: string, cmdline: string): Note
    requires IsAscii(name) && IsAscii(cmdline)
  {
    Note(CORE_NAME, NT_PRPSINFO, PrpsinfoDesc(name, cmdline))
  }

  /** The bytes of a C string field up to its first NUL. */
  function CString(s: seq<byte>): (r: seq<byte>)
    ensures |r| <= |s|
  {
    if s == [] || s[0] == 0 then [] else [s[0]] + CString(s[1..])
  }

  predicate NoNul(b: seq<byte>) {
    forall i :: 0 <= i < |b| ==> b[i] != 0
  }

  /** A string without NUL bytes, followed by a NUL, reads back as
      itself. */
  lemma {:induction false} CStringOf(b: seq<byte>, rest: seq<byte>)
    requires NoNul(b) && rest != [] && rest[0] == 0
    ensures CString(b + rest) == b
  {
    if b != [] {
      assert (b + rest)[1..] == b[1..] + rest;
      CStringOf(b[1..], rest);
    } else {
      assert b + rest == rest;
    }
  }

  /** A fixed field followed by a NUL reads back as the string, truncated to
      the field: the pad byte after pr_fname and pr_psargs ends the C string
      even when struct.pack truncated it. */
  lemma FixedFieldReadBack(b: seq<byte>, n: nat)
    requires NoNul(b)
    ensures CString(FixedField(b, n) + [0]) == b[..if |b| < n then |b| else n]
  {
    if |b| >= n {
      CStringOf(b[..n], [0]);
    } else {
      assert FixedField(b, n) + [0] == b + (Zeros(n - |b|) + [0]);
      CStringOf(b, Zeros(n - |b|) + [0]);
      assert b[..|b|] == b;
    }
  }

  /** Read as C strings, pr_fname and pr_psargs give back the name and the
      command line, truncated to 15 and 79 bytes. */
  lemma PrpsinfoReadBack(name: string, cmdline: string)
    requires IsAscii(name) && IsAscii(cmdline)
    requires NoNul(AsciiBytes(name)) && NoNul(AsciiBytes(cmdline))
    ensures var d := PrpsinfoDesc(name, cmdline);
      && CString(d[28..44]) == AsciiBytes(name)[..if |name| < 15 then |name| else 15]
      && CString(d[44..124]) == AsciiBytes(cmdline)[..if |cmdline| < 79 then |cmdline| else 79]
  {
    var d := PrpsinfoDesc(name, cmdline);
    var f1, f2 := FixedField(AsciiBytes(name), 15), FixedField(AsciiBytes(cmdline), 79);
    PrpsinfoLayout(name, cmdline);
    assert d[28..44] == f1 + [0];
    assert d[44..124] == f2 + [0];
    FixedFieldReadBack(AsciiBytes(name), 15);
    FixedFieldReadBack(AsciiBytes(cmdline), 79);
  }
}
