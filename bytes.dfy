/** Byte-level vocabulary shared by the ELF core and note encoders: the
    fixed-width unsigned integers that Python's `struct` packs with the `<`
    (little-endian, no alignment) prefix, their encoders and decoders, runs of
    zero bytes, and ASCII text as bytes. */
module Bytes {

  type byte = x: int | 0 <= x < 0x100
  type u16 = x: int | 0 <= x < 0x1_0000
  type u32 = x: int | 0 <= x < 0x1_0000_0000

  datatype Option<+T> = None | Some(value: T)

  /** `b'\x00' * n` */
  function Zeros(n: nat): (r: seq<byte>)
    ensures |r| == n
    ensures forall i :: 0 <= i < n ==> r[i] == 0
  {
    seq(n, _ => 0)
  }

  predicate AllZero(s: seq<byte>) {
    forall i :: 0 <= i < |s| ==> s[i] == 0
  }

  /** The low `width` bytes of x, least significant first. */
  function LittleEndian(x: nat, width: nat): (r: seq<byte>)
    ensures |r| == width
  {
    if width == 0 then [] else [x % 0x100] + LittleEndian(x / 0x100, width - 1)
  }

  /** `struct.pack('<H', x)` */
  function EncodeU16(x: u16): (r: seq<byte>)
    ensures |r| == 2
  {
    LittleEndian(x, 2)
  }

  /** `struct.pack('<L', x)` */
  function EncodeU32(x: u32): (r: seq<byte>)
    ensures |r| == 4
  {
    LittleEndian(x, 4)
  }

  /** The two bytes of a packed u16. */
  lemma EncodeU16Bytes(x: u16)
    ensures EncodeU16(x) == [x % 0x100, x / 0x100]
  {
    var q := x / 0x100;
    assert LittleEndian(q, 1) == [q % 0x100] + LittleEndian(q / 0x100, 0);
    assert q % 0x100 == q;
  }

  /** The four bytes of a packed u32. */
  lemma EncodeU32Bytes(x: u32)
    ensures EncodeU32(x) == [x % 0x100, (x / 0x100) % 0x100, (x / 0x1_0000) % 0x100, x / 0x100_0000]
  {
    var q1, q2, q3 := x / 0x100, x / 0x1_0000, x / 0x100_0000;
    assert q1 / 0x100 == q2 && q2 / 0x100 == q3 && q3 % 0x100 == q3;
    assert LittleEndian(q3, 1) == [q3 % 0x100] + LittleEndian(q3 / 0x100, 0);
    assert LittleEndian(q2, 2) == [q2 % 0x100] + LittleEndian(q3, 1);
    assert LittleEndian(q1, 3) == [q1 % 0x100] + LittleEndian(q2, 2);
    assert LittleEndian(x, 4) == [x % 0x100] + LittleEndian(q1, 3);
  }

  /** `struct.unpack_from('<H', s, k)`: the two little-endian bytes at k. */
  function U16At(s: seq<byte>, k: nat): u16
    requires k + 2 <= |s|
  {
    s[k] as int + 0x100 * s[k + 1] as int
  }

  /** `struct.unpack_from('<L', s, k)`: the four little-endian bytes at k. */
  function U32At(s: seq<byte>, k: nat): u32
    requires k + 4 <= |s|
  {
    U16At(s, k) + 0x1_0000 * U16At(s, k + 2)
  }

  /** A u16 read inside the slice s[lo..hi] is the u16 at the same place in s. */
  lemma U16AtSlice(s: seq<byte>, lo: nat, hi: nat, k: nat)
    requires lo <= hi <= |s| && k + 2 <= hi - lo
    ensures U16At(s, lo + k) == U16At(s[lo..hi], k)
  {
    assert s[lo..hi][k] == s[lo + k] && s[lo..hi][k + 1] == s[lo + k + 1];
  }

  /** A u32 read inside the slice s[lo..hi] is the u32 at the same place in s. */
  lemma U32AtSlice(s: seq<byte>, lo: nat, hi: nat, k: nat)
    requires lo <= hi <= |s| && k + 4 <= hi - lo
    ensures U32At(s, lo + k) == U32At(s[lo..hi], k)
  {
    U16AtSlice(s, lo, hi, k);
    U16AtSlice(s, lo, hi, k + 2);
  }

  /** x is the sum of its four base-256 digits, as EncodeU32 lists them. */
  lemma U32Digits(x: u32)
    ensures x == x % 0x100 + 0x100 * ((x / 0x100) % 0x100)
                 + 0x1_0000 * ((x / 0x1_0000) % 0x100 + 0x100 * (x / 0x100_0000))
  {
    var q1, q2, q3 := x / 0x100, x / 0x1_0000, x / 0x100_0000;
    assert x == x % 0x100 + 0x100 * q1;
    assert q1 == q1 % 0x100 + 0x100 * q2;
    assert q2 == q2 % 0x100 + 0x100 * q3;
  }

  /** A packed u16 at the front of a byte string reads back as itself. */
  lemma EncodeU16ReadBack(x: u16, rest: seq<byte>)
    ensures U16At(EncodeU16(x) + rest, 0) == x
  {
    var s := EncodeU16(x) + rest;
    EncodeU16Bytes(x);
    assert s[0] == x % 0x100 && s[1] == x / 0x100;
  }

  /** A packed u32 at the front of a byte string reads back as itself. */
  lemma EncodeU32ReadBack(x: u32, rest: seq<byte>)
    ensures U32At(EncodeU32(x) + rest, 0) == x
  {
    var s := EncodeU32(x) + rest;
    EncodeU32Bytes(x);
    assert s[0] == x % 0x100 && s[1] == (x / 0x100) % 0x100;
    assert s[2] == (x / 0x1_0000) % 0x100 && s[3] == x / 0x100_0000;
    U32Digits(x);
  }

  /** A u16 read past a prefix a is read from what follows a. */
  lemma U16AtSkip(a: seq<byte>, b: seq<byte>, k: nat)
    requires k + 2 <= |b|
    ensures U16At(a + b, |a| + k) == U16At(b, k)
  {
    assert (a + b)[|a| + k] == b[k] && (a + b)[|a| + k + 1] == b[k + 1];
  }

  /** A u32 read past a prefix a is read from what follows a. */
  lemma U32AtSkip(a: seq<byte>, b: seq<byte>, k: nat)
    requires k + 4 <= |b|
    ensures U32At(a + b, |a| + k) == U32At(b, k)
  {
    U16AtSkip(a, b, k);
    U16AtSkip(a, b, k + 2);
  }

  /** A u16 read inside a prefix a is read from a alone. */
  lemma U16AtPrefix(a: seq<byte>, b: seq<byte>, k: nat)
    requires k + 2 <= |a|
    ensures U16At(a + b, k) == U16At(a, k)
  {
    assert (a + b)[k] == a[k] && (a + b)[k + 1] == a[k + 1];
  }

  /** A u32 read inside a prefix a is read from a alone. */
  lemma U32AtPrefix(a: seq<byte>, b: seq<byte>, k: nat)
    requires k + 4 <= |a|
    ensures U32At(a + b, k) == U32At(a, k)
  {
    U16AtPrefix(a, b, k);
    U16AtPrefix(a, b, k + 2);
  }

  /** A slice of a + b inside the prefix a is the same slice of a. */
  lemma SliceInPrefix(a: seq<byte>, b: seq<byte>, lo: nat, hi: nat)
    requires lo <= hi <= |a|
    ensures (a + b)[lo..hi] == a[lo..hi]
  {
  }

  /** A slice of b + c taken past b is the same slice of c. */
  lemma SliceAfter(b: seq<byte>, c: seq<byte>, k: nat, n: nat)
    requires k + n <= |c|
    ensures (b + c)[|b| + k..|b| + k + n] == c[k..k + n]
  {
  }

  /** The same, with the positions in b + c given as they are written at
      the caller. */
  lemma SliceAfterAt(b: seq<byte>, c: seq<byte>, lo: nat, hi: nat, plo: nat, phi: nat)
    requires lo <= hi <= |c| && plo == |b| + lo && phi == |b| + hi
    ensures (b + c)[plo..phi] == c[lo..hi]
  {
  }

  /** A slice of a slice is a slice of the whole. */
  lemma SliceOfSlice(s: seq<byte>, lo: nat, hi: nat, a: nat, b: nat)
    requires lo <= hi <= |s| && a <= b <= hi - lo
    ensures s[lo..hi][a..b] == s[lo + a..lo + b]
  {
    forall k | 0 <= k < b - a
      ensures s[lo..hi][a..b][k] == s[lo + a..lo + b][k]
    {
      assert s[lo..hi][a..b][k] == s[lo..hi][a + k] == s[lo + a + k];
    }
  }

  /** Every byte inside a run of zeros is zero. */
  lemma ZeroInRun(s: seq<byte>, lo: nat, n: nat, k: nat)
    requires lo + n <= |s| && s[lo..lo + n] == Zeros(n) && lo <= k < lo + n
    ensures s[k] == 0
  {
    assert s[k] == s[lo..lo + n][k - lo];
  }

  /** The first and middle parts of a + b + c are a and b. */
  lemma PartsOfConcat(a: seq<byte>, b: seq<byte>, c: seq<byte>)
    ensures (a + b + c)[0..|a|] == a
    ensures (a + b + c)[|a|..|a| + |b|] == b
  {
    assert a + b + c == a + (b + c);
    assert (a + (b + c))[|a|..] == b + c;
    assert (b + c)[..|b|] == b;
  }

  /** Three writes after s hold what one write of their concatenation
      would. */
  lemma Regroup(s: seq<byte>, a: seq<byte>, b: seq<byte>, c: seq<byte>)
    ensures ((s + a) + b) + c == s + (a + b + c)
  {
  }

  /** `struct.pack('<' + 'H' * len(xs), *xs)` */
  function PackU16s(xs: seq<u16>): (r: seq<byte>)
    ensures |r| == 2 * |xs|
  {
    if xs == [] then [] else EncodeU16(xs[0]) + PackU16s(xs[1..])
  }

  /** `struct.pack('<' + 'L' * len(xs), *xs)` */
  function PackU32s(xs: seq<u32>): (r: seq<byte>)
    ensures |r| == 4 * |xs|
  {
    if xs == [] then [] else EncodeU32(xs[0]) + PackU32s(xs[1..])
  }

  /** Field i of a packed run of u16s reads back as xs[i]. */
  lemma {:induction false} PackU16sAt(xs: seq<u16>, i: nat)
    requires i < |xs|
    ensures U16At(PackU16s(xs), 2 * i) == xs[i]
  {
    if i == 0 {
      EncodeU16ReadBack(xs[0], PackU16s(xs[1..]));
    } else {
      PackU16sAt(xs[1..], i - 1);
      U16AtSkip(EncodeU16(xs[0]), PackU16s(xs[1..]), 2 * (i - 1));
    }
  }

  /** Field i of a packed run of u32s reads back as xs[i]. */
  lemma {:induction false} PackU32sAt(xs: seq<u32>, i: nat)
    requires i < |xs|
    ensures U32At(PackU32s(xs), 4 * i) == xs[i]
  {
    if i == 0 {
      EncodeU32ReadBack(xs[0], PackU32s(xs[1..]));
    } else {
      PackU32sAt(xs[1..], i - 1);
      U32AtSkip(EncodeU32(xs[0]), PackU32s(xs[1..]), 4 * (i - 1));
    }
  }

  predicate IsAscii(s: string) {
    forall i :: 0 <= i < |s| ==> s[i] as int < 0x80
  }

  /** `s.encode()` for an ASCII string: one byte per character, its code. */
  function AsciiBytes(s: string): (r: seq<byte>)
    requires IsAscii(s)
    ensures |r| == |s|
    ensures forall i :: 0 <= i < |s| ==> r[i] == s[i] as int
  {
    seq(|s|, i requires 0 <= i < |s| => s[i] as int)
  }

  /** `b.decode()` for ASCII bytes. */
  function AsciiChars(b: seq<byte>): (r: string)
    ensures |r| == |b|
    ensures forall i :: 0 <= i < |b| ==> r[i] as int == b[i]
  {
    seq(|b|, i requires 0 <= i < |b| => b[i] as char)
  }

  /** Decoding the encoding of an ASCII string gives back the string. */
  lemma AsciiRoundTrip(s: string)
    requires IsAscii(s)
    ensures AsciiChars(AsciiBytes(s)) == s
  {
  }
}
