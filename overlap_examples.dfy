/**
  Two small files on which `align_elf_load_segments`, which never checks
  `e_phentsize`, lets one program header entry's write change another
  entry's bytes, because the entries overlap.
 */
module OverlapExamples {
  import opened Bytes
  import opened ElfHeader
  import opened PatchSpec
  import opened PatchProperties

  /** `n` zero bytes. */
  function Zeros(n: nat): (z: seq<Byte>)
    ensures |z| == n && forall k :: 0 <= k < n ==> z[k] == 0
  {
    seq(n, k => 0)
  }

  /** `p_type` PT_LOAD, little-endian. */
  const LoadType: seq<Byte> := [1, 0, 0, 0]
  /** `p_type` 0 (PT_NULL). */
  const NullType: seq<Byte> := [0, 0, 0, 0]
  /** A zero `p_align` of a 64-bit entry. */
  const ZeroAlign: seq<Byte> := [0, 0, 0, 0, 0, 0, 0, 0]
  /** `struct.pack('<Q', 16384)`. */
  const PageAlign: seq<Byte> := [0, 64, 0, 0, 0, 0, 0, 0]
  /** `struct.pack('<Q', 65536)`. */
  const BigPageAlign: seq<Byte> := [0, 0, 1, 0, 0, 0, 0, 0]

  /** Bytes that are all zero decode to 0. */
  lemma {:induction false} ZerosDecode(z: seq<Byte>)
    requires forall k :: 0 <= k < |z| ==> z[k] == 0
    ensures DecodeLE(z) == 0
  {
    if z != [] {
      ZerosDecode(z[1..]);
    }
  }

  /** The default page size packed as `<Q`. */
  lemma PageAlignEncodes()
    ensures Encode(DefaultPageSize, 8, true) == PageAlign
  {
    ZerosDecode(PageAlign[2..]);
    assert PageAlign[1..][1..] == PageAlign[2..];
    assert DecodeLE(PageAlign) == 16384;
    EncodeDecode(PageAlign, true);
  }

  /** 65536 packed as `<Q`. */
  lemma BigPageAlignEncodes()
    ensures Encode(65536, 8, true) == BigPageAlign
  {
    ZerosDecode(BigPageAlign[3..]);
    assert BigPageAlign[1..][1..] == BigPageAlign[2..];
    assert BigPageAlign[2..][1..] == BigPageAlign[3..];
    assert DecodeLE(BigPageAlign) == 65536;
    EncodeDecode(BigPageAlign, true);
  }

  /**
    A 64-bit little-endian PT_LOAD entry whose `p_align` reads 0 gets any
    positive `page` that fits written over that field.
   */
  lemma StepWrites(s: seq<Byte>, g: Geometry, page: int, i: nat)
    requires i < g.phnum && g.is64 && g.little
    requires TypeBytes(s, g, i) == LoadType && AlignBytes(s, g, i) == ZeroAlign
    requires 0 < page < Pow256(8)
    ensures StepAt(s, g, page, i) == Next(Overwrite(s, g.AlignStart(i), Encode(page, 8, true)), true)
  {
    assert DecodeLE(LoadType) == PtLoad;
    ZerosDecode(ZeroAlign);
  }

  /** An entry that needs a write gets `page` written over its `p_align`, when `page` fits. */
  lemma NeedsPatchWrites(s: seq<Byte>, g: Geometry, page: int, i: nat)
    requires NeedsPatch(s, g, page, i) && 0 <= page < Pow256(g.AlignWidth())
    ensures StepAt(s, g, page, i) == Next(Overwrite(s, g.AlignStart(i), Encode(page, g.AlignWidth(), g.little)), true)
  {
    StepAtCases(s, g, page, i);
  }

  /**
    An entry that reads PT_LOAD and whose in-file `p_align` holds bytes
    `f` that do not encode `page` is one the aligner must rewrite.
   */
  lemma NeedsPatchAt(s: seq<Byte>, g: Geometry, page: int, i: nat, f: seq<Byte>)
    requires i < g.phnum && g.is64 && g.little && 0 <= page < Pow256(8)
    requires TypeBytes(s, g, i) == LoadType && AlignBytes(s, g, i) == f && |f| == 8
    requires f != Encode(page, 8, true)
    ensures NeedsPatch(s, g, page, i)
  {
    assert DecodeLE(LoadType) == PtLoad;
    EncodeDecode(f, true);
  }

  /**
    A call on a file with two entries that both get written returns the
    bytes after the second write and reports `Aligned`.
   */
  lemma TwoWrites(s: seq<Byte>, g: Geometry, page: int, t1: seq<Byte>, t2: seq<Byte>)
    requires HeaderOf(s) == Parsed(g) && g.phnum == 2
    requires StepAt(s, g, page, 0) == Next(t1, true) && StepAt(t1, g, page, 1) == Next(t2, true)
    ensures Align(s, page) == Patched(t2, Aligned)
  {
    assert Walk(t1, g, page, 1, true) == Patched(t2, Aligned);
  }

  /** Writes past the first 64 bytes leave the header as it was read. */
  lemma HeaderKept(s: seq<Byte>, t: seq<Byte>)
    requires |s| == |t| && forall k :: 0 <= k < HeaderReadSize && k < |s| ==> t[k] == s[k]
    ensures HeaderOf(t) == HeaderOf(s)
  {
    SliceAgree(t, s, 0, HeaderReadSize);
  }

  /** A call on bytes with an entry to rewrite writes and reports `Aligned`. */
  lemma WritesAgain(t: seq<Byte>, g: Geometry, page: int, i: nat)
    requires HeaderOf(t) == Parsed(g) && 0 <= page < Pow256(g.AlignWidth())
    requires NeedsPatch(t, g, page, i)
    ensures Align(t, page).outcome == Aligned
  {
    AlignedIffNeedsPatch(t, page, g);
  }

  /** The 64-bit little-endian header `Magic + Zeros(60)` with geometry `g` written in. */
  function HeaderWith(g: Geometry): (h: seq<Byte>)
    requires g.is64 && g.little && g.Fits()
    ensures |h| == HeaderReadSize && ParseHeader(h) == Parsed(g)
  {
    ParseHeaderRoundTrip(Magic + Zeros(60), g);
    PutGeometry(Magic + Zeros(60), g)
  }

  /** A file whose first 64 bytes are `h` is read with `h`'s geometry. */
  lemma HeaderOfPrefix(s: seq<Byte>, h: seq<Byte>)
    requires |h| == HeaderReadSize <= |s| && s[..HeaderReadSize] == h
    ensures HeaderOf(s) == ParseHeader(h)
  {
    assert Slice(s, 0, HeaderReadSize) == h;
  }

  /**
    64-bit little-endian, `e_phoff` 64, `e_phentsize` 4, `e_phnum` 2: two
    PT_LOAD entries at 64 and 68, whose 8-byte `p_align` fields at 112 and
    116 overlap by 4 bytes and hold 0.
   */
  const Overlapping: Geometry := Geometry(true, true, 64, 4, 2)

  /** The bytes of such a file that the call reads past the header. */
  predicate OverlapBytes(s: seq<Byte>)
  {
    && |s| == 124
    && (forall k :: 0 <= k < 4 ==> s[64 + k] == LoadType[k] && s[68 + k] == LoadType[k])
    && (forall k :: 112 <= k < 124 ==> s[k] == 0)
  }

  /** A file with that layout: the header, the two entry types, then zeros. */
  function OverlappingFile(): (s: seq<Byte>)
    ensures OverlapBytes(s) && HeaderOf(s) == Parsed(Overlapping)
  {
    var h := HeaderWith(Overlapping);
    var s := h + LoadType + LoadType + Zeros(52);
    HeaderOfPrefix(s, h);
    s
  }

  /** The first call writes entry 0's `p_align`... */
  lemma OverlapFirstStep(s: seq<Byte>)
    requires OverlapBytes(s)
    ensures StepAt(s, Overlapping, DefaultPageSize, 0) == Next(Overwrite(s, 112, PageAlign), true)
  {
    FieldHeld(s, 64, LoadType);
    FieldHeld(s, 112, ZeroAlign);
    PageAlignEncodes();
    StepWrites(s, Overlapping, DefaultPageSize, 0);
  }

  /** ...and then entry 1's, which covers the upper half of entry 0's. */
  lemma OverlapSecondStep(s: seq<Byte>)
    requires OverlapBytes(s)
    ensures var t := Overwrite(s, 112, PageAlign);
      StepAt(t, Overlapping, DefaultPageSize, 1) == Next(Overwrite(t, 116, PageAlign), true)
  {
    var t := Overwrite(s, 112, PageAlign);
    assert forall k :: 68 <= k < 72 ==> t[k] == s[k];
    FieldHeld(t, 68, LoadType);
    assert forall k :: 120 <= k < 124 ==> t[k] == s[k];
    FieldHeld(t, 116, ZeroAlign);
    PageAlignEncodes();
    StepWrites(t, Overlapping, DefaultPageSize, 1);
  }

  /** Afterwards entry 0 is PT_LOAD and its `p_align` reads `00 40 00 00 00 40 00 00`. */
  lemma OverlapOutputNeedsPatch(s: seq<Byte>)
    requires OverlapBytes(s)
    ensures var t := Overwrite(Overwrite(s, 112, PageAlign), 116, PageAlign);
      NeedsPatch(t, Overlapping, DefaultPageSize, 0)
  {
    var t := Overwrite(Overwrite(s, 112, PageAlign), 116, PageAlign);
    assert forall k :: 64 <= k < 68 ==> t[k] == s[k];
    FieldHeld(t, 64, LoadType);
    var f: seq<Byte> := [0, 64, 0, 0, 0, 64, 0, 0];
    FieldHeld(t, 112, f);
    PageAlignEncodes();
    NeedsPatchAt(t, Overlapping, DefaultPageSize, 0, f);
  }

  /** The first call writes both entries and reports `Aligned`. */
  lemma OverlapFirstCall(s: seq<Byte>)
    requires OverlapBytes(s) && HeaderOf(s) == Parsed(Overlapping)
    ensures Align(s, DefaultPageSize)
      == Patched(Overwrite(Overwrite(s, 112, PageAlign), 116, PageAlign), Aligned)
  {
    OverlapFirstStep(s);
    OverlapSecondStep(s);
    TwoWrites(s, Overlapping, DefaultPageSize,
      Overwrite(s, 112, PageAlign), Overwrite(Overwrite(s, 112, PageAlign), 116, PageAlign));
  }

  /** A second call on those bytes reads the same header. */
  lemma OverlapOutputHeader(s: seq<Byte>)
    requires OverlapBytes(s) && HeaderOf(s) == Parsed(Overlapping)
    ensures HeaderOf(Overwrite(Overwrite(s, 112, PageAlign), 116, PageAlign)) == Parsed(Overlapping)
  {
    HeaderKept(s, Overwrite(Overwrite(s, 112, PageAlign), 116, PageAlign));
  }

  /**
    On those bytes, a second call's write to entry 0 zeroes the upper half
    of entry 1's `p_align`, so entry 1 is written again...
   */
  lemma OverlapRestoreStep(s: seq<Byte>)
    requires OverlapBytes(s)
    ensures var t3 := Overwrite(Overwrite(Overwrite(s, 112, PageAlign), 116, PageAlign), 112, PageAlign);
      StepAt(t3, Overlapping, DefaultPageSize, 1) == Next(Overwrite(t3, 116, PageAlign), true)
  {
    var t3 := Overwrite(Overwrite(Overwrite(s, 112, PageAlign), 116, PageAlign), 112, PageAlign);
    assert forall k :: 68 <= k < 72 ==> t3[k] == s[k];
    FieldHeld(t3, 68, LoadType);
    assert forall k :: 120 <= k < 124 ==> t3[k] == s[k];
    FieldHeld(t3, 116, ZeroAlign);
    PageAlignEncodes();
    StepWrites(t3, Overlapping, DefaultPageSize, 1);
  }

  /** ...which puts back exactly the bytes the first call left. */
  lemma OverlapRestored(s: seq<Byte>)
    requires OverlapBytes(s)
    ensures var t := Overwrite(Overwrite(s, 112, PageAlign), 116, PageAlign);
      Overwrite(Overwrite(t, 112, PageAlign), 116, PageAlign) == t
  {
    var t := Overwrite(Overwrite(s, 112, PageAlign), 116, PageAlign);
    var u := Overwrite(Overwrite(t, 112, PageAlign), 116, PageAlign);
    assert forall k :: 0 <= k < |t| ==> u[k] == t[k];
  }

  /**
    A second call on those bytes still finds entry 0 to rewrite, writes
    both entries again and reports `Aligned`, yet ends on the very bytes
    it was given.
   */
  lemma OverlapSecondCall(s: seq<Byte>)
    requires OverlapBytes(s) && HeaderOf(s) == Parsed(Overlapping)
    ensures var t := Overwrite(Overwrite(s, 112, PageAlign), 116, PageAlign);
      NeedsPatch(t, Overlapping, DefaultPageSize, 0) && Align(t, DefaultPageSize) == Patched(t, Aligned)
  {
    var t := Overwrite(Overwrite(s, 112, PageAlign), 116, PageAlign);
    OverlapOutputNeedsPatch(s);
    OverlapOutputHeader(s);
    PageAlignEncodes();
    NeedsPatchWrites(t, Overlapping, DefaultPageSize, 0);
    OverlapRestoreStep(s);
    OverlapRestored(s);
    TwoWrites(t, Overlapping, DefaultPageSize, Overwrite(t, 112, PageAlign), t);
  }

  /**
    On a file read with `Overlapping` geometry and `OverlapBytes`, with the
    default page size, the first call writes both entries. Entry 1's write
    covers half of entry 0's `p_align`, so entry 0 is still PT_LOAD
    afterwards, its `p_align` lies in the file, and it does not hold 16384.
    A second call on the output therefore writes again and reports
    `Aligned`, though its writes end on the bytes it was given: the call
    is not idempotent in what it reports, and a report of a write does not
    mean the file changed.
   */
  lemma OverlapNotIdempotent(s: seq<Byte>)
    requires OverlapBytes(s) && HeaderOf(s) == Parsed(Overlapping)
    ensures var out := Align(s, DefaultPageSize).bytes;
      && Align(s, DefaultPageSize).outcome == Aligned
      && NeedsPatch(out, Overlapping, DefaultPageSize, 0)
      && Align(out, DefaultPageSize) == Patched(out, Aligned)
  {
    OverlapFirstCall(s);
    OverlapSecondCall(s);
  }

  /**
    The 124-byte `OverlappingFile` is such a file: both calls report a
    write, and the second leaves the bytes as the first left them.
   */
  lemma AlignNotIdempotent()
    ensures var s := OverlappingFile(); var out := Align(s, DefaultPageSize).bytes;
      && Align(s, DefaultPageSize).outcome == Aligned
      && Align(out, DefaultPageSize) == Patched(out, Aligned)
  {
    OverlapNotIdempotent(OverlappingFile());
  }

  /**
    64-bit little-endian, `e_phoff` 64, `e_phentsize` 50, `e_phnum` 2:
    entry 0 is PT_LOAD with `p_align` 0 at 112, and entry 1's `p_type`
    (bytes 114 to 118) lies inside that field and reads 0.
   */
  const Straddling: Geometry := Geometry(true, true, 64, 50, 2)

  /** The bytes of such a file that the call reads past the header. */
  predicate StraddleBytes(s: seq<Byte>)
  {
    && |s| == 170
    && (forall k :: 0 <= k < 4 ==> s[64 + k] == LoadType[k])
    && (forall k :: 112 <= k < 170 ==> s[k] == 0)
  }

  /** A file with that layout: the header, entry 0's type, then zeros. */
  function StraddlingFile(): (s: seq<Byte>)
    ensures StraddleBytes(s) && HeaderOf(s) == Parsed(Straddling)
  {
    var h := HeaderWith(Straddling);
    var s := h + LoadType + Zeros(102);
    HeaderOfPrefix(s, h);
    s
  }

  /** Entry 0's write puts `01 00 00 00` where entry 1's `p_type` lies... */
  lemma StraddleFirstStep(s: seq<Byte>)
    requires StraddleBytes(s)
    ensures StepAt(s, Straddling, 65536, 0) == Next(Overwrite(s, 112, BigPageAlign), true)
  {
    FieldHeld(s, 64, LoadType);
    FieldHeld(s, 112, ZeroAlign);
    BigPageAlignEncodes();
    StepWrites(s, Straddling, 65536, 0);
  }

  /** ...so entry 1 now reads PT_LOAD and its `p_align` is written too. */
  lemma StraddleSecondStep(s: seq<Byte>)
    requires StraddleBytes(s)
    ensures var t := Overwrite(s, 112, BigPageAlign);
      StepAt(t, Straddling, 65536, 1) == Next(Overwrite(t, 162, BigPageAlign), true)
  {
    var t := Overwrite(s, 112, BigPageAlign);
    FieldHeld(t, 114, LoadType);
    assert forall k :: 162 <= k < 170 ==> t[k] == s[k];
    FieldHeld(t, 162, ZeroAlign);
    BigPageAlignEncodes();
    StepWrites(t, Straddling, 65536, 1);
  }

  /**
    Entry 1's `p_type` reads 0 before the call and PT_LOAD after it, and
    its `p_align` has been written.
   */
  lemma StraddleTypes(s: seq<Byte>)
    requires StraddleBytes(s)
    ensures var t := Overwrite(Overwrite(s, 112, BigPageAlign), 162, BigPageAlign);
      !IsLoad(s, Straddling, 1) && IsLoad(t, Straddling, 1) && t[164] != s[164]
  {
    var t := Overwrite(Overwrite(s, 112, BigPageAlign), 162, BigPageAlign);
    FieldHeld(s, 114, NullType);
    assert forall k :: 114 <= k < 118 ==> t[k] == LoadType[k - 114];
    FieldHeld(t, 114, LoadType);
    assert DecodeLE(LoadType) == PtLoad;
    ZerosDecode(NullType);
  }

  /** The call writes both entries and reports `Aligned`. */
  lemma StraddleCall(s: seq<Byte>)
    requires StraddleBytes(s) && HeaderOf(s) == Parsed(Straddling)
    ensures Align(s, 65536)
      == Patched(Overwrite(Overwrite(s, 112, BigPageAlign), 162, BigPageAlign), Aligned)
  {
    StraddleFirstStep(s);
    StraddleSecondStep(s);
    TwoWrites(s, Straddling, 65536,
      Overwrite(s, 112, BigPageAlign), Overwrite(Overwrite(s, 112, BigPageAlign), 162, BigPageAlign));
  }

  /**
    On a file read with `Straddling` geometry and `StraddleBytes`, with
    page size 65536, writing entry 0's `p_align` turns entry 1's `p_type`
    from 0 into PT_LOAD, and the call then writes entry 1's `p_align` too:
    an entry that was not PT_LOAD has its `p_type` and `p_align` changed.
   */
  lemma StraddleTurnsTypeIntoLoad(s: seq<Byte>)
    requires StraddleBytes(s) && HeaderOf(s) == Parsed(Straddling)
    ensures var out := Align(s, 65536).bytes;
      && Align(s, 65536).outcome == Aligned
      && !IsLoad(s, Straddling, 1) && IsLoad(out, Straddling, 1)
      && out[164] != s[164]
  {
    StraddleCall(s);
    StraddleTypes(s);
  }

  /** The 170-byte `StraddlingFile` is such a file. */
  lemma AlignTurnsTypeIntoLoad()
    ensures var s := StraddlingFile();
      && !IsLoad(s, Straddling, 1) && IsLoad(Align(s, 65536).bytes, Straddling, 1)
  {
    StraddleTurnsTypeIntoLoad(StraddlingFile());
  }
}
