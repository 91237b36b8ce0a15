/**
  The part of the ELF file header that the aligner reads (System V gABI,
  "ELF Header"): the identification bytes EI_MAG0..3, EI_CLASS and EI_DATA,
  and the program header table's offset `e_phoff`, entry size
  `e_phentsize` and entry count `e_phnum`. The decoder follows
  scripts/align_elf_segments.py, not an idealised ELF reader: every class
  byte other than 2 is read as 32-bit and every data byte other than 1 as
  big-endian.
 */
module ElfHeader {
  import opened Wrappers
  import opened Bytes

  /** EI_MAG0..EI_MAG3: 0x7f 'E' 'L' 'F'. */
  const Magic: seq<Byte> := [0x7f, 0x45, 0x4c, 0x46]
  /** The header is read with one `read(64)`, enough for either class. */
  const HeaderReadSize: nat := 64
  /** A header shorter than the e_ident array (EI_NIDENT) is not an ELF file. */
  const IdentSize: nat := 16
  const EiClass: nat := 4
  const EiData: nat := 5
  /** ELFCLASS64: the only class byte read as 64-bit. */
  const ElfClass64: Byte := 2
  /** ELFDATA2LSB: the only data byte read as little-endian. */
  const ElfData2Lsb: Byte := 1

  /** Where the program header table lies and how its entries are read. */
  datatype Geometry = Geometry(is64: bool, little: bool, phoff: nat, phentsize: nat, phnum: nat)
  {
    /** Offset of `p_align` within an entry. */
    function AlignOffset(): nat { if is64 then 48 else 28 }

    /** Width of `p_align` (and of `e_phoff`): the class's word size. */
    function AlignWidth(): nat { if is64 then 8 else 4 }

    /** File offset of entry `i`; Python integers cannot overflow here. */
    function EntryStart(i: nat): nat { phoff + i * phentsize }

    /** File offset of entry `i`'s `p_align`. */
    function AlignStart(i: nat): nat { EntryStart(i) + AlignOffset() }

    /** Each field's value fits the width the header stores it in. */
    predicate Fits()
    {
      phoff < Pow256(AlignWidth()) && phentsize < Pow256(2) && phnum < Pow256(2)
    }
  }

  /** What reading the header yields. */
  datatype Header = NotElfHeader | MalformedHeader | Parsed(geometry: Geometry)

  /**
    `struct.unpack` of one field: it raises `struct.error` unless the slice
    holds exactly the format's width.
   */
  function Unpack(field: seq<Byte>, width: nat, little: bool): (r: Option<nat>)
    ensures r.Some? <==> |field| == width
    ensures r.Some? ==> r.value < Pow256(width) && Encode(r.value, width, little) == field
  {
    if |field| == width then
      EncodeDecode(field, little);
      Some(Decode(field, little))
    else
      None
  }

  /** End of the `e_phnum` field: the header length each class needs. */
  function FieldsEnd(is64: bool): nat
  {
    if is64 then 58 else 46
  }

  /**
    Validation and geometry decoding of the header bytes `h` (the result of
    `read(64)`). Fewer than 16 bytes or a wrong magic is not an ELF file; a
    header too short for the class's fields makes `struct.unpack` fail.
   */
  function ParseHeader(h: seq<Byte>): (r: Header)
    ensures r.NotElfHeader? <==> |h| < IdentSize || h[..4] != Magic
    ensures r.MalformedHeader? <==> |h| >= IdentSize && h[..4] == Magic && |h| < FieldsEnd(h[EiClass] == ElfClass64)
    ensures r.Parsed? ==> r.geometry.is64 == (h[EiClass] == ElfClass64) && r.geometry.little == (h[EiData] == ElfData2Lsb)
    ensures r.Parsed? ==> r.geometry.Fits()
  {
    if |h| < IdentSize || h[..4] != Magic then
      NotElfHeader
    else
      var is64 := h[EiClass] == ElfClass64;
      var little := h[EiData] == ElfData2Lsb;
      var (phoff, phentsize, phnum) :=
        if is64 then
          (Unpack(Slice(h, 32, 40), 8, little),
           Unpack(Slice(h, 54, 56), 2, little),
           Unpack(Slice(h, 56, 58), 2, little))
        else
          (Unpack(Slice(h, 28, 32), 4, little),
           Unpack(Slice(h, 42, 44), 2, little),
           Unpack(Slice(h, 44, 46), 2, little));
      if phoff.None? || phentsize.None? || phnum.None? then
        MalformedHeader
      else
        Parsed(Geometry(is64, little, phoff.value, phentsize.value, phnum.value))
  }

  /**
    The header bytes `h` with `g` written into them: the canonical class and
    data bytes, then `e_phoff`, `e_phentsize` and `e_phnum` at the places
    the gABI gives them for the class.
   */
  function PutGeometry(h: seq<Byte>, g: Geometry): (r: seq<Byte>)
    requires g.Fits() && |h| >= FieldsEnd(g.is64)
    ensures |r| == |h|
  {
    var ident := Overwrite(h, EiClass, [if g.is64 then 2 else 1, if g.little then 1 else 2]);
    var w := g.AlignWidth();
    if g.is64 then
      Overwrite(Overwrite(Overwrite(ident,
        32, Encode(g.phoff, w, g.little)),
        54, Encode(g.phentsize, 2, g.little)),
        56, Encode(g.phnum, 2, g.little))
    else
      Overwrite(Overwrite(Overwrite(ident,
        28, Encode(g.phoff, w, g.little)),
        42, Encode(g.phentsize, 2, g.little)),
        44, Encode(g.phnum, 2, g.little))
  }

  /** Where `PutGeometry` leaves each field: the slices the decoder reads hold the encodings. */
  lemma PutGeometryPlaces(h: seq<Byte>, g: Geometry)
    requires |h| >= FieldsEnd(g.is64) && g.Fits()
    ensures var r := PutGeometry(h, g);
      var (a, b, c) := if g.is64 then (32, 54, 56) else (28, 42, 44);
      && r[..4] == h[..4]
      && r[EiClass] == (if g.is64 then 2 else 1)
      && r[EiData] == (if g.little then 1 else 2)
      && Slice(r, a, a + g.AlignWidth()) == Encode(g.phoff, g.AlignWidth(), g.little)
      && Slice(r, b, b + 2) == Encode(g.phentsize, 2, g.little)
      && Slice(r, c, c + 2) == Encode(g.phnum, 2, g.little)
  {
    var w := g.AlignWidth();
    var (a, b, c) := if g.is64 then (32, 54, 56) else (28, 42, 44);
    var ident := Overwrite(h, EiClass, [if g.is64 then 2 else 1, if g.little then 1 else 2]);
    assert ident[..4] == h[..4];
    ThreeFields(ident, a, Encode(g.phoff, w, g.little), b, Encode(g.phentsize, 2, g.little),
      c, Encode(g.phnum, 2, g.little));
  }

  /** Three disjoint, ascending writes each leave their own bytes in place. */
  lemma ThreeFields(base: seq<Byte>, a: nat, ta: seq<Byte>, b: nat, tb: seq<Byte>, c: nat, tc: seq<Byte>)
    requires a + |ta| <= b && b + |tb| <= c && c + |tc| <= |base|
    ensures var r := Overwrite(Overwrite(Overwrite(base, a, ta), b, tb), c, tc);
      && r[..a] == base[..a]
      && Slice(r, a, a + |ta|) == ta
      && Slice(r, b, b + |tb|) == tb
      && Slice(r, c, c + |tc|) == tc
  {
    var r := Overwrite(Overwrite(Overwrite(base, a, ta), b, tb), c, tc);
    FieldHeld(r, a, ta);
    FieldHeld(r, b, tb);
    FieldHeld(r, c, tc);
  }

  /** Any geometry written into an ELF header is read back unchanged. */
  lemma ParseHeaderRoundTrip(h: seq<Byte>, g: Geometry)
    requires |h| >= FieldsEnd(g.is64) && h[..4] == Magic && g.Fits()
    ensures ParseHeader(PutGeometry(h, g)) == Parsed(g)
  {
    PutGeometryPlaces(h, g);
  }

  /** Bytes that hold `t` from `lo` on are what the Python slice there returns. */
  lemma FieldHeld(s: seq<Byte>, lo: nat, t: seq<Byte>)
    requires forall k :: 0 <= k < |t| ==> lo + k < |s| && s[lo + k] == t[k]
    ensures Slice(s, lo, lo + |t|) == t
  {
    if |t| > 0 {
      assert s[lo + (|t| - 1)] == t[|t| - 1];
      var r := Slice(s, lo, lo + |t|);
      assert |r| == |t|;
      assert forall k :: 0 <= k < |t| ==> r[k] == t[k];
    }
  }

  /**
    Decoding and re-encoding a parsed header reproduces every byte except
    the class and data bytes, which may hold non-canonical values.
   */
  lemma ParseHeaderReencodes(h: seq<Byte>)
    requires ParseHeader(h).Parsed?
    ensures ParseHeader(h).geometry.Fits() && |h| >= FieldsEnd(ParseHeader(h).geometry.is64)
    ensures forall k :: 0 <= k < |h| && k != EiClass && k != EiData ==>
      PutGeometry(h, ParseHeader(h).geometry)[k] == h[k]
  {
    ParsedFields(h);
    PutGeometrySame(h, ParseHeader(h).geometry);
  }

  /** Writing a geometry over fields that already encode it changes only bytes 4 and 5. */
  lemma PutGeometrySame(h: seq<Byte>, g: Geometry)
    requires g.Fits() && |h| >= FieldsEnd(g.is64)
    requires var (a, b, c) := if g.is64 then (32, 54, 56) else (28, 42, 44);
      && Slice(h, a, a + g.AlignWidth()) == Encode(g.phoff, g.AlignWidth(), g.little)
      && Slice(h, b, b + 2) == Encode(g.phentsize, 2, g.little)
      && Slice(h, c, c + 2) == Encode(g.phnum, 2, g.little)
    ensures forall k :: 0 <= k < |h| && k != EiClass && k != EiData ==> PutGeometry(h, g)[k] == h[k]
  {
    var w := g.AlignWidth();
    var ident := Overwrite(h, EiClass, [if g.is64 then 2 else 1, if g.little then 1 else 2]);
    if g.is64 {
      SliceAgree(ident, h, 32, 58);
      ThreeFieldsSame(ident, 32, Encode(g.phoff, w, g.little), 54, Encode(g.phentsize, 2, g.little),
        56, Encode(g.phnum, 2, g.little));
    } else {
      SliceAgree(ident, h, 28, 46);
      ThreeFieldsSame(ident, 28, Encode(g.phoff, w, g.little), 42, Encode(g.phentsize, 2, g.little),
        44, Encode(g.phnum, 2, g.little));
    }
    assert PutGeometry(h, g) == ident;
  }

  /** The three fields of a parsed header encode the geometry read from them. */
  lemma ParsedFields(h: seq<Byte>)
    requires ParseHeader(h).Parsed?
    ensures var g := ParseHeader(h).geometry;
      var (a, b, c) := if g.is64 then (32, 54, 56) else (28, 42, 44);
      && |h| >= FieldsEnd(g.is64)
      && Slice(h, a, a + g.AlignWidth()) == Encode(g.phoff, g.AlignWidth(), g.little)
      && Slice(h, b, b + 2) == Encode(g.phentsize, 2, g.little)
      && Slice(h, c, c + 2) == Encode(g.phnum, 2, g.little)
  {
  }

  /** Three disjoint writes of the bytes already in place change nothing. */
  lemma ThreeFieldsSame(base: seq<Byte>, a: nat, ta: seq<Byte>, b: nat, tb: seq<Byte>, c: nat, tc: seq<Byte>)
    requires a + |ta| <= b && b + |tb| <= c && c + |tc| <= |base|
    requires Slice(base, a, a + |ta|) == ta && Slice(base, b, b + |tb|) == tb
    requires Slice(base, c, c + |tc|) == tc
    ensures Overwrite(Overwrite(Overwrite(base, a, ta), b, tb), c, tc) == base
  {
    var r := Overwrite(Overwrite(Overwrite(base, a, ta), b, tb), c, tc);
    forall k | 0 <= k < |base|
      ensures r[k] == base[k]
    {
      if a <= k < a + |ta| {
        assert Slice(base, a, a + |ta|)[k - a] == base[k];
      } else if b <= k < b + |tb| {
        assert Slice(base, b, b + |tb|)[k - b] == base[k];
      } else if c <= k < c + |tc| {
        assert Slice(base, c, c + |tc|)[k - c] == base[k];
      }
    }
  }
}
