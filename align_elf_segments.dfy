/**
  `align_elf_load_segments` as scripts/align_elf_segments.py runs it: a
  file opened for reading and writing, a position moved with `seek`, and
  in-place writes of `p_align`. Each step is proved to follow `Align`, so
  the lemmas of `PatchProperties` hold of what the method does.
 */
module AlignElfSegments {
  import opened Bytes
  import opened ElfHeader
  import opened PatchSpec

  /**
    A file opened in mode 'r+b': its bytes and the current position.
    Reads past the end are short, seeks past the end are allowed.
   */
  class FileHandle {
    const data: array<Byte>
    var pos: nat

    /** `open(path, 'r+b')`: the position starts at 0. */
    constructor Open(data: array<Byte>)
      ensures this.data == data && pos == 0
    {
      this.data := data;
      pos := 0;
    }

    /** `f.seek(p)`. */
    method Seek(p: nat)
      modifies this`pos
      ensures pos == p
    {
      pos := p;
    }

    /** `f.read(n)`: up to `n` bytes from the position, which moves past them. */
    method Read(n: nat) returns (bytes: seq<Byte>)
      modifies this`pos
      ensures bytes == Slice(data[..], old(pos), old(pos) + n)
      ensures pos == old(pos) + |bytes|
    {
      bytes := Slice(data[..], pos, pos + n);
      pos := pos + |bytes|;
    }

    /** `f.write(t)` over bytes that already exist: the length stays the same. */
    method Write(t: seq<Byte>)
      requires pos + |t| <= data.Length
      modifies this`pos, data
      ensures data[..] == Overwrite(old(data[..]), old(pos), t)
      ensures pos == old(pos) + |t|
    {
      forall k | 0 <= k < |t| {
        data[pos + k] := t[k];
      }
      pos := pos + |t|;
    }
  }

  /** How the loop over entries goes on after one entry. */
  datatype Control =
    | Break                 // the type read was short (`Step.Stop`)
    | Continue(wrote: bool) // next entry; `wrote` if `p_align` was rewritten (`Step.Next`)
    | Raise                 // `struct.pack` raised `struct.error` (`Step.PackError`)

  /**
    The body of the loop for entry `i`: seek to the entry, read `p_type`,
    and hand a PT_LOAD entry to `PatchAlign`. It does what `StepAt`
    describes.
   */
  method PatchEntry(f: FileHandle, g: Geometry, pageSize: int, i: nat) returns (c: Control)
    requires i < g.phnum
    modifies f, f.data
    ensures StepAt(old(f.data[..]), g, pageSize, i) ==
      match c
      case Break => Stop
      case Raise => PackError
      case Continue(wrote) => Next(f.data[..], wrote)
    ensures !c.Continue? ==> f.data[..] == old(f.data[..])
  {
    ghost var s := f.data[..];
    var phStart := g.EntryStart(i);
    f.Seek(phStart);
    var pTypeBytes := f.Read(4);
    assert pTypeBytes == TypeBytes(s, g, i);
    if |pTypeBytes| < 4 {
      return Break;
    }
    var pType := Decode(pTypeBytes, g.little);
    if pType == PtLoad {
      c := PatchAlign(f, g, pageSize, i);
    } else {
      c := Continue(false);
    }
  }

  /**
    The PT_LOAD branch for entry `i`: read `p_align`, skip the entry when
    the read is short, and otherwise write `pageSize` over it unless it
    already holds that value.
   */
  method PatchAlign(f: FileHandle, g: Geometry, pageSize: int, i: nat) returns (c: Control)
    requires i < g.phnum && IsLoad(f.data[..], g, i)
    modifies f, f.data
    ensures StepAt(old(f.data[..]), g, pageSize, i) ==
      match c
      case Break => Stop
      case Raise => PackError
      case Continue(wrote) => Next(f.data[..], wrote)
    ensures !c.Continue? ==> f.data[..] == old(f.data[..])
  {
    ghost var s := f.data[..];
    var width := g.AlignWidth();
    var at := g.EntryStart(i) + g.AlignOffset();
    f.Seek(at);
    var currentBytes := f.Read(width);
    assert currentBytes == AlignBytes(s, g, i);
    if |currentBytes| < width {
      return Continue(false);
    }
    var current := Decode(currentBytes, g.little);
    if current == pageSize {
      return Continue(false);
    }
    if !(0 <= pageSize < Pow256(width)) {
      return Raise;
    }
    f.Seek(at);
    f.Write(Encode(pageSize, width, g.little));
    return Continue(true);
  }

  /**
    Sets `p_align` of every PT_LOAD entry of the ELF file `file` to
    `pageSize` (16 KiB unless the caller says otherwise), in place, and
    reports what it did.
   */
  method AlignElfLoadSegments(file: array<Byte>, pageSize: int := DefaultPageSize) returns (outcome: Outcome)
    modifies file
    ensures file[..] == Align(old(file[..]), pageSize).bytes
    ensures outcome == Align(old(file[..]), pageSize).outcome
  {
    var f := new FileHandle.Open(file);
    var header := f.Read(HeaderReadSize);
    var parsed := ParseHeader(header);
    if parsed.NotElfHeader? {
      return NotElf;
    }
    if parsed.MalformedHeader? {
      return Malformed;
    }
    var g := parsed.geometry;
    ghost var result := Align(old(file[..]), pageSize);
    assert result == Walk(file[..], g, pageSize, 0, false);
    var modified := false;
    for i := 0 to g.phnum
      invariant f.data == file
      invariant Walk(file[..], g, pageSize, i, modified) == result
    {
      var c := PatchEntry(f, g, pageSize, i);
      if c.Break? {
        break;
      }
      if c.Raise? {
        return Malformed;
      }
      if c.wrote {
        modified := true;
      }
    }
    outcome := Finished(modified);
  }
}
