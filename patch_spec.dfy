/**
  What `align_elf_load_segments` does to the bytes of a file, as functions:
  `Walk` is the pass over the program header table, entry by entry in
  increasing index, and `Align` is the whole call, header check included.
  Each read sees the writes already made to earlier entries.
 */
module PatchSpec {
  import opened Bytes
  import opened ElfHeader

  /** PT_LOAD: the segment type of a loadable segment. */
  const PtLoad: nat := 1
  /** The page size the aligner targets when its caller gives none. */
  const DefaultPageSize: nat := 16384

  /**
    The result of one call: `Aligned` and `Unchanged` are `return True`
    with and without a write; `NotElf` and `Malformed` (a `struct.error`)
    are `return False`.
   */
  datatype Outcome = Aligned | Unchanged | NotElf | Malformed

  /** The file's bytes after a call, and what the call reported. */
  datatype Patched = Patched(bytes: seq<Byte>, outcome: Outcome)

  /** How a walk that completes reports, given whether it wrote. */
  function Finished(modified: bool): Outcome
  {
    if modified then Aligned else Unchanged
  }

  /** What `read(4)` at entry `i`'s start returns: its `p_type` bytes. */
  function TypeBytes(s: seq<Byte>, g: Geometry, i: nat): seq<Byte>
  {
    Slice(s, g.EntryStart(i), g.EntryStart(i) + 4)
  }

  /** What the read of entry `i`'s `p_align` returns. */
  function AlignBytes(s: seq<Byte>, g: Geometry, i: nat): seq<Byte>
  {
    Slice(s, g.AlignStart(i), g.AlignStart(i) + g.AlignWidth())
  }

  /** Entry `i`'s type can be read in full from `s` and is PT_LOAD. */
  predicate IsLoad(s: seq<Byte>, g: Geometry, i: nat)
  {
    |TypeBytes(s, g, i)| == 4 && Decode(TypeBytes(s, g, i), g.little) == PtLoad
  }

  /** Entry `i`'s `p_align` lies wholly inside the file. */
  predicate AlignInFile(s: seq<Byte>, g: Geometry, i: nat)
  {
    g.AlignStart(i) + g.AlignWidth() <= |s|
  }

  /**
    Entry `i` of `s` is a PT_LOAD entry among the first `e_phnum` whose
    readable `p_align` is not `page`: one the aligner must rewrite.
   */
  predicate NeedsPatch(s: seq<Byte>, g: Geometry, page: int, i: nat)
  {
    i < g.phnum && IsLoad(s, g, i) && AlignInFile(s, g, i)
    && Decode(AlignBytes(s, g, i), g.little) != page
  }

  /** What handling one entry leads to. */
  datatype Step =
    | Stop                                  // the type read was short: `break`
    | Next(bytes: seq<Byte>, wrote: bool)   // go on to the next entry with these bytes
    | PackError                             // `struct.pack` could not encode `page`

  /**
    The body of the loop for entry `i` of the bytes `s`: a short type read
    ends the loop, a short `p_align` read skips the entry, and a PT_LOAD
    entry whose `p_align` is not `page` gets `page` written over it in the
    header's byte order, unless `page` does not fit the field.
   */
  function StepAt(s: seq<Byte>, g: Geometry, page: int, i: nat): (r: Step)
    requires i < g.phnum
    ensures r.Next? ==> |r.bytes| == |s|
  {
    var pType := TypeBytes(s, g, i);
    if |pType| < 4 then
      Stop
    else if Decode(pType, g.little) != PtLoad then
      Next(s, false)
    else
      var current := AlignBytes(s, g, i);
      if |current| < g.AlignWidth() then
        Next(s, false)
      else if Decode(current, g.little) == page then
        Next(s, false)
      else if !(0 <= page < Pow256(g.AlignWidth())) then
        PackError
      else
        Next(Overwrite(s, g.AlignStart(i), Encode(page, g.AlignWidth(), g.little)), true)
  }

  /**
    What handling entry `i` leads to, in terms of the file: the loop stops
    exactly when the type read is short, and writes exactly the entries
    that need it, with `page` encoded over their `p_align` and nothing else.
   */
  lemma StepAtCases(s: seq<Byte>, g: Geometry, page: int, i: nat)
    requires i < g.phnum
    ensures match StepAt(s, g, page, i)
      case Stop => |TypeBytes(s, g, i)| < 4
      case PackError => NeedsPatch(s, g, page, i) && !(0 <= page < Pow256(g.AlignWidth()))
      case Next(t, wrote) =>
        && |TypeBytes(s, g, i)| == 4
        && (wrote <==> NeedsPatch(s, g, page, i))
        && (wrote ==> 0 <= page < Pow256(g.AlignWidth()) && AlignInFile(s, g, i))
        && t == if wrote then Overwrite(s, g.AlignStart(i), Encode(page, g.AlignWidth(), g.little)) else s
  {
  }

  /**
    The loop over entries `i .. e_phnum` on the bytes `s`, with `modified`
    recording whether an earlier entry was written.
   */
  function Walk(s: seq<Byte>, g: Geometry, page: int, i: nat, modified: bool): (r: Patched)
    requires i <= g.phnum
    ensures |r.bytes| == |s|
    ensures r.outcome == Aligned || r.outcome == Unchanged || r.outcome == Malformed
    decreases g.phnum - i
  {
    if i == g.phnum then
      Patched(s, Finished(modified))
    else
      match StepAt(s, g, page, i)
      case Stop => Patched(s, Finished(modified))
      case PackError => Patched(s, Malformed)
      case Next(t, wrote) => Walk(t, g, page, i + 1, modified || wrote)
  }

  /** The header the aligner reads from a file holding `s`: its first 64 bytes, or fewer. */
  function HeaderOf(s: seq<Byte>): Header
  {
    ParseHeader(Slice(s, 0, HeaderReadSize))
  }

  /**
    One call of the aligner on a file holding `s`: the header is the first
    64 bytes (fewer if the file is shorter), then the table is walked.
   */
  function Align(s: seq<Byte>, page: int): (r: Patched)
    ensures |r.bytes| == |s|
    ensures r.outcome == NotElf <==> |s| < IdentSize || s[..4] != Magic
    ensures r.outcome == NotElf ==> r.bytes == s
  {
    match HeaderOf(s)
    case NotElfHeader => Patched(s, NotElf)
    case MalformedHeader => Patched(s, Malformed)
    case Parsed(g) => Walk(s, g, page, 0, false)
  }
}
