# align_elf_load_segments, modelled in Dafny

`scripts/align_elf_segments.py` prepares Android shared libraries for
16 KB pages. Its function `align_elf_load_segments(filepath, page_size=16384)`
opens an ELF file for reading and writing and reads its first 64 bytes. It
checks the magic `7f 45 4c 46` and reads `EI_CLASS` and `EI_DATA`. From
them it decodes `e_phoff`, `e_phentsize` and `e_phnum`: 64-bit layout for
class byte 2, 32-bit layout otherwise; little-endian for data byte 1,
big-endian otherwise. It then walks the program header table in place.
For every `PT_LOAD` entry whose `p_align` can be read in full and differs
from `page_size`, it writes `page_size` over that field in the header's
byte order. It returns True when it gets through the table and False when
the file is not an ELF file or `struct` raises.

The model has seven files:

- `bytes.dfy` (`Bytes`): file bytes and Python's clamped slices. It also has
  the unsigned little- and big-endian codecs that `struct.unpack` and
  `struct.pack` apply for the formats `H`, `I` and `Q`, with their round
  trips.
- `wrappers.dfy` (`Wrappers`): `Option`.
- `elf_header.dfy` (`ElfHeader`): header validation and geometry decoding as
  pure functions (`ParseHeader`). `PutGeometry` is an encoder written as its
  partner, and two lemmas tie them together: any geometry written is read
  back, and writing a parsed header's geometry back reproduces every header
  byte other than `EI_CLASS` and `EI_DATA`.
- `patch_spec.dfy` (`PatchSpec`): the whole call as functions on the file's
  bytes. `StepAt` is one loop iteration, `Walk` is the loop and `Align` is
  the call. The result is an `Outcome`:
  - `Aligned` is True with a write;
  - `Unchanged` is True without one;
  - `NotElf` is the False of the magic check;
  - `Malformed` is the False from `struct.error`.
- `align_elf_segments.dfy` (`AlignElfSegments`): the imperative form.
  - `FileHandle` is a class holding the file's `array` of bytes and a
    position, with `Seek`, `Read` (short at the end of the file) and
    `Write`.
  - `AlignElfLoadSegments` is the function itself, with its `for` loop over
    the entries and the `modified` flag.
  - The loop body is `PatchEntry` and `PatchAlign`.
  - The method is proved to leave the array and report exactly what `Align`
    describes.
- `patch_properties.dfy` (`PatchProperties`): what `Align` guarantees:
  - length preservation;
  - locality of every change;
  - what a failure or `Unchanged` leaves;
  - when the call reports `Aligned`;
  - the alignment of every `PT_LOAD` entry afterwards;
  - entries left alone;
  - idempotence.
- `overlap_examples.dfy` (`OverlapExamples`): two concrete files on which
  entries that overlap, because `e_phentsize` is never checked, let one
  write change another entry. On the first, a second call writes again. On
  the second, an entry that was not `PT_LOAD` becomes one and is written.

## Model

| member | source | states |
|---|---|---|
| Bytes.Slice | scripts/align_elf_segments.py:99-100 | a read of `hi - lo` bytes at `lo` returns `min(hi, len) - lo` bytes (none when `lo` is at or past the end), each the file's byte at its position |
| Bytes.Overwrite | scripts/align_elf_segments.py:114-115 | writing `t` at `at` inside the file keeps its length, puts `t` at `at` and leaves every byte outside `t`'s span |
| Bytes.DecodeLE | scripts/align_elf_segments.py:102 | a little-endian field of `w` bytes decodes to a value below 256^w |
| Bytes.DecodeBE | scripts/align_elf_segments.py:102 | a big-endian field of `w` bytes decodes to a value below 256^w |
| Bytes.EncodeLE | scripts/align_elf_segments.py:115 | packing a value below 256^w gives `w` bytes that decode back to it (little-endian) |
| Bytes.EncodeBE | scripts/align_elf_segments.py:115 | packing a value below 256^w gives `w` bytes that decode back to it (big-endian) |
| Bytes.EncodeDecodeLE | scripts/align_elf_segments.py:110 | re-packing an unpacked little-endian field gives back its bytes |
| Bytes.EncodeDecodeBE | scripts/align_elf_segments.py:110 | re-packing an unpacked big-endian field gives back its bytes |
| Bytes.Decode | scripts/align_elf_segments.py:62 | unpacking in the order the data byte selects gives a value below 256^w |
| Bytes.Encode | scripts/align_elf_segments.py:115 | packing in the order the data byte selects gives `w` bytes that unpack to the value |
| Bytes.EncodeDecode | scripts/align_elf_segments.py:110 | for either byte order, unpack followed by pack is the identity on fields |
| Bytes.DecodeInjective | scripts/align_elf_segments.py:112 | two fields of one width unpack to the same value only if they are the same bytes, so `current_align != page_size` compares the bytes |
| ElfHeader.Unpack | scripts/align_elf_segments.py:69-71 | `struct.unpack` succeeds exactly when the slice has the format's width, and its value is below 256^width and packs back to the slice |
| ElfHeader.ParseHeader | scripts/align_elf_segments.py:48-89 | fewer than 16 bytes or a wrong magic is "not ELF"; with the magic, a header shorter than 58 bytes (class byte 2) or 46 bytes (any other class byte) makes `struct.unpack` fail; otherwise the layout is 64-bit exactly when the class byte is 2, little-endian exactly when the data byte is 1, and every field fits its width |
| ElfHeader.PutGeometryPlaces | scripts/align_elf_segments.py:64-89 | writing a geometry keeps the magic and places the class byte, data byte and the encodings of `e_phoff`, `e_phentsize`, `e_phnum` at the offsets the decoder reads for that class |
| ElfHeader.ParseHeaderRoundTrip | scripts/align_elf_segments.py:57-89 | decoding a header into which any fitting geometry was written yields that geometry: each class/data choice selects its offsets, widths and byte order |
| ElfHeader.ParseHeaderReencodes | scripts/align_elf_segments.py:64-89 | the decoded geometry, written back, reproduces every header byte except `EI_CLASS` and `EI_DATA`: the decoder loses no information of the three fields |
| ElfHeader.ParsedFields | scripts/align_elf_segments.py:69-84 | the three fields of a header that parses are exactly the encodings of the decoded values |
| PatchSpec.StepAt | scripts/align_elf_segments.py:96-116 | one iteration that goes on keeps the file length |
| PatchSpec.StepAtCases | scripts/align_elf_segments.py:99-116 | the loop breaks exactly on a short `p_type` read; a `struct.pack` failure happens only on an entry that needs a write whose `page_size` does not fit; otherwise the entry is written exactly when it is `PT_LOAD`, its `p_align` is readable in full and differs from `page_size`, and then only `page_size`, encoded in the header's byte order, is written over that `p_align` |
| PatchSpec.Walk | scripts/align_elf_segments.py:91-123 | the loop keeps the file length and ends in True (with or without a write) or in `struct.error` |
| PatchSpec.Align | scripts/align_elf_segments.py:45-134 | the call keeps the file length, returns "not ELF" exactly when the file is shorter than 16 bytes or lacks the magic, and then changes nothing |
| AlignElfSegments.FileHandle.Open | scripts/align_elf_segments.py:46 | an opened file starts at position 0 over the given bytes |
| AlignElfSegments.FileHandle.Seek | scripts/align_elf_segments.py:97 | seeking sets the position, also past the end |
| AlignElfSegments.FileHandle.Read | scripts/align_elf_segments.py:99 | `read(n)` returns the clamped slice at the position and advances it by what it returned |
| AlignElfSegments.FileHandle.Write | scripts/align_elf_segments.py:115 | `write(t)` inside the file puts `t` at the position, leaves every other byte and advances the position |
| AlignElfSegments.PatchEntry | scripts/align_elf_segments.py:96-104 | one loop iteration breaks, raises or continues exactly as `StepAt` says, with the file afterwards equal to the step's bytes and unchanged when it breaks or raises |
| AlignElfSegments.PatchAlign | scripts/align_elf_segments.py:104-116 | the `PT_LOAD` branch skips a short `p_align` read, leaves a field equal to `page_size`, raises when `page_size` does not fit, and otherwise writes it, exactly as `StepAt` says |
| AlignElfSegments.AlignElfLoadSegments | scripts/align_elf_segments.py:29-134 | the method leaves the file holding `Align(old, page_size).bytes` and reports `Align(old, page_size).outcome`, so every `PatchProperties` lemma holds of it |
| PatchProperties.EntriesAscend | scripts/align_elf_segments.py:96 | entry `a < b` ends no later than entry `b` starts |
| PatchProperties.ShortTypeAfter | scripts/align_elf_segments.py:99-101 | once a `p_type` read is short, every later entry's is too, so no later entry is `PT_LOAD` |
| PatchProperties.WalkFrame | scripts/align_elf_segments.py:95-116 | the loop from entry `i` changes no byte before entry `i`'s `p_align` |
| PatchProperties.WalkLocality | scripts/align_elf_segments.py:95-116 | every byte the loop from `i` changes lies in the `p_align`, wholly inside the file, of an entry `j` in `i .. e_phnum` whose `p_type` reads `PT_LOAD` in the result |
| PatchProperties.WalkKeepsModified | scripts/align_elf_segments.py:116-119 | once `modified` is set, the loop never reports a run without writes |
| PatchProperties.WalkSucceeds | scripts/align_elf_segments.py:112-123 | with a `page_size` that fits `p_align`, the loop cannot raise |
| PatchProperties.WalkMalformedUntouched | scripts/align_elf_segments.py:112-116 | a loop that raises `struct.error` has written nothing |
| PatchProperties.WalkUnchangedUntouched | scripts/align_elf_segments.py:112-118 | a loop that reports no write leaves every byte |
| PatchProperties.WalkNoOp | scripts/align_elf_segments.py:104-118 | when no entry from `i` on needs a write, the loop returns the file as it was and keeps `modified` as it was |
| PatchProperties.WalkAlignsNeeded | scripts/align_elf_segments.py:104-118 | when some entry from `i` on needs a write and `page_size` fits, the loop writes and reports it |
| PatchProperties.WalkLeavesLoadsAligned | scripts/align_elf_segments.py:95-116 | with `p_align` fields that do not overlap, after a loop that does not raise every entry from `i` that is `PT_LOAD` in the result and has its `p_align` in the file decodes to `page_size` |
| PatchProperties.StepLeavesOwnFieldAligned | scripts/align_elf_segments.py:104-116 | with `p_align` fields that do not overlap, the entry an iteration handles holds `page_size` at the end of the loop whenever it is `PT_LOAD` then |
| PatchProperties.WalkKeepsField | scripts/align_elf_segments.py:95-116 | with `p_align` fields that do not overlap, later iterations leave an entry's `p_align` as it was |
| PatchProperties.WriteKeepsLaterType | scripts/align_elf_segments.py:114-115 | with entries that contain their `p_align`, a write to one entry's `p_align` leaves the `p_type` of every later entry |
| PatchProperties.WalkAlignsLoads | scripts/align_elf_segments.py:95-116 | with entries that contain their `p_align`, after a loop that does not raise every `PT_LOAD` entry from `i` with its `p_align` in the file decodes to `page_size` |
| PatchProperties.AlignUntouchedUnlessAligned | scripts/align_elf_segments.py:48-131 | unless the call reports a write, no byte of the file changes (not ELF, `struct.error`, already aligned) |
| PatchProperties.AlignShortHeader | scripts/align_elf_segments.py:69-84 | a file with the magic but shorter than 58 bytes (class byte 2) or 46 bytes (otherwise) gives `struct.error` and is left as it was |
| PatchProperties.AlignSucceeds | scripts/align_elf_segments.py:91-123 | with a header that parses and a `page_size` that fits `p_align`, the call returns True |
| PatchProperties.AlignLocality | scripts/align_elf_segments.py:95-116 | every byte the call changes lies in the `p_align`, wholly inside the file, of one of the first `e_phnum` entries whose `p_type` reads `PT_LOAD` afterwards |
| PatchProperties.AlignKeepsIdent | scripts/align_elf_segments.py:51-62 | the 16 identification bytes never change |
| PatchProperties.AlignedIffNeedsPatch | scripts/align_elf_segments.py:104-119 | with a `page_size` that fits, the call reports a write exactly when one of the first `e_phnum` entries is `PT_LOAD` with a readable `p_align` other than `page_size`, and reports none exactly when no entry is |
| PatchProperties.AlignPatchesLoads | scripts/align_elf_segments.py:95-116 | with entries that contain their `p_align`, after a call that returns True every `PT_LOAD` entry among the first `e_phnum` with its `p_align` in the file decodes to `page_size` |
| PatchProperties.TypeOutsideFields | scripts/align_elf_segments.py:73-89 | with entries that contain their `p_align`, no `p_align` overlaps any entry's `p_type` |
| PatchProperties.AlignKeepsTypes | scripts/align_elf_segments.py:99-116 | with entries that contain their `p_align`, every entry's `p_type` bytes stay as they were |
| PatchProperties.FieldInOwnEntry | scripts/align_elf_segments.py:96-106 | with entries that contain their `p_align`, a `p_align` lies inside no entry but its own |
| PatchProperties.AlignKeepsOtherEntries | scripts/align_elf_segments.py:95-104 | with entries that contain their `p_align`, an entry at index `e_phnum` or beyond, or one that is not `PT_LOAD`, keeps every byte |
| PatchProperties.WalkAlignedChanges | scripts/align_elf_segments.py:104-119 | with `p_align` fields that do not overlap, a loop that starts with `modified` False and ends with it True leaves bytes that differ from its input |
| PatchProperties.AlignedIffChanged | scripts/align_elf_segments.py:112-119 | with `p_align` fields that do not overlap, the call reports a write exactly when the file's bytes differ afterwards |
| PatchProperties.AlignLeavesLoadsAligned | scripts/align_elf_segments.py:95-116 | with `p_align` fields that do not overlap, after a call that returns True every entry among the first `e_phnum` that is `PT_LOAD` afterwards, with its `p_align` in the file, decodes to `page_size` |
| PatchProperties.AlignIdempotent | scripts/align_elf_segments.py:112-119 | with `p_align` fields that do not overlap each other or the 64 header bytes, a second call on the output changes no byte and reports no write |
| OverlapExamples.StepWrites | scripts/align_elf_segments.py:99-116 | a 64-bit little-endian `PT_LOAD` entry whose `p_align` reads 0 gets any positive `page_size` that fits written over that field |
| OverlapExamples.NeedsPatchAt | scripts/align_elf_segments.py:104-112 | a `PT_LOAD` entry whose in-file `p_align` bytes are not the encoding of `page_size` needs a write |
| OverlapExamples.TwoWrites | scripts/align_elf_segments.py:95-123 | a call on a two-entry table whose iterations both write returns the bytes after the second write and reports a write |
| OverlapExamples.WritesAgain | scripts/align_elf_segments.py:104-119 | a call on bytes with an entry that needs a write reports a write |
| OverlapExamples.NeedsPatchWrites | scripts/align_elf_segments.py:104-116 | an entry that needs a write, with a `page_size` that fits, gets `page_size` written over its `p_align` and the loop goes on |
| OverlapExamples.OverlapSecondCall | scripts/align_elf_segments.py:104-119 | on the output of a first call on that layout, entry 0 still needs a write, and a second call writes both entries again, reports a write and ends on the bytes it was given |
| OverlapExamples.OverlapNotIdempotent | scripts/align_elf_segments.py:104-116 | on a 64-bit file with `e_phentsize` 4 and two `PT_LOAD` entries whose `p_align` is 0, the call writes, entry 0 still needs a write afterwards, and a second call reports a write while returning the bytes unchanged |
| OverlapExamples.AlignNotIdempotent | scripts/align_elf_segments.py:104-116 | the 124-byte `OverlappingFile` is such a file: two calls with page size 16384 both report a write, and the second leaves the bytes as the first left them |
| OverlapExamples.StraddleTurnsTypeIntoLoad | scripts/align_elf_segments.py:99-116 | on a 64-bit file with `e_phentsize` 50 whose entry 1 `p_type` lies inside entry 0's `p_align`, a call with page size 65536 turns entry 1 from type 0 into `PT_LOAD` and writes its `p_align` |
| OverlapExamples.AlignTurnsTypeIntoLoad | scripts/align_elf_segments.py:99-116 | the 170-byte `StraddlingFile` is such a file: entry 1 is not `PT_LOAD` before the call and is afterwards |

## Left out

- `main`, the argument check, `os.path.exists` and `sys.exit`
  (scripts/align_elf_segments.py:137-153) are left out. They are the
  command-line shell around the function.
- The stdout reconfiguration (:20-26) and every `print` are left out. Each
  status line corresponds to an `Outcome`: "SKIP" is `NotElf`, "ALIGNED" is
  `Aligned`, and "malformed ELF header" is `Malformed`.
- `OSError` from `open`, `seek`, `read` or `write` (:125-127) is left out. The
  file is an in-memory array, so the only failures are the short reads the
  code checks for.
- The catch-all `except Exception` (:132-134) is left out. One case of it
  depends only on the file's contents: in CPython, `f.seek` on a buffered
  file to an offset beyond 2^63 - 1 raises `ValueError` ("cannot fit 'int'
  into an offset-sized integer"), which `except Exception` catches, and the
  call then returns False.
  The model treats such an offset like any other offset past the end: the
  read is short and the loop ends with True.
- A `write` past the end of the file, which would extend it, never happens:
  a write always follows a full read at the same offset. The model's
  `FileHandle.Write` therefore requires a write inside the file.
- AlignSucceeds: assumes a `page_size` that fits `p_align`. When it does
  not, `struct.pack` raises at the first entry that needs a write.
  `StepAtCases` and `WalkMalformedUntouched` state that case: `Malformed`,
  and no byte written.
- AlignedIffNeedsPatch: assumes a `page_size` that fits `p_align`, for the
  same reason.
- WalkSucceeds and WalkAlignsNeeded: the same assumption, one entry at a
  time.
- AlignIdempotent: stated only when `e_phentsize` is at least the width of
  `p_align` and no `p_align` reaches into the first 64 bytes. The code
  checks neither condition, and without them a second run can write again:
  - with `e_phentsize` below the width of `p_align`, the `p_align` fields of
    neighbouring entries overlap, and a later write can leave an earlier
    field holding a value other than `page_size`; `OverlapExamples` proves
    this on a 124-byte file (see "## Findings");
  - a `p_align` inside the header can change `e_phoff`, `e_phentsize` or
    `e_phnum` for the next run. No concrete file for this case is part of
    the model.
- AlignPatchesLoads: stated only when `e_phentsize` is at least `p_align`'s
  offset plus its width, so that entries do not overlap. Otherwise a write
  to one entry's `p_align` can change a later entry's `p_type`, and with it
  whether that entry is `PT_LOAD` (`OverlapExamples.AlignTurnsTypeIntoLoad`
  shows a file where this happens). `AlignLeavesLoadsAligned` drops that
  condition but keeps the weaker one below.
- AlignKeepsTypes: the same condition, for the same reason.
- AlignKeepsOtherEntries: the same condition, for the same reason.
- Among the statements about the whole call, those that hold with no
  condition on the layout are `AlignedIffNeedsPatch` (when a write is
  reported), `AlignLocality`, `AlignUntouchedUnlessAligned`,
  `AlignKeepsIdent`, `AlignShortHeader` and `AlignSucceeds`.
- WalkAlignsLoads, WriteKeepsLaterType, TypeOutsideFields and
  FieldInOwnEntry: the same condition as `AlignPatchesLoads`.
- AlignLeavesLoadsAligned, WalkLeavesLoadsAligned, StepLeavesOwnFieldAligned,
  WalkKeepsField, WalkAlignedChanges and AlignedIffChanged: stated only
  when `e_phentsize` is at least the width of `p_align`, as for
  `AlignIdempotent`. Without it a later entry's write can
  overwrite part of an earlier `PT_LOAD` entry's `p_align`, which then holds
  neither its old value nor `page_size`, and a later write can also put back
  the bytes an earlier write replaced, so a call can report a write and
  leave every byte as it was. `OverlapExamples.AlignNotIdempotent` shows a
  file where both happen: the second call on its output reports `Aligned`
  and returns the bytes unchanged.
- The code differs from an idealised ELF reader, and the model follows the
  code:
  - a class byte other than 1 or 2 is read as 32-bit;
  - a data byte other than 1 is read as big-endian;
  - `e_phentsize` is never checked;
  - a header too short for its fields is a `struct.error`, not a separate
    outcome;
  - "not an ELF file" also returns False.

## Findings

| source | as written | input that shows it | evidently intended | confidence | as-written member | corrected member |
|---|---|---|---|---|---|---|
| scripts/align_elf_segments.py:104-116 | `e_phentsize` is never checked, so the 8-byte `p_align` fields of 64-bit entries overlap when it is below 8, and a later entry's write overwrites half of an earlier one's | 124-byte 64-bit little-endian file, `e_phoff` 64, `e_phentsize` 4, `e_phnum` 2, `p_type` 1 at 64 and 68, zeros after; page size 16384: entry 0's `p_align` ends as `00 40 00 00 00 40 00 00`; a second run finds entry 0 to rewrite, writes both entries again and reports a write, yet ends on exactly the bytes the first run left | a run leaves every `PT_LOAD` entry holding `page_size`, so a second run writes nothing and reports no write; holds when `e_phentsize` is at least the width of `p_align` and no `p_align` lies in the first 64 bytes | high for the model; not executed | OverlapExamples.AlignNotIdempotent | PatchProperties.AlignIdempotent |
| scripts/align_elf_segments.py:99-116 | with `e_phentsize` below `p_align`'s offset plus its width, entries overlap, and a write to one entry's `p_align` can rewrite a later entry's `p_type` | 170-byte 64-bit little-endian file, `e_phoff` 64, `e_phentsize` 50, `e_phnum` 2, `p_type` 1 at 64, zeros after; page size 65536: entry 1's `p_type` goes from 0 to 1 and its `p_align` is then written | writing `p_align` leaves every entry's `p_type` as it was; holds when each entry contains its own `p_align` | high for the model; not executed | OverlapExamples.AlignTurnsTypeIntoLoad | PatchProperties.AlignKeepsTypes |
