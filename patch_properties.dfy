/**
  What the aligner promises about a file, proved of `Walk` and `Align`.
  Some hold of every input; the rest need the program header table to be
  laid out as an ELF file lays it out: entries large enough to hold
  `p_align`, and no `p_align` inside the 64 header bytes.
 */
module PatchProperties {
  import opened Bytes
  import opened ElfHeader
  import opened PatchSpec

  /** Entry `a` starts at least one entry size before entry `b`. */
  lemma {:induction false} EntriesAscend(g: Geometry, a: nat, b: nat)
    requires a < b
    ensures g.EntryStart(a) + g.phentsize <= g.EntryStart(b)
  {
    if a + 1 < b {
      EntriesAscend(g, a, b - 1);
    }
    assert b * g.phentsize == (b - 1) * g.phentsize + g.phentsize;
  }

  /** An entry whose type read is short hides every later entry too. */
  lemma ShortTypeAfter(s: seq<Byte>, g: Geometry, i: nat, j: nat)
    requires i <= j && |TypeBytes(s, g, i)| < 4
    ensures |TypeBytes(s, g, j)| < 4 && !IsLoad(s, g, j)
  {
    if i < j {
      EntriesAscend(g, i, j);
    }
  }

  /** The rest of the walk from entry `i` leaves every byte before entry `i`'s `p_align` alone. */
  lemma {:induction false} WalkFrame(s: seq<Byte>, g: Geometry, page: int, i: nat, m: bool)
    requires i <= g.phnum
    ensures forall k :: 0 <= k < |s| && k < g.AlignStart(i) ==> Walk(s, g, page, i, m).bytes[k] == s[k]
    decreases g.phnum - i
  {
    if i < g.phnum {
      StepAtCases(s, g, page, i);
      match StepAt(s, g, page, i)
      case Stop =>
      case PackError =>
      case Next(t, wrote) =>
        WalkFrame(t, g, page, i + 1, m || wrote);
        EntriesAscend(g, i, i + 1);
    }
  }

  /**
    Locality: a byte the walk from entry `i` changes lies in the `p_align`
    field, wholly inside the file, of an entry `j` in `i .. e_phnum` whose
    `p_type` reads PT_LOAD in the result.
   */
  lemma {:induction false} WalkLocality(s: seq<Byte>, g: Geometry, page: int, i: nat, m: bool)
    requires i <= g.phnum
    ensures var out := Walk(s, g, page, i, m).bytes;
      forall k :: 0 <= k < |s| && out[k] != s[k] ==>
        exists j :: i <= j < g.phnum && g.AlignStart(j) <= k < g.AlignStart(j) + g.AlignWidth()
          && AlignInFile(s, g, j) && IsLoad(out, g, j)
    decreases g.phnum - i
  {
    if i < g.phnum {
      StepAtCases(s, g, page, i);
      match StepAt(s, g, page, i)
      case Stop =>
      case PackError =>
      case Next(t, wrote) =>
        var out := Walk(s, g, page, i, m).bytes;
        WalkLocality(t, g, page, i + 1, m || wrote);
        if wrote {
          WalkFrame(t, g, page, i + 1, m || wrote);
          EntriesAscend(g, i, i + 1);
          SliceAgree(out, t, g.EntryStart(i), g.EntryStart(i) + 4);
          SliceAgree(t, s, g.EntryStart(i), g.EntryStart(i) + 4);
          assert IsLoad(out, g, i);
        }
    }
  }

  /** A walk that has written reports Aligned or Malformed, never Unchanged. */
  lemma {:induction false} WalkKeepsModified(s: seq<Byte>, g: Geometry, page: int, i: nat, m: bool)
    requires i <= g.phnum && m
    ensures Walk(s, g, page, i, m).outcome != Unchanged
    decreases g.phnum - i
  {
    if i < g.phnum {
      StepAtCases(s, g, page, i);
      match StepAt(s, g, page, i)
      case Stop =>
      case PackError =>
      case Next(t, wrote) => WalkKeepsModified(t, g, page, i + 1, true);
    }
  }

  /** When `page` fits the field, `struct.pack` cannot fail: the walk returns True. */
  lemma {:induction false} WalkSucceeds(s: seq<Byte>, g: Geometry, page: int, i: nat, m: bool)
    requires i <= g.phnum && 0 <= page < Pow256(g.AlignWidth())
    ensures Walk(s, g, page, i, m).outcome != Malformed
    decreases g.phnum - i
  {
    if i < g.phnum {
      StepAtCases(s, g, page, i);
      match StepAt(s, g, page, i)
      case Stop =>
      case PackError =>
      case Next(t, wrote) => WalkSucceeds(t, g, page, i + 1, m || wrote);
    }
  }

  /** A walk that ends in `struct.error` has written nothing. */
  lemma {:induction false} WalkMalformedUntouched(s: seq<Byte>, g: Geometry, page: int, i: nat, m: bool)
    requires i <= g.phnum && Walk(s, g, page, i, m).outcome == Malformed
    ensures Walk(s, g, page, i, m).bytes == s
    decreases g.phnum - i
  {
    StepAtCases(s, g, page, i);
    match StepAt(s, g, page, i)
    case Stop =>
    case PackError =>
    case Next(t, wrote) =>
      if wrote {
        WalkSucceeds(t, g, page, i + 1, true);
      } else {
        WalkMalformedUntouched(t, g, page, i + 1, m);
      }
  }

  /** A walk that reports Unchanged had not written before and writes nothing. */
  lemma {:induction false} WalkUnchangedUntouched(s: seq<Byte>, g: Geometry, page: int, i: nat, m: bool)
    requires i <= g.phnum && Walk(s, g, page, i, m).outcome == Unchanged
    ensures !m && Walk(s, g, page, i, m).bytes == s
    decreases g.phnum - i
  {
    if i < g.phnum {
      StepAtCases(s, g, page, i);
      match StepAt(s, g, page, i)
      case Stop =>
      case PackError =>
      case Next(t, wrote) =>
        WalkUnchangedUntouched(t, g, page, i + 1, m || wrote);
    }
  }

  /** With no entry left to patch, the walk writes nothing and reports what it had done. */
  lemma {:induction false} WalkNoOp(s: seq<Byte>, g: Geometry, page: int, i: nat, m: bool)
    requires i <= g.phnum
    requires forall j :: i <= j ==> !NeedsPatch(s, g, page, j)
    ensures Walk(s, g, page, i, m) == Patched(s, Finished(m))
    decreases g.phnum - i
  {
    if i < g.phnum {
      StepAtCases(s, g, page, i);
      match StepAt(s, g, page, i)
      case Stop =>
      case PackError =>
      case Next(t, wrote) => WalkNoOp(t, g, page, i + 1, m || wrote);
    }
  }

  /**
    A walk that has not yet written, past which entry `j` needs its
    `p_align` rewritten, reports Aligned (for a `page` that fits).
   */
  lemma {:induction false} WalkAlignsNeeded(s: seq<Byte>, g: Geometry, page: int, i: nat, j: nat)
    requires i <= j && NeedsPatch(s, g, page, j) && 0 <= page < Pow256(g.AlignWidth())
    ensures Walk(s, g, page, i, false).outcome == Aligned
    decreases g.phnum - i
  {
    StepAtCases(s, g, page, i);
    var step := StepAt(s, g, page, i);
    if step.Stop? {
      ShortTypeAfter(s, g, i, j);
      assert false;
    } else if step.PackError? {
      assert false;
    } else if step.wrote {
      WalkKeepsModified(step.bytes, g, page, i + 1, true);
      WalkSucceeds(step.bytes, g, page, i + 1, true);
    } else {
      WalkAlignsNeeded(s, g, page, i + 1, j);
    }
  }

  /** Entries are at least as far apart as `p_align` is wide: no two `p_align` fields overlap. */
  predicate FieldsApart(g: Geometry)
  {
    g.phentsize >= g.AlignWidth()
  }

  /**
    From entry `lo` on, every entry of `out` whose `p_type` reads PT_LOAD
    and whose `p_align` lies in `out` holds `page` there.
   */
  predicate LoadsHold(out: seq<Byte>, g: Geometry, page: int, lo: nat)
  {
    forall j: nat :: lo <= j < g.phnum && IsLoad(out, g, j) && AlignInFile(out, g, j) ==>
      Decode(AlignBytes(out, g, j), g.little) == page
  }

  lemma LoadsHoldExtend(out: seq<Byte>, g: Geometry, page: int, i: nat)
    requires LoadsHold(out, g, page, i + 1)
    requires IsLoad(out, g, i) && AlignInFile(out, g, i) ==> Decode(AlignBytes(out, g, i), g.little) == page
    ensures LoadsHold(out, g, page, i)
  {
  }

  /**
    With `p_align` fields that do not overlap, a walk from `i` that does
    not fail leaves every entry from `i` on whose `p_type` reads PT_LOAD in
    the result, and whose `p_align` lies in the file, holding `page`.
   */
  lemma {:induction false} WalkLeavesLoadsAligned(s: seq<Byte>, g: Geometry, page: int, i: nat, m: bool)
    requires i <= g.phnum && FieldsApart(g)
    requires Walk(s, g, page, i, m).outcome != Malformed
    ensures LoadsHold(Walk(s, g, page, i, m).bytes, g, page, i)
    decreases g.phnum - i
  {
    if i < g.phnum {
      StepAtCases(s, g, page, i);
      match StepAt(s, g, page, i)
      case Stop =>
        forall j | i <= j
          ensures !IsLoad(s, g, j)
        {
          ShortTypeAfter(s, g, i, j);
        }
      case PackError =>
      case Next(t, wrote) =>
        var out := Walk(t, g, page, i + 1, m || wrote).bytes;
        assert Walk(s, g, page, i, m).bytes == out;
        WalkLeavesLoadsAligned(t, g, page, i + 1, m || wrote);
        StepLeavesOwnFieldAligned(s, g, page, i, m);
        LoadsHoldExtend(out, g, page, i);
    }
  }

  /** The step at entry `i` leaves its own `p_align` holding `page` in the walk's result. */
  lemma StepLeavesOwnFieldAligned(s: seq<Byte>, g: Geometry, page: int, i: nat, m: bool)
    requires i < g.phnum && FieldsApart(g) && StepAt(s, g, page, i).Next?
    ensures var step := StepAt(s, g, page, i);
      var out := Walk(step.bytes, g, page, i + 1, m || step.wrote).bytes;
      IsLoad(out, g, i) && AlignInFile(out, g, i) ==> Decode(AlignBytes(out, g, i), g.little) == page
  {
    StepAtCases(s, g, page, i);
    var t, wrote := StepAt(s, g, page, i).bytes, StepAt(s, g, page, i).wrote;
    var out := Walk(t, g, page, i + 1, m || wrote).bytes;
    WalkKeepsField(t, g, page, i, m || wrote);
    if wrote {
      FieldHeld(t, g.AlignStart(i), Encode(page, g.AlignWidth(), g.little));
    } else {
      WalkFrame(t, g, page, i + 1, m || wrote);
      EntriesAscend(g, i, i + 1);
      SliceAgree(out, t, g.EntryStart(i), g.EntryStart(i) + 4);
      assert IsLoad(out, g, i) ==> IsLoad(s, g, i);
    }
  }

  /** Every entry is large enough to hold its `p_align`: entries do not overlap. */
  predicate EntriesHoldAlign(g: Geometry)
  {
    g.phentsize >= g.AlignOffset() + g.AlignWidth()
  }

  /**
    The walk after entry `i` leaves entry `i`'s `p_align` as it found it,
    when entries are at least as large as the field.
   */
  lemma WalkKeepsField(t: seq<Byte>, g: Geometry, page: int, i: nat, m: bool)
    requires i < g.phnum && FieldsApart(g)
    ensures AlignBytes(Walk(t, g, page, i + 1, m).bytes, g, i) == AlignBytes(t, g, i)
  {
    WalkFrame(t, g, page, i + 1, m);
    EntriesAscend(g, i, i + 1);
    SliceAgree(Walk(t, g, page, i + 1, m).bytes, t, g.AlignStart(i), g.AlignStart(i) + g.AlignWidth());
  }

  /** Writing entry `i`'s `p_align` leaves the type of every later entry alone. */
  lemma WriteKeepsLaterType(s: seq<Byte>, g: Geometry, i: nat, j: nat, field: seq<Byte>)
    requires EntriesHoldAlign(g) && i < j && |field| == g.AlignWidth() && AlignInFile(s, g, i)
    ensures TypeBytes(Overwrite(s, g.AlignStart(i), field), g, j) == TypeBytes(s, g, j)
  {
    EntriesAscend(g, i, j);
    SliceAgree(Overwrite(s, g.AlignStart(i), field), s, g.EntryStart(j), g.EntryStart(j) + 4);
  }

  /**
    With entries that do not overlap, a walk from `i` that does not fail
    leaves every PT_LOAD entry from `i` on whose `p_align` lies in the file
    holding `page` in the header's byte order.
   */
  lemma {:induction false} WalkAlignsLoads(s: seq<Byte>, g: Geometry, page: int, i: nat, m: bool)
    requires i <= g.phnum && EntriesHoldAlign(g)
    requires Walk(s, g, page, i, m).outcome != Malformed
    ensures forall j :: i <= j < g.phnum && IsLoad(s, g, j) && AlignInFile(s, g, j) ==>
      Decode(AlignBytes(Walk(s, g, page, i, m).bytes, g, j), g.little) == page
    decreases g.phnum - i
  {
    if i < g.phnum {
      StepAtCases(s, g, page, i);
      match StepAt(s, g, page, i)
      case Stop =>
        forall j | i <= j
          ensures !IsLoad(s, g, j)
        {
          ShortTypeAfter(s, g, i, j);
        }
      case PackError =>
      case Next(t, wrote) =>
        var out := Walk(t, g, page, i + 1, m || wrote).bytes;
        assert Walk(s, g, page, i, m).bytes == out;
        WalkAlignsLoads(t, g, page, i + 1, m || wrote);
        WalkKeepsField(t, g, page, i, m || wrote);
        var field := if wrote then Encode(page, g.AlignWidth(), g.little) else AlignBytes(s, g, i);
        if wrote {
          FieldHeld(t, g.AlignStart(i), field);
        }
        assert IsLoad(s, g, i) && AlignInFile(s, g, i) ==> Decode(AlignBytes(out, g, i), g.little) == page;
        forall j | i < j < g.phnum && IsLoad(s, g, j) && AlignInFile(s, g, j)
          ensures Decode(AlignBytes(out, g, j), g.little) == page
        {
          if wrote {
            WriteKeepsLaterType(s, g, i, j, field);
          }
          assert IsLoad(t, g, j);
        }
    }
  }

  /** No `p_align` field reaches into the 64 header bytes the aligner reads. */
  predicate AlignPastHeader(g: Geometry)
  {
    g.AlignStart(0) >= HeaderReadSize
  }

  /** Unless the call reports Aligned, no byte of the file changes. */
  lemma AlignUntouchedUnlessAligned(s: seq<Byte>, page: int)
    ensures Align(s, page).outcome != Aligned ==> Align(s, page).bytes == s
  {
    if HeaderOf(s).Parsed? {
      var g := HeaderOf(s).geometry;
      if Align(s, page).outcome == Unchanged {
        WalkUnchangedUntouched(s, g, page, 0, false);
      } else if Align(s, page).outcome == Malformed {
        WalkMalformedUntouched(s, g, page, 0, false);
      }
    }
  }

  /**
    A file with the magic whose header is too short for its class's
    `e_phoff`, `e_phentsize` and `e_phnum` (16 to 57 bytes for class 2,
    16 to 45 otherwise) makes `struct.unpack` fail: Malformed, no write.
   */
  lemma AlignShortHeader(s: seq<Byte>, page: int)
    requires |s| >= IdentSize && s[..4] == Magic && |s| < FieldsEnd(s[EiClass] == ElfClass64)
    ensures Align(s, page) == Patched(s, Malformed)
  {
    assert Slice(s, 0, HeaderReadSize) == s;
  }

  /** With a header that parses and a `page` that fits `p_align`, the call returns True. */
  lemma AlignSucceeds(s: seq<Byte>, page: int, g: Geometry)
    requires HeaderOf(s) == Parsed(g) && 0 <= page < Pow256(g.AlignWidth())
    ensures Align(s, page).outcome == Aligned || Align(s, page).outcome == Unchanged
  {
    WalkSucceeds(s, g, page, 0, false);
  }

  /**
    Locality: every byte the call changes lies in the `p_align` field,
    wholly inside the file, of an entry among the first `e_phnum` whose
    `p_type` reads PT_LOAD afterwards.
   */
  lemma AlignLocality(s: seq<Byte>, page: int, g: Geometry)
    requires HeaderOf(s) == Parsed(g)
    ensures var out := Align(s, page).bytes;
      forall k :: 0 <= k < |s| && out[k] != s[k] ==>
        exists j: nat :: j < g.phnum && g.AlignStart(j) <= k < g.AlignStart(j) + g.AlignWidth()
          && AlignInFile(s, g, j) && IsLoad(out, g, j)
  {
    WalkLocality(s, g, page, 0, false);
  }

  /** The identification bytes (magic, class, data and the rest of e_ident) never change. */
  lemma AlignKeepsIdent(s: seq<Byte>, page: int)
    ensures forall k :: 0 <= k < |s| && k < IdentSize ==> Align(s, page).bytes[k] == s[k]
  {
    if HeaderOf(s).Parsed? {
      WalkFrame(s, HeaderOf(s).geometry, page, 0, false);
    }
  }

  /**
    For a `page` that fits `p_align`, the call reports Aligned exactly when
    some PT_LOAD entry among the first `e_phnum` has a readable `p_align`
    other than `page`, and Unchanged otherwise.
   */
  lemma AlignedIffNeedsPatch(s: seq<Byte>, page: int, g: Geometry)
    requires HeaderOf(s) == Parsed(g) && 0 <= page < Pow256(g.AlignWidth())
    ensures Align(s, page).outcome == Aligned <==> exists j :: NeedsPatch(s, g, page, j)
    ensures Align(s, page).outcome == Unchanged <==> !exists j :: NeedsPatch(s, g, page, j)
  {
    WalkSucceeds(s, g, page, 0, false);
    if j :| NeedsPatch(s, g, page, j) {
      WalkAlignsNeeded(s, g, page, 0, j);
    } else {
      WalkNoOp(s, g, page, 0, false);
    }
  }

  /**
    With entries that hold their `p_align`, a call that returns True leaves
    every PT_LOAD entry among the first `e_phnum` whose `p_align` lies in
    the file holding `page`, in the header's byte order.
   */
  lemma AlignPatchesLoads(s: seq<Byte>, page: int, g: Geometry)
    requires HeaderOf(s) == Parsed(g) && EntriesHoldAlign(g)
    requires Align(s, page).outcome != Malformed
    ensures forall j: nat :: j < g.phnum && IsLoad(s, g, j) && AlignInFile(s, g, j) ==>
      Decode(AlignBytes(Align(s, page).bytes, g, j), g.little) == page
  {
    assert Align(s, page) == Walk(s, g, page, 0, false);
    WalkAlignsLoads(s, g, page, 0, false);
  }

  /** With entries that hold their `p_align`, no `p_align` overlaps any entry's `p_type`. */
  lemma TypeOutsideFields(g: Geometry, j: nat, j': nat, k: nat)
    requires EntriesHoldAlign(g) && g.EntryStart(j) <= k < g.EntryStart(j) + 4
    ensures !(g.AlignStart(j') <= k < g.AlignStart(j') + g.AlignWidth())
  {
    if j < j' {
      EntriesAscend(g, j, j');
    } else if j' < j {
      EntriesAscend(g, j', j);
    }
  }

  /** With entries that hold their `p_align`, every entry's `p_type` bytes stay as they were. */
  lemma AlignKeepsTypes(s: seq<Byte>, page: int, g: Geometry)
    requires HeaderOf(s) == Parsed(g) && EntriesHoldAlign(g)
    ensures forall j: nat :: TypeBytes(Align(s, page).bytes, g, j) == TypeBytes(s, g, j)
  {
    var out := Align(s, page).bytes;
    AlignLocality(s, page, g);
    forall j | true
      ensures TypeBytes(out, g, j) == TypeBytes(s, g, j)
    {
      forall k | g.EntryStart(j) <= k < g.EntryStart(j) + 4 && k < |s|
        ensures out[k] == s[k]
      {
        forall j' | true
          ensures !(g.AlignStart(j') <= k < g.AlignStart(j') + g.AlignWidth())
        {
          TypeOutsideFields(g, j, j', k);
        }
      }
      SliceAgree(out, s, g.EntryStart(j), g.EntryStart(j) + 4);
    }
  }

  /** With entries that hold their `p_align`, a `p_align` lies in no entry but its own. */
  lemma FieldInOwnEntry(g: Geometry, j: nat, j': nat, k: nat)
    requires EntriesHoldAlign(g)
    requires g.EntryStart(j) <= k < g.EntryStart(j) + g.phentsize
    requires g.AlignStart(j') <= k < g.AlignStart(j') + g.AlignWidth()
    ensures j == j'
  {
    if j < j' {
      EntriesAscend(g, j, j');
    } else if j' < j {
      EntriesAscend(g, j', j);
    }
  }

  /**
    With entries that hold their `p_align`, an entry that is not PT_LOAD,
    or lies at index `e_phnum` or beyond, keeps every one of its bytes.
   */
  lemma AlignKeepsOtherEntries(s: seq<Byte>, page: int, g: Geometry, j: nat)
    requires HeaderOf(s) == Parsed(g) && EntriesHoldAlign(g)
    requires j >= g.phnum || !IsLoad(s, g, j)
    ensures forall k :: g.EntryStart(j) <= k < g.EntryStart(j) + g.phentsize && k < |s| ==>
      Align(s, page).bytes[k] == s[k]
  {
    var out := Align(s, page).bytes;
    AlignLocality(s, page, g);
    AlignKeepsTypes(s, page, g);
    forall k | g.EntryStart(j) <= k < g.EntryStart(j) + g.phentsize && k < |s|
      ensures out[k] == s[k]
    {
      if out[k] != s[k] {
        var j': nat :| j' < g.phnum && g.AlignStart(j') <= k < g.AlignStart(j') + g.AlignWidth()
          && AlignInFile(s, g, j') && IsLoad(out, g, j');
        FieldInOwnEntry(g, j, j', k);
        assert false;
      }
    }
  }

  /**
    With `p_align` fields that do not overlap, a walk from `i` that starts
    with no write and reports one leaves bytes that differ from its input:
    the first field it writes ends holding `page`, which it did not hold.
   */
  lemma {:induction false} WalkAlignedChanges(s: seq<Byte>, g: Geometry, page: int, i: nat)
    requires i <= g.phnum && FieldsApart(g)
    requires Walk(s, g, page, i, false).outcome == Aligned
    ensures Walk(s, g, page, i, false).bytes != s
    decreases g.phnum - i
  {
    if i < g.phnum {
      StepAtCases(s, g, page, i);
      match StepAt(s, g, page, i)
      case Stop =>
      case PackError =>
      case Next(t, wrote) =>
        if wrote {
          var field := Encode(page, g.AlignWidth(), g.little);
          var out := Walk(t, g, page, i + 1, true).bytes;
          WalkKeepsField(t, g, page, i, true);
          FieldHeld(t, g.AlignStart(i), field);
          assert AlignBytes(out, g, i) == field != AlignBytes(s, g, i);
        } else {
          WalkAlignedChanges(s, g, page, i + 1);
        }
    }
  }

  /**
    With `p_align` fields that do not overlap, the call reports a write
    exactly when the file's bytes differ afterwards.
   */
  lemma AlignedIffChanged(s: seq<Byte>, page: int, g: Geometry)
    requires HeaderOf(s) == Parsed(g) && FieldsApart(g)
    ensures Align(s, page).outcome == Aligned <==> Align(s, page).bytes != s
  {
    AlignUntouchedUnlessAligned(s, page);
    if Align(s, page).outcome == Aligned {
      WalkAlignedChanges(s, g, page, 0);
    }
  }

  /**
    With `p_align` fields that do not overlap, a call that returns True
    leaves every entry among the first `e_phnum` whose `p_type` reads
    PT_LOAD afterwards, and whose `p_align` lies in the file, holding `page`.
   */
  lemma AlignLeavesLoadsAligned(s: seq<Byte>, page: int, g: Geometry)
    requires HeaderOf(s) == Parsed(g) && FieldsApart(g)
    requires Align(s, page).outcome != Malformed
    ensures LoadsHold(Align(s, page).bytes, g, page, 0)
  {
    assert Align(s, page) == Walk(s, g, page, 0, false);
    WalkLeavesLoadsAligned(s, g, page, 0, false);
  }

  /**
    Idempotence: with `p_align` fields that do not overlap each other or
    the header, running the aligner again on its own output changes no
    byte and reports Unchanged.
   */
  lemma AlignIdempotent(s: seq<Byte>, page: int, g: Geometry)
    requires HeaderOf(s) == Parsed(g) && FieldsApart(g) && AlignPastHeader(g)
    requires Align(s, page).outcome != Malformed
    ensures var out := Align(s, page).bytes;
      Align(out, page) == Patched(out, Unchanged)
  {
    var out := Align(s, page).bytes;
    WalkFrame(s, g, page, 0, false);
    SliceAgree(out, s, 0, HeaderReadSize);
    assert HeaderOf(out) == Parsed(g);
    AlignLeavesLoadsAligned(s, page, g);
    WalkNoOp(out, g, page, 0, false);
  }
}
