/**
 * Backing up and restoring the settings the firmware keeps a second copy of.
 *
 * The backup is itself a non-volatile block, read and written through the
 * TPM. The TPM is not part of this model: the block read (or the read's
 * failure) is an input, and the block handed to the write is an output
 * together with the write's success, which is an input.
 */
module NvBackup {
  import opened Bytes
  import opened Wrappers
  import opened NvStorage
  import opened NvStorageProps

  /** The parameters that are backed up, in the order they are copied. */
  const BackupParams: seq<Param> :=
    [KernelField, LocalizationIndex, DevBootUsb, DevBootLegacy, DevBootSignedOnly]

  /** Status codes of the two operations. */
  const StatusOk: nat := 0
  const StatusFailed: nat := 1

  /** `a` reads like `b` for every backed-up parameter. */
  predicate SameBackedUp(a: Block, b: Block)
  {
    forall j :: 0 <= j < |BackupParams| ==> Get(a, BackupParams[j]) == Get(b, BackupParams[j])
  }

  /** `a` reads like `b` for every parameter that is not backed up. */
  ghost predicate SameOthers(a: Block, b: Block)
  {
    forall q :: q !in BackupParams ==> Get(a, q) == Get(b, q)
  }

  /** Values differ for one of the first `i` backed-up parameters. */
  predicate DiffersBefore(a: Block, b: Block, i: nat)
  {
    exists j :: 0 <= j < i && j < |BackupParams| && Get(a, BackupParams[j]) != Get(b, BackupParams[j])
  }

  /**
   * The state of the copy after its first `i` steps: those parameters read as
   * in `src`, the rest as in `dst`, and the CRC is due exactly when a copied
   * value differed.
   */
  ghost predicate CopiedUpTo(r: Context, src: Block, dst: Context, i: nat)
  {
    && i <= |BackupParams|
    && (forall j :: 0 <= j < i ==> Get(r.raw, BackupParams[j]) == Get(src, BackupParams[j]))
    && (forall q :: q !in BackupParams[..i] ==> Get(r.raw, q) == Get(dst.raw, q))
    && r.rawChanged == dst.rawChanged
    && r.regenerateCrc == (dst.regenerateCrc || DiffersBefore(dst.raw, src, i))
    && (!DiffersBefore(dst.raw, src, i) ==> r == dst)
    && r.raw[HeaderOffset] == dst.raw[HeaderOffset]
  }

  /** One more step of the copy keeps its state description. */
  lemma CopyAdvance(r: Context, src: Block, dst: Context, i: nat)
    requires CopiedUpTo(r, src, dst, i) && i < |BackupParams|
    ensures CopiedUpTo(Set(r, BackupParams[i], Get(src, BackupParams[i]).value).value, src, dst, i + 1)
  {
    var p := BackupParams[i];
    var v := Get(src, p).value;
    NormalizeGet(src, p);
    CopyOne(r, p, v);
    CopyOneHeaderByte(r, p, v);
    CopyAdvanceReads(r, src, dst, i, Set(r, p, v).value);
    CopyAdvanceFlags(r, src, dst, i, Set(r, p, v).value);
  }

  /** What the parameters read after one more step. */
  lemma CopyAdvanceReads(r: Context, src: Block, dst: Context, i: nat, r': Context)
    requires CopiedUpTo(r, src, dst, i) && i < |BackupParams|
    requires Get(r'.raw, BackupParams[i]) == Get(src, BackupParams[i])
    requires forall q :: q != BackupParams[i] ==> Get(r'.raw, q) == Get(r.raw, q)
    ensures forall j :: 0 <= j < i + 1 ==> Get(r'.raw, BackupParams[j]) == Get(src, BackupParams[j])
    ensures forall q :: q !in BackupParams[..i + 1] ==> Get(r'.raw, q) == Get(dst.raw, q)
  {
    assert BackupParams[..i + 1] == BackupParams[..i] + [BackupParams[i]];
  }

  /** The bookkeeping flags and the header after one more step. */
  lemma CopyAdvanceFlags(r: Context, src: Block, dst: Context, i: nat, r': Context)
    requires CopiedUpTo(r, src, dst, i) && i < |BackupParams|
    requires r'.rawChanged == r.rawChanged && r'.raw[HeaderOffset] == r.raw[HeaderOffset]
    requires r'.regenerateCrc == (r.regenerateCrc || Get(r.raw, BackupParams[i]) != Get(src, BackupParams[i]))
    requires Get(r.raw, BackupParams[i]) == Get(src, BackupParams[i]) ==> r' == r
    ensures r'.rawChanged == dst.rawChanged && r'.raw[HeaderOffset] == dst.raw[HeaderOffset]
    ensures r'.regenerateCrc == (dst.regenerateCrc || DiffersBefore(dst.raw, src, i + 1))
    ensures !DiffersBefore(dst.raw, src, i + 1) ==> r' == dst
  {
    var p := BackupParams[i];
    assert p !in BackupParams[..i];
    assert Get(r.raw, p) == Get(dst.raw, p);
    if Get(dst.raw, p) != Get(src, p) {
      assert DiffersBefore(dst.raw, src, i + 1);
    } else if DiffersBefore(dst.raw, src, i + 1) {
      var j :| 0 <= j < i + 1 && j < |BackupParams| && Get(dst.raw, BackupParams[j]) != Get(src, BackupParams[j]);
      assert DiffersBefore(dst.raw, src, i);
    }
  }

  /** The finished copy. */
  lemma CopyDone(r: Context, src: Block, dst: Context)
    requires CopiedUpTo(r, src, dst, |BackupParams|)
    ensures SameBackedUp(r.raw, src)
    ensures SameOthers(r.raw, dst.raw)
    ensures r.rawChanged == dst.rawChanged
    ensures r.regenerateCrc == (dst.regenerateCrc || !SameBackedUp(dst.raw, src))
    ensures SameBackedUp(dst.raw, src) ==> r == dst
    ensures r.raw[HeaderOffset] == dst.raw[HeaderOffset]
  {
    assert BackupParams[..|BackupParams|] == BackupParams;
  }

  /**
   * Copies the backed-up parameters from `src` into `dst` by a get from one and
   * a set into the other, parameter by parameter. The CRC must be regenerated
   * exactly when some copied value differed.
   */
  method CopyBackedUp(src: Block, dst: Context) returns (r: Context)
    ensures SameBackedUp(r.raw, src)
    ensures SameOthers(r.raw, dst.raw)
    ensures r.rawChanged == dst.rawChanged
    ensures r.regenerateCrc == (dst.regenerateCrc || !SameBackedUp(dst.raw, src))
    ensures SameBackedUp(dst.raw, src) ==> r == dst
    ensures r.raw[HeaderOffset] == dst.raw[HeaderOffset]
  {
    r := dst;
    var i := 0;
    while i < |BackupParams|
      invariant CopiedUpTo(r, src, dst, i)
    {
      CopyAdvance(r, src, dst, i);
      r := Set(r, BackupParams[i], Get(src, BackupParams[i]).value).value;
      i := i + 1;
    }
    CopyDone(r, src, dst);
  }

  /** One step of the copy: a set of a value the parameter can hold. */
  lemma CopyOne(r: Context, p: Param, v: uint32)
    requires !p.Unsupported? && Normalize(p, v) == v
    ensures Get(Set(r, p, v).value.raw, p) == Some(v)
    ensures forall q :: q != p ==> Get(Set(r, p, v).value.raw, q) == Get(r.raw, q)
    ensures Set(r, p, v).value.rawChanged == r.rawChanged
    ensures Set(r, p, v).value.regenerateCrc == (r.regenerateCrc || Get(r.raw, p) != Some(v))
    ensures Get(r.raw, p) == Some(v) ==> Set(r, p, v).value == r
    ensures HeaderValid(Set(r, p, v).value.raw) == HeaderValid(r.raw)
  {
    SetThenGet(r, p, v);
    CopyOneOthers(r, p, v);
    CopyOneHeader(r, p, v);
  }

  /** The copy step leaves every other parameter reading as before. */
  lemma CopyOneOthers(r: Context, p: Param, v: uint32)
    requires !p.Unsupported?
    ensures Set(r, p, v).Some?
    ensures forall q :: q != p ==> Get(Set(r, p, v).value.raw, q) == Get(r.raw, q)
  {
    SetThenGet(r, p, v);
    forall q | q != p
      ensures Get(Set(r, p, v).value.raw, q) == Get(r.raw, q)
    {
      SetFrame(r, p, q, v);
    }
  }

  /** The copy step keeps the header signature bits. */
  lemma CopyOneHeader(r: Context, p: Param, v: uint32)
    requires !p.Unsupported?
    ensures Set(r, p, v).Some?
    ensures HeaderValid(Set(r, p, v).value.raw) == HeaderValid(r.raw)
  {
    SetThenGet(r, p, v);
    FootprintAvoidsHeaderAndCrc(p);
    HeaderBitsKept(r.raw[HeaderOffset], Set(r, p, v).value.raw[HeaderOffset], Footprint(p, HeaderOffset));
  }

  /** A backed-up parameter owns no bit of the header byte, so setting it leaves that byte as it was. */
  lemma CopyOneHeaderByte(r: Context, p: Param, v: uint32)
    requires p in BackupParams
    ensures Set(r, p, v).Some?
    ensures Set(r, p, v).value.raw[HeaderOffset] == r.raw[HeaderOffset]
  {
    SetThenGet(r, p, v);
    assert Footprint(p, HeaderOffset) == 0;
  }

  /**
   * Restores the backed-up parameters from the backup block read from the TPM
   * (`None` when the read failed). A read failure or a backup that setup would
   * reset leaves the context alone and reports failure.
   */
  method RestoreNvFromBackup(ctx: Context, backup: Option<Block>, crc8: Crc8) returns (status: nat, r: Context)
    ensures status == StatusOk <==> backup.Some? && BlockValid(backup.value, crc8)
    ensures status != StatusOk ==> status == StatusFailed && r == ctx
    ensures status == StatusOk ==> SameBackedUp(r.raw, backup.value) && SameOthers(r.raw, ctx.raw)
    ensures status == StatusOk ==> r.rawChanged == ctx.rawChanged && r.raw[HeaderOffset] == ctx.raw[HeaderOffset]
    ensures status == StatusOk ==> (r.regenerateCrc <==> ctx.regenerateCrc || !SameBackedUp(ctx.raw, backup.value))
  {
    if backup.None? {
      return StatusFailed, ctx;
    }
    var b := Setup(backup.value, crc8);
    if b.regenerateCrc {
      return StatusFailed, ctx;
    }
    r := CopyBackedUp(b.raw, ctx);
    status := StatusOk;
  }

  /**
   * Saves the backed-up parameters to the backup. The existing backup is read
   * first (`None` when the read failed) and set up, the parameters are copied
   * into it, and it is torn down; only if that changed it is it handed to the
   * TPM write, whose success is `writeOk`. On success the backup request flag
   * is cleared. `written` is the block handed to the write, if any.
   */
  method SaveNvToBackup(ctx: Context, backup: Option<Block>, writeOk: bool, crc8: Crc8)
    returns (status: nat, r: Context, written: Option<Block>)
    ensures backup.None? ==> status == StatusFailed && r == ctx && written.None?
    ensures written.Some? ==> SameBackedUp(written.value, ctx.raw) && BlockValid(written.value, crc8)
    ensures backup.Some? ==>
      (written.None? <==> BlockValid(backup.value, crc8) && SameBackedUp(backup.value, ctx.raw))
    ensures status == StatusOk <==> backup.Some? && (written.None? || writeOk)
    ensures status == StatusOk ==> Set(ctx, BackupNvramRequest, 0) == Some(r)
    ensures status != StatusOk ==> status == StatusFailed && r == ctx
    ensures written.Some? && BlockValid(backup.value, crc8) ==>
      SameOthers(written.value, backup.value) && written.value[HeaderOffset] == backup.value[HeaderOffset]
    ensures written.Some? && !BlockValid(backup.value, crc8) ==>
      SameOthers(written.value, DefaultBlock) && written.value[HeaderOffset] == DefaultBlock[HeaderOffset]
  {
    if backup.None? {
      return StatusFailed, ctx, None;
    }
    var b := Setup(backup.value, crc8);
    SetupConsistent(backup.value, crc8);
    var copied := CopyBackedUp(ctx.raw, b);
    CopyConsistent(ctx.raw, b, copied, crc8);
    var t := Teardown(copied, crc8);
    TeardownCommits(copied, crc8);
    if !t.rawChanged {
      r := Set(ctx, BackupNvramRequest, 0).value;
      return StatusOk, r, None;
    }
    written := Some(t.raw);
    TeardownReads(copied, crc8);
    assert SameBackedUp(t.raw, ctx.raw) && SameOthers(t.raw, b.raw);
    assert t.raw[HeaderOffset] == t.raw[..CrcOffset][HeaderOffset];
    if writeOk {
      r := Set(ctx, BackupNvramRequest, 0).value;
      status := StatusOk;
    } else {
      status, r := StatusFailed, ctx;
    }
  }

  /** Copying the backed-up parameters keeps a consistent context consistent. */
  lemma CopyConsistent(src: Block, dst: Context, r: Context, crc8: Crc8)
    requires Consistent(dst, crc8)
    requires SameBackedUp(r.raw, src) && SameOthers(r.raw, dst.raw)
    requires r.regenerateCrc == (dst.regenerateCrc || !SameBackedUp(dst.raw, src))
    requires SameBackedUp(dst.raw, src) ==> r == dst
    requires r.raw[HeaderOffset] == dst.raw[HeaderOffset]
    ensures Consistent(r, crc8)
  {
  }

  /** Teardown does not change what any parameter reads. */
  lemma TeardownReads(ctx: Context, crc8: Crc8)
    ensures forall p :: Get(Teardown(ctx, crc8).raw, p) == Get(ctx.raw, p)
  {
    var t := Teardown(ctx, crc8).raw;
    forall p
      ensures Get(t, p) == Get(ctx.raw, p)
    {
      if !p.Unsupported? {
        forall i | 0 <= i < BlockSize
          ensures t[i] & Footprint(p, i) == ctx.raw[i] & Footprint(p, i)
        {
          if i == CrcOffset {
            FootprintAvoidsHeaderAndCrc(p);
          } else {
            assert t[i] == t[..CrcOffset][i];
          }
        }
        GetReadsFootprint(t, ctx.raw, p);
      }
    }
  }

  /**
   * A save whose write succeeds, followed by a restore into any context from
   * whatever the backup then holds, succeeds and brings back the saved values
   * of the backed-up parameters while every other parameter keeps its value.
   */
  method SaveThenRestore(ctx: Context, backup: Block, other: Context, crc8: Crc8)
    returns (saved: nat, restored: nat, r: Context)
    ensures saved == StatusOk && restored == StatusOk
    ensures SameBackedUp(r.raw, ctx.raw) && SameOthers(r.raw, other.raw)
  {
    var ctx', written;
    saved, ctx', written := SaveNvToBackup(ctx, Some(backup), true, crc8);
    var stored := if written.Some? then written.value else backup;
    restored, r := RestoreNvFromBackup(other, Some(stored), crc8);
  }
}
