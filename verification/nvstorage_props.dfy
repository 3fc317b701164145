/**
 * Properties of the non-volatile block accessors: get-after-set, the bits each
 * parameter owns, independence of distinct parameters, and the setup / set /
 * teardown life cycle that keeps the block acceptable to the next setup.
 */
module NvStorageProps {
  import opened Bytes
  import opened Wrappers
  import opened NvStorage

  /** The bits of byte `i` that parameter `p` owns. */
  function Footprint(p: Param, i: nat): byte
  {
    if IsFlag(p) then (if i == FlagOffset(p) then FlagMask(p) else 0)
    else
      match p
      case TryBCount => if i == BootOffset then BootTryBCountMask else 0
      case RecoveryRequest => if i == RecoveryOffset then 0xFF else 0
      case RecoverySubcode => if i == RecoverySubcodeOffset then 0xFF else 0
      case LocalizationIndex => if i == LocalizationOffset then 0xFF else 0
      case KernelField => if KernelFieldOffset <= i < CrcOffset then 0xFF else 0
      case Unsupported(_) => 0
  }

  /** `a` and `b` agree on the bits of each byte that `p` owns. */
  ghost predicate AgreeOn(a: Block, b: Block, p: Param)
  {
    forall i :: 0 <= i < BlockSize ==> a[i] & Footprint(p, i) == b[i] & Footprint(p, i)
  }

  /** `a` and `b` agree on every bit that `p` does not own. */
  ghost predicate AgreeOff(a: Block, b: Block, p: Param)
  {
    forall i :: 0 <= i < BlockSize ==> a[i] & !Footprint(p, i) == b[i] & !Footprint(p, i)
  }

  /** No parameter owns a bit of the header signature or of the CRC byte. */
  lemma FootprintAvoidsHeaderAndCrc(p: Param)
    ensures Footprint(p, HeaderOffset) & HeaderMask == 0
    ensures Footprint(p, CrcOffset) == 0
  {
  }

  /** Distinct parameters own disjoint bits. */
  lemma FootprintsDisjoint(p: Param, q: Param, i: nat)
    requires p != q && !p.Unsupported? && !q.Unsupported?
    ensures Footprint(p, i) & Footprint(q, i) == 0
  {
  }

  /** A read looks only at the bits the parameter owns. */
  lemma GetReadsFootprint(a: Block, b: Block, p: Param)
    requires AgreeOn(a, b, p)
    ensures Get(a, p) == Get(b, p)
  {
    if p.KernelField? {
      forall i | KernelFieldOffset <= i < CrcOffset
        ensures a[i] == b[i]
      {
        assert a[i] & 0xFF == b[i] & 0xFF;
      }
      assert a[KernelFieldOffset..CrcOffset] == b[KernelFieldOffset..CrcOffset];
    } else if p.TryBCount? {
      assert a[BootOffset] & BootTryBCountMask == b[BootOffset] & BootTryBCountMask;
    } else if !IsFlag(p) && !p.Unsupported? {
      var off := if p.RecoveryRequest? then RecoveryOffset
        else if p.RecoverySubcode? then RecoverySubcodeOffset
        else LocalizationOffset;
      assert a[off] & 0xFF == b[off] & 0xFF;
    } else if IsFlag(p) {
      assert a[FlagOffset(p)] & FlagMask(p) == b[FlagOffset(p)] & FlagMask(p);
    }
  }

  /** A store changes only the bits the parameter owns. */
  lemma StoreStaysInFootprint(raw: Block, p: Param, v: uint32)
    requires !p.Unsupported?
    ensures AgreeOff(raw, Store(raw, p, v), p)
  {
    if p.KernelField? {
      KernelStoreFrame(raw, v);
    } else if IsFlag(p) {
      FlagStoreFrame(raw, p, v);
    } else if p.TryBCount? {
      TryBStoreFrame(raw, v);
    } else {
      var off := if p.RecoveryRequest? then RecoveryOffset
        else if p.RecoverySubcode? then RecoverySubcodeOffset
        else LocalizationOffset;
      ByteStoreFrame(raw, Store(raw, p, v), p, off);
    }
  }

  lemma FlagStoreFrame(raw: Block, p: Param, v: uint32)
    requires IsFlag(p)
    ensures AgreeOff(raw, Store(raw, p, v), p)
  {
    FlagStoreOthers(raw, p, v);
    FlagByteKeepsOthers(raw, p, v);
    ByteStoreFrame(raw, Store(raw, p, v), p, FlagOffset(p));
  }

  /** Storing a flag keeps the bits of its byte that the flag does not own. */
  lemma FlagByteKeepsOthers(raw: Block, p: Param, v: uint32)
    requires IsFlag(p)
    ensures raw[FlagOffset(p)] & !Footprint(p, FlagOffset(p)) ==
      Store(raw, p, v)[FlagOffset(p)] & !Footprint(p, FlagOffset(p))
  {
    FlagByteAfterStore(raw, p, v);
    FlagFootprint(p);
    SetOrClearKeepsOthers(raw[FlagOffset(p)], FlagMask(p), v != 0);
  }

  /** Storing a flag leaves every other byte alone. */
  lemma FlagStoreOthers(raw: Block, p: Param, v: uint32)
    requires IsFlag(p)
    ensures forall i :: 0 <= i < BlockSize && i != FlagOffset(p) ==> Store(raw, p, v)[i] == raw[i]
  {
    FlagStoreIs(raw, p, v);
  }

  lemma FlagStoreIs(raw: Block, p: Param, v: uint32)
    requires IsFlag(p)
    ensures Store(raw, p, v) ==
      raw[FlagOffset(p) := if v != 0 then raw[FlagOffset(p)] | FlagMask(p) else raw[FlagOffset(p)] & !FlagMask(p)]
  {
  }

  lemma FlagFootprint(p: Param)
    requires IsFlag(p)
    ensures Footprint(p, FlagOffset(p)) == FlagMask(p)
  {
  }

  lemma SetOrClearKeepsOthers(x: byte, m: byte, on: bool)
    ensures (if on then x | m else x & !m) & !m == x & !m
  {
  }

  lemma TryBStoreFrame(raw: Block, v: uint32)
    ensures AgreeOff(raw, Store(raw, TryBCount, v), TryBCount)
  {
    var x := raw[BootOffset];
    var c: uint32 := if v > 15 then 15 else v;
    var b := c as byte;
    assert b & !BootTryBCountMask == 0 by {
      assert b <= 0x0F;
    }
    assert ((x & !BootTryBCountMask) | b) & !BootTryBCountMask == x & !BootTryBCountMask;
    ByteStoreFrame(raw, Store(raw, TryBCount, v), TryBCount, BootOffset);
  }

  /** A store confined to byte `off`, where `p` owns `Footprint(p, off)`, stays in the footprint. */
  lemma ByteStoreFrame(raw: Block, s: Block, p: Param, off: nat)
    requires forall i :: 0 <= i < BlockSize && i != off ==> s[i] == raw[i]
    requires off < BlockSize
    requires raw[off] & !Footprint(p, off) == s[off] & !Footprint(p, off)
    ensures AgreeOff(raw, s, p)
  {
  }

  lemma KernelStoreFrame(raw: Block, v: uint32)
    ensures AgreeOff(raw, Store(raw, KernelField, v), KernelField)
  {
    Pow256Four();
    var s := Store(raw, KernelField, v);
    OverwriteFrame(raw, KernelFieldOffset, LeEncode(v, 4));
    forall i | 0 <= i < BlockSize
      ensures raw[i] & !Footprint(KernelField, i) == s[i] & !Footprint(KernelField, i)
    {
      if KernelFieldOffset <= i < CrcOffset {
        assert !Footprint(KernelField, i) == 0;
      }
    }
  }

  /** Setting or clearing a non-zero mask makes the masked bits read non-zero or zero. */
  lemma MaskReadsBack(x: byte, m: byte, on: bool)
    requires m != 0
    ensures ((if on then x | m else x & !m) & m != 0) == on
  {
  }

  /** A flag reads back 1 after a non-zero store and 0 after a zero store. */
  lemma FlagGetAfterStore(raw: Block, p: Param, v: uint32)
    requires IsFlag(p)
    ensures Get(Store(raw, p, v), p) == Some(Normalize(p, v))
  {
    FlagByteAfterStore(raw, p, v);
    FlagBitAfterStore(raw, p, v);
    FlagReadsStored(Store(raw, p, v), p, Store(raw, p, v)[FlagOffset(p)], v != 0);
  }

  /** Storing a flag sets or clears its bit in its byte. */
  lemma FlagByteAfterStore(raw: Block, p: Param, v: uint32)
    requires IsFlag(p)
    ensures Store(raw, p, v)[FlagOffset(p)] ==
      if v != 0 then raw[FlagOffset(p)] | FlagMask(p) else raw[FlagOffset(p)] & !FlagMask(p)
  {
    FlagStoreIs(raw, p, v);
  }

  /** After setting or clearing a flag's bit, the bit reads as set exactly for a non-zero value. */
  lemma FlagBitAfterStore(raw: Block, p: Param, v: uint32)
    requires IsFlag(p)
    ensures var x := if v != 0 then raw[FlagOffset(p)] | FlagMask(p) else raw[FlagOffset(p)] & !FlagMask(p);
      (x & FlagMask(p) != 0) == (v != 0)
  {
    FlagMaskNonZero(p);
    MaskReadsBack(raw[FlagOffset(p)], FlagMask(p), v != 0);
  }

  /** A flag whose byte holds `x` reads 1 exactly when `x` has the flag's bit set. */
  lemma FlagReadsStored(s: Block, p: Param, x: byte, on: bool)
    requires IsFlag(p) && s[FlagOffset(p)] == x && (x & FlagMask(p) != 0) == on
    ensures Get(s, p) == Some(if on then 1 else 0)
  {
    FlagGet(s, p);
  }

  /** Every flag's mask has a bit set. */
  lemma FlagMaskNonZero(p: Param)
    requires IsFlag(p)
    ensures FlagMask(p) != 0
  {
  }

  /** A flag reads 1 exactly when its bit is set. */
  lemma FlagGet(raw: Block, p: Param)
    requires IsFlag(p)
    ensures Get(raw, p) == Some(if raw[FlagOffset(p)] & FlagMask(p) != 0 then 1 else 0)
  {
  }

  /** The kernel field reads back the 32-bit value stored. */
  lemma KernelGetAfterStore(raw: Block, v: uint32)
    ensures Get(Store(raw, KernelField, v), KernelField) == Some(v)
  {
    var s := Store(raw, KernelField, v);
    Pow256Four();
    assert s[KernelFieldOffset..CrcOffset] == LeEncode(v, 4);
    LeRoundTrip(v, 4);
  }

  /** The try-B count reads back the value stored, clipped to 15. */
  lemma TryBGetAfterStore(raw: Block, v: uint32)
    ensures Get(Store(raw, TryBCount, v), TryBCount) == Some(if v > 15 then 15 else v)
  {
    var s := Store(raw, TryBCount, v);
    var c: uint32 := if v > 15 then 15 else v;
    var b := c as byte;
    assert b & 0x0F == b by {
      assert b <= 0x0F;
    }
    assert s[BootOffset] & BootTryBCountMask == b;
    ByteRoundTrip(c);
  }

  /** The byte-wide parameters read back the value stored, remapped or truncated to a byte. */
  lemma ByteGetAfterStore(raw: Block, p: Param, v: uint32)
    requires p.RecoveryRequest? || p.LocalizationIndex? || p.RecoverySubcode?
    ensures Get(Store(raw, p, v), p) == Some(Normalize(p, v))
  {
    ByteRoundTrip(Normalize(p, v));
  }

  /** After a store the parameter reads back its normalized value. */
  lemma GetAfterStore(raw: Block, p: Param, v: uint32)
    requires !p.Unsupported?
    ensures Get(Store(raw, p, v), p) == Some(Normalize(p, v))
  {
    if IsFlag(p) {
      FlagGetAfterStore(raw, p, v);
    } else if p.KernelField? {
      KernelGetAfterStore(raw, v);
    } else if p.TryBCount? {
      TryBGetAfterStore(raw, v);
    } else {
      ByteGetAfterStore(raw, p, v);
    }
  }

  /** Reading a field that is in range and writing it back stores that value. */
  lemma NormalizeGet(raw: Block, p: Param)
    requires !p.Unsupported?
    ensures Normalize(p, Get(raw, p).value) == Get(raw, p).value
  {
  }

  /** Set then Get returns the normalized value, and nothing but the parameter's own bits changes. */
  lemma SetThenGet(ctx: Context, p: Param, v: uint32)
    requires !p.Unsupported?
    ensures Set(ctx, p, v).Some?
    ensures Get(Set(ctx, p, v).value.raw, p) == Some(Normalize(p, v))
    ensures AgreeOff(ctx.raw, Set(ctx, p, v).value.raw, p)
  {
    if Get(ctx.raw, p) == Some(v) {
      NormalizeGet(ctx.raw, p);
    } else {
      GetAfterStore(ctx.raw, p, v);
      StoreStaysInFootprint(ctx.raw, p, v);
    }
  }

  /** Setting one parameter leaves every other parameter reading as before. */
  lemma SetFrame(ctx: Context, p: Param, q: Param, v: uint32)
    requires !p.Unsupported? && q != p
    ensures Get(Set(ctx, p, v).value.raw, q) == Get(ctx.raw, q)
  {
    SetThenGet(ctx, p, v);
    var r := Set(ctx, p, v).value;
    if !q.Unsupported? {
      forall i | 0 <= i < BlockSize
        ensures ctx.raw[i] & Footprint(q, i) == r.raw[i] & Footprint(q, i)
      {
        FootprintsDisjoint(p, q, i);
        BitsOutside(ctx.raw[i], r.raw[i], Footprint(p, i), Footprint(q, i));
      }
      GetReadsFootprint(ctx.raw, r.raw, q);
    }
  }

  /** Bits outside a mask that agree also agree under any mask disjoint from it. */
  lemma BitsOutside(x: byte, y: byte, m: byte, n: byte)
    requires x & !m == y & !m
    requires m & n == 0
    ensures x & n == y & n
  {
  }

  /** The block is well formed, and its CRC is either current or due to be regenerated. */
  ghost predicate Consistent(ctx: Context, crc8: Crc8)
  {
    HeaderValid(ctx.raw) && (ctx.regenerateCrc || BlockValid(ctx.raw, crc8))
  }

  lemma SetupConsistent(raw: Block, crc8: Crc8)
    ensures Consistent(Setup(raw, crc8), crc8)
  {
  }

  /** Setting any parameter keeps the context consistent. */
  lemma SetPreservesConsistent(ctx: Context, p: Param, v: uint32, crc8: Crc8)
    requires Consistent(ctx, crc8)
    requires !p.Unsupported?
    ensures Consistent(Set(ctx, p, v).value, crc8)
  {
    SetThenGet(ctx, p, v);
    FootprintAvoidsHeaderAndCrc(p);
    var r := Set(ctx, p, v).value;
    HeaderBitsKept(ctx.raw[HeaderOffset], r.raw[HeaderOffset], Footprint(p, HeaderOffset));
  }

  lemma HeaderBitsKept(x: byte, y: byte, m: byte)
    requires x & !m == y & !m
    requires m & HeaderMask == 0
    ensures x & HeaderMask == y & HeaderMask
  {
  }

  /** Teardown of a consistent context leaves a block the next setup accepts as is. */
  lemma TeardownCommits(ctx: Context, crc8: Crc8)
    requires Consistent(ctx, crc8)
    ensures BlockValid(Teardown(ctx, crc8).raw, crc8)
    ensures Setup(Teardown(ctx, crc8).raw, crc8) == Context(Teardown(ctx, crc8).raw, false, false)
  {
    var r := Teardown(ctx, crc8);
    assert r.raw[..CrcOffset] == ctx.raw[..CrcOffset];
    assert r.raw[HeaderOffset] == r.raw[..CrcOffset][HeaderOffset];
  }

  /** After a reset the settings-reset flags read 1 and every other parameter reads 0. */
  lemma DefaultsAfterReset(raw: Block, crc8: Crc8, p: Param)
    requires !BlockValid(raw, crc8)
    requires !p.Unsupported?
    ensures Get(Setup(raw, crc8).raw, p) ==
      Some(if p.FirmwareSettingsReset? || p.KernelSettingsReset? then 1 else 0)
  {
    var d := Setup(raw, crc8).raw;
    assert d == DefaultBlock;
    if p.KernelField? {
      var k := d[KernelFieldOffset..CrcOffset];
      assert k == [0, 0, 0, 0];
      assert LeDecode(k[3..]) == 0;
      assert LeDecode(k[2..]) == 0;
      assert LeDecode(k[1..]) == 0;
    }
  }
}
