/**
 * The 16-byte non-volatile boot-state block and its typed accessors.
 *
 * Byte layout (bit masks in parentheses):
 *   0      header: signature in the top two bits (0xC0 must read 0x40),
 *          firmware-settings-reset (0x20), kernel-settings-reset (0x10)
 *   1      debug-reset-mode (0x80), disable-dev-request (0x40),
 *          oprom-needed (0x20), backup-nvram-request (0x10), try-B count (0x0F)
 *   2      recovery request         3   localization index
 *   4      dev-boot-usb (0x01), dev-boot-signed-only (0x02), dev-boot-legacy (0x04)
 *   5      clear-TPM-owner request (0x01), clear-TPM-owner done (0x02)
 *   6      recovery subcode
 *   11..14 kernel field, little-endian 32 bits
 *   15     CRC-8 of bytes 0..14
 *
 * The CRC-8 routine is supplied by the caller as a function of bytes 0..14.
 */
module NvStorage {
  import opened Bytes
  import opened Wrappers

  const BlockSize: nat := 16

  type Block = s: seq<byte> | |s| == BlockSize
    witness [0, 0, 0, 0, 0, 0, 0, 0, 0, 0, 0, 0, 0, 0, 0, 0]

  /** The CRC-8 routine: a function of the 15 bytes before the CRC byte. */
  type Crc8 = seq<byte> -> byte

  const HeaderOffset: nat := 0
  const HeaderMask: byte := 0xC0
  const HeaderSignature: byte := 0x40
  const HeaderFirmwareSettingsReset: byte := 0x20
  const HeaderKernelSettingsReset: byte := 0x10

  const BootOffset: nat := 1
  const BootDebugResetMode: byte := 0x80
  const BootDisableDevRequest: byte := 0x40
  const BootOpromNeeded: byte := 0x20
  const BootBackupNvram: byte := 0x10
  const BootTryBCountMask: byte := 0x0F

  const RecoveryOffset: nat := 2
  const LocalizationOffset: nat := 3

  const DevFlagsOffset: nat := 4
  const DevBootUsbMask: byte := 0x01
  const DevBootSignedOnlyMask: byte := 0x02
  const DevBootLegacyMask: byte := 0x04

  const TpmFlagsOffset: nat := 5
  const TpmClearOwnerRequest: byte := 0x01
  const TpmClearOwnerDone: byte := 0x02

  const RecoverySubcodeOffset: nat := 6
  const KernelFieldOffset: nat := 11
  const CrcOffset: nat := 15

  /** Recovery reason stored for an out-of-range recovery request. */
  const RecoveryLegacy: uint32 := 0x01

  /** The parameters of the block; `Unsupported` stands for every other parameter code. */
  datatype Param =
    | FirmwareSettingsReset
    | KernelSettingsReset
    | DebugResetMode
    | TryBCount
    | RecoveryRequest
    | RecoverySubcode
    | LocalizationIndex
    | KernelField
    | DevBootUsb
    | DevBootLegacy
    | DevBootSignedOnly
    | DisableDevRequest
    | OpromNeeded
    | ClearTpmOwnerRequest
    | ClearTpmOwnerDone
    | BackupNvramRequest
    | Unsupported(code: nat)

  /** The context: the raw block plus the two bookkeeping flags. */
  datatype Context = Context(raw: Block, regenerateCrc: bool, rawChanged: bool)

  /** Parameters that are a single bit of one byte. */
  predicate IsFlag(p: Param)
  {
    || p.FirmwareSettingsReset? || p.KernelSettingsReset? || p.DebugResetMode?
    || p.DevBootUsb? || p.DevBootLegacy? || p.DevBootSignedOnly?
    || p.DisableDevRequest? || p.OpromNeeded? || p.ClearTpmOwnerRequest?
    || p.ClearTpmOwnerDone? || p.BackupNvramRequest?
  }

  /** Byte offset and mask of a flag parameter. */
  function FlagOffset(p: Param): (off: nat)
    requires IsFlag(p)
    ensures off < CrcOffset
  {
    match p
    case FirmwareSettingsReset | KernelSettingsReset => HeaderOffset
    case DebugResetMode | DisableDevRequest | OpromNeeded | BackupNvramRequest => BootOffset
    case DevBootUsb | DevBootLegacy | DevBootSignedOnly => DevFlagsOffset
    case ClearTpmOwnerRequest | ClearTpmOwnerDone => TpmFlagsOffset
  }

  function FlagMask(p: Param): byte
    requires IsFlag(p)
  {
    match p
    case FirmwareSettingsReset => HeaderFirmwareSettingsReset
    case KernelSettingsReset => HeaderKernelSettingsReset
    case DebugResetMode => BootDebugResetMode
    case DisableDevRequest => BootDisableDevRequest
    case OpromNeeded => BootOpromNeeded
    case BackupNvramRequest => BootBackupNvram
    case DevBootUsb => DevBootUsbMask
    case DevBootLegacy => DevBootLegacyMask
    case DevBootSignedOnly => DevBootSignedOnlyMask
    case ClearTpmOwnerRequest => TpmClearOwnerRequest
    case ClearTpmOwnerDone => TpmClearOwnerDone
  }

  /** The header signature bits are intact. */
  predicate HeaderValid(raw: Block)
  {
    raw[HeaderOffset] & HeaderMask == HeaderSignature
  }

  /** The block is one that setup accepts: intact header and matching CRC. */
  predicate BlockValid(raw: Block, crc8: Crc8)
  {
    HeaderValid(raw) && crc8(raw[..CrcOffset]) == raw[CrcOffset]
  }

  /** The block setup installs when the stored one is inconsistent. */
  const DefaultBlock: Block :=
    [HeaderSignature | HeaderFirmwareSettingsReset | HeaderKernelSettingsReset,
     0, 0, 0, 0, 0, 0, 0, 0, 0, 0, 0, 0, 0, 0, 0]

  /**
   * Validates the block, or resets it to defaults and asks for the CRC to be
   * regenerated. Nothing has changed yet in either case.
   */
  function Setup(raw: Block, crc8: Crc8): (r: Context)
    ensures !r.rawChanged
    ensures BlockValid(raw, crc8) ==> r.raw == raw && !r.regenerateCrc
    ensures !BlockValid(raw, crc8) ==> r.regenerateCrc
    ensures !BlockValid(raw, crc8) ==>
      forall i :: 0 <= i < BlockSize ==> r.raw[i] == if i == HeaderOffset then 0x70 else 0
  {
    if !BlockValid(raw, crc8) then Context(DefaultBlock, true, false)
    else Context(raw, false, false)
  }

  /** Commits the CRC if it must be regenerated. */
  function Teardown(ctx: Context, crc8: Crc8): (r: Context)
    ensures !r.regenerateCrc
    ensures r.raw[..CrcOffset] == ctx.raw[..CrcOffset]
    ensures ctx.regenerateCrc ==> r.raw[CrcOffset] == crc8(ctx.raw[..CrcOffset]) && r.rawChanged
    ensures !ctx.regenerateCrc ==> r == ctx
  {
    if ctx.regenerateCrc then
      Context(ctx.raw[CrcOffset := crc8(ctx.raw[..CrcOffset])], false, true)
    else ctx
  }

  /** Reads a parameter; `None` is the "unknown parameter" return of 1. */
  function Get(raw: Block, p: Param): (r: Option<uint32>)
    ensures r.None? <==> p.Unsupported?
    ensures IsFlag(p) ==> r.value <= 1
    ensures p.TryBCount? ==> r.value <= 15
    ensures p.RecoveryRequest? || p.RecoverySubcode? || p.LocalizationIndex? ==> r.value <= 0xFF
  {
    if IsFlag(p) then
      Some(if raw[FlagOffset(p)] & FlagMask(p) != 0 then 1 else 0)
    else
      match p
      case TryBCount => Some((raw[BootOffset] & BootTryBCountMask) as uint32)
      case RecoveryRequest => Some(raw[RecoveryOffset] as uint32)
      case RecoverySubcode => Some(raw[RecoverySubcodeOffset] as uint32)
      case LocalizationIndex => Some(raw[LocalizationOffset] as uint32)
      case KernelField =>
        LeDecodeBound(raw[KernelFieldOffset..CrcOffset]);
        Pow256Four();
        Some(LeDecode(raw[KernelFieldOffset..CrcOffset]))
      case Unsupported(_) => None
  }

  /**
   * The value a parameter reads back after being set to `value`: flags become 0
   * or 1, the try-B count is clipped to 15, an out-of-range recovery request
   * becomes the legacy reason, an out-of-range localization index becomes 0, and
   * the recovery subcode keeps its low byte.
   */
  function Normalize(p: Param, value: uint32): uint32
    requires !p.Unsupported?
  {
    if IsFlag(p) then (if value != 0 then 1 else 0)
    else
      match p
      case TryBCount => if value > 15 then 15 else value
      case RecoveryRequest => if value > 0xFF then RecoveryLegacy else value
      case LocalizationIndex => if value > 0xFF then 0 else value
      case RecoverySubcode => value % 256
      case KernelField => value
  }

  /** Writes a (supported) parameter into the raw block. */
  function Store(raw: Block, p: Param, value: uint32): Block
    requires !p.Unsupported?
  {
    if IsFlag(p) then
      var off := FlagOffset(p);
      raw[off := if value != 0 then raw[off] | FlagMask(p) else raw[off] & !FlagMask(p)]
    else
      match p
      case TryBCount =>
        var v := if value > 15 then 15 else value;
        raw[BootOffset := (raw[BootOffset] & !BootTryBCountMask) | (v as byte)]
      case RecoveryRequest =>
        var v := if value > 0xFF then RecoveryLegacy else value;
        raw[RecoveryOffset := v as byte]
      case RecoverySubcode =>
        raw[RecoverySubcodeOffset := (value % 256) as byte]
      case LocalizationIndex =>
        var v := if value > 0xFF then 0 else value;
        raw[LocalizationOffset := v as byte]
      case KernelField =>
        Pow256Four();
        Overwrite(raw, KernelFieldOffset, LeEncode(value, 4))
  }

  /**
   * Sets a parameter. `None` is the "unknown parameter" return of 1 (the caller
   * keeps its context). Setting a parameter to the value it already reads
   * leaves the context untouched; otherwise the CRC must be regenerated.
   */
  function Set(ctx: Context, p: Param, value: uint32): (r: Option<Context>)
    ensures r.None? <==> p.Unsupported?
    ensures Get(ctx.raw, p) == Some(value) ==> r == Some(ctx)
    ensures r.Some? && Get(ctx.raw, p) != Some(value) ==>
      r.value.regenerateCrc && r.value.rawChanged == ctx.rawChanged
  {
    if p.Unsupported? then None
    else if Get(ctx.raw, p) == Some(value) then Some(ctx)
    else Some(Context(Store(ctx.raw, p, value), true, ctx.rawChanged))
  }
}
