/**
 * The structural validators of the four BDB record kinds.
 *
 * Each validator takes a decoded record and the number of bytes available
 * from the record's start, runs its checks in a fixed order and reports the
 * first one that fails. Sizes are unbounded integers here, which stands for
 * the overflow-checked arithmetic the format demands.
 */
module BdbCheck {
  import opened Bytes
  import opened BdbDefs
  import opened BdbFormat

  /** Some byte of the description window is zero; what follows it is padding. */
  predicate Terminated(d: seq<byte>)
  {
    0 in d
  }

  // ---------------------------------------------------------------- header

  /** The order-free meaning of a header that passes. */
  predicate HeaderSound(h: Header, size: nat)
  {
    && HeaderSize <= h.structSize <= size
    && h.magic == HeaderMagic
    && h.major == VersionMajor && h.minor == VersionMinor
    && h.oemArea0Size % 4 == 0
    && h.structSize <= h.bdbSize
  }

  function CheckHeader(h: Header, size: nat): (r: Status)
    ensures r == Success <==> HeaderSound(h, size)
    ensures r != Success ==>
      r in {ErrorBufSize, ErrorStructSize, ErrorStructMagic, ErrorStructVersion, ErrorOemAreaSize, ErrorBdbSize}
  {
    if size < HeaderSize || size < h.structSize then ErrorBufSize
    else if h.structSize < HeaderSize then ErrorStructSize
    else if h.magic != HeaderMagic then ErrorStructMagic
    else if h.major != VersionMajor || h.minor != VersionMinor then ErrorStructVersion
    else if h.oemArea0Size % 4 != 0 then ErrorOemAreaSize
    else if h.bdbSize < h.structSize then ErrorBdbSize
    else Success
  }

  /** The well-formed header the header tests start from. */
  const TestHeader: Header := Header(HeaderMagic, VersionMajor, VersionMinor, HeaderSize,
    0xFFFF_FFFF_FFFF_FFFF, 1024, 512, 256)

  lemma TestHeaderPasses()
    ensures CheckHeader(TestHeader, HeaderSize) == Success
  {
  }

  /**
   * Every header that passes at exactly its own fixed size reacts to each
   * single-field mutation with the error the header tests expect.
   */
  lemma HeaderMutations(h: Header)
    requires CheckHeader(h, HeaderSize) == Success && h.structSize == HeaderSize
    ensures CheckHeader(h, HeaderSize - 1) == ErrorBufSize
    ensures CheckHeader(h.(structSize := h.structSize + 1), HeaderSize) == ErrorBufSize
    ensures CheckHeader(h.(structSize := h.structSize - 1), HeaderSize) == ErrorStructSize
    ensures CheckHeader(h.(magic := h.magic + 1), HeaderSize) == ErrorStructMagic
    ensures CheckHeader(h.(major := h.major + 1), HeaderSize) == ErrorStructVersion
    ensures CheckHeader(h.(oemArea0Size := h.oemArea0Size + 1), HeaderSize) == ErrorOemAreaSize
    ensures CheckHeader(h.(bdbSize := HeaderSize - 1), HeaderSize) == ErrorBdbSize
  {
  }

  // ---------------------------------------------------------------- key

  /** The order-free meaning of a key that passes. */
  predicate KeySound(k: Key, size: nat)
  {
    && KeyFixedSize <= size && k.structSize <= size
    && k.magic == KeyMagic
    && k.major == VersionMajor && k.minor == VersionMinor
    && HashAlgKnown(k.hashAlg) && SigAlgKnown(k.sigAlg)
    && KeyFixedSize + KeyDataSize(k.sigAlg) <= k.structSize
    && Terminated(k.description)
  }

  function CheckKey(k: Key, size: nat): (r: Status)
    ensures r == Success <==> KeySound(k, size)
    ensures r != Success ==>
      r in {ErrorBufSize, ErrorStructMagic, ErrorStructVersion, ErrorHashAlg, ErrorSigAlg,
            ErrorStructSize, ErrorDescription}
  {
    if size < KeyFixedSize || size < k.structSize then ErrorBufSize
    else if k.magic != KeyMagic then ErrorStructMagic
    else if k.major != VersionMajor || k.minor != VersionMinor then ErrorStructVersion
    else if !HashAlgKnown(k.hashAlg) then ErrorHashAlg
    else if !SigAlgKnown(k.sigAlg) then ErrorSigAlg
    else if k.structSize < KeyFixedSize + KeyDataSize(k.sigAlg) then ErrorStructSize
    else if !Terminated(k.description) then ErrorDescription
    else Success
  }

  /**
   * Every RSA-4096 key that passes at exactly its own size reacts to each
   * single-field mutation with the error the key tests expect; switching it to
   * ECDSA-521 still passes because the size rule is a lower bound.
   */
  lemma KeyMutations(k: Key)
    requires CheckKey(k, k.structSize) == Success
    requires k.sigAlg == SigAlgRsa4096 && k.structSize == KeyFixedSize + KeyDataSize(SigAlgRsa4096)
    ensures CheckKey(k, k.structSize - 1) == ErrorBufSize
    ensures CheckKey(k.(structSize := k.structSize + 1), k.structSize) == ErrorBufSize
    ensures CheckKey(k.(structSize := k.structSize - 1), k.structSize) == ErrorStructSize
    ensures CheckKey(k.(magic := k.magic + 1), k.structSize) == ErrorStructMagic
    ensures CheckKey(k.(major := k.major + 1), k.structSize) == ErrorStructVersion
    ensures CheckKey(k.(hashAlg := HashAlgInvalid), k.structSize) == ErrorHashAlg
    ensures CheckKey(k.(sigAlg := SigAlgEcdsa521), k.structSize) == Success
    ensures CheckKey(k.(sigAlg := SigAlgInvalid), k.structSize) == ErrorSigAlg
  {
  }

  /** A description without a zero byte is rejected, whatever else is right. */
  lemma KeyDescriptionUnterminated(k: Key, d: seq<byte>)
    requires CheckKey(k, k.structSize) == Success && 0 !in d
    ensures CheckKey(k.(description := d), k.structSize) == ErrorDescription
  {
  }

  /** Bytes after a description's first zero are padding and never rejected. */
  lemma KeyDescriptionPadding(k: Key, j: nat, x: byte)
    requires CheckKey(k, k.structSize) == Success
    requires j < |k.description| && 0 in k.description[..j]
    ensures CheckKey(k.(description := k.description[j := x]), k.structSize) == Success
  {
    var z :| 0 <= z < j && k.description[..j][z] == 0;
    assert k.description[j := x][z] == 0;
  }

  /** More room after a key never turns a pass into a failure. */
  lemma KeyRoomMonotone(k: Key, size: nat, more: nat)
    requires CheckKey(k, size) == Success && size <= more
    ensures CheckKey(k, more) == Success
  {
  }

  // ---------------------------------------------------------------- signature

  /** The order-free meaning of a signature that passes. */
  predicate SigSound(g: Sig, size: nat)
  {
    && SigFixedSize <= size && g.structSize <= size
    && g.magic == SigMagic
    && g.major == VersionMajor && g.minor == VersionMinor
    && HashAlgKnown(g.hashAlg) && SigAlgKnown(g.sigAlg)
    && SigFixedSize + SigDataSize(g.sigAlg) <= g.structSize
    && Terminated(g.description)
  }

  function CheckSig(g: Sig, size: nat): (r: Status)
    ensures r == Success <==> SigSound(g, size)
    ensures r != Success ==>
      r in {ErrorBufSize, ErrorStructMagic, ErrorStructVersion, ErrorHashAlg, ErrorSigAlg,
            ErrorStructSize, ErrorDescription}
  {
    if size < SigFixedSize || size < g.structSize then ErrorBufSize
    else if g.magic != SigMagic then ErrorStructMagic
    else if g.major != VersionMajor || g.minor != VersionMinor then ErrorStructVersion
    else if !HashAlgKnown(g.hashAlg) then ErrorHashAlg
    else if !SigAlgKnown(g.sigAlg) then ErrorSigAlg
    else if g.structSize < SigFixedSize + SigDataSize(g.sigAlg) then ErrorStructSize
    else if !Terminated(g.description) then ErrorDescription
    else Success
  }

  /**
   * Every RSA-4096 signature that passes at exactly its own size reacts to
   * each single-field mutation with the error the signature tests expect.
   */
  lemma SigMutations(g: Sig)
    requires CheckSig(g, g.structSize) == Success
    requires g.sigAlg == SigAlgRsa4096 && g.structSize == SigFixedSize + SigDataSize(SigAlgRsa4096)
    ensures CheckSig(g, g.structSize - 1) == ErrorBufSize
    ensures CheckSig(g.(structSize := g.structSize + 1), g.structSize) == ErrorBufSize
    ensures CheckSig(g.(structSize := g.structSize - 1), g.structSize) == ErrorStructSize
    ensures CheckSig(g.(magic := g.magic + 1), g.structSize) == ErrorStructMagic
    ensures CheckSig(g.(major := g.major + 1), g.structSize) == ErrorStructVersion
    ensures CheckSig(g.(hashAlg := HashAlgInvalid), g.structSize) == ErrorHashAlg
    ensures CheckSig(g.(sigAlg := SigAlgEcdsa521), g.structSize) == Success
    ensures CheckSig(g.(sigAlg := SigAlgInvalid), g.structSize) == ErrorSigAlg
  {
  }

  lemma SigDescriptionUnterminated(g: Sig, d: seq<byte>)
    requires CheckSig(g, g.structSize) == Success && 0 !in d
    ensures CheckSig(g.(description := d), g.structSize) == ErrorDescription
  {
  }

  lemma SigDescriptionPadding(g: Sig, j: nat, x: byte)
    requires CheckSig(g, g.structSize) == Success
    requires j < |g.description| && 0 in g.description[..j]
    ensures CheckSig(g.(description := g.description[j := x]), g.structSize) == Success
  {
    var z :| 0 <= z < j && g.description[..j][z] == 0;
    assert g.description[j := x][z] == 0;
  }

  lemma SigRoomMonotone(g: Sig, size: nat, more: nat)
    requires CheckSig(g, size) == Success && size <= more
    ensures CheckSig(g, more) == Success
  {
  }

  // ---------------------------------------------------------------- data block

  /** Bytes the data signature must at least cover: the block, OEM area 1 and the hash table. */
  function DataNeeded(d: Data): nat
  {
    d.structSize + d.numHashes * d.hashEntrySize + d.oemArea1Size
  }

  /** The order-free meaning of a data block that passes. */
  predicate DataSound(d: Data, size: nat)
  {
    && DataFixedSize <= d.structSize && d.structSize <= size && d.signedSize <= size
    && d.magic == DataMagic
    && d.major == VersionMajor && d.minor == VersionMinor
    && Terminated(d.description)
    && d.hashEntrySize == HashEntrySize
    && d.oemArea1Size % 4 == 0
    && DataNeeded(d) <= d.signedSize
  }

  function CheckData(d: Data, size: nat): (r: Status)
    ensures r == Success <==> DataSound(d, size)
    ensures r != Success ==>
      r in {ErrorBufSize, ErrorStructSize, ErrorStructMagic, ErrorStructVersion, ErrorDescription,
            ErrorHashEntrySize, ErrorOemAreaSize, ErrorSignedSize}
  {
    if size < DataFixedSize || size < d.structSize || size < d.signedSize then ErrorBufSize
    else if d.structSize < DataFixedSize then ErrorStructSize
    else if d.magic != DataMagic then ErrorStructMagic
    else if d.major != VersionMajor || d.minor != VersionMinor then ErrorStructVersion
    else if !Terminated(d.description) then ErrorDescription
    else if d.hashEntrySize != HashEntrySize then ErrorHashEntrySize
    else if d.oemArea1Size % 4 != 0 then ErrorOemAreaSize
    else if d.signedSize < DataNeeded(d) then ErrorSignedSize
    else Success
  }

  /**
   * Every data block of fixed size that passes at exactly its signed size
   * reacts to each single-field mutation with the error the data tests expect,
   * and the signed size may be anything from the exact total upwards.
   */
  lemma DataMutations(d: Data)
    requires CheckData(d, d.signedSize) == Success && d.structSize == DataFixedSize
    ensures CheckData(d, d.signedSize - 1) == ErrorBufSize
    ensures CheckData(d.(structSize := d.structSize - 1), d.signedSize) == ErrorStructSize
    ensures CheckData(d.(magic := d.magic + 1), d.signedSize) == ErrorStructMagic
    ensures CheckData(d.(major := d.major + 1), d.signedSize) == ErrorStructVersion
    ensures CheckData(d.(hashEntrySize := d.hashEntrySize - 1), d.signedSize) == ErrorHashEntrySize
    ensures CheckData(d.(oemArea1Size := d.oemArea1Size + 1), d.signedSize) == ErrorOemAreaSize
    ensures CheckData(d.(signedSize := DataNeeded(d)), d.signedSize) == Success
    ensures CheckData(d.(signedSize := DataNeeded(d) - 1), d.signedSize) == ErrorSignedSize
  {
  }

  lemma DataDescriptionUnterminated(d: Data, e: seq<byte>)
    requires CheckData(d, d.signedSize) == Success && 0 !in e
    ensures CheckData(d.(description := e), d.signedSize) == ErrorDescription
  {
  }

  lemma DataDescriptionPadding(d: Data, j: nat, x: byte)
    requires CheckData(d, d.signedSize) == Success
    requires j < |d.description| && 0 in d.description[..j]
    ensures CheckData(d.(description := d.description[j := x]), d.signedSize) == Success
  {
    var z :| 0 <= z < j && d.description[..j][z] == 0;
    assert d.description[j := x][z] == 0;
  }

  lemma DataRoomMonotone(d: Data, size: nat, more: nat)
    requires CheckData(d, size) == Success && size <= more
    ensures CheckData(d, more) == Success
  {
  }
}
