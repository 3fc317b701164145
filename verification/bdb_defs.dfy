/**
 * Result codes, structure identities and the algorithm registry of the boot
 * descriptor block (BDB).
 *
 * The numeric values of magics, versions, algorithm identifiers and content
 * types are fixed by a header that is not part of this model; the values here
 * are the model's own and only their distinctness matters.
 */
module BdbDefs {

  /** Every outcome a validator or the verifier can report. */
  datatype Status =
    | Success
    | GoodOtherThanKey
    | ErrorBufSize
    | ErrorStructSize
    | ErrorStructMagic
    | ErrorStructVersion
    | ErrorHashAlg
    | ErrorSigAlg
    | ErrorDescription
    | ErrorOemAreaSize
    | ErrorBdbSize
    | ErrorHashEntrySize
    | ErrorSignedSize
    | ErrorHeader
    | ErrorBdbKey
    | ErrorOemArea0
    | ErrorSubkey
    | ErrorBdbSignedSize
    | ErrorHeaderSig
    | ErrorData
    | ErrorDataSig

  const HeaderMagic: nat := 0x30426442
  const KeyMagic: nat := 0x73334256
  const SigMagic: nat := 0x6b334256
  const DataMagic: nat := 0x31426442

  /** Every structure kind is at major version 1, minor version 0. */
  const VersionMajor: nat := 1
  const VersionMinor: nat := 0

  /** Size of the fixed description window of keys, signatures and data. */
  const DescriptionSize: nat := 128

  const HashAlgInvalid: nat := 0
  const HashAlgSha256: nat := 2
  const Sha256DigestSize: nat := 32

  const SigAlgInvalid: nat := 0
  const SigAlgRsa4096: nat := 3
  const SigAlgEcdsa521: nat := 5

  /** Content-type tags of hash entries. */
  const DataSpRw: nat := 1
  const DataApRw: nat := 2
  const DataMcu: nat := 3

  /** The hash algorithms the validators accept. */
  predicate HashAlgKnown(a: nat)
  {
    a == HashAlgSha256
  }

  /** The signature algorithms the validators accept. */
  predicate SigAlgKnown(a: nat)
  {
    a == SigAlgRsa4096 || a == SigAlgEcdsa521
  }

  /** Bytes of public-key material a key of algorithm `a` carries. */
  function KeyDataSize(a: nat): (n: nat)
    requires SigAlgKnown(a)
    ensures n <= 1032
    ensures n % 4 == 0
  {
    if a == SigAlgRsa4096 then 1032 else 136
  }

  /** Bytes of signature material a signature of algorithm `a` carries. */
  function SigDataSize(a: nat): (n: nat)
    requires SigAlgKnown(a)
    ensures n <= 512
    ensures n % 4 == 0
  {
    if a == SigAlgRsa4096 then 512 else 132
  }
}
