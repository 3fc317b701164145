/**
 * The verification engine: the ordered stages that check a BDB's structure,
 * its two signatures and its root key.
 *
 * SHA-256 and signature verification are not part of this model; they are the
 * two functions of a `Crypto` value supplied by the caller.
 */
module BdbVerify {
  import opened Bytes
  import opened Wrappers
  import opened BdbDefs
  import opened BdbFormat
  import opened BdbCheck
  import opened BdbLayout

  /**
   * The cryptographic capabilities the verifier consumes: a digest, and a
   * signature check taking the key's signature algorithm, its public-key
   * material, the signature material and the digest that was signed.
   */
  datatype Crypto = Crypto(
    sha256: seq<byte> -> seq<byte>,
    verifySig: (nat, seq<byte>, seq<byte>, seq<byte>) -> bool)

  /**
   * The idealisation under which tampering is detected: the digest is
   * collision-free, a signature vouches for one digest only, and a key has one
   * signature per digest.
   */
  ghost predicate IdealCrypto(c: Crypto)
  {
    && (forall m1, m2 :: c.sha256(m1) == c.sha256(m2) ==> m1 == m2)
    && (forall alg, key, sig, d1, d2 :: c.verifySig(alg, key, sig, d1) && c.verifySig(alg, key, sig, d2) ==> d1 == d2)
    && (forall alg, key, s1, s2, d :: c.verifySig(alg, key, s1, d) && c.verifySig(alg, key, s2, d) ==> s1 == s2)
  }

  /** The header, root key, subkey and header signature, once located and checked. */
  datatype HeaderSection = HeaderSection(h: Header, k: Key, sk: Key, hs: Sig)
  {
    function KeyOff(): nat { BdbKeyOffset(h) }
    function Oem0Off(): nat { OemArea0Offset(h, k) }
    function SubkeyOff(): nat { SubkeyOffset(h, k) }
    function SigOff(): nat { HeaderSigOffset(h, k) }
    function DataOff(): nat { DataOffset(h, k, hs) }
  }

  /** The data block and data signature, once located and checked. */
  datatype DataSection = DataSection(off: nat, d: Data, ds: Sig)
  {
    function SigOff(): nat { DataSigOffset(off, d) }
  }

  /** What a successful header-section parse guarantees about the buffer. */
  ghost predicate HeaderSectionSound(buf: seq<byte>, s: HeaderSection)
  {
    && HeaderIn(buf) == Some(s.h) && CheckHeader(s.h, |buf|) == Success
    && s.KeyOff() <= |buf|
    && KeyAt(buf, s.KeyOff()) == Some(s.k) && CheckKey(s.k, |buf| - s.KeyOff()) == Success
    && s.SubkeyOff() <= |buf|
    && KeyAt(buf, s.SubkeyOff()) == Some(s.sk) && CheckKey(s.sk, |buf| - s.SubkeyOff()) == Success
    && s.h.oemArea0Size + s.sk.structSize <= s.h.signedSize
    && s.SigOff() <= |buf|
    && SigAt(buf, s.SigOff()) == Some(s.hs) && CheckSig(s.hs, |buf| - s.SigOff()) == Success
    && s.hs.signedSize == s.h.signedSize
    && s.DataOff() <= |buf|
  }

  /**
   * Stages 1 to 6: header, root key, OEM area 0 bounds, subkey, the header's
   * signed extent, and the header signature's structure.
   */
  function ParseHeaderSection(buf: seq<byte>): (r: Result<HeaderSection, Status>)
    ensures r.Pass? ==> HeaderSectionSound(buf, r.value)
    ensures r.Fail? ==>
      r.error in {ErrorHeader, ErrorBdbKey, ErrorOemArea0, ErrorSubkey, ErrorBdbSignedSize, ErrorHeaderSig}
  {
    match HeaderIn(buf)
    case None => Fail(ErrorHeader)
    case Some(h) =>
      if CheckHeader(h, |buf|) != Success then Fail(ErrorHeader)
      else
        var kOff := BdbKeyOffset(h);
        match KeyAt(buf, kOff)
        case None => Fail(ErrorBdbKey)
        case Some(k) =>
          if CheckKey(k, |buf| - kOff) != Success then Fail(ErrorBdbKey)
          else
            var oem0 := OemArea0Offset(h, k);
            if h.oemArea0Size > |buf| - oem0 then Fail(ErrorOemArea0)
            else
              var skOff := SubkeyOffset(h, k);
              match KeyAt(buf, skOff)
              case None => Fail(ErrorSubkey)
              case Some(sk) =>
                if CheckKey(sk, |buf| - skOff) != Success then Fail(ErrorSubkey)
                else if h.oemArea0Size + sk.structSize > h.signedSize || h.signedSize > |buf| - oem0 then
                  Fail(ErrorBdbSignedSize)
                else
                  var sigOff := HeaderSigOffset(h, k);
                  match SigAt(buf, sigOff)
                  case None => Fail(ErrorHeaderSig)
                  case Some(hs) =>
                    if CheckSig(hs, |buf| - sigOff) != Success || hs.signedSize != h.signedSize then
                      Fail(ErrorHeaderSig)
                    else Pass(HeaderSection(h, k, sk, hs))
  }

  /** What a successful data-section parse guarantees about the buffer. */
  ghost predicate DataSectionSound(buf: seq<byte>, t: DataSection)
  {
    && t.off <= |buf|
    && DataAt(buf, t.off) == Some(t.d) && CheckData(t.d, |buf| - t.off) == Success
    && t.SigOff() <= |buf|
    && SigAt(buf, t.SigOff()) == Some(t.ds) && CheckSig(t.ds, |buf| - t.SigOff()) == Success
    && t.ds.signedSize == t.d.signedSize
  }

  /** Stages 9 and 10 up to the cryptographic check: data block and data signature structure. */
  function ParseDataSection(buf: seq<byte>, off: nat): (r: Result<DataSection, Status>)
    ensures r.Pass? ==> r.value.off == off && DataSectionSound(buf, r.value)
    ensures r.Fail? ==> r.error in {ErrorData, ErrorDataSig}
  {
    match DataAt(buf, off)
    case None => Fail(ErrorData)
    case Some(d) =>
      if CheckData(d, |buf| - off) != Success then Fail(ErrorData)
      else
        var sigOff := DataSigOffset(off, d);
        match SigAt(buf, sigOff)
        case None => Fail(ErrorDataSig)
        case Some(ds) =>
          if CheckSig(ds, |buf| - sigOff) != Success || ds.signedSize != d.signedSize then Fail(ErrorDataSig)
          else Pass(DataSection(off, d, ds))
  }

  /** The bytes in `[lo, hi)`, or nothing when that is not a range of the buffer. */
  function Span(buf: seq<byte>, lo: nat, hi: nat): seq<byte>
  {
    if lo <= hi <= |buf| then buf[lo..hi] else []
  }

  /** The public-key material that follows the key record `k` at `off`. */
  function KeyMaterial(buf: seq<byte>, off: nat, k: Key): seq<byte>
  {
    if SigAlgKnown(k.sigAlg) then Span(buf, off + KeyFixedSize, off + KeyFixedSize + KeyDataSize(k.sigAlg))
    else []
  }

  /** The signature material that follows the signature record `g` at `off`. */
  function SigMaterial(buf: seq<byte>, off: nat, g: Sig): seq<byte>
  {
    if SigAlgKnown(g.sigAlg) then Span(buf, off + SigFixedSize, off + SigFixedSize + SigDataSize(g.sigAlg))
    else []
  }

  /** Stage 8: the root key signed OEM area 0 and the subkey. */
  predicate HeaderSigValid(c: Crypto, buf: seq<byte>, s: HeaderSection)
  {
    c.verifySig(s.k.sigAlg, KeyMaterial(buf, s.KeyOff(), s.k), SigMaterial(buf, s.SigOff(), s.hs),
                c.sha256(Span(buf, s.Oem0Off(), s.SigOff())))
  }

  /** Stage 11: the subkey signed the data block, OEM area 1 and the hash table. */
  predicate DataSigValid(c: Crypto, buf: seq<byte>, s: HeaderSection, t: DataSection)
  {
    c.verifySig(s.sk.sigAlg, KeyMaterial(buf, s.SubkeyOff(), s.sk), SigMaterial(buf, t.SigOff(), t.ds),
                c.sha256(Span(buf, t.off, t.SigOff())))
  }

  /** The root key's stored image, key material included. */
  function RootKeyImage(buf: seq<byte>, s: HeaderSection): seq<byte>
  {
    Span(buf, s.KeyOff(), s.Oem0Off())
  }

  /** The whole trust chain holds, whatever the root key's digest. */
  ghost predicate ChainValid(c: Crypto, buf: seq<byte>)
  {
    && ParseHeaderSection(buf).Pass?
    && HeaderSigValid(c, buf, ParseHeaderSection(buf).value)
    && ParseDataSection(buf, ParseHeaderSection(buf).value.DataOff()).Pass?
    && DataSigValid(c, buf, ParseHeaderSection(buf).value,
                    ParseDataSection(buf, ParseHeaderSection(buf).value.DataOff()).value)
  }

  /**
   * Verifies a BDB against the digest of the root key the caller trusts.
   * A container whose chain holds but whose root key does not hash to the
   * anchor is reported as good other than the key.
   */
  function Verify(c: Crypto, buf: seq<byte>, anchor: seq<byte>): (r: Status)
    ensures r == Success <==>
      ChainValid(c, buf) && c.sha256(RootKeyImage(buf, ParseHeaderSection(buf).value)) == anchor
    ensures r == GoodOtherThanKey <==>
      ChainValid(c, buf) && c.sha256(RootKeyImage(buf, ParseHeaderSection(buf).value)) != anchor
    ensures r in {Success, GoodOtherThanKey, ErrorHeader, ErrorBdbKey, ErrorOemArea0, ErrorSubkey,
                  ErrorBdbSignedSize, ErrorHeaderSig, ErrorData, ErrorDataSig}
  {
    match ParseHeaderSection(buf)
    case Fail(e) => e
    case Pass(s) =>
      if !HeaderSigValid(c, buf, s) then ErrorHeaderSig
      else
        match ParseDataSection(buf, s.DataOff())
        case Fail(e) => e
        case Pass(t) =>
          if !DataSigValid(c, buf, s, t) then ErrorDataSig
          else if c.sha256(RootKeyImage(buf, s)) == anchor then Success
          else GoodOtherThanKey
  }

  // ---------------------------------------------------------------- what the signatures bind

  /**
   * Under ideal cryptography a valid signature stops verifying when either the
   * signed bytes or the signature material change alone.
   */
  lemma SignatureBinds(c: Crypto, alg: nat, key: seq<byte>, sig: seq<byte>, m: seq<byte>,
                       sig': seq<byte>, m': seq<byte>)
    requires IdealCrypto(c) && c.verifySig(alg, key, sig, c.sha256(m))
    requires (m != m' && sig == sig') || (m == m' && sig != sig')
    ensures !c.verifySig(alg, key, sig', c.sha256(m'))
  {
    if m != m' {
      assert c.sha256(m) != c.sha256(m');
    }
  }

  /** The verifier's outcome once both sections parse is decided by the two signatures and the root-key digest. */
  lemma VerifyOfSections(c: Crypto, buf: seq<byte>, anchor: seq<byte>, s: HeaderSection, t: DataSection)
    requires ParseHeaderSection(buf) == Pass(s) && ParseDataSection(buf, s.DataOff()) == Pass(t)
    ensures Verify(c, buf, anchor) ==
      if !HeaderSigValid(c, buf, s) then ErrorHeaderSig
      else if !DataSigValid(c, buf, s, t) then ErrorDataSig
      else if c.sha256(RootKeyImage(buf, s)) == anchor then Success
      else GoodOtherThanKey
  {
  }

  // ---------------------------------------------------------------- the parses, characterised

  /** Whatever satisfies the header section's guarantees is what the parse returns. */
  lemma ParseHeaderSectionComplete(buf: seq<byte>, s: HeaderSection)
    requires HeaderSectionSound(buf, s)
    ensures ParseHeaderSection(buf) == Pass(s)
  {
    assert s.h.oemArea0Size <= |buf| - s.Oem0Off() && s.h.signedSize <= |buf| - s.Oem0Off();
  }

  /** Whatever satisfies the data section's guarantees is what the parse returns. */
  lemma ParseDataSectionComplete(buf: seq<byte>, t: DataSection)
    requires DataSectionSound(buf, t)
    ensures ParseDataSection(buf, t.off) == Pass(t)
  {
  }

  /** A header-section failure is the verifier's answer. */
  lemma VerifyOfHeaderFailure(c: Crypto, buf: seq<byte>, anchor: seq<byte>)
    requires ParseHeaderSection(buf).Fail?
    ensures Verify(c, buf, anchor) == ParseHeaderSection(buf).error
  {
  }

  /** Stages 1 to 5 pass with the records of `s`. */
  ghost predicate StagesBeforeHeaderSig(buf: seq<byte>, s: HeaderSection)
  {
    && HeaderIn(buf) == Some(s.h) && CheckHeader(s.h, |buf|) == Success
    && KeyAt(buf, s.KeyOff()) == Some(s.k) && CheckKey(s.k, |buf| - s.KeyOff()) == Success
    && s.SubkeyOff() <= |buf|
    && KeyAt(buf, s.SubkeyOff()) == Some(s.sk) && CheckKey(s.sk, |buf| - s.SubkeyOff()) == Success
    && s.h.oemArea0Size + s.sk.structSize <= s.h.signedSize
    && s.SigOff() <= |buf|
  }

  /** Once stages 1 to 5 pass, the header signature's record decides the parse. */
  lemma ParseAtHeaderSig(buf: seq<byte>, s: HeaderSection)
    requires StagesBeforeHeaderSig(buf, s)
    ensures ParseHeaderSection(buf) ==
      match SigAt(buf, s.SigOff())
      case None => Fail(ErrorHeaderSig)
      case Some(hs) =>
        if CheckSig(hs, |buf| - s.SigOff()) != Success || hs.signedSize != s.h.signedSize then Fail(ErrorHeaderSig)
        else Pass(s.(hs := hs))
  {
    assert s.h.oemArea0Size <= |buf| - s.Oem0Off() && s.h.signedSize <= |buf| - s.Oem0Off();
  }

  /** The header signature's verdict depends only on the key material, the signature material and the signed bytes. */
  lemma HeaderSigValidFrame(c: Crypto, b: seq<byte>, b': seq<byte>, s: HeaderSection, s': HeaderSection)
    requires s'.k.sigAlg == s.k.sigAlg && s'.KeyOff() == s.KeyOff() && s'.SigOff() == s.SigOff()
    requires s'.Oem0Off() == s.Oem0Off() && s'.hs == s.hs
    requires KeyMaterial(b', s.KeyOff(), s'.k) == KeyMaterial(b, s.KeyOff(), s.k)
    requires SigMaterial(b', s.SigOff(), s.hs) == SigMaterial(b, s.SigOff(), s.hs)
    requires Span(b', s.Oem0Off(), s.SigOff()) == Span(b, s.Oem0Off(), s.SigOff())
    ensures HeaderSigValid(c, b', s') == HeaderSigValid(c, b, s)
  {
  }

  /** The data signature's verdict depends only on the subkey material, the signature material and the signed bytes. */
  lemma DataSigValidFrame(c: Crypto, b: seq<byte>, b': seq<byte>, s: HeaderSection, t: DataSection,
                          s': HeaderSection, t': DataSection)
    requires s'.sk.sigAlg == s.sk.sigAlg && s'.SubkeyOff() == s.SubkeyOff()
    requires t'.off == t.off && t'.SigOff() == t.SigOff() && t'.ds == t.ds
    requires KeyMaterial(b', s.SubkeyOff(), s'.sk) == KeyMaterial(b, s.SubkeyOff(), s.sk)
    requires SigMaterial(b', t.SigOff(), t.ds) == SigMaterial(b, t.SigOff(), t.ds)
    requires Span(b', t.off, t.SigOff()) == Span(b, t.off, t.SigOff())
    ensures DataSigValid(c, b', s', t') == DataSigValid(c, b, s, t)
  {
  }

  /** Stages 1 and 2 pass with header `h` and root key `k`. */
  ghost predicate HeaderAndKeyPass(buf: seq<byte>, h: Header, k: Key)
  {
    && HeaderIn(buf) == Some(h) && CheckHeader(h, |buf|) == Success
    && KeyAt(buf, BdbKeyOffset(h)) == Some(k) && CheckKey(k, |buf| - BdbKeyOffset(h)) == Success
  }

  lemma VerifyAtBdbKey(c: Crypto, buf: seq<byte>, anchor: seq<byte>, h: Header)
    requires HeaderIn(buf) == Some(h) && CheckHeader(h, |buf|) == Success
    requires KeyAt(buf, BdbKeyOffset(h)).Some?
    requires CheckKey(KeyAt(buf, BdbKeyOffset(h)).value, |buf| - BdbKeyOffset(h)) != Success
    ensures Verify(c, buf, anchor) == ErrorBdbKey
  {
    assert ParseHeaderSection(buf) == Fail(ErrorBdbKey);
    VerifyOfHeaderFailure(c, buf, anchor);
  }

  lemma VerifyAtOemArea0(c: Crypto, buf: seq<byte>, anchor: seq<byte>, h: Header, k: Key)
    requires HeaderAndKeyPass(buf, h, k) && h.oemArea0Size > |buf| - OemArea0Offset(h, k)
    ensures Verify(c, buf, anchor) == ErrorOemArea0
  {
    assert ParseHeaderSection(buf) == Fail(ErrorOemArea0);
    VerifyOfHeaderFailure(c, buf, anchor);
  }

  lemma VerifyAtSubkey(c: Crypto, buf: seq<byte>, anchor: seq<byte>, h: Header, k: Key)
    requires HeaderAndKeyPass(buf, h, k) && SubkeyOffset(h, k) <= |buf|
    requires KeyAt(buf, SubkeyOffset(h, k)).Some?
    requires CheckKey(KeyAt(buf, SubkeyOffset(h, k)).value, |buf| - SubkeyOffset(h, k)) != Success
    ensures Verify(c, buf, anchor) == ErrorSubkey
  {
    assert ParseHeaderSection(buf) == Fail(ErrorSubkey);
    VerifyOfHeaderFailure(c, buf, anchor);
  }

  lemma VerifyAtSignedSize(c: Crypto, buf: seq<byte>, anchor: seq<byte>, h: Header, k: Key, sk: Key)
    requires HeaderAndKeyPass(buf, h, k) && SubkeyOffset(h, k) <= |buf|
    requires KeyAt(buf, SubkeyOffset(h, k)) == Some(sk) && CheckKey(sk, |buf| - SubkeyOffset(h, k)) == Success
    requires h.oemArea0Size + sk.structSize > h.signedSize
    ensures Verify(c, buf, anchor) == ErrorBdbSignedSize
  {
    assert ParseHeaderSection(buf) == Fail(ErrorBdbSignedSize);
    VerifyOfHeaderFailure(c, buf, anchor);
  }

  lemma VerifyAtHeaderSig(c: Crypto, buf: seq<byte>, anchor: seq<byte>, s: HeaderSection, hs: Sig)
    requires StagesBeforeHeaderSig(buf, s) && SigAt(buf, s.SigOff()) == Some(hs)
    requires CheckSig(hs, |buf| - s.SigOff()) != Success || hs.signedSize != s.h.signedSize
    ensures Verify(c, buf, anchor) == ErrorHeaderSig
  {
    ParseAtHeaderSig(buf, s);
    VerifyOfHeaderFailure(c, buf, anchor);
  }

  /** Once the header section and its signature pass, a data-section failure is the verifier's answer. */
  lemma VerifyAtDataSection(c: Crypto, buf: seq<byte>, anchor: seq<byte>, s: HeaderSection)
    requires ParseHeaderSection(buf) == Pass(s) && HeaderSigValid(c, buf, s)
    requires ParseDataSection(buf, s.DataOff()).Fail?
    ensures Verify(c, buf, anchor) == ParseDataSection(buf, s.DataOff()).error
  {
  }

  lemma VerifyAtData(c: Crypto, buf: seq<byte>, anchor: seq<byte>, s: HeaderSection, d: Data)
    requires ParseHeaderSection(buf) == Pass(s) && HeaderSigValid(c, buf, s)
    requires DataAt(buf, s.DataOff()) == Some(d) && CheckData(d, |buf| - s.DataOff()) != Success
    ensures Verify(c, buf, anchor) == ErrorData
  {
    VerifyAtDataSection(c, buf, anchor, s);
  }

  lemma VerifyAtDataSig(c: Crypto, buf: seq<byte>, anchor: seq<byte>, s: HeaderSection, d: Data, g: Sig)
    requires ParseHeaderSection(buf) == Pass(s) && HeaderSigValid(c, buf, s)
    requires DataAt(buf, s.DataOff()) == Some(d) && CheckData(d, |buf| - s.DataOff()) == Success
    requires DataSigOffset(s.DataOff(), d) <= |buf| && SigAt(buf, DataSigOffset(s.DataOff(), d)) == Some(g)
    requires CheckSig(g, |buf| - DataSigOffset(s.DataOff(), d)) != Success || g.signedSize != d.signedSize
    ensures Verify(c, buf, anchor) == ErrorDataSig
  {
    VerifyAtDataSection(c, buf, anchor, s);
  }
}
