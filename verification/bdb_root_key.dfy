/**
 * The root key's own fields are outside both signatures: changing its version
 * leaves the whole chain intact, and only the comparison with the caller's
 * trusted digest notices.
 */
module BdbRootKey {
  import opened Bytes
  import opened Wrappers
  import opened BdbDefs
  import opened BdbFormat
  import opened BdbCheck
  import opened BdbLayout
  import opened BdbVerify
  import opened BdbTamper
  import opened BdbCoverage

  /** The root key's record and material lie inside its stored image, before OEM area 0. */
  lemma RootKeyInImage(b: seq<byte>, s: HeaderSection)
    requires ParseHeaderSection(b) == Pass(s)
    ensures HeaderSize <= s.KeyOff() && s.KeyOff() + KeyFixedSize + KeyDataSize(s.k.sigAlg) <= s.Oem0Off()
    ensures s.Oem0Off() <= s.SubkeyOff() && s.Oem0Off() <= s.SigOff() && s.SigOff() <= s.DataOff()
  {
  }

  /** Writing a new version into the root key changes its record's bytes and keeps it acceptable. */
  lemma RootKeyVersionWrite(b: seq<byte>, s: HeaderSection, v: int, lo: nat, hi: nat)
    requires ParseHeaderSection(b) == Pass(s) && v % 0x1_0000_0000 != s.k.keyVersion
    requires lo == s.KeyOff() && hi == lo + KeyFixedSize
    ensures SameOutside(b, SetField(b, lo, KeyInts, 6, v), lo, hi)
    ensures SetField(b, lo, KeyInts, 6, v)[lo..hi] != b[lo..hi]
    ensures KeyAt(SetField(b, lo, KeyInts, 6, v), lo) == Some(s.k.(keyVersion := v % 0x1_0000_0000))
    ensures CheckKey(s.k.(keyVersion := v % 0x1_0000_0000), |b| - lo) == Success
  {
    KeyIntsTotal();
    KeyWrite(b, lo, 6, v);
    FieldWidths();
    KeyBytesDiffer(b, SetField(b, lo, KeyInts, 6, v), lo);
  }

  /**
   * A change confined to the root key's record, after which the record still
   * decodes to an acceptable key of the same size, leaves the header section
   * parsing with the new root key.
   */
  lemma RootKeyRecordOnly(b: seq<byte>, b': seq<byte>, s: HeaderSection, lo: nat, hi: nat, k': Key)
    requires ParseHeaderSection(b) == Pass(s) && lo == s.KeyOff() && hi == lo + KeyFixedSize
    requires SameOutside(b, b', lo, hi)
    requires KeyAt(b', lo) == Some(k') && CheckKey(k', |b| - lo) == Success && k'.structSize == s.k.structSize
    ensures ParseHeaderSection(b') == Pass(HeaderSection(s.h, k', s.sk, s.hs))
  {
    RootKeyInImage(b, s);
    HeaderApart(b, b', lo, hi);
    KeyApart(b, b', lo, hi, s.SubkeyOff());
    SigApart(b, b', lo, hi, s.SigOff());
    HeaderSectionFrame(b, b', s, k', s.sk);
  }

  /** The same change leaves every byte the header signature reads as it was. */
  lemma RootKeyRecordOnlySigned(b: seq<byte>, b': seq<byte>, s: HeaderSection, lo: nat, hi: nat)
    requires ParseHeaderSection(b) == Pass(s) && lo == s.KeyOff() && hi == lo + KeyFixedSize
    requires SameOutside(b, b', lo, hi)
    ensures KeyMaterial(b', s.KeyOff(), s.k) == KeyMaterial(b, s.KeyOff(), s.k)
    ensures KeyMaterial(b', s.SubkeyOff(), s.sk) == KeyMaterial(b, s.SubkeyOff(), s.sk)
    ensures SigMaterial(b', s.SigOff(), s.hs) == SigMaterial(b, s.SigOff(), s.hs)
    ensures Span(b', s.Oem0Off(), s.SigOff()) == Span(b, s.Oem0Off(), s.SigOff())
  {
    RootKeyInImage(b, s);
    KeyMaterialApart(b, b', lo, hi, s.KeyOff(), s.k);
    KeyMaterialApart(b, b', lo, hi, s.SubkeyOff(), s.sk);
    SigMaterialApart(b, b', lo, hi, s.SigOff(), s.hs);
    SpanApart(b, b', lo, hi, s.Oem0Off(), s.SigOff());
  }

  /** Key material is located by the key's algorithm alone. */
  lemma KeyMaterialOfAlg(b: seq<byte>, off: nat, k: Key, k': Key)
    requires k'.sigAlg == k.sigAlg
    ensures KeyMaterial(b, off, k') == KeyMaterial(b, off, k)
  {
  }

  /** The same change leaves the data section and the bytes its signature reads as they were. */
  lemma RootKeyRecordOnlyData(b: seq<byte>, b': seq<byte>, s: HeaderSection, t: DataSection, lo: nat, hi: nat)
    requires ParseHeaderSection(b) == Pass(s) && ParseDataSection(b, s.DataOff()) == Pass(t)
    requires lo == s.KeyOff() && hi == lo + KeyFixedSize && SameOutside(b, b', lo, hi)
    ensures ParseDataSection(b', t.off) == Pass(t)
    ensures SigMaterial(b', t.SigOff(), t.ds) == SigMaterial(b, t.SigOff(), t.ds)
    ensures Span(b', t.off, t.SigOff()) == Span(b, t.off, t.SigOff())
  {
    RootKeyInImage(b, s);
    DataApart(b, b', lo, hi, t.off);
    SigApart(b, b', lo, hi, t.SigOff());
    DataSectionFrame(b, b', t, t.d);
    SigMaterialApart(b, b', lo, hi, t.SigOff(), t.ds);
    SpanApart(b, b', lo, hi, t.off, t.SigOff());
  }

  /**
   * The root key's version, rewritten: the header section parses with the new
   * root key, the data section is unchanged, neither signature's verdict
   * changes, and the root key's stored image does.
   */
  lemma RootKeyVersionChange(c: Crypto, b: seq<byte>, b': seq<byte>, s: HeaderSection, t: DataSection,
                             v: int, lo: nat, hi: nat, k': Key)
    requires ParseHeaderSection(b) == Pass(s) && ParseDataSection(b, s.DataOff()) == Pass(t)
    requires v % 0x1_0000_0000 != s.k.keyVersion && k' == s.k.(keyVersion := v % 0x1_0000_0000)
    requires lo == s.KeyOff() && hi == lo + KeyFixedSize && b' == SetField(b, lo, KeyInts, 6, v)
    ensures ParseHeaderSection(b') == Pass(HeaderSection(s.h, k', s.sk, s.hs))
    ensures HeaderSection(s.h, k', s.sk, s.hs).DataOff() == s.DataOff()
    ensures ParseDataSection(b', s.DataOff()) == Pass(t)
    ensures HeaderSigValid(c, b', HeaderSection(s.h, k', s.sk, s.hs)) == HeaderSigValid(c, b, s)
    ensures DataSigValid(c, b', HeaderSection(s.h, k', s.sk, s.hs), t) == DataSigValid(c, b, s, t)
    ensures RootKeyImage(b', HeaderSection(s.h, k', s.sk, s.hs)) != RootKeyImage(b, s)
  {
    KeyIntsTotal();
    var s' := HeaderSection(s.h, k', s.sk, s.hs);
    RootKeyVersionWrite(b, s, v, lo, hi);
    RootKeyRecordOnly(b, b', s, lo, hi, k');
    RootKeyRecordOnlySigned(b, b', s, lo, hi);
    KeyMaterialOfAlg(b', lo, s.k, k');
    RootKeyRecordOnlyData(b, b', s, t, lo, hi);
    HeaderSigValidFrame(c, b, b', s, s');
    DataSigValidFrame(c, b, b', s, t, s', t);
    RootKeyInImage(b, s);
    SpanSeesChange(b, b', lo, hi, s.KeyOff(), s.Oem0Off());
  }

  /**
   * When a change keeps both sections parsing and both signatures' verdicts
   * but alters the root key's image, an accepted buffer becomes good other
   * than the key.
   */
  lemma OnlyKeyDigestChanges(c: Crypto, b: seq<byte>, b': seq<byte>, s: HeaderSection, s': HeaderSection,
                             t: DataSection, anchor: seq<byte>)
    requires IdealCrypto(c) && ParseHeaderSection(b) == Pass(s) && ParseDataSection(b, s.DataOff()) == Pass(t)
    requires Verify(c, b, anchor) == Success
    requires ParseHeaderSection(b') == Pass(s') && ParseDataSection(b', s'.DataOff()) == Pass(t)
    requires HeaderSigValid(c, b', s') == HeaderSigValid(c, b, s)
    requires DataSigValid(c, b', s', t) == DataSigValid(c, b, s, t)
    requires RootKeyImage(b', s') != RootKeyImage(b, s)
    ensures Verify(c, b', anchor) == GoodOtherThanKey
  {
    VerifyOfSections(c, b, anchor, s, t);
    VerifyOfSections(c, b', anchor, s', t);
  }

  /**
   * Starting from a buffer the verifier accepts, any change to the root key's
   * version is reported as good other than the key: neither signature notices,
   * but the root key's digest no longer matches the anchor.
   */
  lemma RootKeyVersionDetected(c: Crypto, b: seq<byte>, s: HeaderSection, t: DataSection, anchor: seq<byte>, v: int)
    requires IdealCrypto(c) && ParseHeaderSection(b) == Pass(s) && ParseDataSection(b, s.DataOff()) == Pass(t)
    requires Verify(c, b, anchor) == Success && v % 0x1_0000_0000 != s.k.keyVersion
    ensures Verify(c, SetField(b, s.KeyOff(), KeyInts, 6, v), anchor) == GoodOtherThanKey
  {
    KeyIntsTotal();
    var lo := s.KeyOff();
    var hi := lo + KeyFixedSize;
    var b' := SetField(b, lo, KeyInts, 6, v);
    var k' := s.k.(keyVersion := v % 0x1_0000_0000);
    RootKeyVersionChange(c, b, b', s, t, v, lo, hi, k');
    OnlyKeyDigestChanges(c, b, b', s, HeaderSection(s.h, k', s.sk, s.hs), t, anchor);
  }
}
