/**
 * What the two signatures and the root-key digest cover: starting from a
 * buffer whose chain holds, a change to any byte they cover turns the
 * verifier's answer into the corresponding failure, and a change to the root
 * key's own fields leaves the chain intact but breaks the match with the
 * caller's anchor. These results need the idealisation `IdealCrypto`.
 */
module BdbCoverage {
  import opened Bytes
  import opened Wrappers
  import opened BdbDefs
  import opened BdbFormat
  import opened BdbCheck
  import opened BdbLayout
  import opened BdbVerify
  import opened BdbTamper

  // ---------------------------------------------------------------- single-byte changes

  /** Replacing one byte changes that byte and nothing else. */
  lemma ByteChange(b: seq<byte>, i: nat, y: byte)
    requires i < |b| && y != b[i]
    ensures SameOutside(b, b[i := y], i, i + 1)
    ensures b[i := y][i..i + 1] != b[i..i + 1]
  {
    assert b[i := y][i..i + 1][0] == y;
  }

  /** Records that decode differently come from different bytes. */
  lemma KeyBytesDiffer(b: seq<byte>, b': seq<byte>, off: nat)
    requires KeyAt(b, off).Some? && KeyAt(b', off).Some? && KeyAt(b', off) != KeyAt(b, off)
    ensures b'[off..off + KeyFixedSize] != b[off..off + KeyFixedSize]
  {
  }

  lemma DataBytesDiffer(b: seq<byte>, b': seq<byte>, off: nat)
    requires DataAt(b, off).Some? && DataAt(b', off).Some? && DataAt(b', off) != DataAt(b, off)
    ensures b'[off..off + DataFixedSize] != b[off..off + DataFixedSize]
  {
  }

  // ---------------------------------------------------------------- the header signature

  /**
   * When the header section still parses with the same header, root key and
   * signature record, and the root key's material is unchanged, changing
   * either the signed bytes alone or the signature material alone makes the
   * header signature fail.
   */
  lemma HeaderSignatureBroken(c: Crypto, b: seq<byte>, b': seq<byte>, s: HeaderSection, s': HeaderSection,
                              anchor: seq<byte>)
    requires IdealCrypto(c) && ParseHeaderSection(b) == Pass(s) && HeaderSigValid(c, b, s)
    requires ParseHeaderSection(b') == Pass(s') && s'.h == s.h && s'.k == s.k && s'.hs == s.hs
    requires KeyMaterial(b', s.KeyOff(), s.k) == KeyMaterial(b, s.KeyOff(), s.k)
    requires var m := Span(b, s.Oem0Off(), s.SigOff()); var m' := Span(b', s.Oem0Off(), s.SigOff());
      var g := SigMaterial(b, s.SigOff(), s.hs); var g' := SigMaterial(b', s.SigOff(), s.hs);
      (m' != m && g' == g) || (m' == m && g' != g)
    ensures Verify(c, b', anchor) == ErrorHeaderSig
  {
    SignatureBinds(c, s.k.sigAlg, KeyMaterial(b, s.KeyOff(), s.k),
                   SigMaterial(b, s.SigOff(), s.hs), Span(b, s.Oem0Off(), s.SigOff()),
                   SigMaterial(b', s.SigOff(), s.hs), Span(b', s.Oem0Off(), s.SigOff()));
    assert !HeaderSigValid(c, b', s');
  }

  /** The subkey's record and material lie inside the bytes the header signature covers. */
  lemma SubkeySigned(b: seq<byte>, s: HeaderSection)
    requires ParseHeaderSection(b) == Pass(s)
    ensures s.Oem0Off() <= s.SubkeyOff() && s.SubkeyOff() + KeyFixedSize <= s.SigOff()
    ensures s.SubkeyOff() + KeyFixedSize + KeyDataSize(s.sk.sigAlg) <= s.SigOff()
  {
  }

  /** A change confined to `[lo, hi)` inside OEM area 0 or the subkey leaves the header section's other parts alone. */
  lemma HeaderSignedPartOnly(b: seq<byte>, b': seq<byte>, s: HeaderSection, lo: nat, hi: nat)
    requires ParseHeaderSection(b) == Pass(s) && SameOutside(b, b', lo, hi)
    requires s.Oem0Off() <= lo <= hi <= s.SigOff()
    ensures HeaderIn(b') == Some(s.h) && KeyAt(b', s.KeyOff()) == Some(s.k)
    ensures SigAt(b', s.SigOff()) == Some(s.hs)
    ensures KeyMaterial(b', s.KeyOff(), s.k) == KeyMaterial(b, s.KeyOff(), s.k)
    ensures SigMaterial(b', s.SigOff(), s.hs) == SigMaterial(b, s.SigOff(), s.hs)
  {
    HeaderApart(b, b', lo, hi);
    KeyApart(b, b', lo, hi, s.KeyOff());
    SigApart(b, b', lo, hi, s.SigOff());
    KeyMaterialApart(b, b', lo, hi, s.KeyOff(), s.k);
    SigMaterialApart(b, b', lo, hi, s.SigOff(), s.hs);
  }

  /**
   * A change inside the signed bytes that keeps the subkey acceptable and of
   * the same size leaves the header section parsing, with the new subkey, and
   * changes only the signed bytes.
   */
  lemma HeaderSignedChange(b: seq<byte>, b': seq<byte>, s: HeaderSection, lo: nat, hi: nat, sk': Key)
    requires ParseHeaderSection(b) == Pass(s) && SameOutside(b, b', lo, hi)
    requires s.Oem0Off() <= lo <= hi <= s.SigOff() && b'[lo..hi] != b[lo..hi]
    requires KeyAt(b', s.SubkeyOff()) == Some(sk') && CheckKey(sk', |b| - s.SubkeyOff()) == Success
    requires sk'.structSize == s.sk.structSize
    ensures ParseHeaderSection(b') == Pass(s.(sk := sk'))
    ensures KeyMaterial(b', s.KeyOff(), s.k) == KeyMaterial(b, s.KeyOff(), s.k)
    ensures SigMaterial(b', s.SigOff(), s.hs) == SigMaterial(b, s.SigOff(), s.hs)
    ensures Span(b', s.Oem0Off(), s.SigOff()) != Span(b, s.Oem0Off(), s.SigOff())
  {
    HeaderSignedPartOnly(b, b', s, lo, hi);
    HeaderSectionFrame(b, b', s, s.k, sk');
    SpanSeesChange(b, b', lo, hi, s.Oem0Off(), s.SigOff());
  }

  /** Any byte of OEM area 0 is covered by the header signature. */
  lemma OemArea0ByteCovered(c: Crypto, b: seq<byte>, s: HeaderSection, anchor: seq<byte>, i: nat, y: byte)
    requires IdealCrypto(c) && ParseHeaderSection(b) == Pass(s) && HeaderSigValid(c, b, s)
    requires s.Oem0Off() <= i < s.SubkeyOff() && y != b[i]
    ensures Verify(c, b[i := y], anchor) == ErrorHeaderSig
  {
    ByteChange(b, i, y);
    SubkeySigned(b, s);
    KeyApart(b, b[i := y], i, i + 1, s.SubkeyOff());
    HeaderSignedChange(b, b[i := y], s, i, i + 1, s.sk);
    HeaderSignatureBroken(c, b, b[i := y], s, s, anchor);
  }

  /**
   * Any change to the subkey's version is covered by the header signature;
   * the version is not checked, so the header section still parses.
   */
  lemma SubkeyVersionCovered(c: Crypto, b: seq<byte>, s: HeaderSection, anchor: seq<byte>, v: int)
    requires IdealCrypto(c) && ParseHeaderSection(b) == Pass(s) && HeaderSigValid(c, b, s)
    requires v % 0x1_0000_0000 != s.sk.keyVersion
    ensures Verify(c, SetField(b, s.SubkeyOff(), KeyInts, 6, v), anchor) == ErrorHeaderSig
  {
    KeyIntsTotal();
    var lo := s.SubkeyOff();
    var hi := lo + KeyFixedSize;
    var b' := SetField(b, lo, KeyInts, 6, v);
    var sk' := s.sk.(keyVersion := v % 0x1_0000_0000);
    SubkeyVersionWrite(b, s, v, lo, hi);
    HeaderSignedChange(b, b', s, lo, hi, sk');
    HeaderSignatureBroken(c, b, b', s, s.(sk := sk'), anchor);
  }

  /** Writing a new version into the subkey changes its record's bytes and keeps it acceptable. */
  lemma SubkeyVersionWrite(b: seq<byte>, s: HeaderSection, v: int, lo: nat, hi: nat)
    requires ParseHeaderSection(b) == Pass(s) && v % 0x1_0000_0000 != s.sk.keyVersion
    requires lo == s.SubkeyOff() && hi == lo + KeyFixedSize
    ensures SameOutside(b, SetField(b, lo, KeyInts, 6, v), lo, hi)
    ensures SetField(b, lo, KeyInts, 6, v)[lo..hi] != b[lo..hi]
    ensures s.Oem0Off() <= lo && hi <= s.SigOff()
    ensures KeyAt(SetField(b, lo, KeyInts, 6, v), lo) == Some(s.sk.(keyVersion := v % 0x1_0000_0000))
    ensures CheckKey(s.sk.(keyVersion := v % 0x1_0000_0000), |b| - lo) == Success
  {
    KeyIntsTotal();
    var b' := SetField(b, lo, KeyInts, 6, v);
    KeyWrite(b, lo, 6, v);
    FieldWidths();
    SubkeySigned(b, s);
    KeyBytesDiffer(b, b', lo);
  }

  /** A change at byte `i` of a signature's material shows in that material. */
  lemma SigMaterialSeesChange(b: seq<byte>, b': seq<byte>, x: nat, g: Sig, i: nat)
    requires SigAlgKnown(g.sigAlg) && x + SigFixedSize <= i < x + SigFixedSize + SigDataSize(g.sigAlg) <= |b|
    requires SameOutside(b, b', i, i + 1) && b'[i..i + 1] != b[i..i + 1]
    ensures SigMaterial(b', x, g) != SigMaterial(b, x, g)
  {
    var lo := x + SigFixedSize;
    var hi := lo + SigDataSize(g.sigAlg);
    SpanSeesChange(b, b', i, i + 1, lo, hi);
  }

  /** A change to one byte of the header signature's material leaves everything else the header signature reads. */
  lemma HeaderSigMaterialChange(b: seq<byte>, b': seq<byte>, s: HeaderSection, i: nat)
    requires ParseHeaderSection(b) == Pass(s)
    requires s.SigOff() + SigFixedSize <= i < s.SigOff() + SigFixedSize + SigDataSize(s.hs.sigAlg) && i < |b|
    requires SameOutside(b, b', i, i + 1) && b'[i..i + 1] != b[i..i + 1]
    ensures ParseHeaderSection(b') == Pass(s)
    ensures KeyMaterial(b', s.KeyOff(), s.k) == KeyMaterial(b, s.KeyOff(), s.k)
    ensures Span(b', s.Oem0Off(), s.SigOff()) == Span(b, s.Oem0Off(), s.SigOff())
    ensures SigMaterial(b', s.SigOff(), s.hs) != SigMaterial(b, s.SigOff(), s.hs)
  {
    HeaderApart(b, b', i, i + 1);
    KeyApart(b, b', i, i + 1, s.KeyOff());
    KeyApart(b, b', i, i + 1, s.SubkeyOff());
    SigApart(b, b', i, i + 1, s.SigOff());
    KeyMaterialApart(b, b', i, i + 1, s.KeyOff(), s.k);
    SpanApart(b, b', i, i + 1, s.Oem0Off(), s.SigOff());
    HeaderSectionFrame(b, b', s, s.k, s.sk);
    SigMaterialSeesChange(b, b', s.SigOff(), s.hs, i);
  }

  /** Any byte of the header signature's material is bound by the signature check. */
  lemma HeaderSigMaterialCovered(c: Crypto, b: seq<byte>, s: HeaderSection, anchor: seq<byte>, i: nat, y: byte)
    requires IdealCrypto(c) && ParseHeaderSection(b) == Pass(s) && HeaderSigValid(c, b, s)
    requires s.SigOff() + SigFixedSize <= i < s.SigOff() + SigFixedSize + SigDataSize(s.hs.sigAlg)
    requires y != b[i]
    ensures Verify(c, b[i := y], anchor) == ErrorHeaderSig
  {
    ByteChange(b, i, y);
    HeaderSigMaterialChange(b, b[i := y], s, i);
    HeaderSignatureBroken(c, b, b[i := y], s, s, anchor);
  }

}
