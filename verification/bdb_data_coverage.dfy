/**
 * What the data signature covers: starting from a buffer whose chain holds, a
 * change to the data block's fields, OEM area 1, any hash entry or the data
 * signature's material makes the verifier report a data-signature failure.
 * These results need the idealisation `IdealCrypto`.
 */
module BdbDataCoverage {
  import opened Bytes
  import opened Wrappers
  import opened BdbDefs
  import opened BdbFormat
  import opened BdbCheck
  import opened BdbLayout
  import opened BdbVerify
  import opened BdbTamper
  import opened BdbCoverage
  import opened BdbDataTamper

  /**
   * When the header section and its signature are as they were, the data
   * section still parses with the same signature record, and the subkey's
   * material is unchanged, changing either the data signature's signed bytes
   * alone or its material alone makes the data signature fail.
   */
  lemma DataSignatureBroken(c: Crypto, b: seq<byte>, b': seq<byte>, s: HeaderSection, t: DataSection,
                            t': DataSection, anchor: seq<byte>)
    requires IdealCrypto(c) && ParseHeaderSection(b) == Pass(s) && ParseDataSection(b, s.DataOff()) == Pass(t)
    requires DataSigValid(c, b, s, t)
    requires ParseHeaderSection(b') == Pass(s) && HeaderSigValid(c, b', s)
    requires ParseDataSection(b', s.DataOff()) == Pass(t') && t'.ds == t.ds && t'.SigOff() == t.SigOff()
    requires KeyMaterial(b', s.SubkeyOff(), s.sk) == KeyMaterial(b, s.SubkeyOff(), s.sk)
    requires var m := Span(b, t.off, t.SigOff()); var m' := Span(b', t.off, t.SigOff());
      var g := SigMaterial(b, t.SigOff(), t.ds); var g' := SigMaterial(b', t.SigOff(), t.ds);
      (m' != m && g' == g) || (m' == m && g' != g)
    ensures Verify(c, b', anchor) == ErrorDataSig
  {
    SignatureBinds(c, s.sk.sigAlg, KeyMaterial(b, s.SubkeyOff(), s.sk),
                   SigMaterial(b, t.SigOff(), t.ds), Span(b, t.off, t.SigOff()),
                   SigMaterial(b', t.SigOff(), t.ds), Span(b', t.off, t.SigOff()));
    assert !DataSigValid(c, b', s, t');
    VerifyOfSections(c, b', anchor, s, t');
  }

  /**
   * A change confined to `[lo, hi)` inside the bytes the data signature covers,
   * after which the data block still decodes to an acceptable block of the
   * same signed size, leaves the header section and the data signature's
   * record and material alone and changes the signed bytes.
   */
  lemma DataSignedChange(c: Crypto, b: seq<byte>, b': seq<byte>, s: HeaderSection, t: DataSection,
                         lo: nat, hi: nat, d': Data)
    requires ParseHeaderSection(b) == Pass(s) && ParseDataSection(b, s.DataOff()) == Pass(t)
    requires SameOutside(b, b', lo, hi) && t.off <= lo <= hi <= t.SigOff() && b'[lo..hi] != b[lo..hi]
    requires DataAt(b', t.off) == Some(d') && CheckData(d', |b| - t.off) == Success
    requires d'.signedSize == t.d.signedSize
    ensures ParseHeaderSection(b') == Pass(s) && HeaderSigValid(c, b', s) == HeaderSigValid(c, b, s)
    ensures KeyMaterial(b', s.SubkeyOff(), s.sk) == KeyMaterial(b, s.SubkeyOff(), s.sk)
    ensures ParseDataSection(b', s.DataOff()) == Pass(DataSection(t.off, d', t.ds))
    ensures SigMaterial(b', t.SigOff(), t.ds) == SigMaterial(b, t.SigOff(), t.ds)
    ensures Span(b', t.off, t.SigOff()) != Span(b, t.off, t.SigOff())
  {
    DataRecordsApart(b, t);
    HeaderPartUntouched(c, b, b', lo, hi);
    SigApart(b, b', lo, hi, t.SigOff());
    DataSectionFrame(b, b', t, d');
    SigMaterialApart(b, b', lo, hi, t.SigOff(), t.ds);
    SpanSeesChange(b, b', lo, hi, t.off, t.SigOff());
  }

  /** Writing a new version into a data block record changes its bytes and that field alone. */
  lemma DataVersionRecord(b: seq<byte>, lo: nat, d: Data, v: int)
    requires DataAt(b, lo) == Some(d) && v % 0x1_0000_0000 != d.dataVersion
    ensures lo + DataFixedSize <= |b| && SameOutside(b, SetField(b, lo, DataInts, 4, v), lo, lo + DataFixedSize)
    ensures SetField(b, lo, DataInts, 4, v)[lo..lo + DataFixedSize] != b[lo..lo + DataFixedSize]
    ensures DataAt(SetField(b, lo, DataInts, 4, v), lo) == Some(d.(dataVersion := v % 0x1_0000_0000))
  {
    DataIntsTotal();
    DataWrite(b, lo, 4, v);
    FieldWidths();
    DataBytesDiffer(b, SetField(b, lo, DataInts, 4, v), lo);
  }

  /** A data block whose version alone changes still passes its checks. */
  lemma DataVersionSound(d: Data, size: nat, x: nat)
    requires CheckData(d, size) == Success
    ensures CheckData(d.(dataVersion := x), size) == Success
  {
  }

  /** Writing a new version into the data block changes its record's bytes and keeps it acceptable. */
  lemma DataVersionWrite(b: seq<byte>, s: HeaderSection, t: DataSection, v: int, lo: nat, hi: nat)
    requires ParseHeaderSection(b) == Pass(s) && ParseDataSection(b, s.DataOff()) == Pass(t)
    requires v % 0x1_0000_0000 != t.d.dataVersion && lo == t.off && hi == lo + DataFixedSize
    ensures hi <= t.SigOff() && SameOutside(b, SetField(b, lo, DataInts, 4, v), lo, hi)
    ensures SetField(b, lo, DataInts, 4, v)[lo..hi] != b[lo..hi]
    ensures DataAt(SetField(b, lo, DataInts, 4, v), lo) == Some(t.d.(dataVersion := v % 0x1_0000_0000))
    ensures CheckData(t.d.(dataVersion := v % 0x1_0000_0000), |b| - lo) == Success
  {
    DataIntsTotal();
    DataRecordsApart(b, t);
    assert DataAt(b, lo) == Some(t.d) && CheckData(t.d, |b| - lo) == Success;
    DataVersionRecord(b, lo, t.d, v);
    DataVersionSound(t.d, |b| - lo, v % 0x1_0000_0000);
  }

  /** Any change to the data block's version is covered by the data signature. */
  lemma DataVersionCovered(c: Crypto, b: seq<byte>, s: HeaderSection, t: DataSection, anchor: seq<byte>, v: int)
    requires IdealCrypto(c) && ParseHeaderSection(b) == Pass(s) && ParseDataSection(b, s.DataOff()) == Pass(t)
    requires HeaderSigValid(c, b, s) && DataSigValid(c, b, s, t)
    requires v % 0x1_0000_0000 != t.d.dataVersion
    ensures Verify(c, SetField(b, t.off, DataInts, 4, v), anchor) == ErrorDataSig
  {
    DataIntsTotal();
    var lo := t.off;
    var hi := lo + DataFixedSize;
    var b' := SetField(b, lo, DataInts, 4, v);
    var d' := t.d.(dataVersion := v % 0x1_0000_0000);
    DataVersionWrite(b, s, t, v, lo, hi);
    DataSignedChange(c, b, b', s, t, lo, hi, d');
    DataSignatureBroken(c, b, b', s, t, DataSection(t.off, d', t.ds), anchor);
  }

  /** In particular, decrementing the data block's version breaks the data signature. */
  lemma DecrementDataVersion(c: Crypto, b: seq<byte>, s: HeaderSection, t: DataSection, anchor: seq<byte>, v: int)
    requires IdealCrypto(c) && ParseHeaderSection(b) == Pass(s) && ParseDataSection(b, s.DataOff()) == Pass(t)
    requires HeaderSigValid(c, b, s) && DataSigValid(c, b, s, t) && v == t.d.dataVersion - 1
    ensures Verify(c, SetField(b, t.off, DataInts, 4, v), anchor) == ErrorDataSig
  {
    DataIntsTotal();
    StepChanges(t.d.dataVersion, v, 0x1_0000_0000);
    DataVersionCovered(c, b, s, t, anchor, v);
  }

  /**
   * Any byte between the data block's fixed record and the data signature,
   * which holds the rest of the data block, OEM area 1 and the hash table, is
   * covered by the data signature.
   */
  lemma DataByteCovered(c: Crypto, b: seq<byte>, s: HeaderSection, t: DataSection, anchor: seq<byte>,
                        i: nat, y: byte)
    requires IdealCrypto(c) && ParseHeaderSection(b) == Pass(s) && ParseDataSection(b, s.DataOff()) == Pass(t)
    requires HeaderSigValid(c, b, s) && DataSigValid(c, b, s, t)
    requires t.off + DataFixedSize <= i < t.SigOff() && y != b[i]
    ensures Verify(c, b[i := y], anchor) == ErrorDataSig
  {
    ByteChange(b, i, y);
    DataApart(b, b[i := y], i, i + 1, t.off);
    DataSignedChange(c, b, b[i := y], s, t, i, i + 1, t.d);
    DataSignatureBroken(c, b, b[i := y], s, t, t, anchor);
  }

  /** OEM area 1 and the hash table lie between the data block's fixed record and the data signature. */
  lemma DataAreasSigned(b: seq<byte>, t: DataSection)
    requires ParseDataSection(b, t.off) == Pass(t)
    ensures t.off + DataFixedSize <= OemArea1Offset(t.off, t.d)
    ensures OemArea1Offset(t.off, t.d) + t.d.oemArea1Size == HashTableOffset(t.off, t.d)
    ensures HashTableOffset(t.off, t.d) + t.d.numHashes * HashEntrySize <= t.SigOff()
  {
  }

  /** Byte `k` of hash entry `j` falls inside a table of `n` entries starting at `base`. */
  lemma HashEntryInTable(base: nat, n: nat, j: nat, k: nat, i: nat)
    requires j < n && k < HashEntrySize && i == base + j * HashEntrySize + k
    ensures base <= i < base + n * HashEntrySize
  {
    assert (j + 1) * HashEntrySize <= n * HashEntrySize;
  }

  /** Any byte of OEM area 1 is covered by the data signature. */
  lemma OemArea1ByteCovered(c: Crypto, b: seq<byte>, s: HeaderSection, t: DataSection, anchor: seq<byte>,
                            i: nat, y: byte)
    requires IdealCrypto(c) && ParseHeaderSection(b) == Pass(s) && ParseDataSection(b, s.DataOff()) == Pass(t)
    requires HeaderSigValid(c, b, s) && DataSigValid(c, b, s, t)
    requires OemArea1Offset(t.off, t.d) <= i < OemArea1Offset(t.off, t.d) + t.d.oemArea1Size && y != b[i]
    ensures Verify(c, b[i := y], anchor) == ErrorDataSig
  {
    DataAreasSigned(b, t);
    DataByteCovered(c, b, s, t, anchor, i, y);
  }

  /**
   * Any byte `k` of hash entry `j`, its offset and its digest included, is
   * covered by the data signature; `i` is that byte's position in the buffer.
   */
  lemma HashEntryByteCovered(c: Crypto, b: seq<byte>, s: HeaderSection, t: DataSection, anchor: seq<byte>,
                             j: nat, k: nat, i: nat, y: byte)
    requires IdealCrypto(c) && ParseHeaderSection(b) == Pass(s) && ParseDataSection(b, s.DataOff()) == Pass(t)
    requires HeaderSigValid(c, b, s) && DataSigValid(c, b, s, t)
    requires j < t.d.numHashes && k < HashEntrySize && i == HashTableOffset(t.off, t.d) + j * HashEntrySize + k
    requires i < |b| && y != b[i]
    ensures Verify(c, b[i := y], anchor) == ErrorDataSig
  {
    DataAreasSigned(b, t);
    HashEntryInTable(HashTableOffset(t.off, t.d), t.d.numHashes, j, k, i);
    DataByteCovered(c, b, s, t, anchor, i, y);
  }

  /** A change to one byte of the data signature's material leaves everything else the data signature reads. */
  lemma DataSigMaterialChange(c: Crypto, b: seq<byte>, b': seq<byte>, s: HeaderSection, t: DataSection, i: nat)
    requires ParseHeaderSection(b) == Pass(s) && ParseDataSection(b, s.DataOff()) == Pass(t)
    requires t.SigOff() + SigFixedSize <= i < t.SigOff() + SigFixedSize + SigDataSize(t.ds.sigAlg) && i < |b|
    requires SameOutside(b, b', i, i + 1) && b'[i..i + 1] != b[i..i + 1]
    ensures ParseHeaderSection(b') == Pass(s) && HeaderSigValid(c, b', s) == HeaderSigValid(c, b, s)
    ensures KeyMaterial(b', s.SubkeyOff(), s.sk) == KeyMaterial(b, s.SubkeyOff(), s.sk)
    ensures ParseDataSection(b', s.DataOff()) == Pass(t)
    ensures Span(b', t.off, t.SigOff()) == Span(b, t.off, t.SigOff())
    ensures SigMaterial(b', t.SigOff(), t.ds) != SigMaterial(b, t.SigOff(), t.ds)
  {
    DataRecordsApart(b, t);
    HeaderPartUntouched(c, b, b', i, i + 1);
    DataApart(b, b', i, i + 1, t.off);
    SigApart(b, b', i, i + 1, t.SigOff());
    DataSectionFrame(b, b', t, t.d);
    SpanApart(b, b', i, i + 1, t.off, t.SigOff());
    SigMaterialSeesChange(b, b', t.SigOff(), t.ds, i);
  }

  /** Any byte of the data signature's material is bound by the signature check. */
  lemma DataSigMaterialCovered(c: Crypto, b: seq<byte>, s: HeaderSection, t: DataSection, anchor: seq<byte>,
                               i: nat, y: byte)
    requires IdealCrypto(c) && ParseHeaderSection(b) == Pass(s) && ParseDataSection(b, s.DataOff()) == Pass(t)
    requires HeaderSigValid(c, b, s) && DataSigValid(c, b, s, t)
    requires t.SigOff() + SigFixedSize <= i < t.SigOff() + SigFixedSize + SigDataSize(t.ds.sigAlg)
    requires y != b[i]
    ensures Verify(c, b[i := y], anchor) == ErrorDataSig
  {
    ByteChange(b, i, y);
    DataSigMaterialChange(c, b, b[i := y], s, t, i);
    DataSignatureBroken(c, b, b[i := y], s, t, t, anchor);
  }
}
