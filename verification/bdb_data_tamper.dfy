/**
 * Structural mangles of the data section of a BDB whose header section and
 * header signature hold: each makes the verifier stop at the data-block or
 * data-signature stage with the error that stage reports.
 */
module BdbDataTamper {
  import opened Bytes
  import opened Wrappers
  import opened BdbDefs
  import opened BdbFormat
  import opened BdbCheck
  import opened BdbLayout
  import opened BdbVerify
  import opened BdbTamper

  /** The data block's record and the data signature's record do not overlap, and the signature follows the block. */
  lemma DataRecordsApart(b: seq<byte>, t: DataSection)
    requires ParseDataSection(b, t.off) == Pass(t)
    ensures t.off + DataFixedSize <= t.SigOff() && t.SigOff() + SigFixedSize <= |b|
    ensures t.SigOff() + SigFixedSize + SigDataSize(t.ds.sigAlg) <= |b|
  {
  }

  /** A wrong data-block magic fails the data-block stage. */
  lemma TamperDataMagic(c: Crypto, b: seq<byte>, s: HeaderSection, anchor: seq<byte>)
    requires ParseHeaderSection(b) == Pass(s) && HeaderSigValid(c, b, s) && DataAt(b, s.DataOff()).Some?
    ensures Verify(c, SetField(b, s.DataOff(), DataInts, 0, DataMagic + 1), anchor) == ErrorData
  {
    DataIntsTotal();
    var lo := s.DataOff();
    var hi := lo + DataFixedSize;
    var b' := SetField(b, lo, DataInts, 0, DataMagic + 1);
    DataWrite(b, lo, 0, DataMagic + 1);
    FieldWidths();
    ModSmall(DataMagic + 1, Pow256(DataInts[0]));
    HeaderPartUntouched(c, b, b', lo, hi);
    VerifyAtData(c, b', anchor, s, DataAt(b, lo).value.(magic := DataMagic + 1));
  }

  /** A change confined to the data signature's record leaves the header section and the data block as they were. */
  lemma DataSigRecordOnly(c: Crypto, b: seq<byte>, b': seq<byte>, s: HeaderSection, t: DataSection, lo: nat, hi: nat)
    requires ParseHeaderSection(b) == Pass(s) && ParseDataSection(b, s.DataOff()) == Pass(t)
    requires lo == t.SigOff() && hi == lo + SigFixedSize && SameOutside(b, b', lo, hi)
    ensures ParseHeaderSection(b') == Pass(s) && HeaderSigValid(c, b', s) == HeaderSigValid(c, b, s)
    ensures DataAt(b', t.off) == Some(t.d) && CheckData(t.d, |b'| - t.off) == Success
  {
    DataRecordsApart(b, t);
    HeaderPartUntouched(c, b, b', lo, hi);
    DataApart(b, b', lo, hi, t.off);
  }

  /** A wrong data-signature magic fails the data-signature stage. */
  lemma TamperDataSigMagic(c: Crypto, b: seq<byte>, s: HeaderSection, t: DataSection, anchor: seq<byte>)
    requires ParseHeaderSection(b) == Pass(s) && HeaderSigValid(c, b, s)
    requires ParseDataSection(b, s.DataOff()) == Pass(t)
    ensures Verify(c, SetField(b, t.SigOff(), SigInts, 0, SigMagic + 1), anchor) == ErrorDataSig
  {
    var lo := t.SigOff();
    var hi := lo + SigFixedSize;
    DataRecordsApart(b, t);
    SigIntsTotal();
    var b' := SetField(b, lo, SigInts, 0, SigMagic + 1);
    SigWrite(b, lo, 0, SigMagic + 1);
    FieldWidths();
    ModSmall(SigMagic + 1, Pow256(SigInts[0]));
    DataSigRecordOnly(c, b, b', s, t, lo, hi);
    VerifyAtDataSig(c, b', anchor, s, t.d, t.ds.(magic := SigMagic + 1));
  }

  /** A data signature whose signed size disagrees with the data block's fails the data-signature stage. */
  lemma DataSigSizeMismatch(c: Crypto, b: seq<byte>, s: HeaderSection, t: DataSection, anchor: seq<byte>, v: int)
    requires ParseHeaderSection(b) == Pass(s) && HeaderSigValid(c, b, s)
    requires ParseDataSection(b, s.DataOff()) == Pass(t) && v % 0x1_0000_0000 != t.d.signedSize
    ensures Verify(c, SetField(b, t.SigOff(), SigInts, 6, v), anchor) == ErrorDataSig
  {
    var lo := t.SigOff();
    var hi := lo + SigFixedSize;
    DataRecordsApart(b, t);
    SigIntsTotal();
    var b' := SetField(b, lo, SigInts, 6, v);
    SigWrite(b, lo, 6, v);
    FieldWidths();
    DataSigRecordOnly(c, b, b', s, t, lo, hi);
    VerifyAtDataSig(c, b', anchor, s, t.d, t.ds.(signedSize := v % 0x1_0000_0000));
  }

  /** In particular, decrementing the data signature's signed size fails that stage. */
  lemma ShrinkDataSigSignedSize(c: Crypto, b: seq<byte>, s: HeaderSection, t: DataSection, anchor: seq<byte>, v: int)
    requires ParseHeaderSection(b) == Pass(s) && HeaderSigValid(c, b, s)
    requires ParseDataSection(b, s.DataOff()) == Pass(t) && v == t.ds.signedSize - 1
    ensures Verify(c, SetField(b, t.SigOff(), SigInts, 6, v), anchor) == ErrorDataSig
  {
    SigIntsTotal();
    assert t.ds.signedSize == t.d.signedSize;
    StepChanges(t.d.signedSize, v, 0x1_0000_0000);
    DataSigSizeMismatch(c, b, s, t, anchor, v);
  }
}
