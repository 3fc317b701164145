/**
 * The accessors of a BDB locate the very records and areas the verifier
 * checked, so what a caller reads back after a successful verification is
 * what the signatures vouched for.
 */
module BdbAccessors {
  import opened Bytes
  import opened Wrappers
  import opened BdbDefs
  import opened BdbFormat
  import opened BdbCheck
  import opened BdbLayout
  import opened BdbVerify
  import opened BdbDataCoverage

  /** The header-section accessors return the header section's records, and OEM area 0 is the bytes after the root key. */
  lemma HeaderAccessors(b: seq<byte>, s: HeaderSection)
    requires ParseHeaderSection(b) == Pass(s)
    ensures GetHeader(b) == Some(s.h)
    ensures GetBdbKey(b) == Some(s.k)
    ensures GetSubkey(b) == Some(s.sk)
    ensures GetHeaderSig(b) == Some(s.hs)
    ensures GetOemArea0(b) == Some(Span(b, s.Oem0Off(), s.SubkeyOff()))
    ensures |GetOemArea0(b).value| == s.h.oemArea0Size
  {
    assert HeaderSectionSound(b, s);
    HeaderAccessorsAt(b, s.h, s.k, s.sk, s.hs);
  }

  /** The header-section accessors follow the header to the records that lie where it says. */
  lemma HeaderAccessorsAt(b: seq<byte>, h: Header, k: Key, sk: Key, hs: Sig)
    requires HeaderIn(b) == Some(h) && KeyAt(b, BdbKeyOffset(h)) == Some(k)
    requires KeyAt(b, SubkeyOffset(h, k)) == Some(sk) && SigAt(b, HeaderSigOffset(h, k)) == Some(hs)
    ensures GetHeader(b) == Some(h) && GetBdbKey(b) == Some(k)
    ensures GetSubkey(b) == Some(sk) && GetHeaderSig(b) == Some(hs)
    ensures GetOemArea0(b) == Some(Span(b, OemArea0Offset(h, k), SubkeyOffset(h, k)))
  {
  }

  /** The data block the accessors locate is the one the data section was parsed from. */
  lemma LocateParsed(b: seq<byte>, s: HeaderSection, t: DataSection)
    requires ParseHeaderSection(b) == Pass(s) && ParseDataSection(b, s.DataOff()) == Pass(t)
    ensures LocateData(b) == Some((t.off, t.d))
  {
    assert HeaderIn(b) == Some(s.h) && KeyAt(b, BdbKeyOffset(s.h)) == Some(s.k);
    assert SigAt(b, HeaderSigOffset(s.h, s.k)) == Some(s.hs);
    assert DataOffset(s.h, s.k, s.hs) == t.off;
  }

  /** The data-section accessors return the data section's records. */
  lemma DataAccessors(b: seq<byte>, s: HeaderSection, t: DataSection)
    requires ParseHeaderSection(b) == Pass(s) && ParseDataSection(b, s.DataOff()) == Pass(t)
    ensures GetData(b) == Some(t.d)
    ensures GetDataSig(b) == Some(t.ds)
  {
    LocateParsed(b, s, t);
  }

  /** The hash table starts inside the buffer, after OEM area 1. */
  lemma HashTableInBuffer(b: seq<byte>, t: DataSection)
    requires ParseDataSection(b, t.off) == Pass(t)
    ensures OemArea1Offset(t.off, t.d) <= HashTableOffset(t.off, t.d) <= |b|
  {
    DataAreasSigned(b, t);
  }

  /** OEM area 1 is read from between the data block's record and the hash table, when both lie in the buffer. */
  lemma OemArea1At(b: seq<byte>, off: nat, d: Data)
    requires LocateData(b) == Some((off, d)) && HashTableOffset(off, d) <= |b|
    ensures GetOemArea1(b) == Some(b[OemArea1Offset(off, d)..HashTableOffset(off, d)])
  {
  }

  /** In a buffer whose sections parse, OEM area 1 is the declared bytes between the data block's record and the hash table. */
  lemma OemArea1Accessor(b: seq<byte>, s: HeaderSection, t: DataSection)
    requires ParseHeaderSection(b) == Pass(s) && ParseDataSection(b, s.DataOff()) == Pass(t)
    ensures HashTableOffset(t.off, t.d) <= |b|
    ensures GetOemArea1(b) == Some(b[OemArea1Offset(t.off, t.d)..HashTableOffset(t.off, t.d)])
    ensures |GetOemArea1(b).value| == t.d.oemArea1Size
  {
    LocateParsed(b, s, t);
    HashTableInBuffer(b, t);
    OemArea1At(b, t.off, t.d);
  }

  /** A table of `n` entries that ends inside the buffer can be read whole. */
  lemma HashTableFits(b: seq<byte>, at: nat, n: nat)
    requires at + n * HashEntrySize <= |b|
    ensures HashEntries(b, at, HashEntrySize, n).Some?
  {
    forall j | 0 <= j < n
      ensures HashAt(b, at + j * HashEntrySize).Some?
    {
      HashEntryInTable(at, n, j, HashEntrySize - 1, at + j * HashEntrySize + HashEntrySize - 1);
    }
  }

  /**
   * The hash table of a buffer whose sections parse is readable: it has one
   * entry per declared hash, each decoded from its place in the table.
   */
  lemma HashTableReadable(b: seq<byte>, s: HeaderSection, t: DataSection)
    requires ParseHeaderSection(b) == Pass(s) && ParseDataSection(b, s.DataOff()) == Pass(t)
    ensures GetHashTable(b) == HashEntries(b, HashTableOffset(t.off, t.d), HashEntrySize, t.d.numHashes)
    ensures GetHashTable(b).Some? && |GetHashTable(b).value| == t.d.numHashes
  {
    LocateParsed(b, s, t);
    DataAreasSigned(b, t);
    HashTableFits(b, HashTableOffset(t.off, t.d), t.d.numHashes);
  }

  /**
   * Looking up a content type in a buffer whose sections parse finds the first
   * table entry of that type, and finds nothing exactly when no entry has it.
   */
  lemma GetHashOfParsed(b: seq<byte>, s: HeaderSection, t: DataSection, ty: nat)
    requires ParseHeaderSection(b) == Pass(s) && ParseDataSection(b, s.DataOff()) == Pass(t)
    ensures GetHashTable(b).Some? && |GetHashTable(b).value| == t.d.numHashes
    ensures GetHash(b, ty).None? <==>
      forall j :: 0 <= j < t.d.numHashes ==> GetHashTable(b).value[j].dataType != ty
    ensures GetHash(b, ty).Some? ==>
      exists j :: 0 <= j < t.d.numHashes && GetHashTable(b).value[j] == GetHash(b, ty).value &&
        forall i :: 0 <= i < j ==> GetHashTable(b).value[i].dataType != ty
  {
    HashTableReadable(b, s, t);
    GetHashOfTable(b, ty);
  }

  /**
   * In a table whose first entry is the SP read-write image and whose second
   * is the AP read-write image, each lookup finds its entry and a lookup of
   * the MCU image finds nothing.
   */
  lemma GetHashOfTestTable(b: seq<byte>, es: seq<HashEntry>)
    requires GetHashTable(b) == Some(es) && |es| == 2
    requires es[0].dataType == DataSpRw && es[1].dataType == DataApRw
    ensures GetHash(b, DataSpRw) == Some(es[0])
    ensures GetHash(b, DataApRw) == Some(es[1])
    ensures GetHash(b, DataMcu).None?
  {
    assert FindHash(es, DataSpRw) == Some(0);
    assert FindHash(es[1..], DataApRw) == Some(0);
  }
}
