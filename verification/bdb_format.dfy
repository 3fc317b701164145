/**
 * The packed little-endian records of a BDB: header, key, signature, data
 * block and hash entry.
 *
 * Each record is a run of integer fields (widths in `...Ints`), zero reserved
 * bytes, and, for keys, signatures and data blocks, a description window; a
 * hash entry ends with its digest instead. Keys and signatures are followed in
 * the container by their variable-length key or signature material, which is
 * not part of the record.
 */
module BdbFormat {
  import opened Bytes
  import opened BdbDefs

  // ---------------------------------------------------------------- header

  /** magic, major, minor, struct_size, load_address, bdb_size, signed_size, oem_area_0_size */
  const HeaderInts: seq<nat> := [4, 1, 1, 2, 8, 4, 4, 4]
  const HeaderSize: nat := 32

  datatype Header = Header(
    magic: nat, major: nat, minor: nat, structSize: nat,
    loadAddress: nat, bdbSize: nat, signedSize: nat, oemArea0Size: nat)

  function HeaderFields(h: Header): seq<nat>
  {
    [h.magic, h.major, h.minor, h.structSize, h.loadAddress, h.bdbSize, h.signedSize, h.oemArea0Size]
  }

  predicate HeaderFits(h: Header)
  {
    FitsWidths(HeaderFields(h), HeaderInts)
  }

  function DecodeHeader(s: seq<byte>): Header
    requires |s| == HeaderSize
  {
    var f := Unpack(s, HeaderInts);
    Header(f[0], f[1], f[2], f[3], f[4], f[5], f[6], f[7])
  }

  function EncodeHeader(h: Header): (r: seq<byte>)
    requires HeaderFits(h)
    ensures |r| == HeaderSize
  {
    Pack(HeaderFields(h), HeaderInts) + [0, 0, 0, 0]
  }

  /** Decoding an encoded header gives it back. */
  lemma HeaderRoundTrip(h: Header)
    requires HeaderFits(h)
    ensures DecodeHeader(EncodeHeader(h)) == h
  {
    PackRoundTrip(HeaderFields(h), HeaderInts, [0, 0, 0, 0]);
    HeaderFieldsOfDecode(EncodeHeader(h));
    HeaderExt(DecodeHeader(EncodeHeader(h)), h);
  }

  lemma HeaderOffsets()
    ensures Offset(HeaderInts, 0) == 0 && Offset(HeaderInts, 7) == 24
  {
    var w := HeaderInts;
    OffsetStep(w, 1); OffsetStep(w, 2); OffsetStep(w, 3); OffsetStep(w, 4);
    OffsetStep(w, 5); OffsetStep(w, 6); OffsetStep(w, 7);
  }

  /** The integer fields of a header record take 28 bytes. */
  lemma HeaderIntsTotal()
    ensures Total(HeaderInts) == 28
  {
  }

  /** Writing integer field `i` of an encoded header changes exactly that field. */
  lemma PokeHeader(s: seq<byte>, i: nat, v: nat)
    requires |s| == HeaderSize && i < |HeaderInts| && v < Pow256(HeaderInts[i])
    ensures HeaderFields(DecodeHeader(Overwrite(s, Offset(HeaderInts, i), LeEncode(v, HeaderInts[i])))) ==
      HeaderFields(DecodeHeader(s))[i := v]
  {
    var s' := Overwrite(s, Offset(HeaderInts, i), LeEncode(v, HeaderInts[i]));
    UnpackOverwrite(s, HeaderInts, i, v);
    HeaderFieldsOfDecode(s');
    HeaderFieldsOfDecode(s);
  }

  lemma HeaderFieldsOfDecode(s: seq<byte>)
    requires |s| == HeaderSize
    ensures HeaderFields(DecodeHeader(s)) == Unpack(s, HeaderInts)
  {
    HeaderIntsTotal();
    HeaderFieldsOf(Unpack(s, HeaderInts));
  }

  /** Eight field values make a header whose fields are those values. */
  lemma HeaderFieldsOf(f: seq<nat>)
    requires |f| == 8
    ensures HeaderFields(Header(f[0], f[1], f[2], f[3], f[4], f[5], f[6], f[7])) == f
  {
  }

  /** A header is determined by its fields. */
  lemma HeaderExt(a: Header, b: Header)
    requires HeaderFields(a) == HeaderFields(b)
    ensures a == b
  {
    assert a.magic == HeaderFields(a)[0] && a.oemArea0Size == HeaderFields(a)[7];
  }

  // ---------------------------------------------------------------- key

  /** magic, major, minor, struct_size, hash_alg, sig_alg, key_version */
  const KeyInts: seq<nat> := [4, 1, 1, 2, 1, 1, 4]
  const KeyDescriptionOffset: nat := 16
  const KeyFixedSize: nat := 144

  datatype Key = Key(
    magic: nat, major: nat, minor: nat, structSize: nat,
    hashAlg: nat, sigAlg: nat, keyVersion: nat, description: seq<byte>)

  function KeyFields(k: Key): seq<nat>
  {
    [k.magic, k.major, k.minor, k.structSize, k.hashAlg, k.sigAlg, k.keyVersion]
  }

  predicate KeyFits(k: Key)
  {
    FitsWidths(KeyFields(k), KeyInts) && |k.description| == DescriptionSize
  }

  function DecodeKey(s: seq<byte>): Key
    requires |s| == KeyFixedSize
  {
    var f := Unpack(s, KeyInts);
    Key(f[0], f[1], f[2], f[3], f[4], f[5], f[6], s[KeyDescriptionOffset..])
  }

  function EncodeKey(k: Key): (r: seq<byte>)
    requires KeyFits(k)
    ensures |r| == KeyFixedSize
  {
    Pack(KeyFields(k), KeyInts) + [0, 0] + k.description
  }

  /** Decoding an encoded key gives it back. */
  lemma KeyRoundTrip(k: Key)
    requires KeyFits(k)
    ensures DecodeKey(EncodeKey(k)) == k
  {
    var tail := [0, 0] + k.description;
    assert EncodeKey(k) == Pack(KeyFields(k), KeyInts) + tail;
    PackRoundTrip(KeyFields(k), KeyInts, tail);
    assert EncodeKey(k)[KeyDescriptionOffset..] == k.description;
    KeyFieldsOfDecode(EncodeKey(k));
    KeyExt(DecodeKey(EncodeKey(k)), k);
  }

  /** A decoded key fits its fields, so it can be encoded again. */
  lemma DecodeKeyFits(s: seq<byte>)
    requires |s| == KeyFixedSize
    ensures KeyFits(DecodeKey(s))
  {
    UnpackFits(s, KeyInts);
    assert KeyFields(DecodeKey(s)) == Unpack(s, KeyInts);
  }

  lemma KeyOffsets()
    ensures Offset(KeyInts, 0) == 0 && Offset(KeyInts, 3) == 6 && Offset(KeyInts, 6) == 10
  {
    var w := KeyInts;
    OffsetStep(w, 1); OffsetStep(w, 2); OffsetStep(w, 3);
    OffsetStep(w, 4); OffsetStep(w, 5); OffsetStep(w, 6);
  }

  /** The integer fields of a key record take 14 bytes. */
  lemma KeyIntsTotal()
    ensures Total(KeyInts) == 14
  {
  }

  /** Writing integer field `i` of an encoded key changes exactly that field. */
  lemma PokeKey(s: seq<byte>, i: nat, v: nat)
    requires |s| == KeyFixedSize && i < |KeyInts| && v < Pow256(KeyInts[i])
    ensures KeyFields(DecodeKey(Overwrite(s, Offset(KeyInts, i), LeEncode(v, KeyInts[i])))) ==
      KeyFields(DecodeKey(s))[i := v]
    ensures DecodeKey(Overwrite(s, Offset(KeyInts, i), LeEncode(v, KeyInts[i]))).description ==
      DecodeKey(s).description
  {
    var e := LeEncode(v, KeyInts[i]);
    var s' := Overwrite(s, Offset(KeyInts, i), e);
    UnpackOverwrite(s, KeyInts, i, v);
    KeyFieldsOfDecode(s');
    KeyFieldsOfDecode(s);
    assert Offset(KeyInts, i) + |e| <= Total(KeyInts);
    OverwriteKeepsTail(s, Offset(KeyInts, i), e, KeyDescriptionOffset);
  }

  lemma KeyFieldsOfDecode(s: seq<byte>)
    requires |s| == KeyFixedSize
    ensures KeyFields(DecodeKey(s)) == Unpack(s, KeyInts)
  {
    KeyIntsTotal();
    KeyFieldsOf(Unpack(s, KeyInts), s[KeyDescriptionOffset..]);
  }

  /** Seven field values make a key whose fields are those values. */
  lemma KeyFieldsOf(f: seq<nat>, desc: seq<byte>)
    requires |f| == 7
    ensures KeyFields(Key(f[0], f[1], f[2], f[3], f[4], f[5], f[6], desc)) == f
  {
  }

  /** A key is determined by its integer fields and its description. */
  lemma KeyExt(a: Key, b: Key)
    requires KeyFields(a) == KeyFields(b) && a.description == b.description
    ensures a == b
  {
    assert a.magic == KeyFields(a)[0] && a.keyVersion == KeyFields(a)[6];
  }

  // ---------------------------------------------------------------- signature

  /** magic, major, minor, struct_size, hash_alg, sig_alg, signed_size */
  const SigInts: seq<nat> := [4, 1, 1, 2, 1, 1, 4]
  const SigDescriptionOffset: nat := 16
  const SigFixedSize: nat := 144

  datatype Sig = Sig(
    magic: nat, major: nat, minor: nat, structSize: nat,
    hashAlg: nat, sigAlg: nat, signedSize: nat, description: seq<byte>)

  function SigFields(g: Sig): seq<nat>
  {
    [g.magic, g.major, g.minor, g.structSize, g.hashAlg, g.sigAlg, g.signedSize]
  }

  predicate SigFits(g: Sig)
  {
    FitsWidths(SigFields(g), SigInts) && |g.description| == DescriptionSize
  }

  function DecodeSig(s: seq<byte>): Sig
    requires |s| == SigFixedSize
  {
    var f := Unpack(s, SigInts);
    Sig(f[0], f[1], f[2], f[3], f[4], f[5], f[6], s[SigDescriptionOffset..])
  }

  function EncodeSig(g: Sig): (r: seq<byte>)
    requires SigFits(g)
    ensures |r| == SigFixedSize
  {
    Pack(SigFields(g), SigInts) + [0, 0] + g.description
  }

  /** Decoding an encoded signature gives it back. */
  lemma SigRoundTrip(g: Sig)
    requires SigFits(g)
    ensures DecodeSig(EncodeSig(g)) == g
  {
    var tail := [0, 0] + g.description;
    assert EncodeSig(g) == Pack(SigFields(g), SigInts) + tail;
    PackRoundTrip(SigFields(g), SigInts, tail);
    assert EncodeSig(g)[SigDescriptionOffset..] == g.description;
    SigFieldsOfDecode(EncodeSig(g));
    SigExt(DecodeSig(EncodeSig(g)), g);
  }

  lemma SigOffsets()
    ensures Offset(SigInts, 0) == 0 && Offset(SigInts, 6) == 10
  {
    var w := SigInts;
    OffsetStep(w, 1); OffsetStep(w, 2); OffsetStep(w, 3);
    OffsetStep(w, 4); OffsetStep(w, 5); OffsetStep(w, 6);
  }

  /** The integer fields of a signature record take 14 bytes. */
  lemma SigIntsTotal()
    ensures Total(SigInts) == 14
  {
  }

  /** Writing integer field `i` of an encoded signature changes exactly that field. */
  lemma PokeSig(s: seq<byte>, i: nat, v: nat)
    requires |s| == SigFixedSize && i < |SigInts| && v < Pow256(SigInts[i])
    ensures SigFields(DecodeSig(Overwrite(s, Offset(SigInts, i), LeEncode(v, SigInts[i])))) ==
      SigFields(DecodeSig(s))[i := v]
    ensures DecodeSig(Overwrite(s, Offset(SigInts, i), LeEncode(v, SigInts[i]))).description ==
      DecodeSig(s).description
  {
    var e := LeEncode(v, SigInts[i]);
    var s' := Overwrite(s, Offset(SigInts, i), e);
    UnpackOverwrite(s, SigInts, i, v);
    SigFieldsOfDecode(s');
    SigFieldsOfDecode(s);
    assert Offset(SigInts, i) + |e| <= Total(SigInts);
    OverwriteKeepsTail(s, Offset(SigInts, i), e, SigDescriptionOffset);
  }

  lemma SigFieldsOfDecode(s: seq<byte>)
    requires |s| == SigFixedSize
    ensures SigFields(DecodeSig(s)) == Unpack(s, SigInts)
  {
    SigIntsTotal();
    SigFieldsOf(Unpack(s, SigInts), s[SigDescriptionOffset..]);
  }

  /** Seven field values make a signature whose fields are those values. */
  lemma SigFieldsOf(f: seq<nat>, desc: seq<byte>)
    requires |f| == 7
    ensures SigFields(Sig(f[0], f[1], f[2], f[3], f[4], f[5], f[6], desc)) == f
  {
  }

  /** A signature is determined by its integer fields and its description. */
  lemma SigExt(a: Sig, b: Sig)
    requires SigFields(a) == SigFields(b) && a.description == b.description
    ensures a == b
  {
    assert a.magic == SigFields(a)[0] && a.signedSize == SigFields(a)[6];
  }

  // ---------------------------------------------------------------- data block

  /**
   * magic, major, minor, struct_size, data_version, oem_area_1_size,
   * num_hashes, hash_entry_size, signed_size
   */
  const DataInts: seq<nat> := [4, 1, 1, 2, 4, 4, 1, 1, 4]
  const DataDescriptionOffset: nat := 32
  const DataFixedSize: nat := 160

  datatype Data = Data(
    magic: nat, major: nat, minor: nat, structSize: nat,
    dataVersion: nat, oemArea1Size: nat, numHashes: nat, hashEntrySize: nat,
    signedSize: nat, description: seq<byte>)

  function DataFields(d: Data): seq<nat>
  {
    [d.magic, d.major, d.minor, d.structSize, d.dataVersion, d.oemArea1Size,
     d.numHashes, d.hashEntrySize, d.signedSize]
  }

  predicate DataFits(d: Data)
  {
    FitsWidths(DataFields(d), DataInts) && |d.description| == DescriptionSize
  }

  function DecodeData(s: seq<byte>): Data
    requires |s| == DataFixedSize
  {
    var f := Unpack(s, DataInts);
    Data(f[0], f[1], f[2], f[3], f[4], f[5], f[6], f[7], f[8], s[DataDescriptionOffset..])
  }

  function EncodeData(d: Data): (r: seq<byte>)
    requires DataFits(d)
    ensures |r| == DataFixedSize
  {
    Pack(DataFields(d), DataInts) + [0, 0, 0, 0, 0, 0, 0, 0, 0, 0] + d.description
  }

  /** Decoding an encoded data block gives it back. */
  lemma DataRoundTrip(d: Data)
    requires DataFits(d)
    ensures DecodeData(EncodeData(d)) == d
  {
    var tail := [0, 0, 0, 0, 0, 0, 0, 0, 0, 0] + d.description;
    assert EncodeData(d) == Pack(DataFields(d), DataInts) + tail;
    PackRoundTrip(DataFields(d), DataInts, tail);
    assert EncodeData(d)[DataDescriptionOffset..] == d.description;
    DataFieldsOfDecode(EncodeData(d));
    DataExt(DecodeData(EncodeData(d)), d);
  }

  lemma DataOffsets()
    ensures Offset(DataInts, 0) == 0 && Offset(DataInts, 4) == 8
  {
    var w := DataInts;
    OffsetStep(w, 1); OffsetStep(w, 2); OffsetStep(w, 3); OffsetStep(w, 4);
  }

  /** The integer fields of a data record take 22 bytes. */
  lemma DataIntsTotal()
    ensures Total(DataInts) == 22
  {
  }

  /** Writing integer field `i` of an encoded data block changes exactly that field. */
  lemma PokeData(s: seq<byte>, i: nat, v: nat)
    requires |s| == DataFixedSize && i < |DataInts| && v < Pow256(DataInts[i])
    ensures DataFields(DecodeData(Overwrite(s, Offset(DataInts, i), LeEncode(v, DataInts[i])))) ==
      DataFields(DecodeData(s))[i := v]
    ensures DecodeData(Overwrite(s, Offset(DataInts, i), LeEncode(v, DataInts[i]))).description ==
      DecodeData(s).description
  {
    var e := LeEncode(v, DataInts[i]);
    var s' := Overwrite(s, Offset(DataInts, i), e);
    UnpackOverwrite(s, DataInts, i, v);
    DataFieldsOfDecode(s');
    DataFieldsOfDecode(s);
    assert Offset(DataInts, i) + |e| <= Total(DataInts);
    OverwriteKeepsTail(s, Offset(DataInts, i), e, DataDescriptionOffset);
  }

  lemma DataFieldsOfDecode(s: seq<byte>)
    requires |s| == DataFixedSize
    ensures DataFields(DecodeData(s)) == Unpack(s, DataInts)
  {
    DataIntsTotal();
    DataFieldsOf(Unpack(s, DataInts), s[DataDescriptionOffset..]);
  }

  /** Nine field values make a data block whose fields are those values. */
  lemma DataFieldsOf(f: seq<nat>, desc: seq<byte>)
    requires |f| == 9
    ensures DataFields(Data(f[0], f[1], f[2], f[3], f[4], f[5], f[6], f[7], f[8], desc)) == f
  {
  }

  /** A data block is determined by its integer fields and its description. */
  lemma DataExt(a: Data, b: Data)
    requires DataFields(a) == DataFields(b) && a.description == b.description
    ensures a == b
  {
    assert a.magic == DataFields(a)[0] && a.signedSize == DataFields(a)[8];
  }

  // ---------------------------------------------------------------- hash entry

  /** offset, size, partition, type, load_address */
  const HashInts: seq<nat> := [8, 4, 1, 1, 8]
  const HashDigestOffset: nat := 24
  const HashEntrySize: nat := 56

  datatype HashEntry = HashEntry(
    offset: nat, size: nat, partition: nat, dataType: nat, loadAddress: nat, digest: seq<byte>)

  function HashFields(e: HashEntry): seq<nat>
  {
    [e.offset, e.size, e.partition, e.dataType, e.loadAddress]
  }

  predicate HashFits(e: HashEntry)
  {
    FitsWidths(HashFields(e), HashInts) && |e.digest| == Sha256DigestSize
  }

  function DecodeHash(s: seq<byte>): HashEntry
    requires |s| == HashEntrySize
  {
    var f := Unpack(s, HashInts);
    HashEntry(f[0], f[1], f[2], f[3], f[4], s[HashDigestOffset..])
  }

  function EncodeHash(e: HashEntry): (r: seq<byte>)
    requires HashFits(e)
    ensures |r| == HashEntrySize
  {
    Pack(HashFields(e), HashInts) + [0, 0] + e.digest
  }

  /** Decoding an encoded hash entry gives it back. */
  lemma HashRoundTrip(e: HashEntry)
    requires HashFits(e)
    ensures DecodeHash(EncodeHash(e)) == e
  {
    var tail := [0, 0] + e.digest;
    assert EncodeHash(e) == Pack(HashFields(e), HashInts) + tail;
    PackRoundTrip(HashFields(e), HashInts, tail);
    assert EncodeHash(e)[HashDigestOffset..] == e.digest;
  }
}
