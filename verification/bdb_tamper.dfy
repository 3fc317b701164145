/**
 * How the verifier reacts when a BDB that verifies is altered.
 *
 * Each lemma starts from an arbitrary buffer whose trust chain holds and
 * changes one field or one range of bytes; it states the status the verifier
 * then reports. Field changes go through the record encodings, so a lemma
 * about the root key's version speaks about the bytes that hold it.
 */
module BdbTamper {
  import opened Bytes
  import opened Wrappers
  import opened BdbDefs
  import opened BdbFormat
  import opened BdbCheck
  import opened BdbLayout
  import opened BdbVerify

  /**
   * `b` with integer field `i` of the record at `off`, laid out by widths `ws`,
   * assigned `v`; like an assignment to an unsigned field, the value wraps
   * modulo the field's width.
   */
  function SetField(b: seq<byte>, off: nat, ws: seq<nat>, i: nat, v: int): (r: seq<byte>)
    requires i < |ws| && off + Total(ws) <= |b|
    ensures |r| == |b|
  {
    Overwrite(b, off + Offset(ws, i), LeEncode(v % Pow256(ws[i]), ws[i]))
  }

  /** Within the `n` bytes of a record at `off`, `SetField` overwrites the field's window, and nothing outside the record changes. */
  lemma SetFieldWindow(b: seq<byte>, off: nat, n: nat, ws: seq<nat>, i: nat, v: int)
    requires i < |ws| && Total(ws) <= n && off + n <= |b|
    ensures SetField(b, off, ws, i, v)[off..off + n] ==
      Overwrite(b[off..off + n], Offset(ws, i), LeEncode(v % Pow256(ws[i]), ws[i]))
    ensures SameOutside(b, SetField(b, off, ws, i, v), off, off + n)
  {
    OverwriteWindow(b, off, n, Offset(ws, i), LeEncode(v % Pow256(ws[i]), ws[i]));
  }

  /** The range `[lo, hi)` and the window `[a, e)` do not overlap. */
  predicate Apart(lo: nat, hi: nat, a: nat, e: nat)
  {
    e <= lo || hi <= a
  }

  /** The ranges of the fields the lemmas below write. */
  lemma FieldWidths()
    ensures Pow256(HeaderInts[0]) == 0x1_0000_0000 && Pow256(HeaderInts[7]) == 0x1_0000_0000
    ensures Pow256(KeyInts[0]) == 0x1_0000_0000 && Pow256(KeyInts[3]) == 0x1_0000
    ensures Pow256(KeyInts[6]) == 0x1_0000_0000
    ensures Pow256(SigInts[0]) == 0x1_0000_0000 && Pow256(SigInts[6]) == 0x1_0000_0000
    ensures Pow256(DataInts[0]) == 0x1_0000_0000 && Pow256(DataInts[4]) == 0x1_0000_0000
  {
    assert HeaderInts[0] == HeaderInts[7] == 4;
    assert KeyInts[0] == KeyInts[6] == 4 && KeyInts[3] == 2;
    assert SigInts[0] == SigInts[6] == 4;
    assert DataInts[0] == DataInts[4] == 4;
  }

  // ---------------------------------------------------------------- reads outside a change

  lemma HeaderApart(b: seq<byte>, b': seq<byte>, lo: nat, hi: nat)
    requires SameOutside(b, b', lo, hi) && HeaderSize <= lo
    ensures HeaderIn(b') == HeaderIn(b)
  {
    if HeaderSize <= |b| {
      SliceOutside(b, b', lo, hi, 0, HeaderSize);
    }
  }

  lemma KeyApart(b: seq<byte>, b': seq<byte>, lo: nat, hi: nat, x: nat)
    requires SameOutside(b, b', lo, hi) && Apart(lo, hi, x, x + KeyFixedSize)
    ensures KeyAt(b', x) == KeyAt(b, x)
  {
    if x + KeyFixedSize <= |b| {
      SliceOutside(b, b', lo, hi, x, x + KeyFixedSize);
    }
  }

  lemma SigApart(b: seq<byte>, b': seq<byte>, lo: nat, hi: nat, x: nat)
    requires SameOutside(b, b', lo, hi) && Apart(lo, hi, x, x + SigFixedSize)
    ensures SigAt(b', x) == SigAt(b, x)
  {
    if x + SigFixedSize <= |b| {
      SliceOutside(b, b', lo, hi, x, x + SigFixedSize);
    }
  }

  lemma DataApart(b: seq<byte>, b': seq<byte>, lo: nat, hi: nat, x: nat)
    requires SameOutside(b, b', lo, hi) && Apart(lo, hi, x, x + DataFixedSize)
    ensures DataAt(b', x) == DataAt(b, x)
  {
    if x + DataFixedSize <= |b| {
      SliceOutside(b, b', lo, hi, x, x + DataFixedSize);
    }
  }

  lemma SpanApart(b: seq<byte>, b': seq<byte>, lo: nat, hi: nat, x: nat, y: nat)
    requires SameOutside(b, b', lo, hi) && Apart(lo, hi, x, y)
    ensures Span(b', x, y) == Span(b, x, y)
  {
    if x <= y <= |b| {
      SliceOutside(b, b', lo, hi, x, y);
    }
  }

  lemma KeyMaterialApart(b: seq<byte>, b': seq<byte>, lo: nat, hi: nat, x: nat, k: Key)
    requires SameOutside(b, b', lo, hi) && SigAlgKnown(k.sigAlg)
    requires Apart(lo, hi, x + KeyFixedSize, x + KeyFixedSize + KeyDataSize(k.sigAlg))
    ensures KeyMaterial(b', x, k) == KeyMaterial(b, x, k)
  {
    SpanApart(b, b', lo, hi, x + KeyFixedSize, x + KeyFixedSize + KeyDataSize(k.sigAlg));
  }

  lemma SigMaterialApart(b: seq<byte>, b': seq<byte>, lo: nat, hi: nat, x: nat, g: Sig)
    requires SameOutside(b, b', lo, hi) && SigAlgKnown(g.sigAlg)
    requires Apart(lo, hi, x + SigFixedSize, x + SigFixedSize + SigDataSize(g.sigAlg))
    ensures SigMaterial(b', x, g) == SigMaterial(b, x, g)
  {
    SpanApart(b, b', lo, hi, x + SigFixedSize, x + SigFixedSize + SigDataSize(g.sigAlg));
  }

  /** A change inside `[a, e)` shows in the bytes of `[a, e)`. */
  lemma SpanSeesChange(b: seq<byte>, b': seq<byte>, lo: nat, hi: nat, a: nat, e: nat)
    requires |b'| == |b| && a <= lo <= hi <= e <= |b| && b'[lo..hi] != b[lo..hi]
    ensures Span(b', a, e) != Span(b, a, e)
  {
    if b'[a..e] == b[a..e] {
      forall j | lo <= j < hi
        ensures b'[j] == b[j]
      {
        assert b'[j] == b'[a..e][j - a] && b[j] == b[a..e][j - a];
      }
    }
  }

  // ---------------------------------------------------------------- writing one field of a record

  /** Writing integer field `i` of the record changes that field of the record read back and nothing outside the record. */
  lemma HeaderWriteFields(b: seq<byte>, i: nat, v: int)
    requires HeaderSize <= |b| && i < |HeaderInts|
    ensures HeaderIn(SetField(b, 0, HeaderInts, i, v)).Some?
    ensures HeaderFields(HeaderIn(SetField(b, 0, HeaderInts, i, v)).value) ==
      HeaderFields(HeaderIn(b).value)[i := v % Pow256(HeaderInts[i])]
    ensures SameOutside(b, SetField(b, 0, HeaderInts, i, v), 0, HeaderSize)
  {
    var w := v % Pow256(HeaderInts[i]);
    var win := b[..HeaderSize];
    var b' := SetField(b, 0, HeaderInts, i, v);
    HeaderIntsTotal();
    SetFieldWindow(b, 0, HeaderSize, HeaderInts, i, v);
    assert b'[..HeaderSize] == b'[0..0 + HeaderSize] && win == b[0..0 + HeaderSize];
    PokeHeader(win, i, w);
    assert HeaderIn(b').value == DecodeHeader(b'[..HeaderSize]);
    assert HeaderIn(b).value == DecodeHeader(win);
  }

  lemma HeaderWrite(b: seq<byte>, i: nat, v: int)
    requires HeaderSize <= |b| && i < |HeaderInts|
    ensures HeaderIn(SetField(b, 0, HeaderInts, i, v)).Some?
    ensures HeaderFields(HeaderIn(SetField(b, 0, HeaderInts, i, v)).value) ==
      HeaderFields(HeaderIn(b).value)[i := v % Pow256(HeaderInts[i])]
    ensures SameOutside(b, SetField(b, 0, HeaderInts, i, v), 0, HeaderSize)
    ensures i == 0 ==>
      HeaderIn(SetField(b, 0, HeaderInts, i, v)).value == HeaderIn(b).value.(magic := v % Pow256(HeaderInts[i]))
    ensures i == 7 ==>
      HeaderIn(SetField(b, 0, HeaderInts, i, v)).value == HeaderIn(b).value.(oemArea0Size := v % Pow256(HeaderInts[i]))
  {
    HeaderIntsTotal();
    HeaderWriteFields(b, i, v);
    var r := HeaderIn(b).value;
    var r' := HeaderIn(SetField(b, 0, HeaderInts, i, v)).value;
    if i == 0 {
      HeaderExt(r', r.(magic := v % Pow256(HeaderInts[i])));
    } else if i == 7 {
      HeaderExt(r', r.(oemArea0Size := v % Pow256(HeaderInts[i])));
    }
  }

  /** Writing integer field `i` of the record changes that field of the record read back and nothing outside the record. */
  lemma KeyWriteFields(b: seq<byte>, off: nat, i: nat, v: int)
    requires off + KeyFixedSize <= |b| && i < |KeyInts|
    ensures KeyAt(SetField(b, off, KeyInts, i, v), off).Some?
    ensures KeyFields(KeyAt(SetField(b, off, KeyInts, i, v), off).value) ==
      KeyFields(KeyAt(b, off).value)[i := v % Pow256(KeyInts[i])]
    ensures KeyAt(SetField(b, off, KeyInts, i, v), off).value.description == KeyAt(b, off).value.description
    ensures SameOutside(b, SetField(b, off, KeyInts, i, v), off, off + KeyFixedSize)
  {
    var w := v % Pow256(KeyInts[i]);
    var win := b[off..off + KeyFixedSize];
    var b' := SetField(b, off, KeyInts, i, v);
    KeyIntsTotal();
    SetFieldWindow(b, off, KeyFixedSize, KeyInts, i, v);
    PokeKey(win, i, w);
    assert KeyAt(b', off).value == DecodeKey(b'[off..off + KeyFixedSize]);
    assert KeyAt(b, off).value == DecodeKey(win);
  }

  lemma KeyWrite(b: seq<byte>, off: nat, i: nat, v: int)
    requires off + KeyFixedSize <= |b| && i < |KeyInts|
    ensures KeyAt(SetField(b, off, KeyInts, i, v), off).Some?
    ensures KeyFields(KeyAt(SetField(b, off, KeyInts, i, v), off).value) ==
      KeyFields(KeyAt(b, off).value)[i := v % Pow256(KeyInts[i])]
    ensures KeyAt(SetField(b, off, KeyInts, i, v), off).value.description == KeyAt(b, off).value.description
    ensures SameOutside(b, SetField(b, off, KeyInts, i, v), off, off + KeyFixedSize)
    ensures i == 0 ==>
      KeyAt(SetField(b, off, KeyInts, i, v), off).value == KeyAt(b, off).value.(magic := v % Pow256(KeyInts[i]))
    ensures i == 3 ==>
      KeyAt(SetField(b, off, KeyInts, i, v), off).value == KeyAt(b, off).value.(structSize := v % Pow256(KeyInts[i]))
    ensures i == 6 ==>
      KeyAt(SetField(b, off, KeyInts, i, v), off).value == KeyAt(b, off).value.(keyVersion := v % Pow256(KeyInts[i]))
  {
    KeyIntsTotal();
    KeyWriteFields(b, off, i, v);
    var r := KeyAt(b, off).value;
    var r' := KeyAt(SetField(b, off, KeyInts, i, v), off).value;
    if i == 0 {
      KeyExt(r', r.(magic := v % Pow256(KeyInts[i])));
    } else if i == 3 {
      KeyExt(r', r.(structSize := v % Pow256(KeyInts[i])));
    } else if i == 6 {
      KeyExt(r', r.(keyVersion := v % Pow256(KeyInts[i])));
    }
  }

  /** Writing integer field `i` of the record changes that field of the record read back and nothing outside the record. */
  lemma SigWriteFields(b: seq<byte>, off: nat, i: nat, v: int)
    requires off + SigFixedSize <= |b| && i < |SigInts|
    ensures SigAt(SetField(b, off, SigInts, i, v), off).Some?
    ensures SigFields(SigAt(SetField(b, off, SigInts, i, v), off).value) ==
      SigFields(SigAt(b, off).value)[i := v % Pow256(SigInts[i])]
    ensures SigAt(SetField(b, off, SigInts, i, v), off).value.description == SigAt(b, off).value.description
    ensures SameOutside(b, SetField(b, off, SigInts, i, v), off, off + SigFixedSize)
  {
    var w := v % Pow256(SigInts[i]);
    var win := b[off..off + SigFixedSize];
    var b' := SetField(b, off, SigInts, i, v);
    SigIntsTotal();
    SetFieldWindow(b, off, SigFixedSize, SigInts, i, v);
    PokeSig(win, i, w);
    assert SigAt(b', off).value == DecodeSig(b'[off..off + SigFixedSize]);
    assert SigAt(b, off).value == DecodeSig(win);
  }

  lemma SigWrite(b: seq<byte>, off: nat, i: nat, v: int)
    requires off + SigFixedSize <= |b| && i < |SigInts|
    ensures SigAt(SetField(b, off, SigInts, i, v), off).Some?
    ensures SigFields(SigAt(SetField(b, off, SigInts, i, v), off).value) ==
      SigFields(SigAt(b, off).value)[i := v % Pow256(SigInts[i])]
    ensures SigAt(SetField(b, off, SigInts, i, v), off).value.description == SigAt(b, off).value.description
    ensures SameOutside(b, SetField(b, off, SigInts, i, v), off, off + SigFixedSize)
    ensures i == 0 ==>
      SigAt(SetField(b, off, SigInts, i, v), off).value == SigAt(b, off).value.(magic := v % Pow256(SigInts[i]))
    ensures i == 6 ==>
      SigAt(SetField(b, off, SigInts, i, v), off).value == SigAt(b, off).value.(signedSize := v % Pow256(SigInts[i]))
  {
    SigIntsTotal();
    SigWriteFields(b, off, i, v);
    var r := SigAt(b, off).value;
    var r' := SigAt(SetField(b, off, SigInts, i, v), off).value;
    if i == 0 {
      SigExt(r', r.(magic := v % Pow256(SigInts[i])));
    } else if i == 6 {
      SigExt(r', r.(signedSize := v % Pow256(SigInts[i])));
    }
  }

  /** Writing integer field `i` of the record changes that field of the record read back and nothing outside the record. */
  lemma DataWriteFields(b: seq<byte>, off: nat, i: nat, v: int)
    requires off + DataFixedSize <= |b| && i < |DataInts|
    ensures DataAt(SetField(b, off, DataInts, i, v), off).Some?
    ensures DataFields(DataAt(SetField(b, off, DataInts, i, v), off).value) ==
      DataFields(DataAt(b, off).value)[i := v % Pow256(DataInts[i])]
    ensures DataAt(SetField(b, off, DataInts, i, v), off).value.description == DataAt(b, off).value.description
    ensures SameOutside(b, SetField(b, off, DataInts, i, v), off, off + DataFixedSize)
  {
    var w := v % Pow256(DataInts[i]);
    var win := b[off..off + DataFixedSize];
    var b' := SetField(b, off, DataInts, i, v);
    DataIntsTotal();
    SetFieldWindow(b, off, DataFixedSize, DataInts, i, v);
    PokeData(win, i, w);
    assert DataAt(b', off).value == DecodeData(b'[off..off + DataFixedSize]);
    assert DataAt(b, off).value == DecodeData(win);
  }

  lemma DataWrite(b: seq<byte>, off: nat, i: nat, v: int)
    requires off + DataFixedSize <= |b| && i < |DataInts|
    ensures DataAt(SetField(b, off, DataInts, i, v), off).Some?
    ensures DataFields(DataAt(SetField(b, off, DataInts, i, v), off).value) ==
      DataFields(DataAt(b, off).value)[i := v % Pow256(DataInts[i])]
    ensures DataAt(SetField(b, off, DataInts, i, v), off).value.description == DataAt(b, off).value.description
    ensures SameOutside(b, SetField(b, off, DataInts, i, v), off, off + DataFixedSize)
    ensures i == 0 ==>
      DataAt(SetField(b, off, DataInts, i, v), off).value == DataAt(b, off).value.(magic := v % Pow256(DataInts[i]))
    ensures i == 4 ==>
      DataAt(SetField(b, off, DataInts, i, v), off).value == DataAt(b, off).value.(dataVersion := v % Pow256(DataInts[i]))
  {
    DataIntsTotal();
    DataWriteFields(b, off, i, v);
    var r := DataAt(b, off).value;
    var r' := DataAt(SetField(b, off, DataInts, i, v), off).value;
    if i == 0 {
      DataExt(r', r.(magic := v % Pow256(DataInts[i])));
    } else if i == 4 {
      DataExt(r', r.(dataVersion := v % Pow256(DataInts[i])));
    }
  }

  // ---------------------------------------------------------------- sections read the same

  /**
   * A header section whose records read back with the same sizes and still pass
   * parses to the same offsets, carrying the records read back.
   */
  lemma HeaderSectionFrame(b: seq<byte>, b': seq<byte>, s: HeaderSection, k': Key, sk': Key)
    requires ParseHeaderSection(b) == Pass(s) && |b'| == |b|
    requires HeaderIn(b') == Some(s.h)
    requires KeyAt(b', s.KeyOff()) == Some(k') && CheckKey(k', |b| - s.KeyOff()) == Success
    requires k'.structSize == s.k.structSize
    requires KeyAt(b', s.SubkeyOff()) == Some(sk') && CheckKey(sk', |b| - s.SubkeyOff()) == Success
    requires sk'.structSize == s.sk.structSize
    requires SigAt(b', s.SigOff()) == Some(s.hs)
    ensures ParseHeaderSection(b') == Pass(HeaderSection(s.h, k', sk', s.hs))
  {
    HeaderSoundFrame(b, b', s, k', sk');
    ParseHeaderSectionComplete(b', HeaderSection(s.h, k', sk', s.hs));
  }

  /** The guarantees of a header-section parse carry over to a buffer whose records read back alike. */
  lemma HeaderSoundFrame(b: seq<byte>, b': seq<byte>, s: HeaderSection, k': Key, sk': Key)
    requires HeaderSectionSound(b, s) && |b'| == |b|
    requires HeaderIn(b') == Some(s.h)
    requires KeyAt(b', s.KeyOff()) == Some(k') && CheckKey(k', |b| - s.KeyOff()) == Success
    requires k'.structSize == s.k.structSize
    requires KeyAt(b', s.SubkeyOff()) == Some(sk') && CheckKey(sk', |b| - s.SubkeyOff()) == Success
    requires sk'.structSize == s.sk.structSize
    requires SigAt(b', s.SigOff()) == Some(s.hs)
    ensures HeaderSectionSound(b', HeaderSection(s.h, k', sk', s.hs))
  {
    var s' := HeaderSection(s.h, k', sk', s.hs);
    HeaderSoundFrameKeys(b, b', s, k', sk', s');
    HeaderSoundFrameSig(b, b', s, k', sk', s');
  }

  /** The header, root key and subkey guarantees of `HeaderSoundFrame`. */
  lemma HeaderSoundFrameKeys(b: seq<byte>, b': seq<byte>, s: HeaderSection, k': Key, sk': Key, s': HeaderSection)
    requires HeaderSectionSound(b, s) && |b'| == |b|
    requires HeaderIn(b') == Some(s.h)
    requires KeyAt(b', s.KeyOff()) == Some(k') && CheckKey(k', |b| - s.KeyOff()) == Success
    requires k'.structSize == s.k.structSize
    requires KeyAt(b', s.SubkeyOff()) == Some(sk') && CheckKey(sk', |b| - s.SubkeyOff()) == Success
    requires sk'.structSize == s.sk.structSize
    requires SigAt(b', s.SigOff()) == Some(s.hs)
    requires s' == HeaderSection(s.h, k', sk', s.hs)
    ensures HeaderIn(b') == Some(s'.h) && CheckHeader(s'.h, |b'|) == Success
    ensures s'.KeyOff() <= |b'|
    ensures KeyAt(b', s'.KeyOff()) == Some(s'.k) && CheckKey(s'.k, |b'| - s'.KeyOff()) == Success
    ensures s'.SubkeyOff() <= |b'|
    ensures KeyAt(b', s'.SubkeyOff()) == Some(s'.sk) && CheckKey(s'.sk, |b'| - s'.SubkeyOff()) == Success
  {
    SameOffsets(s, s');
  }

  /** The signed-size and header-signature guarantees of `HeaderSoundFrame`. */
  lemma HeaderSoundFrameSig(b: seq<byte>, b': seq<byte>, s: HeaderSection, k': Key, sk': Key, s': HeaderSection)
    requires HeaderSectionSound(b, s) && |b'| == |b|
    requires HeaderIn(b') == Some(s.h)
    requires KeyAt(b', s.KeyOff()) == Some(k') && CheckKey(k', |b| - s.KeyOff()) == Success
    requires k'.structSize == s.k.structSize
    requires KeyAt(b', s.SubkeyOff()) == Some(sk') && CheckKey(sk', |b| - s.SubkeyOff()) == Success
    requires sk'.structSize == s.sk.structSize
    requires SigAt(b', s.SigOff()) == Some(s.hs)
    requires s' == HeaderSection(s.h, k', sk', s.hs)
    ensures s'.h.oemArea0Size + s'.sk.structSize <= s'.h.signedSize
    ensures s'.SigOff() <= |b'|
    ensures SigAt(b', s'.SigOff()) == Some(s'.hs) && CheckSig(s'.hs, |b'| - s'.SigOff()) == Success
    ensures s'.hs.signedSize == s'.h.signedSize
    ensures s'.DataOff() <= |b'|
  {
    SameOffsets(s, s');
  }

  /** Sections whose header agrees and whose keys have the same sizes lie at the same offsets. */
  lemma SameOffsets(s: HeaderSection, s': HeaderSection)
    requires s'.h == s.h && s'.k.structSize == s.k.structSize && s'.hs == s.hs
    ensures s'.KeyOff() == s.KeyOff() && s'.Oem0Off() == s.Oem0Off() && s'.SubkeyOff() == s.SubkeyOff()
    ensures s'.SigOff() == s.SigOff() && s'.DataOff() == s.DataOff()
  {
  }

  /** The same for the data section. */
  lemma DataSectionFrame(b: seq<byte>, b': seq<byte>, t: DataSection, d': Data)
    requires ParseDataSection(b, t.off) == Pass(t) && |b'| == |b|
    requires DataAt(b', t.off) == Some(d') && CheckData(d', |b| - t.off) == Success
    requires d'.signedSize == t.d.signedSize
    requires SigAt(b', t.SigOff()) == Some(t.ds)
    ensures ParseDataSection(b', t.off) == Pass(DataSection(t.off, d', t.ds))
  {
    var t' := DataSection(t.off, d', t.ds);
    assert t'.SigOff() == t.SigOff();
    assert SigAt(b', t'.SigOff()) == Some(t'.ds) && CheckSig(t'.ds, |b'| - t'.SigOff()) == Success;
    ParseDataSectionComplete(b', t');
  }

  /** A change at or after the data block leaves the header section and its signature alone. */
  lemma HeaderPartUntouched(c: Crypto, b: seq<byte>, b': seq<byte>, lo: nat, hi: nat)
    requires ParseHeaderSection(b).Pass? && SameOutside(b, b', lo, hi)
    requires ParseHeaderSection(b).value.DataOff() <= lo
    ensures ParseHeaderSection(b') == ParseHeaderSection(b)
    ensures HeaderSigValid(c, b', ParseHeaderSection(b).value) == HeaderSigValid(c, b, ParseHeaderSection(b).value)
    ensures var s := ParseHeaderSection(b).value;
      KeyMaterial(b', s.SubkeyOff(), s.sk) == KeyMaterial(b, s.SubkeyOff(), s.sk)
  {
    var s := ParseHeaderSection(b).value;
    HeaderApart(b, b', lo, hi);
    KeyApart(b, b', lo, hi, s.KeyOff());
    KeyApart(b, b', lo, hi, s.SubkeyOff());
    SigApart(b, b', lo, hi, s.SigOff());
    HeaderSectionFrame(b, b', s, s.k, s.sk);
    KeyMaterialApart(b, b', lo, hi, s.KeyOff(), s.k);
    KeyMaterialApart(b, b', lo, hi, s.SubkeyOff(), s.sk);
    SigMaterialApart(b, b', lo, hi, s.SigOff(), s.hs);
    SpanApart(b, b', lo, hi, s.Oem0Off(), s.SigOff());
    HeaderSigValidFrame(c, b, b', s, s);
  }

  // ---------------------------------------------------------------- structural failures of the header section

  /** A wrong header magic fails the header stage, in any buffer long enough to hold a header. */
  lemma TamperHeaderMagic(c: Crypto, b: seq<byte>, anchor: seq<byte>)
    requires HeaderSize <= |b|
    ensures Verify(c, SetField(b, 0, HeaderInts, 0, HeaderMagic + 1), anchor) == ErrorHeader
  {
    HeaderIntsTotal();
    var b' := SetField(b, 0, HeaderInts, 0, HeaderMagic + 1);
    HeaderWrite(b, 0, HeaderMagic + 1);
    var h' := HeaderIn(b').value;
    FieldWidths();
    ModSmall(HeaderMagic + 1, Pow256(HeaderInts[0]));
    assert h'.magic == HeaderFields(h')[0] == HeaderMagic + 1;
    assert CheckHeader(h', |b'|) != Success;
    assert ParseHeaderSection(b') == Fail(ErrorHeader);
    VerifyOfHeaderFailure(c, b', anchor);
  }

  /** A wrong root-key magic fails the root-key stage. */
  lemma TamperRootKeyMagic(c: Crypto, b: seq<byte>, s: HeaderSection, anchor: seq<byte>)
    requires ParseHeaderSection(b) == Pass(s)
    ensures Verify(c, SetField(b, s.KeyOff(), KeyInts, 0, KeyMagic + 1), anchor) == ErrorBdbKey
  {
    KeyIntsTotal();
    var lo := s.KeyOff();
    var b' := SetField(b, lo, KeyInts, 0, KeyMagic + 1);
    KeyWrite(b, lo, 0, KeyMagic + 1);
    HeaderApart(b, b', lo, lo + KeyFixedSize);
    FieldWidths();
    ModSmall(KeyMagic + 1, Pow256(KeyInts[0]));
    VerifyAtBdbKey(c, b', anchor, s.h);
  }

  /** Writing a 32-bit value into the OEM area 0 size changes only that field. */
  lemma SetOemArea0Size(b: seq<byte>, v: nat)
    requires HeaderSize <= |b| && v < 0x1_0000_0000
    ensures HeaderIn(SetField(b, 0, HeaderInts, 7, v)) == Some(HeaderIn(b).value.(oemArea0Size := v))
    ensures SameOutside(b, SetField(b, 0, HeaderInts, 7, v), 0, HeaderSize)
  {
    HeaderIntsTotal();
    HeaderWrite(b, 7, v);
    FieldWidths();
    ModSmall(v, Pow256(HeaderInts[7]));
  }

  /** Any OEM area 0 size that is a multiple of four keeps the header itself sound. */
  lemma OemResize(h: Header, h': Header, size: nat, v: nat)
    requires CheckHeader(h, size) == Success && v % 4 == 0
    requires h' == h.(oemArea0Size := v)
    ensures CheckHeader(h', size) == Success
  {
  }

  /** The root key of a header section that parses is read from after the header, and passes its checks there. */
  lemma RootKeyAfterHeader(b: seq<byte>, s: HeaderSection)
    requires ParseHeaderSection(b) == Pass(s)
    ensures HeaderSize <= s.KeyOff() && HeaderIn(b) == Some(s.h) && CheckHeader(s.h, |b|) == Success
    ensures KeyAt(b, s.KeyOff()) == Some(s.k) && CheckKey(s.k, |b| - s.KeyOff()) == Success
  {
  }

  /**
   * An OEM area 0 size that is a valid multiple of four but runs past the end
   * of the buffer fails the OEM area 0 stage.
   */
  lemma OemArea0TooLarge(c: Crypto, b: seq<byte>, s: HeaderSection, anchor: seq<byte>, v: nat)
    requires ParseHeaderSection(b) == Pass(s)
    requires v < 0x1_0000_0000 && v % 4 == 0 && v > |b| - s.Oem0Off()
    ensures Verify(c, SetField(b, 0, HeaderInts, 7, v), anchor) == ErrorOemArea0
  {
    HeaderIntsTotal();
    RootKeyAfterHeader(b, s);
    OemArea0Overflow(c, b, s.h, s.k, anchor, v);
  }

  /** The same, stated for a header and root key that pass their own checks. */
  lemma OemArea0Overflow(c: Crypto, b: seq<byte>, h: Header, k: Key, anchor: seq<byte>, v: nat)
    requires HeaderSize <= BdbKeyOffset(h) && HeaderIn(b) == Some(h) && CheckHeader(h, |b|) == Success
    requires KeyAt(b, BdbKeyOffset(h)) == Some(k) && CheckKey(k, |b| - BdbKeyOffset(h)) == Success
    requires v < 0x1_0000_0000 && v % 4 == 0 && v > |b| - OemArea0Offset(h, k)
    ensures Verify(c, SetField(b, 0, HeaderInts, 7, v), anchor) == ErrorOemArea0
  {
    HeaderIntsTotal();
    var b' := SetField(b, 0, HeaderInts, 7, v);
    var h' := h.(oemArea0Size := v);
    SetOemArea0Size(b, v);
    KeyApart(b, b', 0, HeaderSize, BdbKeyOffset(h));
    OemResize(h, h', |b'|, v);
    assert BdbKeyOffset(h') == BdbKeyOffset(h) && OemArea0Offset(h', k) == OemArea0Offset(h, k);
    assert HeaderAndKeyPass(b', h', k);
    VerifyAtOemArea0(c, b', anchor, h', k);
  }

  /** A size grown by an aligned step at least `n` stays aligned and exceeds what is left of `n` bytes after `off`. */
  lemma GrownSize(a: nat, delta: nat, n: nat, off: nat, v: nat)
    requires a % 4 == 0 && delta % 4 == 0 && n <= delta && 0 < off && v == a + delta
    ensures v % 4 == 0 && v > n - off
  {
    AlignedSum(a, delta);
  }

  /**
   * In particular, growing OEM area 0 by a multiple of four at least the
   * buffer's length fails that stage.
   */
  lemma GrowOemArea0(c: Crypto, b: seq<byte>, s: HeaderSection, anchor: seq<byte>, delta: nat, v: nat)
    requires ParseHeaderSection(b) == Pass(s)
    requires |b| <= delta && delta % 4 == 0 && v == s.h.oemArea0Size + delta < 0x1_0000_0000
    ensures Verify(c, SetField(b, 0, HeaderInts, 7, v), anchor) == ErrorOemArea0
  {
    HeaderIntsTotal();
    GrownSize(s.h.oemArea0Size, delta, |b|, s.Oem0Off(), v);
    OemArea0TooLarge(c, b, s, anchor, v);
  }

  /** A change confined to the subkey's record leaves stages 1 to 3 as they were. */
  lemma SubkeyRecordOnly(b: seq<byte>, b': seq<byte>, s: HeaderSection, lo: nat)
    requires ParseHeaderSection(b) == Pass(s) && lo == s.SubkeyOff()
    requires SameOutside(b, b', lo, lo + KeyFixedSize)
    ensures HeaderAndKeyPass(b', s.h, s.k) && lo + KeyFixedSize <= |b'|
  {
    HeaderApart(b, b', lo, lo + KeyFixedSize);
    KeyApart(b, b', lo, lo + KeyFixedSize, s.KeyOff());
  }

  /** A wrong subkey magic fails the subkey stage. */
  lemma TamperSubkeyMagic(c: Crypto, b: seq<byte>, s: HeaderSection, anchor: seq<byte>)
    requires ParseHeaderSection(b) == Pass(s)
    ensures Verify(c, SetField(b, s.SubkeyOff(), KeyInts, 0, KeyMagic + 1), anchor) == ErrorSubkey
  {
    KeyIntsTotal();
    var lo := s.SubkeyOff();
    var b' := SetField(b, lo, KeyInts, 0, KeyMagic + 1);
    KeyWrite(b, lo, 0, KeyMagic + 1);
    SubkeyRecordOnly(b, b', s, lo);
    FieldWidths();
    ModSmall(KeyMagic + 1, Pow256(KeyInts[0]));
    VerifyAtSubkey(c, b', anchor, s.h, s.k);
  }

  /**
   * When the header signs less than OEM area 0 and a subkey four bytes
   * longer, growing the subkey by four bytes leaves it outside the signed
   * extent.
   */
  lemma GrowSubkey(c: Crypto, b: seq<byte>, s: HeaderSection, anchor: seq<byte>)
    requires ParseHeaderSection(b) == Pass(s)
    requires s.sk.structSize + 4 < 0x1_0000 && s.h.signedSize < s.h.oemArea0Size + s.sk.structSize + 4
    ensures Verify(c, SetField(b, s.SubkeyOff(), KeyInts, 3, s.sk.structSize + 4), anchor) == ErrorBdbSignedSize
  {
    KeyIntsTotal();
    var lo := s.SubkeyOff();
    var v := s.sk.structSize + 4;
    var b' := SetField(b, lo, KeyInts, 3, v);
    KeyWrite(b, lo, 3, v);
    SubkeyRecordOnly(b, b', s, lo);
    FieldWidths();
    ModSmall(v, Pow256(KeyInts[3]));
    var sk' := s.sk.(structSize := v);
    assert CheckKey(sk', |b'| - lo) == Success;
    VerifyAtSignedSize(c, b', anchor, s.h, s.k, sk');
  }

  /** A wrong header-signature magic fails the header-signature stage. */
  lemma TamperHeaderSigMagic(c: Crypto, b: seq<byte>, s: HeaderSection, anchor: seq<byte>)
    requires ParseHeaderSection(b) == Pass(s)
    ensures Verify(c, SetField(b, s.SigOff(), SigInts, 0, SigMagic + 1), anchor) == ErrorHeaderSig
  {
    SigIntsTotal();
    var lo := s.SigOff();
    var b' := SetField(b, lo, SigInts, 0, SigMagic + 1);
    SigWrite(b, lo, 0, SigMagic + 1);
    SigRecordOnly(b, b', s, lo);
    FieldWidths();
    ModSmall(SigMagic + 1, Pow256(SigInts[0]));
    VerifyAtHeaderSig(c, b', anchor, s, s.hs.(magic := SigMagic + 1));
  }

  /** A header signature whose signed size disagrees with the header's fails the same stage. */
  lemma HeaderSigSizeMismatch(c: Crypto, b: seq<byte>, s: HeaderSection, anchor: seq<byte>, v: int)
    requires ParseHeaderSection(b) == Pass(s) && v % 0x1_0000_0000 != s.h.signedSize
    ensures Verify(c, SetField(b, s.SigOff(), SigInts, 6, v), anchor) == ErrorHeaderSig
  {
    SigIntsTotal();
    var lo := s.SigOff();
    var b' := SetField(b, lo, SigInts, 6, v);
    SigWrite(b, lo, 6, v);
    SigRecordOnly(b, b', s, lo);
    FieldWidths();
    VerifyAtHeaderSig(c, b', anchor, s, s.hs.(signedSize := v % Pow256(SigInts[6])));
  }

  /** In particular, decrementing the header signature's signed size fails that stage. */
  lemma ShrinkHeaderSigSignedSize(c: Crypto, b: seq<byte>, s: HeaderSection, anchor: seq<byte>, v: int)
    requires ParseHeaderSection(b) == Pass(s) && v == s.hs.signedSize - 1
    ensures Verify(c, SetField(b, s.SigOff(), SigInts, 6, v), anchor) == ErrorHeaderSig
  {
    SigIntsTotal();
    assert s.hs.signedSize == s.h.signedSize;
    StepChanges(s.h.signedSize, v, 0x1_0000_0000);
    HeaderSigSizeMismatch(c, b, s, anchor, v);
  }

  /** A change confined to the header signature's record leaves stages 1 to 5 as they were. */
  lemma SigRecordOnly(b: seq<byte>, b': seq<byte>, s: HeaderSection, lo: nat)
    requires ParseHeaderSection(b) == Pass(s) && lo == s.SigOff()
    requires SameOutside(b, b', lo, lo + SigFixedSize)
    ensures StagesBeforeHeaderSig(b', s)
  {
    HeaderApart(b, b', lo, lo + SigFixedSize);
    KeyApart(b, b', lo, lo + SigFixedSize, s.KeyOff());
    KeyApart(b, b', lo, lo + SigFixedSize, s.SubkeyOff());
  }
}
