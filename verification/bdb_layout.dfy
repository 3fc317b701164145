/**
 * Where each section of a BDB lives, and the bounds-checked accessors that
 * return it.
 *
 * The sections follow one another: header, root key (with its key material),
 * OEM area 0, subkey, header signature (with its signature material), data
 * block, OEM area 1, hash table, data signature. Every start offset is the sum
 * of sizes declared by sections before it; an accessor returns `None` when the
 * fixed part of its section would run past the end of the buffer.
 */
module BdbLayout {
  import opened Bytes
  import opened Wrappers
  import opened BdbDefs
  import opened BdbFormat

  // ---------------------------------------------------------------- offsets

  function BdbKeyOffset(h: Header): nat
  {
    h.structSize
  }

  function OemArea0Offset(h: Header, k: Key): nat
  {
    BdbKeyOffset(h) + k.structSize
  }

  function SubkeyOffset(h: Header, k: Key): nat
  {
    OemArea0Offset(h, k) + h.oemArea0Size
  }

  /** The header signature follows the bytes it covers, which start at OEM area 0. */
  function HeaderSigOffset(h: Header, k: Key): nat
  {
    OemArea0Offset(h, k) + h.signedSize
  }

  function DataOffset(h: Header, k: Key, hs: Sig): nat
  {
    HeaderSigOffset(h, k) + hs.structSize
  }

  function OemArea1Offset(dataOff: nat, d: Data): nat
  {
    dataOff + d.structSize
  }

  function HashTableOffset(dataOff: nat, d: Data): nat
  {
    OemArea1Offset(dataOff, d) + d.oemArea1Size
  }

  /** The data signature follows the bytes it covers, which start at the data block. */
  function DataSigOffset(dataOff: nat, d: Data): nat
  {
    dataOff + d.signedSize
  }

  // ---------------------------------------------------------------- records at an offset

  function HeaderIn(buf: seq<byte>): (r: Option<Header>)
    ensures r.Some? <==> HeaderSize <= |buf|
  {
    if |buf| < HeaderSize then None else Some(DecodeHeader(buf[..HeaderSize]))
  }

  function KeyAt(buf: seq<byte>, off: nat): (r: Option<Key>)
    ensures r.Some? <==> off + KeyFixedSize <= |buf|
  {
    if off + KeyFixedSize > |buf| then None else Some(DecodeKey(buf[off..off + KeyFixedSize]))
  }

  function SigAt(buf: seq<byte>, off: nat): (r: Option<Sig>)
    ensures r.Some? <==> off + SigFixedSize <= |buf|
  {
    if off + SigFixedSize > |buf| then None else Some(DecodeSig(buf[off..off + SigFixedSize]))
  }

  function DataAt(buf: seq<byte>, off: nat): (r: Option<Data>)
    ensures r.Some? <==> off + DataFixedSize <= |buf|
  {
    if off + DataFixedSize > |buf| then None else Some(DecodeData(buf[off..off + DataFixedSize]))
  }

  function HashAt(buf: seq<byte>, off: nat): (r: Option<HashEntry>)
    ensures r.Some? <==> off + HashEntrySize <= |buf|
  {
    if off + HashEntrySize > |buf| then None else Some(DecodeHash(buf[off..off + HashEntrySize]))
  }

  /** The `n` bytes at `off`, if they are all inside the buffer. */
  function Window(buf: seq<byte>, off: nat, n: nat): (r: Option<seq<byte>>)
    ensures r.Some? <==> off + n <= |buf|
    ensures r.Some? ==> |r.value| == n
  {
    if off + n > |buf| then None else Some(buf[off..off + n])
  }

  // ---------------------------------------------------------------- accessors

  function GetHeader(buf: seq<byte>): Option<Header>
  {
    HeaderIn(buf)
  }

  function GetBdbKey(buf: seq<byte>): Option<Key>
  {
    var h :- HeaderIn(buf);
    KeyAt(buf, BdbKeyOffset(h))
  }

  function GetOemArea0(buf: seq<byte>): Option<seq<byte>>
  {
    var h :- HeaderIn(buf);
    var k :- KeyAt(buf, BdbKeyOffset(h));
    Window(buf, OemArea0Offset(h, k), h.oemArea0Size)
  }

  function GetSubkey(buf: seq<byte>): Option<Key>
  {
    var h :- HeaderIn(buf);
    var k :- KeyAt(buf, BdbKeyOffset(h));
    KeyAt(buf, SubkeyOffset(h, k))
  }

  function GetHeaderSig(buf: seq<byte>): Option<Sig>
  {
    var h :- HeaderIn(buf);
    var k :- KeyAt(buf, BdbKeyOffset(h));
    SigAt(buf, HeaderSigOffset(h, k))
  }

  /** Start offset and record of the data block. */
  function LocateData(buf: seq<byte>): Option<(nat, Data)>
  {
    var h :- HeaderIn(buf);
    var k :- KeyAt(buf, BdbKeyOffset(h));
    var hs :- SigAt(buf, HeaderSigOffset(h, k));
    var off := DataOffset(h, k, hs);
    var d :- DataAt(buf, off);
    Some((off, d))
  }

  function GetData(buf: seq<byte>): Option<Data>
  {
    var loc :- LocateData(buf);
    Some(loc.1)
  }

  function GetOemArea1(buf: seq<byte>): Option<seq<byte>>
  {
    var loc :- LocateData(buf);
    Window(buf, OemArea1Offset(loc.0, loc.1), loc.1.oemArea1Size)
  }

  function GetDataSig(buf: seq<byte>): Option<Sig>
  {
    var loc :- LocateData(buf);
    SigAt(buf, DataSigOffset(loc.0, loc.1))
  }

  // ---------------------------------------------------------------- hash table

  /** The `n` windows of `w` bytes that start at `at`, `stride` bytes apart, if all of them fit. */
  function Windows(buf: seq<byte>, at: nat, stride: nat, w: nat, n: nat): (r: Option<seq<seq<byte>>>)
    ensures r.Some? ==> |r.value| == n
    decreases n
  {
    if n == 0 then Some([])
    else
      var first :- Window(buf, at, w);
      var rest :- Windows(buf, at + stride, stride, w, n - 1);
      Some([first] + rest)
  }

  /** Entry `i + 1` from `at` is entry `i` from the next entry. */
  lemma StrideStep(at: nat, stride: nat, i: nat)
    ensures at + (i + 1) * stride == at + stride + i * stride
  {
  }

  /** When all windows fit, window `i` is the one at `at + i * stride`. */
  lemma {:induction false} WindowsAt(buf: seq<byte>, at: nat, stride: nat, w: nat, n: nat, i: nat)
    requires Windows(buf, at, stride, w, n).Some? && i < n
    ensures Window(buf, at + i * stride, w) == Some(Windows(buf, at, stride, w, n).value[i])
    decreases n
  {
    if i == 0 {
      assert at + i * stride == at;
    } else {
      WindowsAt(buf, at + stride, stride, w, n - 1, i - 1);
      StrideStep(at, stride, i - 1);
    }
  }

  /** When some window does not fit, there is a first index at which it does not. */
  lemma {:induction false} WindowsMissing(buf: seq<byte>, at: nat, stride: nat, w: nat, n: nat)
    requires Windows(buf, at, stride, w, n).None?
    ensures exists i :: 0 <= i < n && Window(buf, at + i * stride, w).None?
    decreases n
  {
    if Window(buf, at, w).None? {
      assert at + 0 * stride == at;
      assert 0 < n && Window(buf, at + 0 * stride, w).None?;
    } else {
      assert Windows(buf, at + stride, stride, w, n - 1).None?;
      WindowsMissing(buf, at + stride, stride, w, n - 1);
      var i :| 0 <= i < n - 1 && Window(buf, at + stride + i * stride, w).None?;
      StrideStep(at, stride, i);
      assert 0 <= i + 1 < n && Window(buf, at + (i + 1) * stride, w).None?;
    }
  }

  /** When all windows of an entry's size fit, each decodes to the entry read at its place. */
  lemma WindowsDecode(buf: seq<byte>, at: nat, stride: nat, n: nat, ws: seq<seq<byte>>)
    requires Windows(buf, at, stride, HashEntrySize, n) == Some(ws)
    ensures |ws| == n
    ensures forall i :: 0 <= i < n ==>
      |ws[i]| == HashEntrySize && HashAt(buf, at + i * stride) == Some(DecodeHash(ws[i]))
  {
    forall i | 0 <= i < n
      ensures |ws[i]| == HashEntrySize && HashAt(buf, at + i * stride) == Some(DecodeHash(ws[i]))
    {
      WindowsAt(buf, at, stride, HashEntrySize, n, i);
    }
  }

  /** The `n` hash entries that start at `at`, `stride` bytes apart, if all of them fit. */
  function HashEntries(buf: seq<byte>, at: nat, stride: nat, n: nat): (r: Option<seq<HashEntry>>)
    ensures r.Some? ==> |r.value| == n
    ensures r.Some? ==> forall i :: 0 <= i < n ==> HashAt(buf, at + i * stride) == Some(r.value[i])
    ensures r.None? ==> exists i :: 0 <= i < n && HashAt(buf, at + i * stride).None?
  {
    match Windows(buf, at, stride, HashEntrySize, n)
    case None =>
      WindowsMissing(buf, at, stride, HashEntrySize, n);
      None
    case Some(ws) =>
      WindowsDecode(buf, at, stride, n, ws);
      Some(seq(n, i requires 0 <= i < n => DecodeHash(ws[i])))
  }

  function GetHashTable(buf: seq<byte>): Option<seq<HashEntry>>
  {
    var loc :- LocateData(buf);
    HashEntries(buf, HashTableOffset(loc.0, loc.1), loc.1.hashEntrySize, loc.1.numHashes)
  }

  /** Index of the first entry whose content type is `t`. */
  function FindHash(es: seq<HashEntry>, t: nat): (r: Option<nat>)
    ensures r.Some? ==> r.value < |es| && es[r.value].dataType == t
    ensures r.Some? ==> forall j :: 0 <= j < r.value ==> es[j].dataType != t
    ensures r.None? <==> forall j :: 0 <= j < |es| ==> es[j].dataType != t
    decreases |es|
  {
    if |es| == 0 then None
    else if es[0].dataType == t then Some(0)
    else
      match FindHash(es[1..], t)
      case None => None
      case Some(i) => Some(i + 1)
  }

  /** Table entry `k`: the hash entry read `k` strides after `at`. */
  function EntryAt(buf: seq<byte>, at: nat, stride: nat, k: nat): Option<HashEntry>
  {
    HashAt(buf, at + k * stride)
  }

  /** Entries `i` up to (not including) `j` all lie in the buffer and none has content type `t`. */
  ghost predicate PassedOver(buf: seq<byte>, at: nat, stride: nat, t: nat, i: nat, j: nat)
  {
    forall k :: i <= k < j ==> EntryAt(buf, at, stride, k).Some? && EntryAt(buf, at, stride, k).value.dataType != t
  }

  /**
   * The linear scan of a table of `n` entries from entry `i` on: the first
   * entry of content type `t`, or `None` once the scan reaches the end of the
   * table or an entry that does not lie in the buffer.
   */
  function ScanHash(buf: seq<byte>, at: nat, stride: nat, n: nat, t: nat, i: nat): (r: Option<HashEntry>)
    requires i <= n
    ensures r.Some? ==>
      exists j :: i <= j < n && EntryAt(buf, at, stride, j) == r &&
        r.value.dataType == t && PassedOver(buf, at, stride, t, i, j)
    ensures r.None? ==>
      exists j :: i <= j <= n && (j < n ==> EntryAt(buf, at, stride, j).None?) &&
        PassedOver(buf, at, stride, t, i, j)
    decreases n - i
  {
    if i == n then
      assert PassedOver(buf, at, stride, t, i, i);
      None
    else
      match EntryAt(buf, at, stride, i)
      case None =>
        assert PassedOver(buf, at, stride, t, i, i);
        None
      case Some(e) =>
        if e.dataType == t then
          assert PassedOver(buf, at, stride, t, i, i);
          Some(e)
        else
          var r := ScanHash(buf, at, stride, n, t, i + 1);
          ScanStep(buf, at, stride, t, i, r);
          r
  }

  /** Passing over entry `i` extends a pass over the entries after it. */
  lemma ScanStep(buf: seq<byte>, at: nat, stride: nat, t: nat, i: nat, r: Option<HashEntry>)
    requires EntryAt(buf, at, stride, i).Some? && EntryAt(buf, at, stride, i).value.dataType != t
    ensures forall j :: i + 1 <= j && PassedOver(buf, at, stride, t, i + 1, j) ==> PassedOver(buf, at, stride, t, i, j)
  {
  }

  /**
   * The first hash entry of content type `t`, scanning the table entry by
   * entry; `None` when the data block cannot be located, when no entry has
   * that type, or when the scan reaches an entry that is not in the buffer.
   */
  function GetHash(buf: seq<byte>, t: nat): (r: Option<HashEntry>)
    ensures LocateData(buf).None? ==> r.None?
    ensures r.Some? ==> r.value.dataType == t
    ensures r.Some? ==>
      var (off, d) := LocateData(buf).value;
      exists j :: 0 <= j < d.numHashes && EntryAt(buf, HashTableOffset(off, d), d.hashEntrySize, j) == r &&
        PassedOver(buf, HashTableOffset(off, d), d.hashEntrySize, t, 0, j)
    ensures LocateData(buf).Some? && r.None? ==>
      var (off, d) := LocateData(buf).value;
      exists j :: 0 <= j <= d.numHashes && (j < d.numHashes ==> EntryAt(buf, HashTableOffset(off, d), d.hashEntrySize, j).None?) &&
        PassedOver(buf, HashTableOffset(off, d), d.hashEntrySize, t, 0, j)
  {
    var loc :- LocateData(buf);
    ScanHash(buf, HashTableOffset(loc.0, loc.1), loc.1.hashEntrySize, loc.1.numHashes, t, 0)
  }

  /**
   * Conversely, an entry of type `t` that lies in the buffer, with every entry
   * before it in the buffer and of another type, is what the lookup returns,
   * whatever lies after it.
   */
  lemma GetHashFindsFirst(buf: seq<byte>, t: nat, off: nat, d: Data, j: nat)
    requires LocateData(buf) == Some((off, d)) && j < d.numHashes
    requires EntryAt(buf, HashTableOffset(off, d), d.hashEntrySize, j).Some?
    requires EntryAt(buf, HashTableOffset(off, d), d.hashEntrySize, j).value.dataType == t
    requires PassedOver(buf, HashTableOffset(off, d), d.hashEntrySize, t, 0, j)
    ensures GetHash(buf, t) == EntryAt(buf, HashTableOffset(off, d), d.hashEntrySize, j)
  {
    var at, stride, n := HashTableOffset(off, d), d.hashEntrySize, d.numHashes;
    var r := GetHash(buf, t);
    if r.Some? {
      var k :| 0 <= k < n && EntryAt(buf, at, stride, k) == r && PassedOver(buf, at, stride, t, 0, k);
      assert k == j;
    } else {
      assert false;
    }
  }

  /**
   * When the whole table can be read, the scan agrees with a search of the
   * table: it finds nothing exactly when no entry has the type, and otherwise
   * the first entry that has it.
   */
  lemma GetHashOfTable(buf: seq<byte>, t: nat)
    requires GetHashTable(buf).Some?
    ensures GetHash(buf, t).None? <==> forall e :: e in GetHashTable(buf).value ==> e.dataType != t
    ensures GetHash(buf, t).Some? ==>
      exists j :: 0 <= j < |GetHashTable(buf).value| && GetHashTable(buf).value[j] == GetHash(buf, t).value &&
        forall i :: 0 <= i < j ==> GetHashTable(buf).value[i].dataType != t
  {
    var (off, d) := LocateData(buf).value;
    var at, stride, n := HashTableOffset(off, d), d.hashEntrySize, d.numHashes;
    var es := GetHashTable(buf).value;
    assert es == HashEntries(buf, at, stride, n).value;
    assert forall k :: 0 <= k < n ==> EntryAt(buf, at, stride, k) == Some(es[k]);
    var r := GetHash(buf, t);
    if r.None? {
      var j :| 0 <= j <= n && (j < n ==> EntryAt(buf, at, stride, j).None?) && PassedOver(buf, at, stride, t, 0, j);
      assert j == n;
      forall e | e in es
        ensures e.dataType != t
      {
        var k :| 0 <= k < n && es[k] == e;
        assert EntryAt(buf, at, stride, k) == Some(e);
      }
    } else {
      var j :| 0 <= j < n && EntryAt(buf, at, stride, j) == r && PassedOver(buf, at, stride, t, 0, j);
      assert es[j] == r.value && es[j] in es;
      forall i | 0 <= i < j
        ensures es[i].dataType != t
      {
        assert EntryAt(buf, at, stride, i) == Some(es[i]);
      }
    }
  }
}
