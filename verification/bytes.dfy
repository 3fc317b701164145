/**
 * Bytes, fixed-width unsigned integers, and the little-endian packing that every
 * on-flash structure of the model uses.
 *
 * A packed structure is described by the list of its field widths in bytes;
 * `Pack` lays the field values out one after another and `Unpack` reads them back.
 */
module Bytes {

  type byte = bv8

  type uint8 = x: nat | x < 0x100
  type uint16 = x: nat | x < 0x1_0000
  type uint32 = x: nat | x < 0x1_0000_0000
  type uint64 = x: nat | x < 0x1_0000_0000_0000_0000

  /** 256 to the power `w`: the number of values a `w`-byte field can hold. */
  function Pow256(w: nat): (r: nat)
    ensures r >= 1
  {
    if w == 0 then 1 else 256 * Pow256(w - 1)
  }

  /** The widths the on-flash structures use, spelled out. */
  lemma Pow256Four()
    ensures Pow256(1) == 0x100 && Pow256(2) == 0x1_0000 && Pow256(4) == 0x1_0000_0000
    ensures Pow256(8) == 0x1_0000_0000_0000_0000
  {
    assert Pow256(3) == 0x100_0000;
    assert Pow256(5) == 0x100_0000_0000;
    assert Pow256(6) == 0x1_0000_0000_0000;
    assert Pow256(7) == 0x100_0000_0000_0000;
  }

  /** A value already inside the range is its own remainder. */
  lemma ModSmall(v: int, p: nat)
    requires 0 <= v < p
    ensures v % p == v
  {
  }

  /** Sums of multiples of four are multiples of four. */
  lemma AlignedSum(a: nat, b: nat)
    requires a % 4 == 0 && b % 4 == 0
    ensures (a + b) % 4 == 0
  {
  }

  /**
   * Incrementing or decrementing a value and reducing it modulo a width of at
   * least two always changes it, wrap-around included.
   */
  lemma StepChanges(v: nat, w: int, p: nat)
    requires 2 <= p && (w == v + 1 || w == v - 1)
    ensures w % p != v
  {
  }

  /** The unsigned value of a little-endian byte string. */
  function LeDecode(s: seq<byte>): nat
  {
    if |s| == 0 then 0 else s[0] as nat + 256 * LeDecode(s[1..])
  }

  /** The `w`-byte little-endian encoding of `n`. */
  function LeEncode(n: nat, w: nat): (r: seq<byte>)
    requires n < Pow256(w)
    ensures |r| == w
  {
    if w == 0 then []
    else
      DivBound(n, Pow256(w - 1));
      [(n % 256) as byte] + LeEncode(n / 256, w - 1)
  }

  lemma DivBound(n: nat, p: nat)
    requires n < 256 * p
    ensures n / 256 < p
  {
  }

  lemma ByteRoundTrip(x: nat)
    requires x < 256
    ensures (x as byte) as nat == x
  {
    var w: bv16 := x as bv16;
    assert w < 256;
    assert (w as byte) as nat == w as nat;
  }

  lemma {:induction false} LeDecodeBound(s: seq<byte>)
    ensures LeDecode(s) < Pow256(|s|)
  {
    if |s| > 0 {
      LeDecodeBound(s[1..]);
    }
  }

  /** Decoding an encoding gives the value back. */
  lemma {:induction false} LeRoundTrip(n: nat, w: nat)
    requires n < Pow256(w)
    ensures LeDecode(LeEncode(n, w)) == n
  {
    if w > 0 {
      var e := LeEncode(n, w);
      var q := n / 256;
      DivBound(n, Pow256(w - 1));
      assert e == [(n % 256) as byte] + LeEncode(q, w - 1);
      LeRoundTrip(q, w - 1);
      assert e[1..] == LeEncode(q, w - 1);
      ByteRoundTrip(n % 256);
      assert LeDecode(e) == (n % 256) + 256 * q;
    }
  }

  /** Encoding is injective: distinct values have distinct encodings. */
  lemma LeEncodeInjective(m: nat, n: nat, w: nat)
    requires m < Pow256(w) && n < Pow256(w) && m != n
    ensures LeEncode(m, w) != LeEncode(n, w)
  {
    LeRoundTrip(m, w);
    LeRoundTrip(n, w);
  }

  /** `n` zero bytes. */
  function Zeros(n: nat): (r: seq<byte>)
    ensures |r| == n && forall i :: 0 <= i < n ==> r[i] == 0
  {
    if n == 0 then [] else [0] + Zeros(n - 1)
  }

  /** Total width of a packed structure. */
  function Total(ws: seq<nat>): nat
  {
    if |ws| == 0 then 0 else ws[0] + Total(ws[1..])
  }

  /** Byte offset of field `i`. */
  function Offset(ws: seq<nat>, i: nat): (r: nat)
    requires i < |ws|
    ensures r + ws[i] <= Total(ws)
  {
    if i == 0 then 0 else ws[0] + Offset(ws[1..], i - 1)
  }

  /** Field `i` starts where field `i - 1` ends. */
  lemma {:induction false} OffsetStep(ws: seq<nat>, i: nat)
    requires 0 < i < |ws|
    ensures Offset(ws, i) == Offset(ws, i - 1) + ws[i - 1]
  {
    if i > 1 {
      OffsetStep(ws[1..], i - 1);
    }
  }

  /** Every value fits the width of its field. */
  predicate FitsWidths(vs: seq<nat>, ws: seq<nat>)
  {
    |vs| == |ws| && forall i :: 0 <= i < |ws| ==> vs[i] < Pow256(ws[i])
  }

  /** Lays out `vs` as consecutive little-endian fields of widths `ws`. */
  function Pack(vs: seq<nat>, ws: seq<nat>): (r: seq<byte>)
    requires FitsWidths(vs, ws)
    ensures |r| == Total(ws)
  {
    if |ws| == 0 then []
    else
      assert vs[0] < Pow256(ws[0]);
      LeEncode(vs[0], ws[0]) + Pack(vs[1..], ws[1..])
  }

  /** Reads consecutive little-endian fields of widths `ws` from the front of `s`. */
  function Unpack(s: seq<byte>, ws: seq<nat>): (r: seq<nat>)
    requires Total(ws) <= |s|
    ensures |r| == |ws|
  {
    if |ws| == 0 then []
    else [LeDecode(s[..ws[0]])] + Unpack(s[ws[0]..], ws[1..])
  }

  /** Every unpacked value fits its field. */
  lemma {:induction false} UnpackFits(s: seq<byte>, ws: seq<nat>)
    requires Total(ws) <= |s|
    ensures FitsWidths(Unpack(s, ws), ws)
  {
    if |ws| > 0 {
      LeDecodeBound(s[..ws[0]]);
      UnpackFits(s[ws[0]..], ws[1..]);
    }
  }

  /** Unpacking a packed structure, whatever follows it, gives the values back. */
  lemma {:induction false} PackRoundTrip(vs: seq<nat>, ws: seq<nat>, tail: seq<byte>)
    requires FitsWidths(vs, ws)
    ensures Unpack(Pack(vs, ws) + tail, ws) == vs
  {
    if |ws| > 0 {
      var s := Pack(vs, ws) + tail;
      var e := LeEncode(vs[0], ws[0]);
      assert s == e + (Pack(vs[1..], ws[1..]) + tail);
      assert s[..ws[0]] == e;
      assert s[ws[0]..] == Pack(vs[1..], ws[1..]) + tail;
      LeRoundTrip(vs[0], ws[0]);
      PackRoundTrip(vs[1..], ws[1..], tail);
      assert FitsWidths(vs[1..], ws[1..]);
    }
  }

  /** `s` with the bytes from `at` on replaced by `e`. */
  function Overwrite(s: seq<byte>, at: nat, e: seq<byte>): (r: seq<byte>)
    requires at + |e| <= |s|
    ensures |r| == |s|
    ensures r[at..at + |e|] == e
  {
    s[..at] + e + s[at + |e|..]
  }

  /** Overwriting changes nothing outside the written range. */
  lemma OverwriteFrame(s: seq<byte>, at: nat, e: seq<byte>)
    requires at + |e| <= |s|
    ensures SameOutside(s, Overwrite(s, at, e), at, at + |e|)
  {
  }

  lemma OverwriteAtFront(s: seq<byte>, e: seq<byte>)
    requires |e| <= |s|
    ensures Overwrite(s, 0, e)[..|e|] == e
    ensures Overwrite(s, 0, e)[|e|..] == s[|e|..]
  {
    assert Overwrite(s, 0, e) == e + s[|e|..];
  }

  lemma OverwriteBehind(s: seq<byte>, w: nat, o: nat, e: seq<byte>)
    requires w + o + |e| <= |s|
    ensures Overwrite(s, w + o, e)[..w] == s[..w]
    ensures Overwrite(s, w + o, e)[w..] == Overwrite(s[w..], o, e)
  {
    assert Overwrite(s, w + o, e) == s[..w] + Overwrite(s[w..], o, e);
  }

  /** Overwriting leaves everything from `from` on alone when the write ends before it. */
  lemma OverwriteKeepsTail(s: seq<byte>, at: nat, e: seq<byte>, from: nat)
    requires at + |e| <= from <= |s|
    ensures Overwrite(s, at, e)[from..] == s[from..]
  {
    assert Overwrite(s, at, e) == (s[..at] + e + s[at + |e|..from]) + s[from..];
  }

  /** A write inside the window `[lo, lo + n)` is, seen through that window, a write into it. */
  lemma OverwriteWindow(s: seq<byte>, lo: nat, n: nat, o: nat, e: seq<byte>)
    requires o + |e| <= n && lo + n <= |s|
    ensures Overwrite(s, lo + o, e)[lo..lo + n] == Overwrite(s[lo..lo + n], o, e)
    ensures SameOutside(s, Overwrite(s, lo + o, e), lo, lo + n)
  {
    var w := s[lo..lo + n];
    assert Overwrite(s, lo + o, e) == s[..lo] + Overwrite(w, o, e) + s[lo + n..];
  }

  /** Unpacking splits into the first field and the fields after it. */
  lemma UnpackCons(s: seq<byte>, ws: seq<nat>)
    requires Total(ws) <= |s| && |ws| > 0
    ensures Unpack(s, ws) == [LeDecode(s[..ws[0]])] + Unpack(s[ws[0]..], ws[1..])
  {
  }

  /** Updating past the head of a sequence updates its tail. */
  lemma UpdateTail(x: nat, t: seq<nat>, j: nat, v: nat)
    requires j < |t|
    ensures ([x] + t)[j + 1 := v] == [x] + t[j := v]
  {
  }

  /** Writing the first field and unpacking sees exactly that field change. */
  lemma UnpackOverwriteFirst(s: seq<byte>, ws: seq<nat>, v: nat)
    requires Total(ws) <= |s| && |ws| > 0 && v < Pow256(ws[0])
    ensures Unpack(Overwrite(s, 0, LeEncode(v, ws[0])), ws) == Unpack(s, ws)[0 := v]
  {
    var e := LeEncode(v, ws[0]);
    var s' := Overwrite(s, 0, e);
    OverwriteAtFront(s, e);
    LeRoundTrip(v, ws[0]);
    var w := ws[0];
    assert s'[..w] == e && s'[w..] == s[w..];
    UnpackCons(s, ws);
    UnpackCons(s', ws);
    var rest := Unpack(s[w..], ws[1..]);
    assert Unpack(s', ws) == [v] + rest;
  }

  /** Writing one field and unpacking sees exactly that field change. */
  lemma {:induction false} UnpackOverwrite(s: seq<byte>, ws: seq<nat>, i: nat, v: nat)
    requires Total(ws) <= |s|
    requires i < |ws| && v < Pow256(ws[i])
    ensures Unpack(Overwrite(s, Offset(ws, i), LeEncode(v, ws[i])), ws) == Unpack(s, ws)[i := v]
  {
    if i == 0 {
      UnpackOverwriteFirst(s, ws, v);
    } else {
      var e := LeEncode(v, ws[i]);
      var s' := Overwrite(s, Offset(ws, i), e);
      var o := Offset(ws[1..], i - 1);
      assert Offset(ws, i) == ws[0] + o;
      OverwriteBehind(s, ws[0], o, e);
      UnpackOverwrite(s[ws[0]..], ws[1..], i - 1, v);
      UnpackCons(s, ws);
      UnpackCons(s', ws);
      UpdateTail(LeDecode(s[..ws[0]]), Unpack(s[ws[0]..], ws[1..]), i - 1, v);
    }
  }

  /** Unpacking reads only the first `Total(ws)` bytes. */
  lemma {:induction false} UnpackPrefix(s: seq<byte>, t: seq<byte>, ws: seq<nat>)
    requires Total(ws) <= |s| && Total(ws) <= |t|
    requires s[..Total(ws)] == t[..Total(ws)]
    ensures Unpack(s, ws) == Unpack(t, ws)
  {
    if |ws| > 0 {
      assert s[..ws[0]] == s[..Total(ws)][..ws[0]];
      assert t[..ws[0]] == t[..Total(ws)][..ws[0]];
      assert s[ws[0]..][..Total(ws[1..])] == s[..Total(ws)][ws[0]..];
      assert t[ws[0]..][..Total(ws[1..])] == t[..Total(ws)][ws[0]..];
      UnpackPrefix(s[ws[0]..], t[ws[0]..], ws[1..]);
    }
  }

  /** Two byte strings of one length agree everywhere outside `[lo, hi)`. */
  ghost predicate SameOutside(s: seq<byte>, t: seq<byte>, lo: nat, hi: nat)
  {
    |s| == |t| && forall j :: 0 <= j < |s| && !(lo <= j < hi) ==> s[j] == t[j]
  }

  /** A window disjoint from the changed range reads the same bytes. */
  lemma SliceOutside(s: seq<byte>, t: seq<byte>, lo: nat, hi: nat, a: nat, b: nat)
    requires SameOutside(s, t, lo, hi)
    requires a <= b <= |s|
    requires b <= lo || hi <= a
    ensures s[a..b] == t[a..b]
  {
    assert forall j :: 0 <= j < b - a ==> s[a..b][j] == s[a + j] == t[a + j] == t[a..b][j];
  }
}
