/** The table of payload converters, one per data type, and what payloads mean.

    A type without an entry (`std::string`, for one) is never converted, and its
    header is then left alone as well. */
module Converters {
  import opened Memory
  import opened Headers
  import DoubleCodec

  predicate HasConverter(t: int32) { TYPE_INT32 <= t <= TYPE_DOUBLE }

  /** How many bytes the converter of a type takes for granted, whatever the header says;
      a vector's converter goes by the size in the header. */
  function Footprint(t: int32): nat {
    if t == TYPE_INT32 || t == TYPE_UINT32 then 4
    else if t == TYPE_INT64 || t == TYPE_UINT64 then 8
    else if t == TYPE_DOUBLE then DoubleCodec.SLOT_SIZE
    else 0
  }

  /** How many bytes from the payload's start on the converter of a type works on, `size`
      being what the header says. */
  function Reach(t: int32, size: int32): nat {
    if t == TYPE_VECTOR_UINT32 then (if size < 0 then 0 else size) else Footprint(t)
  }

  /** A host-order payload after its `to_network` converter. */
  function NetworkData(t: int32, d: seq<byte>): (r: seq<byte>)
    requires |d| >= Footprint(t)
    ensures |r| == |d|
  {
    if t == TYPE_INT32 || t == TYPE_UINT32 then Flip(d, 1)
    else if t == TYPE_INT64 || t == TYPE_UINT64 then Reverse(d[..8]) + d[8..]
    else if t == TYPE_VECTOR_UINT32 then Flip(d, |d| / 4)
    else if t == TYPE_DOUBLE then DoubleCodec.ToNetwork(d)
    else d
  }

  /** A network-order payload after its `to_host` converter. */
  function HostData(t: int32, d: seq<byte>): (r: seq<byte>)
    requires |d| >= Footprint(t)
    ensures |r| == |d|
  {
    if t == TYPE_DOUBLE then DoubleCodec.ToHost(d) else NetworkData(t, d)
  }

  /** Header and payload of one object after `Converters::to_host` (net = false) or
      `Converters::to_network` (net = true).  A payload with no room for its type has no
      converted form: the converter would run on beyond it. */
  function Converted(h: Header, d: seq<byte>, net: bool): (r: (Header, seq<byte>))
    ensures |r.1| == |d|
  {
    if h.net == net || !HasConverter(h.dataType) || |d| < Footprint(h.dataType) then (h, d)
    else (h.(net := net), if net then NetworkData(h.dataType, d) else HostData(h.dataType, d))
  }

  /** What the receiver of a payload gets to see. */
  datatype Value = Raw(data: seq<byte>) | Double(bits: dword)

  function Decoded(net: bool, t: int32, d: seq<byte>): Value {
    if |d| < Footprint(t) then Raw(d)
    else
      var host := if net && HasConverter(t) then HostData(t, d) else d;
      if t == TYPE_DOUBLE then Double(DoubleCodec.Canonical(DWordAt(host, 0))) else Raw(host)
  }

  /** The table, type by type: both kinds of 32-bit integer, both kinds of 64-bit integer,
      vectors and doubles have converters, and nothing else has. */
  lemma Table(t: int32)
    ensures HasConverter(t) <==> t == 3 || t == 4 || t == 5 || t == 6 || t == 7 || t == 8
    ensures Footprint(t) == if t == 3 || t == 4 then 4 else if t == 5 || t == 6 then 8 else if t == 8 then 13 else 0
  {
  }

  /** A payload in host order stands for itself; of a double it is the first eight bytes that
      count, and of those what survives the codec. */
  lemma ValueAsItStands(t: int32, d: seq<byte>)
    requires |d| >= Footprint(t)
    ensures t != 8 ==> Decoded(false, t, d) == Raw(d)
    ensures t == 8 ==> |d| >= 13 && Decoded(false, t, d) == Double(DoubleCodec.Canonical(DWordAt(d, 0)))
  {
    hide HostData, DoubleCodec.Canonical, DWordAt;
  }

  /** In network order it stands for what its converter makes of it, if it has one. */
  lemma ValueFromNetwork(t: int32, d: seq<byte>)
    requires |d| >= Footprint(t)
    ensures Decoded(true, t, d) == if HasConverter(t) then Decoded(false, t, HostData(t, d)) else Raw(d)
  {
    hide HostData, DoubleCodec.Canonical, DWordAt;
  }

  /** For every type but double the two converters undo each other, byte for byte and
      for vectors of any length. */
  lemma ConvertersInvert(t: int32, d: seq<byte>)
    requires |d| >= Footprint(t) && t != TYPE_DOUBLE
    ensures HostData(t, NetworkData(t, d)) == d && NetworkData(t, HostData(t, d)) == d
  {
    if t == TYPE_INT32 || t == TYPE_UINT32 {
      FlipInvolutive(d, 1);
    } else if t == TYPE_INT64 || t == TYPE_UINT64 {
      var r := Reverse(d[..8]) + d[8..];
      assert r[..8] == Reverse(d[..8]) && r[8..] == d[8..];
      assert Reverse(Reverse(d[..8])) == d[..8];
    } else if t == TYPE_VECTOR_UINT32 {
      FlipInvolutive(d, |d| / 4);
    }
  }

  /** Converting an object in either direction leaves its value as it was. */
  lemma ConversionKeepsValue(h: Header, d: seq<byte>, net: bool)
    ensures var (h', d') := Converted(h, d, net);
            Decoded(h'.net, h'.dataType, d') == Decoded(h.net, h.dataType, d)
  {
    if h.net != net && HasConverter(h.dataType) && |d| >= Footprint(h.dataType) {
      if h.dataType != TYPE_DOUBLE {
        ConvertersInvert(h.dataType, d);
      } else if net {
        DoubleCodec.NetworkThenHost(d);
        DoubleCodec.HostValue(DoubleCodec.ToNetwork(d));
        CanonicalIdempotent(DWordAt(d, 0));
      }
    }
  }

  lemma CanonicalIdempotent(bits: dword)
    ensures DoubleCodec.Canonical(DoubleCodec.Canonical(bits)) == DoubleCodec.Canonical(bits)
  {
  }

  /** Converting the whole object there and back restores header and payload, except
      for the spare bytes behind a double. */
  lemma ConvertedBack(h: Header, d: seq<byte>)
    requires |d| >= Footprint(h.dataType) && HasConverter(h.dataType) && h.dataType != TYPE_DOUBLE
    ensures var (h', d') := Converted(h, d, !h.net); Converted(h', d', h.net) == (h, d)
  {
    ConvertersInvert(h.dataType, d);
  }

  lemma ToNetworkPrefix(s: seq<byte>, t: seq<byte>)
    requires |s| >= DoubleCodec.SLOT_SIZE
    ensures DoubleCodec.ToNetwork(s + t) == DoubleCodec.ToNetwork(s) + t
  {
    hide DoubleCodec.MantissaExponent, Swap64, Swap32, DWordAt, WordAt;
    SameDWord(s + t, 0, s, 0);
  }

  lemma ToHostPrefix(s: seq<byte>, t: seq<byte>)
    requires |s| >= DoubleCodec.SLOT_SIZE
    ensures DoubleCodec.ToHost(s + t) == DoubleCodec.ToHost(s) + t
  {
    hide DoubleCodec.Ldexp, Swap64, Swap32, DWordAt, WordAt;
    assert DWordAt(s + t, 1) == DWordAt(s, 1) by { SameDWord(s + t, 1, s, 1); }
    assert WordAt(s + t, 9) == WordAt(s, 9) by { SameWord(s + t, 9, s, 9); }
  }

  lemma SameDWord(s: seq<byte>, at: nat, t: seq<byte>, to: nat)
    requires at + 8 <= |s| && to + 8 <= |t| && s[at..at + 8] == t[to..to + 8]
    ensures DWordAt(s, at) == DWordAt(t, to)
  {
  }

  /** A converter that does not go by the size leaves alone what is behind its type. */
  lemma ConvertedPrefix(t: int32, d: seq<byte>, rest: seq<byte>)
    requires |d| >= Footprint(t) && t != TYPE_VECTOR_UINT32
    ensures NetworkData(t, d + rest) == NetworkData(t, d) + rest
    ensures HostData(t, d + rest) == HostData(t, d) + rest
  {
    hide *;
    NetworkCases(t, d);
    NetworkCases(t, d + rest);
    HostCases(t, d);
    HostCases(t, d + rest);
    if t == TYPE_INT32 || t == TYPE_UINT32 {
      FlipConcat(d, rest, 1);
    } else if t == TYPE_INT64 || t == TYPE_UINT64 {
      assert (d + rest)[..8] == d[..8] && (d + rest)[8..] == d[8..] + rest;
      Regroup(Reverse(d[..8]), d[8..], rest);
    } else if t == TYPE_DOUBLE {
      ToNetworkPrefix(d, rest);
      ToHostPrefix(d, rest);
    }
  }

  /** The bytes that a converter works on are those of the payload, as far as it reaches. */
  lemma WithinReach(t: int32, d: seq<byte>)
    requires |d| >= Footprint(t)
    ensures var n := if t == TYPE_VECTOR_UINT32 then |d| else Footprint(t);
            && NetworkData(t, d) == NetworkData(t, d[..n]) + d[n..]
            && HostData(t, d) == HostData(t, d[..n]) + d[n..]
  {
    hide NetworkData, HostData;
    if t == TYPE_VECTOR_UINT32 {
      assert d[..|d|] == d;
    } else {
      var n := Footprint(t);
      assert d == d[..n] + d[n..];
      ConvertedPrefix(t, d[..n], d[n..]);
    }
  }

  /** The `to_network` converter of type `t` on the payload at `at`, which the header says
      has `size` bytes. */
  method PayloadToNetwork(t: int32, size: int32, a: array<byte>, at: nat)
    requires (t == TYPE_VECTOR_UINT32 ==> size >= 0) && at + Reach(t, size) <= a.Length
    modifies a
    ensures var end := at + Reach(t, size);
            a[..] == old(a[..at]) + NetworkData(t, old(a[at..end])) + old(a[end..])
  {
    hide *;
    ReachCases(t, size);
    var end := at + Reach(t, size);
    ghost var before, d, rest := a[..at], a[at..end], a[end..];
    NetworkCases(t, d);
    Regroup(before, NetworkData(t, d), rest);
    assert a[at..] == d + rest;
    if t == TYPE_INT32 || t == TYPE_UINT32 {
      FlipConcat(d, rest, 1);
      SwapWordsInPlace(a, at, 1);
    } else if t == TYPE_INT64 || t == TYPE_UINT64 {
      assert a[at..at + 8] == d == d[..8] && d[8..] == [] && a[at + 8..] == rest;
      SwapDWordInPlace(a, at);
    } else if t == TYPE_VECTOR_UINT32 {
      FlipConcat(d, rest, size / 4);
      SwapWordsInPlace(a, at, size / 4);
    } else if t == TYPE_DOUBLE {
      ToNetworkPrefix(d, rest);
      DoubleCodec.ToNetworkInPlace(a, at);
    } else {
      assert a[..] == before + a[at..];
    }
  }

  lemma Regroup(p: seq<byte>, s: seq<byte>, t: seq<byte>)
    ensures p + (s + t) == (p + s) + t
  {
  }

  lemma ReachCases(t: int32, size: int32)
    requires t == TYPE_VECTOR_UINT32 ==> size >= 0
    ensures Reach(t, size) == if t == TYPE_VECTOR_UINT32 then size else Footprint(t)
    ensures t == TYPE_INT32 || t == TYPE_UINT32 ==> Footprint(t) == 4
    ensures t == TYPE_INT64 || t == TYPE_UINT64 ==> Footprint(t) == 8
    ensures t == TYPE_DOUBLE ==> Footprint(t) == DoubleCodec.SLOT_SIZE
    ensures t < TYPE_INT32 || t > TYPE_DOUBLE || t == TYPE_VECTOR_UINT32 ==> Footprint(t) == 0
  {
  }

  lemma NetworkCases(t: int32, d: seq<byte>)
    requires |d| >= Footprint(t)
    ensures t == TYPE_INT32 || t == TYPE_UINT32 ==> |d| >= 4 && NetworkData(t, d) == Flip(d, 1)
    ensures t == TYPE_INT64 || t == TYPE_UINT64 ==> |d| >= 8 && NetworkData(t, d) == Reverse(d[..8]) + d[8..]
    ensures t == TYPE_VECTOR_UINT32 ==> NetworkData(t, d) == Flip(d, |d| / 4)
    ensures t == TYPE_DOUBLE ==> |d| >= DoubleCodec.SLOT_SIZE && NetworkData(t, d) == DoubleCodec.ToNetwork(d)
    ensures t < TYPE_INT32 || t > TYPE_DOUBLE ==> NetworkData(t, d) == d
    ensures TYPE_INT32 == 3 && TYPE_UINT32 == 4 && TYPE_INT64 == 5 && TYPE_UINT64 == 6
    ensures TYPE_VECTOR_UINT32 == 7 && TYPE_DOUBLE == 8
  {
  }

  lemma HostCases(t: int32, d: seq<byte>)
    requires |d| >= Footprint(t)
    ensures t == TYPE_DOUBLE ==> |d| >= DoubleCodec.SLOT_SIZE && HostData(t, d) == DoubleCodec.ToHost(d)
    ensures t != TYPE_DOUBLE ==> HostData(t, d) == NetworkData(t, d)
  {
  }

  /** The `to_host` converter of type `t`. */
  method PayloadToHost(t: int32, size: int32, a: array<byte>, at: nat)
    requires (t == TYPE_VECTOR_UINT32 ==> size >= 0) && at + Reach(t, size) <= a.Length
    modifies a
    ensures var end := at + Reach(t, size);
            a[..] == old(a[..at]) + HostData(t, old(a[at..end])) + old(a[end..])
  {
    hide *;
    ReachCases(t, size);
    ghost var end := at + Reach(t, size);
    ghost var before, d, rest := a[..at], a[at..end], a[end..];
    HostCases(t, d);
    if t == TYPE_DOUBLE {
      assert a[at..] == d + rest;
      ToHostPrefix(d, rest);
      Regroup(before, HostData(t, d), rest);
      DoubleCodec.ToHostInPlace(a, at);
    } else {
      PayloadToNetwork(t, size, a, at);
    }
  }

  /** Without a converter nothing changes. */
  lemma Unconverted(h: Header, d: seq<byte>, net: bool)
    ensures !HasConverter(h.dataType) ==> Converted(h, d, net) == (h, d)
  {
  }

  /** The converter of the type, in either direction, on a payload that has an array to
      itself. */
  method ConvertPayload(t: int32, size: int32, a: array<byte>, net: bool)
    requires size == a.Length && Footprint(t) <= size
    modifies a
    ensures a[..] == if net then NetworkData(t, old(a[..])) else HostData(t, old(a[..]))
  {
    hide *;
    ReachCases(t, size);
    WithinReach(t, a[..]);
    ghost var n := Reach(t, size);
    assert a[..0] == [] && a[0..n] == a[..n] == a[..][..n] && a[n..] == a[..][n..] && |a[..]| == a.Length;
    if net {
      PayloadToNetwork(t, size, a, 0);
    } else {
      PayloadToHost(t, size, a, 0);
    }
  }

  /** `Converters::to_network` (net = true) and `Converters::to_host` on an object with a
      buffer of its own: the payload converter always finds the header in host order,
      because the one converts the header last and the other first. */
  method ObjectToOrder(header: array<byte>, buf: array<byte>, net: bool, ghost h: Header)
    requires header != buf && header.Length >= 16 && ReadHeader(header[..], 0) == h && h.size == buf.Length
    requires HasConverter(h.dataType) ==> header[..] == HeaderBytes(h)
    requires h.net != net && HasConverter(h.dataType) ==> Footprint(h.dataType) <= buf.Length
    modifies header, buf
    ensures header[..]
         == if HasConverter(h.dataType) then HeaderBytes(Converted(h, old(buf[..]), net).0) else old(header[..])
    ensures buf[..] == Converted(h, old(buf[..]), net).1
  {
    hide HeaderBytes, IsNetworkOrder, WordAt, Signed, Footprint, HasConverter, NetworkData, HostData;
    ReadWritten(h);
    var t := Field(header[..], 0, 3);
    if net == IsNetworkOrder(header[..], 0) || !HasConverter(t) {
      return;
    }
    if net {
      RawSize(h);
      ConvertPayload(t, Signed(WordAt(header[..], 4)), buf, true);
      ConvertHeader(header, true, h);
    } else {
      ConvertHeader(header, false, h);
      RawSize(h.(net := false));
      ConvertPayload(t, Signed(WordAt(header[..], 4)), buf, false);
    }
  }
}
