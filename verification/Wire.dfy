/** What network order is on the wire, told without reference to the swaps: every number
    travels with its most significant byte first (Appendix B of RFC 791). */
module Wire {
  import opened Memory
  import opened Headers
  import opened Converters
  import opened Frames

  /** Bytes read as a number, the most significant one first. */
  function BigEndian(s: seq<byte>): nat {
    if s == [] then 0 else 0x100 * BigEndian(s[..|s| - 1]) + s[|s| - 1] as int
  }

  /** What the host stores reversed is the same number, read the other way round. */
  lemma {:induction false} ReversedReads(s: seq<byte>)
    ensures BigEndian(Reverse(s)) == Number(s)
  {
    if s != [] {
      var r := Reverse(s);
      assert r[..|s| - 1] == Reverse(s[1..]) && r[|s| - 1] == s[0];
      ReversedReads(s[1..]);
    }
  }

  lemma SwappedWord(w: word)
    ensures BigEndian(WordBytes(Swap32(w))) == w
  {
    var s := WordBytes(w);
    Swap32Reverses(s, 0);
    assert s[0..4] == s;
    ReversedReads(s);
  }

  lemma SwappedDWord(d: dword)
    ensures BigEndian(DWordBytes(Swap64(d))) == d
  {
    var s := DWordBytes(d);
    Swap64Reverses(s, 0);
    assert s[0..8] == s;
    ReversedReads(s);
  }

  lemma FlippedWord(s: seq<byte>, n: nat, j: nat)
    requires j < n && n * 4 <= |s|
    ensures BigEndian(Flip(s, n)[4 * j..4 * j + 4]) == WordAt(s, 4 * j)
  {
    FlipSlice(s, n, j);
    ReversedReads(s[4 * j..4 * j + 4]);
  }

  /** A header in network order: the mark reads 1, and size, key and type are what the
      header says, in two's complement. */
  lemma HeaderOnTheWire(h: Header)
    requires h.net
    ensures var s := HeaderBytes(h);
            && BigEndian(s[0..4]) == 1
            && BigEndian(s[4..8]) == Unsigned(h.size)
            && BigEndian(s[8..12]) == Unsigned(h.key)
            && BigEndian(s[12..16]) == Unsigned(h.dataType)
  {
    var host := HeaderBytes(h.(net := false));
    HostWords(h.(net := false));
    FlippedWord(host, 4, 0);
    FlippedWord(host, 4, 1);
    FlippedWord(host, 4, 2);
    FlippedWord(host, 4, 3);
    assert HeaderBytes(h) == Flip(host, 4);
    hide HeaderBytes, Flip, WordAt, BigEndian;
  }

  /** Integers in network order: the number the host held. */
  lemma IntegerOnTheWire(t: int32, d: seq<byte>)
    requires |d| >= Footprint(t)
    ensures t == TYPE_INT32 || t == TYPE_UINT32 ==> BigEndian(NetworkData(t, d)[..4]) == WordAt(d, 0)
    ensures t == TYPE_INT64 || t == TYPE_UINT64 ==> BigEndian(NetworkData(t, d)[..8]) == DWordAt(d, 0)
  {
    if t == TYPE_INT32 || t == TYPE_UINT32 {
      FlippedWord(d, 1, 0);
      assert NetworkData(t, d)[..4] == Flip(d, 1)[0..4];
    } else if t == TYPE_INT64 || t == TYPE_UINT64 {
      ReversedReads(d[0..8]);
      assert NetworkData(t, d)[..8] == Reverse(d[0..8]);
    }
  }

  /** A vector in network order: each element, in its place. */
  lemma VectorOnTheWire(d: seq<byte>, j: nat)
    requires j < |d| / 4
    ensures BigEndian(NetworkData(TYPE_VECTOR_UINT32, d)[4 * j..4 * j + 4]) == WordAt(d, 4 * j)
  {
    FlippedWord(d, |d| / 4, j);
  }

  /** Integers out of network order: the number that was on the wire. */
  lemma IntegerOffTheWire(t: int32, d: seq<byte>)
    requires |d| >= Footprint(t)
    ensures t == 3 || t == 4 ==> WordAt(HostData(t, d), 0) == BigEndian(d[..4]) && HostData(t, d)[4..] == d[4..]
    ensures t == 5 || t == 6 ==> DWordAt(HostData(t, d), 0) == BigEndian(d[..8]) && HostData(t, d)[8..] == d[8..]
  {
    hide NetworkData, HostData, WordAt, DWordAt, BigEndian;
    if 3 <= t <= 6 {
      var e := HostData(t, d);
      ConvertersInvert(t, d);
      IntegerOnTheWire(t, e);
      BehindInteger(t, d);
    }
  }

  /** A double in network order: its class, 0 below zero, 1 from zero on, 2 for NaN, 3 and 4 for
      the infinities; then, if it is finite, its integer significand and its exponent. */
  lemma DoubleOnTheWire(s: seq<byte>, bits: dword)
    requires |s| >= DoubleCodec.SLOT_SIZE && bits == DWordAt(s, 0)
    ensures var r := DoubleCodec.ToNetwork(s);
            if DoubleCodec.IsNan(bits) then r == s[0 := 2]
            else if DoubleCodec.IsInf(bits) then r == s[0 := if bits >= 0x8000_0000_0000_0000 then 3 else 4]
            else
              && r[0] == (if bits > 0x8000_0000_0000_0000 then 0 else 1)
              && BigEndian(r[1..9]) == DoubleCodec.MantissaExponent(bits).0
              && BigEndian(r[9..13]) == Unsigned(DoubleCodec.MantissaExponent(bits).1)
              && r[13..] == s[13..]
  {
    hide *;
    ClassOf(bits);
    if DoubleCodec.IsFinite(bits) {
      var (m, e) := DoubleCodec.MantissaExponent(bits);
      FiniteOnTheWire(s, bits, m, e);
    } else {
      DoubleCodec.SpecialSlots(s);
    }
  }

  lemma ClassOf(bits: dword)
    ensures DoubleCodec.IsFinite(bits) <==> !DoubleCodec.IsNan(bits) && !DoubleCodec.IsInf(bits)
    ensures DoubleCodec.SignClass(bits) == if bits > 0x8000_0000_0000_0000 then 0 else 1
    ensures DoubleCodec.SLOT_SIZE == 13 && DoubleCodec.TWO53 == 0x20_0000_0000_0000
  {
  }

  lemma FiniteOnTheWire(s: seq<byte>, bits: dword, m: dword, e: int32)
    requires |s| >= DoubleCodec.SLOT_SIZE && bits == DWordAt(s, 0) && DoubleCodec.IsFinite(bits)
    requires (m, e) == DoubleCodec.MantissaExponent(bits)
    ensures var r := DoubleCodec.ToNetwork(s);
            && r[0] == DoubleCodec.SignClass(bits) && BigEndian(r[1..9]) == m && BigEndian(r[9..13]) == Unsigned(e)
            && r[DoubleCodec.SLOT_SIZE..] == s[DoubleCodec.SLOT_SIZE..]
  {
    hide DoubleCodec.MantissaExponent, Swap64, Swap32, WordBytes, DWordBytes, Unsigned, DWordAt;
    var slot := DoubleCodec.FiniteSlot(DoubleCodec.SignClass(bits), m, e);
    assert DoubleCodec.ToNetwork(s) == slot + s[DoubleCodec.SLOT_SIZE..];
    assert slot[1..9] == DWordBytes(Swap64(m)) && slot[9..13] == WordBytes(Swap32(Unsigned(e)));
    SwappedDWord(m);
    SwappedWord(Unsigned(e));
    var r := DoubleCodec.ToNetwork(s);
    assert r[1..9] == slot[1..9] && r[9..13] == slot[9..13];
  }

  // ----- what goes out -----

  /** The mark is the first thing on the wire, and says the order. */
  lemma MarkOnTheWire(h: Header)
    ensures HeaderBytes(h)[0..4] == if h.net then [0, 0, 0, 1] else [1, 0, 0, 0]
  {
    var s: seq<byte> := [1, 0, 0, 0];
    NumberOf4(s);
    WordRoundTrip(s, 0);
    assert s[0..4] == s && WordBytes(MARK_HOST_ORDER) == s;
    var host := HeaderBytes(h.(net := false));
    assert host[0..4] == s;
    FlipSlice(host, 4, 0);
    assert Reverse(s) == [0, 0, 0, 1];
  }

  /** A header in host order: the same four numbers, least significant byte first. */
  lemma HeaderInHostOrder(h: Header)
    requires !h.net
    ensures var s := HeaderBytes(h);
            && WordAt(s, 0) == 1 && WordAt(s, 4) == Unsigned(h.size)
            && WordAt(s, 8) == Unsigned(h.key) && WordAt(s, 12) == Unsigned(h.dataType)
  {
    HostWords(h);
  }

  /** What `f` starts with in network order. */
  predicate NetworkHeader(f: seq<byte>, size: nat, key: int32, dataType: int32) {
    && |f| >= 16 && f[0..4] == [0, 0, 0, 1] && BigEndian(f[4..8]) == size
    && BigEndian(f[8..12]) == Unsigned(key) && BigEndian(f[12..16]) == Unsigned(dataType)
  }

  lemma HeaderSent(h: Header, d: seq<byte>)
    requires h.net && h.size >= 0
    ensures var f := HeaderBytes(h) + d; NetworkHeader(f, h.size, h.key, h.dataType) && f[16..] == d
  {
    hide *;
    MarkOnTheWire(h);
    HeaderOnTheWire(h);
    PositiveSize(h.size);
    var s := HeaderBytes(h);
    PrefixSlice(s, d, 0);
    PrefixSlice(s, d, 4);
    PrefixSlice(s, d, 8);
    PrefixSlice(s, d, 12);
    HeaderWhen(s + d, h);
  }

  lemma PrefixSlice(s: seq<byte>, d: seq<byte>, at: nat)
    requires at + 4 <= |s|
    ensures (s + d)[at..at + 4] == s[at..at + 4] && (s + d)[|s|..] == d
  {
  }

  lemma PositiveSize(size: int32)
    ensures size >= 0 ==> Unsigned(size) == size
  {
  }

  lemma HeaderWhen(f: seq<byte>, h: Header)
    requires |f| >= 16 && h.size >= 0 && f[0..4] == [0, 0, 0, 1] && BigEndian(f[4..8]) == h.size
    requires BigEndian(f[8..12]) == Unsigned(h.key) && BigEndian(f[12..16]) == Unsigned(h.dataType)
    ensures NetworkHeader(f, h.size, h.key, h.dataType)
  {
    hide BigEndian, Unsigned;
  }

  /** Behind the integer, as it was. */
  lemma BehindInteger(t: int32, d: seq<byte>)
    requires |d| >= Footprint(t)
    ensures t == 3 || t == 4 ==> NetworkData(t, d)[4..] == d[4..] && HostData(t, d)[4..] == d[4..]
    ensures t == 5 || t == 6 ==> NetworkData(t, d)[8..] == d[8..] && HostData(t, d)[8..] == d[8..]
  {
    if t == 3 || t == 4 {
      FlipUnfold(d, 1);
    }
  }

  /** A single object of each type in the table, sent in network order: header and numbers have
      their most significant bytes first, and nothing else is changed. */
  lemma ObjectOnTheWire(h: Header, d: seq<byte>)
    requires Sized(Leaf(h, d)) && !h.net && Footprint(h.dataType) <= |d|
    ensures var f := Bytes(Prepare(Leaf(h, d), true));
            && |f| == 16 + |d|
            && (3 <= h.dataType <= 8 ==> NetworkHeader(f, |d|, h.key, h.dataType))
            && (h.dataType == 3 || h.dataType == 4 ==>
                  |d| >= 4 && BigEndian(f[16..][..4]) == WordAt(d, 0) && f[16..][4..] == d[4..])
            && (h.dataType == 5 || h.dataType == 6 ==>
                  |d| >= 8 && BigEndian(f[16..][..8]) == DWordAt(d, 0) && f[16..][8..] == d[8..])
            && (h.dataType == 7 ==>
                  forall j :: 0 <= j < |d| / 4 ==> BigEndian(f[16..][4 * j..4 * j + 4]) == WordAt(d, 4 * j))
            && (h.dataType == 8 ==> |d| >= 13 && f[16..] == DoubleCodec.ToNetwork(d))
            && (h.dataType < 3 || h.dataType > 8 ==> f == HeaderBytes(h) + d && f[0..4] == [1, 0, 0, 0])
  {
    hide *;
    var t := h.dataType;
    Table(t);
    LeafSent(h, d);
    MarkOnTheWire(h);
    NetworkCases(t, d);
    if 3 <= t <= 8 {
      HeaderSent(h.(net := true), NetworkData(t, d));
      IntegerOnTheWire(t, d);
      BehindInteger(t, d);
      if t == 7 {
        forall j | 0 <= j < |d| / 4
          ensures BigEndian(NetworkData(t, d)[4 * j..4 * j + 4]) == WordAt(d, 4 * j)
        {
          VectorOnTheWire(d, j);
        }
      }
    } else {
      assert (HeaderBytes(h) + d)[0..4] == HeaderBytes(h)[0..4];
    }
  }

  lemma LeafSent(h: Header, d: seq<byte>)
    requires Sized(Leaf(h, d)) && !h.net && Footprint(h.dataType) <= |d|
    ensures h.size == |d| && TYPE_VECTOR_UINT32 == 7
    ensures Bytes(Prepare(Leaf(h, d), true))
         == if HasConverter(h.dataType) then HeaderBytes(h.(net := true)) + NetworkData(h.dataType, d)
            else HeaderBytes(h) + d
  {
    hide HeaderBytes, NetworkData, Footprint, HasConverter;
  }

  /** The same back: an object that came in network order, brought into host order. */
  lemma ObjectOffTheWire(h: Header, d: seq<byte>)
    requires Sized(Leaf(h, d)) && h.net && 3 <= h.dataType <= 8 && Footprint(h.dataType) <= |d|
    ensures var f := Bytes(Prepare(Leaf(h, d), false));
            && |f| == 16 + |d| && f[0..4] == [1, 0, 0, 0] && ReadHeader(f, 0) == h.(net := false)
            && (h.dataType == 3 || h.dataType == 4 ==>
                  |d| >= 4 && WordAt(f[16..], 0) == BigEndian(d[..4]) && f[16..][4..] == d[4..])
            && (h.dataType == 5 || h.dataType == 6 ==>
                  |d| >= 8 && DWordAt(f[16..], 0) == BigEndian(d[..8]) && f[16..][8..] == d[8..])
            && (h.dataType == 7 ==>
                  forall j :: 0 <= j < |d| / 4 ==> WordAt(f[16..], 4 * j) == BigEndian(d[4 * j..4 * j + 4]))
            && (h.dataType == 8 ==> |d| >= 13 && f[16..] == DoubleCodec.ToHost(d))
  {
    hide *;
    var t := h.dataType;
    Table(t);
    LeafReceived(h, d);
    var c, e := h.(net := false), HostData(t, d);
    HeaderInFront(c, e);
    MarkOnTheWire(c);
    assert (HeaderBytes(c) + e)[0..4] == HeaderBytes(c)[0..4];
    IntegerOffTheWire(t, d);
    HostCases(t, d);
    NetworkCases(t, d);
    if t == 7 {
      ConvertersInvert(t, d);
      forall j | 0 <= j < |d| / 4
        ensures WordAt(e, 4 * j) == BigEndian(d[4 * j..4 * j + 4])
      {
        VectorOnTheWire(e, j);
      }
    }
  }

  lemma LeafReceived(h: Header, d: seq<byte>)
    requires Sized(Leaf(h, d)) && h.net && HasConverter(h.dataType) && Footprint(h.dataType) <= |d|
    ensures h.size == |d| && TYPE_DOUBLE == 8 && TYPE_VECTOR_UINT32 == 7
    ensures Bytes(Prepare(Leaf(h, d), false)) == HeaderBytes(h.(net := false)) + HostData(h.dataType, d)
  {
    hide HeaderBytes, NetworkData, HostData, Footprint, HasConverter;
  }

  /** A string: its header in network order, its type 2, its characters as they are. */
  lemma TextOnTheWire(h: Header, d: seq<byte>)
    requires Sized(Node.Text(h, d))
    ensures var f := Bytes(Prepare(Node.Text(h, d), true)); NetworkHeader(f, |d|, h.key, 2) && f[16..] == d
  {
    HeaderSent(h.(net := true), d);
    hide HeaderBytes, NetworkHeader;
  }

  /** A container: its header in network order, with the size of what follows. */
  lemma ContainerOnTheWire(n: Node)
    requires n.Box? && Sized(n)
    ensures var f := Bytes(Prepare(n, true)); NetworkHeader(f, |f| - 16, n.h.key, n.h.dataType)
  {
    var p := Prepare(n, true);
    PrepareKeepsLength(n, true);
    FrameHeader(p);
    HeaderSent(p.h, Payload(p));
    hide HeaderBytes, NetworkHeader, Payload;
  }
}
