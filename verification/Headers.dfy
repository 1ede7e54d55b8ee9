/** The 16-byte header in front of every object: mark, data size, key and data type,
    four words that are all in host order or all in network order. */
module Headers {
  import opened Memory

  const MARK_HOST_ORDER: word := 1
  const MARK_NETWORK_ORDER: word := 0x0100_0000
  const MAX_DSON_RAM_SIZE: int := 1024 * 1024 * 1024

  const TYPE_EMPTY: int32 := 0
  const TYPE_CONTAINER: int32 := 1
  const TYPE_STRING: int32 := 2
  const TYPE_INT32: int32 := 3
  const TYPE_UINT32: int32 := 4
  const TYPE_INT64: int32 := 5
  const TYPE_UINT64: int32 := 6
  const TYPE_VECTOR_UINT32: int32 := 7
  const TYPE_DOUBLE: int32 := 8

  /** What a header says, and in which order its words are stored. */
  datatype Header = Header(net: bool, size: int32, key: int32, dataType: int32)

  /** A header as it stands in memory. */
  function HeaderBytes(h: Header): (s: seq<byte>)
    ensures |s| == 16
  {
    var host := WordBytes(MARK_HOST_ORDER) + WordBytes(Unsigned(h.size))
              + WordBytes(Unsigned(h.key)) + WordBytes(Unsigned(h.dataType));
    if h.net then Flip(host, 4) else host
  }

  predicate IsHostOrder(s: seq<byte>, at: nat)
    requires at + 16 <= |s|
  {
    WordAt(s, at) == MARK_HOST_ORDER
  }

  predicate IsNetworkOrder(s: seq<byte>, at: nat)
    requires at + 16 <= |s|
  {
    WordAt(s, at) == MARK_NETWORK_ORDER
  }

  predicate ValidMark(s: seq<byte>, at: nat)
    requires at + 16 <= |s|
  {
    IsHostOrder(s, at) || IsNetworkOrder(s, at)
  }

  /** Word `i` of the header at `at`, the way `data_size`, `key` and `data_type` read
      it: anything not marked as host order is taken to be in network order. */
  function Field(s: seq<byte>, at: nat, i: nat): int32
    requires at + 16 <= |s| && i < 4
  {
    var w := WordAt(s, at + 4 * i);
    Signed(if IsHostOrder(s, at) then w else Swap32(w))
  }

  function ReadHeader(s: seq<byte>, at: nat): Header
    requires at + 16 <= |s|
  {
    Header(!IsHostOrder(s, at), Field(s, at, 1), Field(s, at, 2), Field(s, at, 3))
  }

  /** Memory after `set_data_size_internal` (i = 1), `set_key` (2) or
      `set_data_type_internal` (3) on the header at `at`. */
  function SetField(s: seq<byte>, at: nat, i: nat, v: int32): (r: seq<byte>)
    requires at + 16 <= |s| && i < 4
    ensures |r| == |s|
  {
    var w := Unsigned(v);
    s[..at + 4 * i] + WordBytes(if IsHostOrder(s, at) then w else Swap32(w)) + s[at + 4 * i + 4..]
  }

  lemma MarkSwap()
    ensures Swap32(MARK_HOST_ORDER) == MARK_NETWORK_ORDER && Swap32(MARK_NETWORK_ORDER) == MARK_HOST_ORDER
  {
    var s: seq<byte> := [1, 0, 0, 0];
    NumberOf4(s);
    WordRoundTrip(s, 0);
    assert s[0..4] == s;
    assert WordBytes(MARK_HOST_ORDER) == s;
    assert Reverse(s) == [0, 0, 0, 1];
    NumberOf4([0, 0, 0, 1]);
    Swap32Involutive(MARK_HOST_ORDER);
  }

  lemma NumberOf4(s: seq<byte>)
    requires |s| == 4
    ensures WordAt(s, 0) == s[0] as int + 0x100 * s[1] as int + 0x1_0000 * s[2] as int + 0x100_0000 * s[3] as int
  {
    assert s[0..4] == s;
    assert Number(s) == s[0] as int + 0x100 * Number(s[1..]);
    assert Number(s[1..]) == s[1] as int + 0x100 * Number(s[1..][1..]);
    assert s[1..][1..] == s[2..];
    assert Number(s[2..]) == s[2] as int + 0x100 * Number(s[2..][1..]);
    assert s[2..][1..] == [s[3]];
    assert Number([s[3]]) == s[3] as int;
  }

  /** Reversing words in memory swaps the words read from it. */
  lemma FlipWord(s: seq<byte>, n: nat, j: nat)
    requires j < n && n * 4 <= |s|
    ensures WordAt(Flip(s, n), 4 * j) == Swap32(WordAt(s, 4 * j))
  {
    Swap32Reverses(s, 4 * j);
    FlipSlice(s, n, j);
    WordRoundTrip(Flip(s, n), 4 * j);
  }

  lemma SameWord(s: seq<byte>, at: nat, t: seq<byte>, to: nat)
    requires at + 4 <= |s| && to + 4 <= |t| && s[at..at + 4] == t[to..to + 4]
    ensures WordAt(s, at) == WordAt(t, to)
  {
  }

  lemma HostWords(h: Header)
    requires !h.net
    ensures var s := HeaderBytes(h);
            WordAt(s, 0) == MARK_HOST_ORDER && WordAt(s, 4) == Unsigned(h.size)
            && WordAt(s, 8) == Unsigned(h.key) && WordAt(s, 12) == Unsigned(h.dataType)
  {
    var s := HeaderBytes(h);
    SameWord(s, 0, WordBytes(MARK_HOST_ORDER), 0);
    SameWord(s, 4, WordBytes(Unsigned(h.size)), 0);
    SameWord(s, 8, WordBytes(Unsigned(h.key)), 0);
    SameWord(s, 12, WordBytes(Unsigned(h.dataType)), 0);
  }

  /** The size as the converters read it, with no regard to the mark. */
  lemma RawSize(h: Header)
    requires !h.net
    ensures Signed(WordAt(HeaderBytes(h), 4)) == h.size
  {
    HostWords(h);
  }

  /** A header that was written reads back, in either order. */
  lemma ReadWritten(h: Header)
    ensures ValidMark(HeaderBytes(h), 0) && ReadHeader(HeaderBytes(h), 0) == h
    ensures h.net <==> IsNetworkOrder(HeaderBytes(h), 0)
  {
    var g := h.(net := false);
    HostWords(g);
    MarkSwap();
    if h.net {
      var s := HeaderBytes(g);
      FlipWord(s, 4, 0);
      FlipWord(s, 4, 1);
      FlipWord(s, 4, 2);
      FlipWord(s, 4, 3);
      Swap32Involutive(Unsigned(h.size));
      Swap32Involutive(Unsigned(h.key));
      Swap32Involutive(Unsigned(h.dataType));
    }
  }

  /** A header with a valid mark holds nothing beyond what it reads as. */
  lemma WrittenFromRead(s: seq<byte>)
    requires |s| == 16 && ValidMark(s, 0)
    ensures HeaderBytes(ReadHeader(s, 0)) == s
  {
    if IsHostOrder(s, 0) {
      HostFromWords(s);
    } else {
      MarkSwap();
      var f := Flip(s, 4);
      FlipWord(s, 4, 0);
      FlipWord(s, 4, 1);
      FlipWord(s, 4, 2);
      FlipWord(s, 4, 3);
      HostFromWords(f);
      FlipInvolutive(s, 4);
    }
  }

  lemma HostFromWords(s: seq<byte>)
    requires |s| == 16 && IsHostOrder(s, 0)
    ensures HeaderBytes(ReadHeader(s, 0)) == s
  {
    hide WordAt, WordBytes, Unsigned, Signed;
    WordRoundTrip(s, 0);
    UnsignedOf(s, 4);
    UnsignedOf(s, 8);
    UnsignedOf(s, 12);
    assert s == s[0..4] + s[4..8] + s[8..12] + s[12..16];
  }

  lemma UnsignedOf(s: seq<byte>, at: nat)
    requires at + 4 <= |s|
    ensures WordBytes(Unsigned(Signed(WordAt(s, at)))) == s[at..at + 4]
  {
    WordRoundTrip(s, at);
  }

  /** `header_to_host` and `header_to_network` change the order of a header with a
      valid mark and nothing it says. */
  lemma ConvertedHeader(s: seq<byte>)
    requires |s| == 16 && ValidMark(s, 0)
    ensures ValidMark(Flip(s, 4), 0)
    ensures var h := ReadHeader(s, 0); ReadHeader(Flip(s, 4), 0) == h.(net := !h.net)
  {
    var h := ReadHeader(s, 0);
    WrittenFromRead(s);
    FlipHeader(h);
    ReadWritten(h.(net := !h.net));
  }

  lemma FlipHeader(h: Header)
    ensures Flip(HeaderBytes(h), 4) == HeaderBytes(h.(net := !h.net))
  {
    FlipInvolutive(HeaderBytes(h.(net := false)), 4);
  }

  /** A setter changes its own field, in either order, and commutes with conversion. */
  lemma SetFieldReads(s: seq<byte>, i: nat, v: int32)
    requires |s| == 16 && ValidMark(s, 0) && 1 <= i < 4
    ensures var r, h := SetField(s, 0, i, v), ReadHeader(s, 0);
            && ValidMark(r, 0)
            && ReadHeader(r, 0) == WithField(h, i, v)
            && SetField(Flip(s, 4), 0, i, v) == Flip(r, 4)
  {
    var r, t := SetField(s, 0, i, v), Flip(s, 4);
    SetFieldWords(s, i, v);
    ConvertedHeader(s);
    ConvertedHeader(r);
    SetFieldWords(t, i, v);
    SameHeader(SetField(t, 0, i, v), Flip(r, 4));
  }

  lemma SameHeader(s: seq<byte>, t: seq<byte>)
    requires |s| == |t| == 16 && ValidMark(s, 0) && ValidMark(t, 0) && ReadHeader(s, 0) == ReadHeader(t, 0)
    ensures s == t
  {
    WrittenFromRead(s);
    WrittenFromRead(t);
  }

  function WithField(h: Header, i: nat, v: int32): Header
    requires 1 <= i < 4
  {
    if i == 1 then h.(size := v) else if i == 2 then h.(key := v) else h.(dataType := v)
  }

  lemma SetFieldWords(s: seq<byte>, i: nat, v: int32)
    requires |s| == 16 && ValidMark(s, 0) && 1 <= i < 4
    ensures var r := SetField(s, 0, i, v); ValidMark(r, 0) && ReadHeader(r, 0) == WithField(ReadHeader(s, 0), i, v)
  {
    var r := SetField(s, 0, i, v);
    var w := if IsHostOrder(s, 0) then Unsigned(v) else Swap32(Unsigned(v));
    assert Signed(if IsHostOrder(s, 0) then w else Swap32(w)) == v by { Swap32Involutive(Unsigned(v)); }
    assert r == s[..4 * i] + WordBytes(w) + s[4 * i + 4..];
    hide WordBytes, Unsigned, Swap32, Signed, SetField;
    WordReplaced(s, i, w, 0);
    WordReplaced(s, i, w, 1);
    WordReplaced(s, i, w, 2);
    WordReplaced(s, i, w, 3);
  }

  lemma WordReplaced(s: seq<byte>, i: nat, w: word, j: nat)
    requires |s| == 16 && i < 4 && j < 4
    ensures var r := s[..4 * i] + WordBytes(w) + s[4 * i + 4..];
            WordAt(r, 4 * j) == if j == i then w else WordAt(s, 4 * j)
  {
    var r := s[..4 * i] + WordBytes(w) + s[4 * i + 4..];
    if j == i {
      SameWord(r, 4 * j, WordBytes(w), 0);
    } else {
      SameWord(r, 4 * j, s, 4 * j);
    }
  }

  lemma SetFieldInPrefix(s: seq<byte>, rest: seq<byte>, i: nat, v: int32)
    requires |s| == 16 && 1 <= i < 4
    ensures SetField(s + rest, 0, i, v) == SetField(s, 0, i, v) + rest
  {
    HeaderOfPrefix(s, rest);
    hide IsHostOrder, Unsigned, Swap32, WordBytes;
  }

  /** `header_to_host` (net = false) and `header_to_network` (net = true) on the header
      at the start of `a`: nothing happens when the mark already says so. */
  method HeaderTo(net: bool, a: array<byte>)
    requires a.Length >= 16 && ValidMark(a[..], 0)
    modifies a
    ensures a[..] == HeaderBytes(ReadHeader(old(a[..]), 0).(net := net)) + old(a[16..])
  {
    ghost var s, rest := a[..16], a[16..];
    assert a[..] == s + rest;
    HeaderConversion(s, rest, net);
    if net == IsNetworkOrder(a[..], 0) {
      return;
    }
    hide *;
    assert a[0..] == a[..];
    SwapWordsInPlace(a, 0, 4);
  }

  lemma HeaderConversion(s: seq<byte>, rest: seq<byte>, net: bool)
    requires |s| == 16 && ValidMark(s + rest, 0)
    ensures ValidMark(s, 0)
    ensures ReadHeader(s + rest, 0).net == IsNetworkOrder(s + rest, 0)
    ensures HeaderBytes(ReadHeader(s + rest, 0).(net := net)) + rest
         == if net == IsNetworkOrder(s + rest, 0) then s + rest else Flip(s + rest, 4)
  {
    HeaderOfPrefix(s, rest);
    WrittenFromRead(s);
    FlipHeader(ReadHeader(s, 0));
    hide HeaderBytes, Flip;
    FlipConcat(s, rest, 4);
  }

  lemma HeaderOfPrefix(s: seq<byte>, rest: seq<byte>)
    requires |s| == 16
    ensures ReadHeader(s + rest, 0) == ReadHeader(s, 0)
    ensures IsHostOrder(s + rest, 0) == IsHostOrder(s, 0) && IsNetworkOrder(s + rest, 0) == IsNetworkOrder(s, 0)
  {
    SameWord(s + rest, 0, s, 0);
    SameWord(s + rest, 4, s, 4);
    SameWord(s + rest, 8, s, 8);
    SameWord(s + rest, 12, s, 12);
  }

  /** The same for a header that has an array to itself. */
  method ConvertHeader(a: array<byte>, net: bool, ghost h: Header)
    requires a[..] == HeaderBytes(h)
    modifies a
    ensures a[..] == HeaderBytes(h.(net := net))
  {
    ReadWritten(h);
    hide *;
    assert |a[..]| == a.Length;
    HeaderTo(net, a);
    assert old(a[16..]) == [];
  }

  /** `set_data_size_internal` (i = 1) and `set_key` (i = 2). */
  method SetHeaderField(a: array<byte>, i: nat, v: int32, ghost h: Header)
    requires a[..] == HeaderBytes(h) && 1 <= i < 4
    modifies a
    ensures a[..] == HeaderBytes(WithField(h, i, v))
  {
    ReadWritten(h);
    SetFieldReads(a[..], i, v);
    WrittenFromRead(SetField(a[..], 0, i, v));
    var w := Unsigned(v);
    hide ReadHeader, WithField, HeaderBytes, Unsigned, Swap32, WordBytes;
    Store(a, 4 * i, WordBytes(if IsHostOrder(a[..], 0) then w else Swap32(w)));
  }
}
