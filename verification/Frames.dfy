/** The frame grammar: a header followed by a payload, the payload of a container being
    the frames of its children in ascending key order.

    `Node` is what an object tree holds in memory.  `Prepare` is the whole tree brought
    into one byte order, `Bytes` the frame it then makes, `Decode` the reading of a
    frame by the grammar alone, and `Meaning` what either of them stands for. */
module Frames {
  import opened Memory
  import opened Headers
  import opened Converters
  import DoubleCodec

  datatype Option<+T> = None | Some(value: T)

  /** `Leaf` is converted by its data type; `Text` (a `DsonStringObj`) has only its
      header converted; `Box` is a container. */
  datatype Node =
    | Leaf(h: Header, data: seq<byte>)
    | Text(h: Header, data: seq<byte>)
    | Box(h: Header, kids: seq<Node>)

  function Bytes(n: Node): (s: seq<byte>)
    ensures |s| >= 16
    decreases n, 1
  {
    HeaderBytes(n.h) + Payload(n)
  }

  function Payload(n: Node): seq<byte>
    decreases n, 0
  {
    if n.Box? then KidsBytes(n.kids, |n.kids|) else n.data
  }

  /** The frames of the first `i` children, one after the other. */
  function KidsBytes(kids: seq<Node>, i: nat): seq<byte>
    requires i <= |kids|
    decreases kids, i
  {
    if i == 0 then [] else KidsBytes(kids, i - 1) + Bytes(kids[i - 1])
  }

  /** Sizes agree with contents and stay within what the library accepts. */
  predicate Sized(n: Node) {
    && |Payload(n)| <= MAX_DSON_RAM_SIZE
    && match n
       case Leaf(h, d) => LeafSized(h, d)
       case Text(h, d) => LeafSized(h, d) && h.dataType == TYPE_STRING
       case Box(_, kids) => forall i :: 0 <= i < |kids| ==> Sized(kids[i])
  }

  predicate LeafSized(h: Header, d: seq<byte>) {
    h.size == |d|
  }

  /** The tree with every object in one byte order and every container's size up to
      date: what a complete copy leaves behind. */
  function Prepare(n: Node, net: bool): Node
    requires Sized(n)
  {
    match n
    case Leaf(h, d) =>
      var (h', d') := Converted(h, d, net);
      Leaf(h', d')
    case Text(h, d) => Text(h.(net := net), d)
    case Box(h, kids) =>
      Box(h.(net := net, size := |Payload(n)|),
          seq(|kids|, i requires 0 <= i < |kids| => Prepare(kids[i], net)))
  }

  /** Every container declares exactly the payload that follows its header, at every
      depth. */
  predicate Settled(n: Node) {
    n.Box? ==> n.h.size == |Payload(n)| && forall i :: 0 <= i < |n.kids| ==> Settled(n.kids[i])
  }

  /** What insertion maintains: keys ascend and are not negative, a container is marked
      as one unless it never had a child, and nothing else is. */
  predicate Regular(n: Node) {
    if n.Box? then
      && (n.h.dataType == TYPE_CONTAINER || (n.kids == [] && n.h.dataType == TYPE_EMPTY))
      && Ascending(n.kids)
      && forall i :: 0 <= i < |n.kids| ==> n.kids[i].h.key >= 0 && Regular(n.kids[i])
    else n.h.dataType != TYPE_CONTAINER
  }

  predicate Ascending(kids: seq<Node>) {
    forall i, j :: 0 <= i < j < |kids| ==> kids[i].h.key < kids[j].h.key
  }

  datatype Tree = Val(key: int32, dataType: int32, value: Value) | Dir(key: int32, kids: seq<Tree>)

  function Meaning(n: Node): Tree {
    if n.Box? && n.h.dataType == TYPE_CONTAINER then
      Dir(n.h.key, seq(|n.kids|, i requires 0 <= i < |n.kids| => Meaning(n.kids[i])))
    else
      Val(n.h.key, n.h.dataType, Decoded(n.h.net, n.h.dataType, if n.Box? then [] else n.data))
  }

  /** An object in host order means its key, its type and its payload as they stand. */
  lemma MeaningInHostOrder(n: Node)
    requires !n.Box? && !n.h.net && Footprint(n.h.dataType) <= |n.data|
    ensures n.h.dataType == 8 ==> |n.data| >= 13
    ensures var t, d := n.h.dataType, n.data;
            Meaning(n) == Val(n.h.key, t, if t == 8 then Double(DoubleCodec.Canonical(DWordAt(d, 0))) else Raw(d))
  {
    ValueAsItStands(n.h.dataType, n.data);
    hide Decoded, DoubleCodec.Canonical, DWordAt;
  }

  /** A container means its key and, in their order, what its children mean. */
  lemma MeaningOfContainer(n: Node, i: nat)
    requires n.Box? && n.h.dataType == 1
    ensures Meaning(n).Dir? && Meaning(n).key == n.h.key && |Meaning(n).kids| == |n.kids|
    ensures i < |n.kids| ==> Meaning(n).kids[i] == Meaning(n.kids[i])
  {
  }

  /** Reading a frame by the grammar. */
  function Decode(s: seq<byte>): Option<Tree>
    decreases |s|, 0
  {
    if |s| < 16 then None
    else
      var h, d := ReadHeader(s, 0), s[16..];
      if h.size != |d| then None
      else if h.dataType != TYPE_CONTAINER then Some(Val(h.key, h.dataType, Decoded(h.net, h.dataType, d)))
      else
        match DecodeAll(d)
        case None => None
        case Some(kids) => Some(Dir(h.key, kids))
  }

  /** Reading a payload that is nothing but frames with non-negative keys. */
  function DecodeAll(s: seq<byte>): Option<seq<Tree>>
    decreases |s|, 1
  {
    if s == [] then Some([])
    else if |s| < 16 then None
    else
      var h := ReadHeader(s, 0);
      var end := 16 + h.size;
      if h.key < 0 || h.size < 0 || end > |s| then None
      else
        match (Decode(s[..end]), DecodeAll(s[end..]))
        case (Some(first), Some(rest)) => Some([first] + rest)
        case _ => None
  }

  // ----- KidsBytes: prefixes, slices and updates -----

  lemma {:induction false} KidsBytesPrefix(kids: seq<Node>, i: nat, j: nat)
    requires i <= j <= |kids|
    ensures KidsBytes(kids, i) <= KidsBytes(kids, j)
    decreases j
  {
    hide Bytes;
    if i < j {
      KidsBytesPrefix(kids, i, j - 1);
    }
  }

  lemma {:induction false} KidsBytesLength(kids: seq<Node>, others: seq<Node>, i: nat)
    requires i <= |kids| && i <= |others|
    requires forall j :: 0 <= j < i ==> |Bytes(kids[j])| == |Bytes(others[j])|
    ensures |KidsBytes(kids, i)| == |KidsBytes(others, i)|
  {
    hide Bytes;
    if i > 0 {
      KidsBytesLength(kids, others, i - 1);
    }
  }

  /** Bytes a to b of child `i` within the frame of the whole container. */
  lemma KidSlice(n: Node, i: nat, a: nat, b: nat)
    requires n.Box? && i < |n.kids| && a <= b <= |Bytes(n.kids[i])|
    ensures var at := 16 + |KidsBytes(n.kids, i)|;
            at + |Bytes(n.kids[i])| <= |Bytes(n)| && Bytes(n)[at + a..at + b] == Bytes(n.kids[i])[a..b]
  {
    hide *;
    KidInFrame(n, i);
    var before, kid, all := HeaderBytes(n.h) + KidsBytes(n.kids, i), Bytes(n.kids[i]), Bytes(n);
    SlicePrefix(before, kid, all, |before|, a, b);
  }

  lemma KidInFrame(n: Node, i: nat)
    requires n.Box? && i < |n.kids|
    ensures HeaderBytes(n.h) + KidsBytes(n.kids, i) + Bytes(n.kids[i]) <= Bytes(n)
  {
    KidInPayload(n, i);
    PrefixBehind(HeaderBytes(n.h), KidsBytes(n.kids, i), Bytes(n.kids[i]), Payload(n));
  }

  lemma KidInPayload(n: Node, i: nat)
    requires n.Box? && i < |n.kids|
    ensures KidsBytes(n.kids, i) + Bytes(n.kids[i]) <= Payload(n)
  {
    KidsBytesPrefix(n.kids, i + 1, |n.kids|);
  }

  lemma PrefixBehind(p: seq<byte>, s: seq<byte>, t: seq<byte>, all: seq<byte>)
    requires s + t <= all
    ensures p + s + t <= p + all
  {
    assert p + s + t == p + (s + t);
  }

  lemma SlicePrefix(before: seq<byte>, s: seq<byte>, all: seq<byte>, at: nat, a: nat, b: nat)
    requires before + s <= all && at == |before| && a <= b <= |s|
    ensures at + |s| <= |all| && all[at + a..at + b] == s[a..b]
  {
    var upto := before + s;
    assert all[..|upto|] == upto;
    assert upto[at + a..at + b] == s[a..b];
    assert all[at + a..at + b] == all[..|upto|][at + a..at + b];
  }

  // ----- Prepare -----

  lemma {:induction false} PrepareKeepsLength(n: Node, net: bool)
    requires Sized(n)
    ensures |Payload(Prepare(n, net))| == |Payload(n)|
    ensures Prepare(n, net).h.key == n.h.key && Prepare(n, net).h.dataType == n.h.dataType
  {
    if n.Box? {
      var p := Prepare(n, net);
      forall i | 0 <= i < |n.kids|
        ensures |Bytes(p.kids[i])| == |Bytes(n.kids[i])|
      {
        PrepareKeepsLength(n.kids[i], net);
      }
      KidsBytesLength(p.kids, n.kids, |n.kids|);
    }
  }

  lemma {:induction false} PrepareKeepsShape(n: Node, net: bool)
    requires Sized(n)
    ensures Sized(Prepare(n, net)) && Settled(Prepare(n, net))
    ensures Regular(n) ==> Regular(Prepare(n, net))
  {
    PrepareKeepsLength(n, net);
    if n.Box? {
      var p := Prepare(n, net);
      forall i | 0 <= i < |n.kids|
        ensures Sized(p.kids[i]) && Settled(p.kids[i]) && p.kids[i].h.key == n.kids[i].h.key
        ensures Regular(n.kids[i]) ==> Regular(p.kids[i])
      {
        PrepareKeepsShape(n.kids[i], net);
        PrepareKeepsLength(n.kids[i], net);
      }
    }
  }

  /** Preparing twice is preparing once, so a copy may prepare as it goes. */
  lemma {:induction false} PrepareIdempotent(n: Node, net: bool)
    requires Sized(n)
    ensures Sized(Prepare(n, net)) && Prepare(Prepare(n, net), net) == Prepare(n, net)
  {
    PrepareKeepsShape(n, net);
    PrepareKeepsLength(n, net);
    if n.Box? {
      var p := Prepare(n, net);
      forall i | 0 <= i < |n.kids|
        ensures Sized(p.kids[i]) && Prepare(p.kids[i], net) == p.kids[i]
      {
        PrepareIdempotent(n.kids[i], net);
      }
      assert Prepare(p, net).kids == p.kids;
    }
  }

  /** A tree means the same in either order: nothing is lost by sending it, and it may
      be sent again in the other order. */
  lemma {:induction false} PrepareKeepsMeaning(n: Node, net: bool)
    requires Sized(n)
    ensures Meaning(Prepare(n, net)) == Meaning(n)
  {
    match n
    case Leaf(h, d) => ConversionKeepsValue(h, d, net);
    case Text(h, d) =>
    case Box(h, kids) =>
      var p := Prepare(n, net);
      forall i | 0 <= i < |kids|
        ensures Meaning(p.kids[i]) == Meaning(kids[i])
      {
        PrepareKeepsMeaning(kids[i], net);
      }
      PrepareKeepsLength(n, net);
      if h.dataType == TYPE_CONTAINER {
        assert Meaning(p).kids == Meaning(n).kids;
      } else {
        EmptyPayload(h.net, h.dataType);
        EmptyPayload(net, h.dataType);
      }
  }

  lemma EmptyPayload(net: bool, t: int32)
    ensures Decoded(net, t, []) == Raw([])
  {
  }

  // ----- Decode -----

  lemma FrameHeader(n: Node)
    ensures ReadHeader(Bytes(n), 0) == n.h && Bytes(n)[16..] == Payload(n) && |Bytes(n)| == 16 + |Payload(n)|
  {
    HeaderInFront(n.h, Payload(n));
  }

  lemma HeaderInFront(h: Header, s: seq<byte>)
    ensures ReadHeader(HeaderBytes(h) + s, 0) == h && (HeaderBytes(h) + s)[16..] == s
  {
    ReadWritten(h);
    HeaderOfPrefix(HeaderBytes(h), s);
  }

  lemma HeaderPart(n: Node)
    ensures Bytes(n)[0..16] == HeaderBytes(n.h)
  {
  }

  lemma DataPart(n: Node)
    ensures |Bytes(n)| == 16 + |Payload(n)| && Bytes(n)[16..16 + |Payload(n)|] == Payload(n)
  {
  }

  lemma NodeSize(n: Node)
    requires Sized(n) && Settled(n)
    ensures n.h.size == |Payload(n)|
  {
  }

  /** The frame of a tree, read by the grammar, is the tree. */
  lemma {:induction false} DecodeOfBytes(n: Node)
    requires Sized(n) && Settled(n) && Regular(n)
    ensures Decode(Bytes(n)) == Some(Meaning(n))
    decreases n, 1
  {
    FrameHeader(n);
    NodeSize(n);
    if n.Box? {
      if n.h.dataType == TYPE_CONTAINER {
        DecodeOfKids(n, 0);
        assert Bytes(n)[16..] == Payload(n) == Payload(n)[|KidsBytes(n.kids, 0)|..];
      }
    }
  }

  lemma {:induction false} DecodeOfKids(n: Node, i: nat)
    requires n.Box? && Sized(n) && Settled(n) && Regular(n) && n.h.dataType == TYPE_CONTAINER
    requires i <= |n.kids|
    ensures |KidsBytes(n.kids, i)| <= |Payload(n)|
    ensures DecodeAll(Payload(n)[|KidsBytes(n.kids, i)|..]) == Some(Meaning(n).kids[i..])
    decreases n, 0, |n.kids| - i
  {
    hide *;
    if i == |n.kids| {
      NoKidsLeft(n);
    } else {
      SettledKid(n, i);
      DecodeOfBytes(n.kids[i]);
      DecodeOfKids(n, i + 1);
      DecodeOfKid(n, i);
    }
  }

  lemma NoKidsLeft(n: Node)
    requires n.Box? && n.h.dataType == TYPE_CONTAINER
    ensures |KidsBytes(n.kids, |n.kids|)| == |Payload(n)|
    ensures DecodeAll(Payload(n)[|Payload(n)|..]) == Some(Meaning(n).kids[|n.kids|..])
  {
    assert Payload(n)[|Payload(n)|..] == [] && Meaning(n).kids[|n.kids|..] == [];
  }

  lemma SettledKid(n: Node, i: nat)
    requires n.Box? && Sized(n) && Settled(n) && Regular(n) && i < |n.kids|
    ensures Sized(n.kids[i]) && Settled(n.kids[i]) && Regular(n.kids[i])
  {
  }

  lemma DecodeOfKid(n: Node, i: nat)
    requires n.Box? && Sized(n) && Settled(n) && Regular(n) && n.h.dataType == TYPE_CONTAINER
    requires i < |n.kids|
    requires |KidsBytes(n.kids, i + 1)| <= |Payload(n)|
    requires Decode(Bytes(n.kids[i])) == Some(Meaning(n.kids[i]))
    requires DecodeAll(Payload(n)[|KidsBytes(n.kids, i + 1)|..]) == Some(Meaning(n).kids[i + 1..])
    ensures |KidsBytes(n.kids, i)| <= |Payload(n)|
    ensures DecodeAll(Payload(n)[|KidsBytes(n.kids, i)|..]) == Some(Meaning(n).kids[i..])
  {
    var kid, others := n.kids[i], Meaning(n).kids[i + 1..];
    FrameHeader(kid);
    NodeSize(kid);
    assert kid.h.key >= 0;
    MeaningFrom(n, i);
    PayloadFrom(n, i);
    hide *;
    DecodeAllCons(Bytes(kid), Payload(n)[|KidsBytes(n.kids, i + 1)|..], Meaning(kid), others);
  }

  lemma MeaningFrom(n: Node, i: nat)
    requires n.Box? && n.h.dataType == TYPE_CONTAINER && i < |n.kids|
    ensures Meaning(n).kids[i..] == [Meaning(n.kids[i])] + Meaning(n).kids[i + 1..]
  {
  }

  /** What is left of a payload from child `i` on starts with that child's frame. */
  lemma PayloadFrom(n: Node, i: nat)
    requires n.Box? && i < |n.kids|
    ensures |KidsBytes(n.kids, i)| <= |KidsBytes(n.kids, i + 1)| <= |Payload(n)|
    ensures Payload(n)[|KidsBytes(n.kids, i)|..] == Bytes(n.kids[i]) + Payload(n)[|KidsBytes(n.kids, i + 1)|..]
  {
    KidInPayload(n, i);
    DropPrefix(KidsBytes(n.kids, i), Bytes(n.kids[i]), Payload(n));
  }

  lemma DropPrefix(before: seq<byte>, s: seq<byte>, all: seq<byte>)
    requires before + s <= all
    ensures all[|before|..] == s + all[|before + s|..]
  {
    assert all == before + s + all[|before + s|..];
  }

  lemma DecodeAllCons(f: seq<byte>, rest: seq<byte>, first: Tree, others: seq<Tree>)
    requires |f| >= 16 && ReadHeader(f, 0).key >= 0 && ReadHeader(f, 0).size == |f| - 16
    requires Decode(f) == Some(first) && DecodeAll(rest) == Some(others)
    ensures DecodeAll(f + rest) == Some([first] + others)
  {
    hide Decode, Field, IsHostOrder;
    var s := f + rest;
    assert ReadHeader(s, 0) == ReadHeader(f, 0) by {
      assert f == f[..16] + f[16..] && s == f[..16] + (f[16..] + rest);
      HeaderOfPrefix(f[..16], f[16..]);
      HeaderOfPrefix(f[..16], f[16..] + rest);
    }
    assert s[..|f|] == f && s[|f|..] == rest;
  }

  /** What a copy emits, in either order, decodes to the tree it was made from. */
  lemma EmittedFrameDecodes(n: Node, net: bool)
    requires Sized(n) && Regular(n)
    ensures Decode(Bytes(Prepare(n, net))) == Some(Meaning(n))
  {
    PrepareKeepsShape(n, net);
    DecodeOfBytes(Prepare(n, net));
    PrepareKeepsMeaning(n, net);
  }

  /** The tree after one complete copy per entry of `orders`. */
  function AfterCopies(n: Node, orders: seq<bool>): (r: Node)
    requires Sized(n)
    ensures Sized(r)
    decreases |orders|
  {
    if orders == [] then n
    else
      PrepareKeepsShape(n, orders[0]);
      AfterCopies(Prepare(n, orders[0]), orders[1..])
  }

  lemma {:induction false} AfterCopiesSnoc(n: Node, orders: seq<bool>, last: bool)
    requires Sized(n)
    ensures AfterCopies(n, []) == n
    ensures AfterCopies(n, orders + [last]) == Prepare(AfterCopies(n, orders), last)
    decreases |orders|
  {
    if orders == [] {
      assert [] + [last] == [last] && [last][1..] == [];
    } else {
      PrepareKeepsShape(n, orders[0]);
      AfterCopiesSnoc(Prepare(n, orders[0]), orders[1..], last);
      assert (orders + [last])[1..] == orders[1..] + [last];
    }
  }

  /** Re-emission: after any number of copies in any orders, the next copy in either
      order still emits a frame that decodes to the original tree. */
  lemma {:induction false} ReemissionDecodes(n: Node, orders: seq<bool>, net: bool)
    requires Sized(n) && Regular(n)
    ensures Decode(Bytes(Prepare(AfterCopies(n, orders), net))) == Some(Meaning(n))
    decreases |orders|
  {
    if orders == [] {
      EmittedFrameDecodes(n, net);
    } else {
      PrepareKeepsShape(n, orders[0]);
      PrepareKeepsMeaning(n, orders[0]);
      ReemissionDecodes(Prepare(n, orders[0]), orders[1..], net);
    }
  }
}
