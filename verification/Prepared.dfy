/** How a tree may change underneath a copy in progress: parts of it are prepared one by
    one while sizes, keys and what the whole prepares to stay the same. */
module Prepared {
  import opened Memory
  import opened Headers
  import opened Converters
  import opened Frames
  import opened Insertion
  import opened DsonObj
  import DoubleCodec

  /** What may be copied in the given order.  There is something in every payload; a loaded
      container that was never parsed is passed on in the order it came in; and where a
      converter is to run, the payload has room for it. */
  predicate Fits(n: Node, net: bool) {
    match n
    case Leaf(h, d) =>
      && d != []
      && (h.net != net ==> h.dataType != TYPE_CONTAINER && (HasConverter(h.dataType) ==> Footprint(h.dataType) <= |d|))
    case Text(_, d) => d != []
    case Box(_, kids) => forall i :: 0 <= i < |kids| ==> Fits(kids[i], net)
  }

  /** The same container as far as a copy can tell. */
  predicate SameBox(n: Node, m: Node, net: bool) {
    && n.Box? && m.Box? && m.h == n.h
    && Sized(n) && Sized(m) && Prepare(m, net) == Prepare(n, net)
    && |Payload(m)| == |Payload(n)|
    && (Ascending(n.kids) ==> Ascending(m.kids))
  }

  lemma PreparedLength(n: Node, net: bool)
    requires Sized(n)
    ensures |Bytes(Prepare(n, net))| == |Bytes(n)|
  {
    PrepareKeepsLength(n, net);
    FrameHeader(n);
    FrameHeader(Prepare(n, net));
  }

  lemma SamePrepared(n: Node, m: Node, net: bool)
    requires Sized(n) && Sized(m) && Prepare(n, net) == Prepare(m, net)
    ensures n.h.key == m.h.key && |Payload(n)| == |Payload(m)| && |Bytes(n)| == |Bytes(m)|
  {
    PrepareKeepsLength(n, net);
    PrepareKeepsLength(m, net);
    FrameHeader(n);
    FrameHeader(m);
  }

  /** Replacing a child by one that prepares to the same changes neither sizes nor what
      the container prepares to. */
  lemma KidReplaced(n: Node, i: nat, kid: Node, net: bool)
    requires n.Box? && i < |n.kids| && Sized(n) && Sized(n.kids[i]) && Sized(kid)
    requires Prepare(kid, net) == Prepare(n.kids[i], net)
    ensures var m := Box(n.h, n.kids[i := kid]);
            && |Payload(m)| == |Payload(n)| && Sized(m) && Prepare(m, net) == Prepare(n, net)
            && |KidsBytes(m.kids, i)| == |KidsBytes(n.kids, i)| && |Bytes(kid)| == |Bytes(n.kids[i])|
            && (Ascending(n.kids) ==> Ascending(m.kids))
  {
    SamePrepared(kid, n.kids[i], net);
    KidReplacedLength(n, i, kid);
    KidReplacedSized(n, i, kid);
    KidReplacedPrepared(n, i, kid, net);
    hide *;
  }

  lemma KidReplacedSized(n: Node, i: nat, kid: Node)
    requires n.Box? && i < |n.kids| && Sized(n) && Sized(kid) && kid.h.key == n.kids[i].h.key
    requires |Payload(Box(n.h, n.kids[i := kid]))| == |Payload(n)|
    ensures Sized(Box(n.h, n.kids[i := kid])) && (Ascending(n.kids) ==> Ascending(n.kids[i := kid]))
  {
    hide Payload, LeafSized;
  }

  lemma KidReplacedPrepared(n: Node, i: nat, kid: Node, net: bool)
    requires n.Box? && i < |n.kids| && Sized(n) && Sized(kid) && Sized(Box(n.h, n.kids[i := kid]))
    requires |Payload(Box(n.h, n.kids[i := kid]))| == |Payload(n)| && Sized(n.kids[i])
    requires Prepare(kid, net) == Prepare(n.kids[i], net)
    ensures Prepare(Box(n.h, n.kids[i := kid]), net) == Prepare(n, net)
  {
    var m := Box(n.h, n.kids[i := kid]);
    hide Payload, Converted, Sized;
    assert Prepare(m, net).kids == Prepare(n, net).kids;
  }

  lemma KidReplacedLength(n: Node, i: nat, kid: Node)
    requires n.Box? && i < |n.kids| && |Bytes(kid)| == |Bytes(n.kids[i])|
    ensures var kids := n.kids[i := kid];
            |Payload(Box(n.h, kids))| == |Payload(n)| && |KidsBytes(kids, i)| == |KidsBytes(n.kids, i)|
  {
    var kids := n.kids[i := kid];
    assert forall j :: 0 <= j < |kids| ==> |Bytes(kids[j])| == |Bytes(n.kids[j])|;
    hide Bytes;
    KidsBytesLength(kids, n.kids, i);
    KidsBytesLength(kids, n.kids, |kids|);
  }

  lemma NextOffset(n: Node, i: nat)
    requires n.Box? && i < |n.kids|
    ensures |KidsBytes(n.kids, i + 1)| == |KidsBytes(n.kids, i)| + |Bytes(n.kids[i])|
    ensures |KidsBytes(n.kids, i)| + |Bytes(n.kids[i])| + 16 <= |Bytes(n)|
  {
    KidInFrame(n, i);
  }

  lemma PreparedKid(n: Node, net: bool, i: nat)
    requires n.Box? && Sized(n) && i < |n.kids| && Sized(n.kids[i])
    ensures var p := Prepare(n, net);
            && p.Box? && |p.kids| == |n.kids| && p.kids[i] == Prepare(n.kids[i], net)
            && |KidsBytes(p.kids, i)| == |KidsBytes(n.kids, i)|
  {
    var p := Prepare(n, net);
    forall j | 0 <= j < i
      ensures |Bytes(p.kids[j])| == |Bytes(n.kids[j])|
    {
      PrepareKeepsLength(n.kids[j], net);
      FrameHeader(p.kids[j]);
      FrameHeader(n.kids[j]);
    }
    hide Bytes, Payload;
    KidsBytesLength(p.kids, n.kids, i);
  }

  /** What a child emits is emitted by its container, further on. */
  lemma KidFrameAdvances(n: Node, net: bool, i: nat, sent: nat, log: seq<byte>, next: seq<byte>)
    requires n.Box? && Sized(n) && i < |n.kids| && Sized(n.kids[i])
    requires Advanced(Bytes(Prepare(n.kids[i], net)), sent, log, next)
    ensures Advanced(Bytes(Prepare(n, net)), 16 + |KidsBytes(n.kids, i)| + sent, log, next)
  {
    hide *;
    var p := Prepare(n, net);
    PreparedKid(n, net, i);
    var kid := p.kids[i];
    KidSlice(p, i, 0, |Bytes(kid)|);
    assert Bytes(kid)[0..|Bytes(kid)|] == Bytes(kid);
    AdvancedInside(Bytes(p), 16 + |KidsBytes(p.kids, i)|, Bytes(kid), sent, log, next);
  }

  lemma TextFits(n: Node, net: bool)
    ensures n.Text? && Fits(n, net) ==> n.data != []
  {
  }

  /** Trees of any depth may be copied: it comes down to the single objects in them. */
  lemma FitsWhen(n: Node, net: bool)
    ensures n.Text? ==> (Fits(n, net) <==> n.data != [])
    ensures n.Leaf? && n.h.net == net ==> (Fits(n, net) <==> n.data != [])
    ensures n.Leaf? && n.h.net != net ==>
      (Fits(n, net) <==> n.data != [] && n.h.dataType != 1 && Footprint(n.h.dataType) <= |n.data|)
    ensures n.Box? ==> (Fits(n, net) <==> forall kid :: kid in n.kids ==> Fits(kid, net))
  {
    Table(n.h.dataType);
    if n.Box? {
      assert forall i :: 0 <= i < |n.kids| ==> n.kids[i] in n.kids;
    }
  }

  /** A copy leaves headers in the order it was made in, but for objects whose type has no
      converter; and an object that is in that order already is left alone. */
  lemma PreparedOrder(n: Node, net: bool)
    requires Sized(n) && Fits(n, net)
    ensures Prepare(n, net).h.net == if n.Leaf? && !(3 <= n.h.dataType <= 8) then n.h.net else net
    ensures !n.Box? && n.h.net == net ==> Prepare(n, net) == n
  {
    Table(n.h.dataType);
    hide NetworkData, HostData;
  }

  lemma FitsKid(n: Node, i: nat, net: bool)
    requires n.Box? && Fits(n, net) && i < |n.kids|
    ensures Fits(n.kids[i], net)
  {
  }

  lemma {:induction false} FitsPrepared(n: Node, net: bool)
    requires Sized(n)
    ensures Fits(Prepare(n, net), net) <==> Fits(n, net)
  {
    if n.Box? {
      forall i | 0 <= i < |n.kids|
        ensures Fits(Prepare(n.kids[i], net), net) <==> Fits(n.kids[i], net)
      {
        FitsPrepared(n.kids[i], net);
      }
      var p := Prepare(n, net);
      assert forall i :: 0 <= i < |n.kids| ==> p.kids[i] == Prepare(n.kids[i], net);
    }
  }

  /** What may be copied in either order may still be after a copy in one of them. */
  lemma {:induction false} FitsEither(n: Node, net: bool)
    requires Sized(n) && Fits(n, true) && Fits(n, false)
    ensures Fits(Prepare(n, net), true) && Fits(Prepare(n, net), false)
  {
    var p := Prepare(n, net);
    if n.Box? {
      forall i | 0 <= i < |n.kids|
        ensures Fits(p.kids[i], true) && Fits(p.kids[i], false)
      {
        FitsEither(n.kids[i], net);
      }
    }
  }

  lemma FitsReplaced(n: Node, i: nat, kid: Node, net: bool)
    requires n.Box? && Fits(n, net) && i < |n.kids| && Sized(kid) && Sized(n.kids[i])
    requires Prepare(kid, net) == Prepare(n.kids[i], net)
    ensures Fits(Box(n.h, n.kids[i := kid]), net)
  {
    FitsPrepared(kid, net);
    FitsPrepared(n.kids[i], net);
  }

  lemma ReplacedBox(n: Node, i: nat, kid: Node, net: bool)
    requires n.Box? && Sized(n) && Fits(n, net) && i < |n.kids| && Sized(n.kids[i])
    requires Sized(kid) && Prepare(kid, net) == Prepare(n.kids[i], net)
    ensures var m := Box(n.h, n.kids[i := kid]);
            && SameBox(n, m, net) && Sized(m) && Fits(m, net)
            && |KidsBytes(m.kids, i)| == |KidsBytes(n.kids, i)|
  {
    KidReplaced(n, i, kid, net);
    FitsReplaced(n, i, kid, net);
  }

  lemma BoxStarted(h: Header, kids: seq<Node>, net: bool, size: int32)
    requires Sized(Box(h, kids)) && size == |Payload(Box(h, kids))|
    ensures var n := Box(h.(net := net, size := size), kids);
            Sized(n) && Prepare(n, net) == Prepare(Box(h, kids), net) && Prepare(n, net).h == n.h
  {
  }

  /** No header changes underway. */
  lemma SameStarted(n: Node, m: Node, net: bool)
    requires Sized(n) && SameBox(n, m, net) && n.h == Prepare(n, net).h
    ensures m.Box? && Sized(m) && Sized(n) && m.h == n.h == Prepare(m, net).h
    ensures |Bytes(m)| == |Bytes(n)| && Prepare(m, net) == Prepare(n, net)
    ensures Ascending(n.kids) ==> Ascending(m.kids)
  {
  }

  lemma SameFrame(n: Node, was: Node, m: Node, net: bool, broken: bool)
    requires Sized(n) && Sized(was) && (was == n || SameBox(n, was, net)) && (!broken ==> SameBox(was, m, net))
    ensures Prepare(was, net) == Prepare(n, net) && |Bytes(was)| == |Bytes(n)|
    ensures !broken ==> Sized(m) && SameBox(n, m, net) && |Bytes(m)| == |Bytes(n)| && Prepare(m, net) == Prepare(n, net)
  {
  }

  lemma StartedBuffer(n: Node, net: bool)
    requires Sized(n) && Fits(n, net)
    ensures !n.Box? ==> |n.data| > 0
    ensures n.Box? ==> KidsBytes(n.kids, 0) == []
  {
  }

  lemma WithKeyPrepared(n: Node, key: int32, net: bool)
    requires Sized(n)
    ensures var m := WithKey(n, key);
            && Sized(m) && Prepare(m, net) == WithKey(Prepare(n, net), key) && Fits(m, net) == Fits(n, net)
            && |Bytes(m)| == |Bytes(n)|
  {
    WithKeySized(n, key);
    FrameHeader(n);
    FrameHeader(WithKey(n, key));
  }

  // ----- reading -----

  /** An object after `Converters::to_host`, which `get` calls on what it finds: strings and
      routes are no `Dson`s and left alone, and of a container that is typed as something
      else the header alone is converted. */
  function ReadNode(n: Node): Node {
    match n
    case Leaf(h, d) =>
      var (h', d') := Converted(h, d, false);
      Leaf(h', d')
    case Text(_, _) => n
    case Box(h, kids) => if HasConverter(h.dataType) then Box(h.(net := false), kids) else n
  }

  /** A converter that is to run has room. */
  predicate Readable(n: Node) {
    n.Leaf? && n.h.net && HasConverter(n.h.dataType) ==> Footprint(n.h.dataType) <= |n.data|
  }

  lemma ReadLeaf(h: Header, d: seq<byte>)
    ensures Sized(Leaf(h, d)) ==> h.size == |d|
    ensures Readable(Leaf(h, d)) && h.net && HasConverter(h.dataType) ==> Footprint(h.dataType) <= |d|
    ensures var (h', d') := Converted(h, d, false); ReadNode(Leaf(h, d)) == Leaf(h', d') && h'.dataType == h.dataType
  {
  }

  /** A read changes neither what an object means nor its key or size. */
  lemma ReadKeepsMeaning(n: Node)
    requires Sized(n)
    ensures var r := ReadNode(n);
            && Sized(r) && Meaning(r) == Meaning(n) && r.h.key == n.h.key && |Bytes(r)| == |Bytes(n)|
            && (Regular(n) ==> Regular(r)) && r.Box? == n.Box? && (n.Box? ==> r.kids == n.kids)
  {
    var r := ReadNode(n);
    match n
    case Leaf(h, d) => ConversionKeepsValue(h, d, false);
    case Text(_, _) =>
    case Box(h, kids) =>
      EmptyPayload(h.net, h.dataType);
      EmptyPayload(false, h.dataType);
  }

  /** Of a container that is typed as something else the header is in host order then. */
  lemma ReadBoxHeader(n: Node)
    requires n.Box?
    ensures ReadNode(n) == Box(n.h.(net := n.h.net && !(3 <= n.h.dataType <= 8)), n.kids)
  {
    Table(n.h.dataType);
  }

  /** And then the payload stands for itself: what it means is type and bytes as they are. */
  lemma ReadAsItStands(n: Node)
    requires n.Leaf? && Sized(n) && Readable(n) && Footprint(n.h.dataType) <= |n.data|
    ensures var r, t := ReadNode(n), n.h.dataType;
            && r.Leaf? && r.h == n.h.(net := n.h.net && !(3 <= t <= 8)) && |r.data| == |n.data|
            && (t == 8 ==> |r.data| >= 13)
            && Meaning(n)
            == Val(n.h.key, t, if t == 8 then Double(DoubleCodec.Canonical(DWordAt(r.data, 0))) else Raw(r.data))
  {
    var r, t := ReadNode(n), n.h.dataType;
    Table(t);
    ValueAsItStands(t, r.data);
    ValueFromNetwork(t, n.data);
    hide Decoded, HostData, NetworkData, DoubleCodec.Canonical, DWordAt;
  }

  /** Nor does it change what the container means that holds the object. */
  lemma KidReadKeepsMeaning(n: Node, i: nat)
    requires n.Box? && Sized(n) && i < |n.kids|
    ensures var m := Box(n.h, n.kids[i := ReadNode(n.kids[i])]);
            && Sized(m) && Meaning(m) == Meaning(n) && |Payload(m)| == |Payload(n)|
            && (Ascending(n.kids) ==> Ascending(m.kids)) && (Regular(n) ==> Regular(m))
  {
    hide *;
    var kid := ReadNode(n.kids[i]);
    SizedKid(n, i);
    ReadKeepsMeaning(n.kids[i]);
    KidReplacedLength(n, i, kid);
    KidReplacedSized(n, i, kid);
    KidMeansSame(n, i, kid);
  }

  lemma SizedKid(n: Node, i: nat)
    requires n.Box? && Sized(n) && i < |n.kids|
    ensures Sized(n.kids[i])
  {
  }

  lemma KidMeansSame(n: Node, i: nat, kid: Node)
    requires n.Box? && i < |n.kids| && Meaning(kid) == Meaning(n.kids[i]) && kid.h.key == n.kids[i].h.key
    requires Regular(n.kids[i]) ==> Regular(kid)
    ensures var m := Box(n.h, n.kids[i := kid]);
            Meaning(m) == Meaning(n) && (Regular(n) ==> Regular(m))
  {
    var m := Box(n.h, n.kids[i := kid]);
    hide Decoded;
    if n.h.dataType == TYPE_CONTAINER {
      assert Meaning(m).kids == Meaning(n).kids;
    }
  }

  // ----- one child after the other -----

  function Mixed(done: seq<Node>, kids: seq<Node>, i: nat): seq<Node>
    requires i <= |kids| == |done|
  {
    done[..i] + kids[i..]
  }

  lemma MixedEnds(done: seq<Node>, kids: seq<Node>)
    requires |kids| == |done|
    ensures Mixed(done, kids, 0) == kids && Mixed(done, kids, |kids|) == done
  {
  }

  lemma MixedNext(done: seq<Node>, kids: seq<Node>, i: nat)
    requires i < |kids| == |done|
    ensures |Mixed(done, kids, i)| == |kids| && Mixed(done, kids, i)[i] == kids[i]
    ensures Mixed(done, kids, i)[i := done[i]] == Mixed(done, kids, i + 1)
  {
  }

  lemma KidsBytesNext(kids: seq<Node>, i: nat)
    requires i < |kids|
    ensures KidsBytes(kids, i + 1) == KidsBytes(kids, i) + Bytes(kids[i])
  {
  }

  lemma PayloadParts(n: Node)
    requires n.Box?
    ensures Payload(n) == KidsBytes(n.kids, |n.kids|) && KidsBytes(n.kids, 0) == []
    ensures Bytes(n) == HeaderBytes(n.h) + Payload(n)
  {
  }

  lemma PreparedBox(n: Node, net: bool)
    requires n.Box? && Sized(n)
    ensures var p := Prepare(n, net);
            && p.Box? && Sized(p) && |p.kids| == |n.kids| && (Ascending(n.kids) ==> Ascending(p.kids))
            && (forall i :: 0 <= i < |n.kids| ==> Sized(n.kids[i]) && p.kids[i] == Prepare(n.kids[i], net))
            && (Fits(n, net) ==> forall i :: 0 <= i < |n.kids| ==> Fits(n.kids[i], net))
  {
    PrepareKeepsShape(n, net);
    var p := Prepare(n, net);
    forall i | 0 <= i < |n.kids|
      ensures p.kids[i].h.key == n.kids[i].h.key
    {
      PrepareKeepsLength(n.kids[i], net);
    }
    hide Payload, LeafSized, Converted;
  }

  lemma SizedLeaf(h: Header, d: seq<byte>)
    requires h.size == |d| <= MAX_DSON_RAM_SIZE
    ensures Sized(Leaf(h, d))
  {
  }

  lemma SameOrder(n: Node, net: bool)
    requires Sized(n) && n.Leaf?
    ensures n.h.net == net ==> Prepare(n, net) == n
  {
  }

  lemma ConvertedCases(h: Header, d: seq<byte>, net: bool)
    requires Sized(Leaf(h, d)) && Fits(Leaf(h, d), net)
    ensures h.size == |d| && (h.net != net && HasConverter(h.dataType) ==> Footprint(h.dataType) <= |d|)
    ensures Prepare(Leaf(h, d), net) == Leaf(Converted(h, d, net).0, Converted(h, d, net).1)
    ensures Converted(h, d, net).0.dataType == h.dataType
  {
  }
}
