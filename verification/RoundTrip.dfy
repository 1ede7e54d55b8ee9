/** From `emplace` on one side to `get` on the other. */
module RoundTrip {
  import opened Memory
  import opened Headers
  import opened Converters
  import opened Frames
  import opened Insertion
  import opened Prepared
  import opened Loading
  import opened Tiling
  import DoubleCodec

  /** What a frame shows is what its node means. */
  function Item(n: Node): (int32, Value) {
    Seen(Bytes(n))
  }

  /** The frames of a list of children, by key. */
  function FramesOf(kids: seq<Node>): (m: map<int32, seq<byte>>)
    ensures forall k :: k in m ==> |m[k]| >= 16
  {
    var m := ByKey(kids);
    map k | k in m :: Bytes(m[k])
  }

  /** What they show. */
  function Contents(kids: seq<Node>): map<int32, (int32, Value)> {
    var m := ByKey(kids);
    map k | k in m :: Item(m[k])
  }

  lemma ContentsCons(n: Node, rest: seq<Node>)
    ensures Contents([n] + rest) == map[n.h.key := Item(n)] + Contents(rest)
  {
    hide *;
    ByKeyCons(n, rest);
    ContentsAre([n] + rest);
    ContentsAre(rest);
  }

  lemma FramesCons(n: Node, rest: seq<Node>)
    ensures FramesOf([n] + rest) == map[n.h.key := Bytes(n)] + FramesOf(rest)
  {
    hide *;
    ByKeyCons(n, rest);
    FramesAre([n] + rest);
    FramesAre(rest);
  }

  lemma ContentsAre(kids: seq<Node>)
    ensures Contents(kids).Keys == ByKey(kids).Keys
    ensures forall k :: k in ByKey(kids) ==> Contents(kids)[k] == Item(ByKey(kids)[k])
  {
    hide Item, ByKey;
  }

  lemma FramesAre(kids: seq<Node>)
    ensures FramesOf(kids).Keys == ByKey(kids).Keys
    ensures forall k :: k in ByKey(kids) ==> FramesOf(kids)[k] == Bytes(ByKey(kids)[k])
  {
    hide Bytes, ByKey;
  }

  /** The last value inserted under a key is the one that counts. */
  lemma InsertContents(kids: seq<Node>, kid: Node)
    requires Ascending(kids)
    ensures Contents(Insert(kids, kid)) == Contents(kids)[kid.h.key := Item(kid)]
  {
    InsertByKey(kids, kid);
    hide Item, ByKey, Ascending, Insert;
  }

  // ----- one message -----

  /** What may be stored: a single object with a non-negative key, and with something in
      it, at least as much as its type takes. */
  predicate Storable(kid: Node) {
    && !kid.Box? && Sized(kid) && Regular(kid) && kid.h.key >= 0 && kid.data != []
    && (HasConverter(kid.h.dataType) ==> Footprint(kid.h.dataType) <= |kid.data|)
  }

  /** A container of such objects. */
  predicate Flat(n: Node) {
    n.Box? && forall i :: 0 <= i < |n.kids| ==> Storable(n.kids[i])
  }

  /** Strings that are not empty, and objects of any type but that of containers, with something
      in them and what their type takes. */
  lemma StorableWhen(kid: Node)
    ensures var t := kid.h.dataType;
            Storable(kid) <==>
              && !kid.Box? && kid.h.key >= 0 && kid.h.size == |kid.data| && 0 < |kid.data| <= 0x4000_0000
              && (if kid.Text? then t == 2 else t != 1)
              && (t == 3 || t == 4 ==> 4 <= |kid.data|) && (t == 5 || t == 6 ==> 8 <= |kid.data|)
              && (t == 8 ==> 13 <= |kid.data|)
  {
    Table(kid.h.dataType);
    hide Footprint, HasConverter;
  }

  lemma KidFrame(n: Node)
    requires Storable(n)
    ensures IsChildFrame(Bytes(n)) && ReadsCleanly(Bytes(n)) && ReadHeader(Bytes(n), 0).key == n.h.key
  {
    FrameHeader(n);
    ReadWritten(n.h);
    HeaderOfPrefix(HeaderBytes(n.h), Payload(n));
    hide HeaderBytes, Bytes, Footprint;
  }

  /** What a reader sees of an object that is not a container. */
  lemma ItemOf(n: Node)
    ensures Item(n) == (n.h.dataType, Decoded(n.h.net, n.h.dataType, Payload(n)))
  {
    FrameHeader(n);
  }

  /** A child as its container's payload shows it. */
  predicate FramedKid(n: Node) {
    IsChildFrame(Bytes(n)) && ReadHeader(Bytes(n), 0).key == n.h.key
  }

  /** A container's payload, from child `i` on, is the frames of those children. */
  lemma {:induction false} PayloadFrames(n: Node, i: nat)
    requires n.Box? && i <= |n.kids| && forall j :: 0 <= j < |n.kids| ==> FramedKid(n.kids[j])
    ensures |KidsBytes(n.kids, i)| <= |Payload(n)|
    ensures var rest := Payload(n)[|KidsBytes(n.kids, i)|..];
            Tiles(rest) && FramesIn(rest) == FramesOf(n.kids[i..])
    decreases |n.kids| - i
  {
    hide *;
    if i == |n.kids| {
      NothingFramed(n);
    } else {
      PayloadFrames(n, i + 1);
      PayloadFrom(n, i);
      assert n.kids[i..] == [n.kids[i]] + n.kids[i + 1..];
      FramesCons(n.kids[i], n.kids[i + 1..]);
      KidInFront(n.kids[i], Payload(n)[|KidsBytes(n.kids, i + 1)|..]);
    }
  }

  lemma NothingFramed(n: Node)
    requires n.Box?
    ensures |KidsBytes(n.kids, |n.kids|)| == |Payload(n)|
    ensures var rest := Payload(n)[|Payload(n)|..];
            Tiles(rest) && FramesIn(rest) == FramesOf(n.kids[|n.kids|..])
  {
    assert Payload(n)[|Payload(n)|..] == [] && n.kids[|n.kids|..] == [];
  }

  lemma KidInFront(n: Node, rest: seq<byte>)
    requires FramedKid(n)
    ensures var s := Bytes(n) + rest;
            (Tiles(s) <==> Tiles(rest)) && FramesIn(s) == map[n.h.key := Bytes(n)] + FramesIn(rest)
  {
    InFront(Bytes(n), rest, 0);
    hide Bytes, ReadHeader, IsChildFrame;
  }

  /** The whole payload. */
  lemma PayloadShows(n: Node)
    requires n.Box? && forall j :: 0 <= j < |n.kids| ==> FramedKid(n.kids[j])
    ensures Tiles(Payload(n)) && FramesIn(Payload(n)) == FramesOf(n.kids) && Visible(Payload(n)) == Contents(n.kids)
  {
    hide *;
    PayloadFrames(n, 0);
    PayloadParts(n);
    assert n.kids[0..] == n.kids && Payload(n)[0..] == Payload(n);
    FramesShow(Payload(n), n.kids);
  }

  lemma FramesShow(s: seq<byte>, kids: seq<Node>)
    requires FramesIn(s) == FramesOf(kids)
    ensures Visible(s) == Contents(kids)
  {
    hide FramesIn, ByKey, Seen, Bytes;
    assert forall k :: k in FramesOf(kids) <==> k in ByKey(kids);
  }

  lemma PreparedItem(n: Node, net: bool)
    requires Storable(n)
    ensures Item(Prepare(n, net)) == Item(n) && Prepare(n, net).h.key == n.h.key && Storable(Prepare(n, net))
  {
    PrepareKeepsShape(n, net);
    PrepareKeepsLength(n, net);
    ItemOf(n);
    ItemOf(Prepare(n, net));
    hide Item, Sized, Regular, Footprint;
    if n.Leaf? {
      ConversionKeepsValue(n.h, n.data, net);
    }
  }

  lemma {:induction false} SameContents(kids: seq<Node>, others: seq<Node>)
    requires |kids| == |others|
    requires forall i :: 0 <= i < |kids| ==> kids[i].h.key == others[i].h.key && Item(kids[i]) == Item(others[i])
    ensures Contents(kids) == Contents(others)
  {
    hide Item;
    if kids != [] {
      SameContents(kids[1..], others[1..]);
      assert kids == [kids[0]] + kids[1..] && others == [others[0]] + others[1..];
      hide Contents;
      ContentsCons(kids[0], kids[1..]);
      ContentsCons(others[0], others[1..]);
    }
  }

  lemma PreparedContents(n: Node, net: bool)
    requires Sized(n) && Flat(n)
    ensures var p := Prepare(n, net); Flat(p) && Contents(p.kids) == Contents(n.kids)
  {
    var p := Prepare(n, net);
    hide Storable, Item, Contents;
    forall i | 0 <= i < |n.kids|
      ensures p.kids[i].h.key == n.kids[i].h.key && Item(p.kids[i]) == Item(n.kids[i]) && Storable(p.kids[i])
    {
      PreparedItem(n.kids[i], net);
    }
    SameContents(p.kids, n.kids);
  }

  /** A frame that any loader accepts, whose payload the parser accepts, and in which a
      reader sees exactly `m`. */
  predicate Shows(f: seq<byte>, m: map<int32, (int32, Value)>) {
    && IsFrame(f) && (|f| > 16 ==> ReadHeader(f, 0).dataType == TYPE_CONTAINER)
    && Tiles(f[16..]) && Visible(f[16..]) == m
  }

  /** A message shows what the container holds, and may be read under any key. */
  lemma MessageShows(n: Node, net: bool)
    requires Sized(n) && Regular(n) && Flat(n)
    ensures Shows(Bytes(Prepare(n, net)), Contents(n.kids))
    ensures forall k :: CleanKey(Bytes(Prepare(n, net))[16..], k)
  {
    hide *;
    var p := Prepare(n, net);
    PrepareKeepsShape(n, net);
    PreparedContents(n, net);
    FlatFrames(p);
    PayloadShows(p);
    BoxFrame(p);
    CleanFrames(p);
  }

  lemma FlatFrames(n: Node)
    requires Flat(n)
    ensures n.Box? && forall i :: 0 <= i < |n.kids| ==> FramedKid(n.kids[i])
  {
    hide Storable, FramedKid;
    forall i | 0 <= i < |n.kids|
      ensures FramedKid(n.kids[i])
    {
      KidFrame(n.kids[i]);
      FramedKidIs(n.kids[i]);
    }
  }

  lemma FramedKidIs(n: Node)
    ensures FramedKid(n) <==> IsChildFrame(Bytes(n)) && ReadHeader(Bytes(n), 0).key == n.h.key
  {
  }

  lemma CleanFrames(n: Node)
    requires Flat(n) && n.Box? && FramesIn(Payload(n)) == FramesOf(n.kids) && Bytes(n)[16..] == Payload(n)
    ensures forall k :: CleanKey(Bytes(n)[16..], k)
  {
    hide Storable, FramesIn, Bytes, ReadsCleanly, ByKey;
    forall k | k in FramesIn(Payload(n))
      ensures ReadsCleanly(FramesIn(Payload(n))[k])
    {
      ByKeyMember(n.kids, k);
      KidFrame(ByKey(n.kids)[k]);
    }
  }

  lemma BoxFrame(n: Node)
    requires n.Box? && Sized(n) && Settled(n) && Regular(n) && Tiles(Payload(n))
    ensures var f := Bytes(n);
            && IsFrame(f) && (|f| > 16 ==> ReadHeader(f, 0).dataType == TYPE_CONTAINER) && f[16..] == Payload(n)
            && Shows(f, Visible(Payload(n)))
  {
    FrameHeader(n);
    NodeSize(n);
    WithKids(n);
    hide Tiles, Visible, ReadHeader, Bytes, Settled, Payload, Regular;
  }

  lemma WithKids(n: Node)
    requires n.Box? && Regular(n)
    ensures Payload(n) != [] ==> n.h.dataType == TYPE_CONTAINER
  {
    hide Ascending;
    if n.kids == [] {
      assert Payload(n) == KidsBytes(n.kids, 0);
    }
  }

  // ----- any sequence of insertions and sends -----

  datatype Op = Put(kid: Node) | Send(net: bool)

  /** Everything put in may be, and the container never outgrows what a loader takes. */
  predicate Possible(n: Node, ops: seq<Op>)
    requires n.Box? && Sized(n)
    decreases |ops|
  {
    ops != [] ==>
      match ops[0]
      case Put(kid) => Storable(kid) && Sized(AfterPut(n, kid)) && Possible(AfterPut(n, kid), ops[1..])
      case Send(net) => Sized(Prepare(n, net)) && Possible(Prepare(n, net), ops[1..])
  }

  /** The messages that go out. */
  function Messages(n: Node, ops: seq<Op>): seq<seq<byte>>
    requires n.Box? && Sized(n) && Possible(n, ops)
    decreases |ops|
  {
    if ops == [] then []
    else
      match ops[0]
      case Put(kid) => Messages(AfterPut(n, kid), ops[1..])
      case Send(net) => [Bytes(Prepare(n, net))] + Messages(Prepare(n, net), ops[1..])
  }

  /** What a plain map would hold at each send. */
  function Promised(m: map<int32, (int32, Value)>, ops: seq<Op>): seq<map<int32, (int32, Value)>>
    decreases |ops|
  {
    if ops == [] then []
    else
      match ops[0]
      case Put(kid) => Promised(m[kid.h.key := Item(kid)], ops[1..])
      case Send(net) => [m] + Promised(m, ops[1..])
  }

  lemma PutKeeps(n: Node, kid: Node)
    requires Flat(n) && Sized(n) && Regular(n) && Storable(kid) && Sized(AfterPut(n, kid))
    ensures Flat(AfterPut(n, kid)) && Regular(AfterPut(n, kid))
    ensures Contents(AfterPut(n, kid).kids) == Contents(n.kids)[kid.h.key := Item(kid)]
  {
    InsertContents(n.kids, kid);
    InsertAscending(n.kids, kid);
    InsertStorable(n.kids, kid);
    hide Item, Contents, Sized, Insert, Ascending, Footprint;
  }

  lemma InsertStorable(kids: seq<Node>, kid: Node)
    requires Storable(kid) && forall i :: 0 <= i < |kids| ==> Storable(kids[i])
    ensures var r := Insert(kids, kid);
            forall i :: 0 <= i < |r| ==> Storable(r[i])
  {
    InsertMembers(kids, kid);
    var r := Insert(kids, kid);
    hide Storable, Insert;
    forall i | 0 <= i < |r|
      ensures Storable(r[i])
    {
      assert r[i] in r;
    }
  }

  /** After any insertions, in between any complete sends in either order, every message,
      however it is cut up on the way, loads whole, is accepted by the parser, and shows
      under each key the last value put there before that send, and nothing else. */
  lemma {:induction false} MessagesShowPromised(n: Node, ops: seq<Op>, i: nat, chunks: seq<seq<byte>>)
    requires Flat(n) && Sized(n) && Regular(n) && Possible(n, ops) && i < |Messages(n, ops)|
    requires Messages(n, ops)[i] <= Join(chunks)
    ensures i < |Promised(Contents(n.kids), ops)|
    ensures Shows(Messages(n, ops)[i], Promised(Contents(n.kids), ops)[i])
    ensures |Messages(n, ops)[i]| >= 16 && forall k :: CleanKey(Messages(n, ops)[i][16..], k)
    ensures FeedAll([], chunks) == Loaded(Messages(n, ops)[i])
    decreases |ops|
  {
    hide *;
    FlatBox(n);
    if ops == [] {
      NoMessages(n, ops);
    }
    OpsUnfold(n, Contents(n.kids), ops);
    match ops[0]
    case Put(kid) =>
      PutKeeps(n, kid);
      MessagesShowPromised(AfterPut(n, kid), ops[1..], i, chunks);
    case Send(net) =>
      var f := Bytes(Prepare(n, net));
      if i == 0 {
        MessageShows(n, net);
        ShownIsFrame(f, Contents(n.kids));
        FrameInChunks(f, chunks);
      } else {
        PrepareKeepsShape(n, net);
        PreparedContents(n, net);
        MessagesShowPromised(Prepare(n, net), ops[1..], i - 1, chunks);
      }
  }

  lemma FlatBox(n: Node)
    requires Flat(n)
    ensures n.Box?
  {
  }

  lemma NoMessages(n: Node, ops: seq<Op>)
    requires n.Box? && Sized(n) && Possible(n, ops) && ops == []
    ensures Messages(n, ops) == []
  {
  }

  /** One operation further. */
  lemma OpsUnfold(n: Node, m: map<int32, (int32, Value)>, ops: seq<Op>)
    requires n.Box? && Sized(n) && Possible(n, ops) && ops != []
    ensures match ops[0]
            case Put(kid) =>
              var next := AfterPut(n, kid);
              && next.Box? && Storable(kid) && Sized(next) && Possible(next, ops[1..])
              && Messages(n, ops) == Messages(next, ops[1..])
              && Promised(m, ops) == Promised(m[kid.h.key := Item(kid)], ops[1..])
            case Send(net) =>
              var next := Prepare(n, net);
              && next.Box? && Sized(next) && Possible(next, ops[1..])
              && Messages(n, ops) == [Bytes(next)] + Messages(next, ops[1..])
              && Promised(m, ops) == [m] + Promised(m, ops[1..])
  {
    hide Storable, Sized, Insert, Item, Bytes;
  }

  lemma ShownIsFrame(f: seq<byte>, m: map<int32, (int32, Value)>)
    requires Shows(f, m)
    ensures IsFrame(f)
  {
  }

  // ----- the messages, one by one -----

  /** The orders in which the container is sent. */
  function Orders(ops: seq<Op>): seq<bool>
    decreases |ops|
  {
    if ops == [] then [] else (if ops[0].Send? then [ops[0].net] else []) + Orders(ops[1..])
  }

  lemma OrdersUnfold(ops: seq<Op>)
    requires ops != []
    ensures Orders(ops) == (if ops[0].Send? then [ops[0].net] else []) + Orders(ops[1..])
  {
  }

  /** There is one message for every send, in the order asked for, with the container's own key
      and with the size of what follows. */
  lemma {:induction false} MessageHeaders(n: Node, ops: seq<Op>)
    requires n.Box? && Sized(n) && Possible(n, ops)
    ensures |Messages(n, ops)| == |Orders(ops)|
    ensures forall i :: 0 <= i < |Messages(n, ops)| ==>
      |Messages(n, ops)[i]| >= 16 && HeaderOf(Messages(n, ops)[i], n.h.key, Orders(ops)[i])
    decreases |ops|
  {
    hide *;
    if ops == [] {
      NoMessages(n, ops);
      NoOrders();
    } else {
      OpsUnfold(n, map[], ops);
      OrdersUnfold(ops);
      match ops[0]
      case Put(kid) =>
        AfterPutKey(n, kid);
        MessageHeaders(AfterPut(n, kid), ops[1..]);
      case Send(net) =>
        SentHeader(n, net);
        MessageHeaders(Prepare(n, net), ops[1..]);
    }
  }

  predicate HeaderOf(f: seq<byte>, key: int32, net: bool)
    requires |f| >= 16
  {
    var h := ReadHeader(f, 0);
    h.key == key && h.net == net && h.size == |f| - 16 && ValidMark(f, 0)
  }

  lemma NoOrders()
    ensures Orders([]) == []
  {
  }

  lemma AfterPutKey(n: Node, kid: Node)
    requires n.Box?
    ensures AfterPut(n, kid).h.key == n.h.key
  {
  }

  lemma SentHeader(n: Node, net: bool)
    requires n.Box? && Sized(n)
    ensures Prepare(n, net).h.key == n.h.key && HeaderOf(Bytes(Prepare(n, net)), n.h.key, net)
  {
    var p := Prepare(n, net);
    PrepareKeepsLength(n, net);
    FrameHeader(p);
    ReadWritten(p.h);
    HeaderOfPrefix(HeaderBytes(p.h), Payload(p));
    hide HeaderBytes, Field, Payload;
  }

  /** What was last put under `k` before send `i`, `last` being what was there to begin with. */
  function LastPut(ops: seq<Op>, i: nat, k: int32, last: Option<Node>): (kid: Option<Node>)
    ensures last.Some? ==> kid.Some?
    decreases |ops|
  {
    if ops == [] then last
    else
      match ops[0]
      case Put(kid) => LastPut(ops[1..], i, k, if kid.h.key == k then Some(kid) else last)
      case Send(_) => if i == 0 then last else LastPut(ops[1..], i - 1, k, last)
  }

  lemma LastPutUnfold(ops: seq<Op>, i: nat, k: int32, last: Option<Node>)
    ensures LastPut([], i, k, last) == last
    ensures ops != [] && ops[0].Put? ==>
      LastPut(ops, i, k, last)
      == LastPut(ops[1..], i, k, if ops[0].kid.h.key == k then Some(ops[0].kid) else last)
    ensures ops != [] && ops[0].Send? ==>
      LastPut(ops, i, k, last) == if i == 0 then last else LastPut(ops[1..], i - 1, k, last)
  {
  }

  /** What is promised under `k` is what the object last put there is. */
  lemma {:induction false} PromisedIsLastPut(m: map<int32, (int32, Value)>, ops: seq<Op>, i: nat, k: int32,
                                             last: Option<Node>)
    requires i < |Promised(m, ops)| && (last.Some? ==> k in m && m[k] == Item(last.value))
    ensures match LastPut(ops, i, k, last)
            case Some(kid) => k in Promised(m, ops)[i] && Promised(m, ops)[i][k] == Item(kid)
            case None =>
              (k in Promised(m, ops)[i] <==> k in m) && (k in m ==> Promised(m, ops)[i][k] == m[k])
    decreases |ops|
  {
    hide Item;
    if ops != [] {
      match ops[0]
      case Put(kid) =>
        PromisedIsLastPut(m[kid.h.key := Item(kid)], ops[1..], i, k, if kid.h.key == k then Some(kid) else last);
      case Send(_) =>
        if i > 0 {
          PromisedIsLastPut(m, ops[1..], i - 1, k, last);
        }
    }
  }

  /** Type and payload of an object in host order, as they were put in; of a double, what
      survives the codec. */
  function AsPut(kid: Node): (int32, Value)
    requires !kid.Box? && (kid.h.dataType == 8 ==> |kid.data| >= 13)
  {
    (kid.h.dataType, if kid.h.dataType == 8 then Double(DoubleCodec.Canonical(DWordAt(kid.data, 0))) else Raw(kid.data))
  }

  /** That is what the object is to a reader. */
  lemma ItemAsPut(kid: Node)
    requires Storable(kid) && !kid.h.net
    ensures (kid.h.dataType == 8 ==> |kid.data| >= 13) && Item(kid) == AsPut(kid)
  {
    ItemOf(kid);
    Table(kid.h.dataType);
    ValueWhole(kid.h.dataType, kid.data);
    hide Item, Decoded, DoubleCodec.Canonical, DWordAt, Sized, Regular;
  }

  /** No payload is too short for a type without a converter. */
  lemma ValueWhole(t: int32, d: seq<byte>)
    requires HasConverter(t) ==> Footprint(t) <= |d|
    ensures Footprint(t) <= |d| && Decoded(false, t, d)
         == if t == 8 then Double(DoubleCodec.Canonical(DWordAt(d, 0))) else Raw(d)
  {
    Table(t);
    ValueAsItStands(t, d);
    hide Decoded, DoubleCodec.Canonical, DWordAt;
  }
}
