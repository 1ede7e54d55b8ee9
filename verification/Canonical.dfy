/** A loaded container, parsed and written out again: one frame per key in ascending order,
    whatever order and however many repetitions it came with. */
module Canonical {
  import opened Memory
  import opened Headers
  import opened Converters
  import opened Frames
  import opened Insertion
  import opened Prepared
  import opened Loading
  import opened Forwarding
  import opened Tiling
  import opened RoundTrip

  // ----- one view -----

  /** The frame of a view that may be brought into the given order: its size is right, and
      if its type says that there may be something to convert, its mark is valid and there
      is room for what is converted. */
  predicate Writable(f: seq<byte>, net: bool)
    requires |f| >= 16
  {
    var h := ReadHeader(f, 0);
    && h.size == |f| - 16
    && (HasConverter(h.dataType) || h.dataType == TYPE_CONTAINER ==> ValidMark(f, 0))
    && (h.net != net && HasConverter(h.dataType) ==> Footprint(h.dataType) <= |f| - 16)
  }

  /** So is every frame that counts. */
  predicate AllWritable(s: seq<byte>, net: bool) {
    forall k :: k in FramesIn(s) ==> Writable(FramesIn(s)[k], net)
  }

  /** A container inside the container that is to change its order: it is parsed, but a view
      finds no children in itself, and is empty from then on. */
  predicate Emptied(f: seq<byte>, net: bool)
    requires |f| >= 16
  {
    |f| > 16 && ReadHeader(f, 0).dataType == TYPE_CONTAINER && ReadHeader(f, 0).net != net
  }

  predicate NoneEmptied(s: seq<byte>, net: bool) {
    forall k :: k in FramesIn(s) ==> !Emptied(FramesIn(s)[k], net)
  }

  /** What the writer of a view leaves of its frame in the buffer: a container is passed on
      or emptied, what has a converter is converted, and the rest is left alone. */
  function AfterWrite(f: seq<byte>, net: bool): (r: seq<byte>)
    requires |f| >= 16
    ensures |r| == |f|
  {
    var h := ReadHeader(f, 0);
    if h.dataType == TYPE_CONTAINER && (|f| == 16 || h.net != net) then
      HeaderBytes(h.(net := net, size := 0)) + f[16..]
    else if !HasConverter(h.dataType) then f
    else
      var (g, d) := Converted(h, f[16..], net);
      HeaderBytes(g) + d
  }

  /** What it emits. */
  function Output(f: seq<byte>, net: bool): seq<byte>
    requires |f| >= 16
  {
    if Emptied(f, net) then AfterWrite(f, net)[..16] else AfterWrite(f, net)
  }

  lemma OutputLength(f: seq<byte>, net: bool)
    requires |f| >= 16
    ensures |Output(f, net)| <= |f| && (|Output(f, net)| == |f| <==> !Emptied(f, net))
  {
    hide AfterWrite, ReadHeader;
  }

  /** An emptied view goes out as a container with its key and without children, and leaves the
      bytes of its children behind. */
  lemma EmptiedOutput(f: seq<byte>, net: bool)
    requires |f| >= 16 && Emptied(f, net)
    ensures var g := Output(f, net);
            && |g| == 16 && ReadHeader(g, 0) == Header(net, 0, ReadHeader(f, 0).key, 1)
            && AfterWrite(f, net) == g + f[16..]
  {
    var c := ReadHeader(f, 0).(net := net, size := 0);
    HeaderInFront(c, f[16..]);
    ReadWritten(c);
    hide HeaderBytes, ReadHeader;
  }

  /** A view that is not emptied stays what it was to a reader, and is written the same way
      again. */
  lemma WrittenFrame(f: seq<byte>, net: bool)
    requires IsChildFrame(f) && !Emptied(f, net)
    ensures var g := AfterWrite(f, net);
            && |g| == |f| >= 16 && IsChildFrame(g) && ReadHeader(g, 0).key == ReadHeader(f, 0).key
            && Seen(g) == Seen(f) && AfterWrite(g, net) == g && !Emptied(g, net)
  {
    hide *;
    ChildParts(f);
    AfterWriteParts(f, net);
    var h, g := ReadHeader(f, 0), AfterWrite(f, net);
    if h.dataType == TYPE_CONTAINER && |f| == 16 {
      var c := h.(net := net, size := 0);
      HeaderInFront(c, []);
      assert HeaderBytes(c) + [] == HeaderBytes(c) == g;
      EmptyFrame(f, g, net);
    } else if HasConverter(h.dataType) {
      var (c, d) := Converted(h, f[16..], net);
      HeaderInFront(c, d);
      ConversionKeepsValue(h, f[16..], net);
      ConvertedAgain(h, f[16..], net);
      SameSeen(f, g);
      AfterWriteParts(g, net);
      ConvertedFrame(f, g, net);
    }
  }

  lemma AfterWriteParts(f: seq<byte>, net: bool)
    requires |f| >= 16
    ensures var h := ReadHeader(f, 0);
            AfterWrite(f, net)
            == if h.dataType == TYPE_CONTAINER && (|f| == 16 || h.net != net) then
                 HeaderBytes(h.(net := net, size := 0)) + f[16..]
               else if !HasConverter(h.dataType) then f
               else HeaderBytes(Converted(h, f[16..], net).0) + Converted(h, f[16..], net).1
    ensures |f| == 16 ==> f[16..] == [] && !Emptied(f, net)
    ensures !Emptied(f, net) && |f| > 16 && ReadHeader(f, 0).dataType == TYPE_CONTAINER ==>
      ReadHeader(f, 0).net == net && !HasConverter(ReadHeader(f, 0).dataType)
  {
    hide HeaderBytes, ReadHeader, Footprint, NetworkData, HostData;
  }

  lemma EmptyFrame(f: seq<byte>, g: seq<byte>, net: bool)
    requires IsChildFrame(f) && |f| == |g| == 16 && ReadHeader(f, 0).dataType == TYPE_CONTAINER
    requires ReadHeader(g, 0) == ReadHeader(f, 0).(net := net, size := 0) && g == HeaderBytes(ReadHeader(g, 0))
    ensures IsChildFrame(g) && ReadHeader(g, 0).key == ReadHeader(f, 0).key
    ensures Seen(g) == Seen(f) && AfterWrite(g, net) == g && !Emptied(g, net)
  {
    hide *;
    var h := ReadHeader(f, 0);
    EmptyPayload(h.net, h.dataType);
    EmptyPayload(net, h.dataType);
    assert f[16..] == [] && g[16..] == [] && g + [] == g;
    SameSeen(f, g);
    AfterWriteParts(g, net);
    ChildParts(f);
    ChildWhen(g);
  }

  lemma ChildWhen(f: seq<byte>)
    requires |f| >= 16 && ReadHeader(f, 0).size == |f| - 16 && ReadHeader(f, 0).key >= 0
    ensures IsChildFrame(f)
  {
  }

  lemma ConvertedAgain(h: Header, d: seq<byte>, net: bool)
    ensures var (g, e) := Converted(h, d, net);
            && Converted(g, e, net) == (g, e) && g == h.(net := g.net) && |e| == |d|
  {
    hide NetworkData, HostData;
  }

  lemma SameSeen(f: seq<byte>, g: seq<byte>)
    requires |f| == |g| >= 16
    requires var h, c := ReadHeader(f, 0), ReadHeader(g, 0);
             && c.dataType == h.dataType
             && Decoded(c.net, c.dataType, g[16..]) == Decoded(h.net, h.dataType, f[16..])
    ensures Seen(g) == Seen(f)
  {
    hide Decoded, Field;
  }

  lemma ConvertedFrame(f: seq<byte>, g: seq<byte>, net: bool)
    requires IsChildFrame(f) && |f| == |g| && HasConverter(ReadHeader(f, 0).dataType)
    requires ReadHeader(g, 0) == ReadHeader(f, 0).(net := ReadHeader(g, 0).net)
    ensures IsChildFrame(g) && ReadHeader(g, 0).key == ReadHeader(f, 0).key && !Emptied(g, net)
    ensures ReadHeader(f, 0).dataType != TYPE_CONTAINER
  {
    hide ReadHeader;
  }

  /** What a view says of its order afterwards is the order asked for, unless its type is one that
      is never converted. */
  lemma WrittenOrder(f: seq<byte>, net: bool)
    requires |f| >= 16 && Writable(f, net)
    ensures var t := ReadHeader(f, 0).dataType;
            t == 1 || 3 <= t <= 8 ==> ReadHeader(AfterWrite(f, net), 0).net == net
    ensures ReadHeader(f, 0).dataType == 0 || ReadHeader(f, 0).dataType == 2 ==> AfterWrite(f, net) == f
  {
    hide *;
    var h := ReadHeader(f, 0);
    Table(h.dataType);
    AfterWriteParts(f, net);
    WritableRoom(f, net);
    if h.dataType == TYPE_CONTAINER {
      HeaderInFront(h.(net := net, size := 0), f[16..]);
    } else if HasConverter(h.dataType) {
      var (c, d) := Converted(h, f[16..], net);
      HeaderInFront(c, d);
    }
  }

  lemma WritableRoom(f: seq<byte>, net: bool)
    requires |f| >= 16 && Writable(f, net)
    ensures var h := ReadHeader(f, 0); HasConverter(h.dataType) ==> Converted(h, f[16..], net).0.net == net
    ensures TYPE_CONTAINER == 1
  {
    hide NetworkData, HostData, ReadHeader, Footprint, ValidMark;
  }

  /** A frame that can be read can be read in either order. */
  lemma WrittenClean(f: seq<byte>, net: bool)
    requires |f| >= 16 && Writable(f, net) && ReadsCleanly(f)
    ensures ReadsCleanly(AfterWrite(f, net))
  {
    hide *;
    var h, g := ReadHeader(f, 0), AfterWrite(f, net);
    AfterWriteParts(f, net);
    FieldParts(g, 0);
    CleanCases(g);
    if h.dataType == TYPE_CONTAINER && (|f| == 16 || h.net != net) {
      HeaderInFront(h.(net := net, size := 0), f[16..]);
      NothingToConvert(g);
    } else if HasConverter(h.dataType) {
      var (c, d) := Converted(h, f[16..], net);
      HeaderInFront(c, d);
      ReadWritten(c);
      HeaderOfPrefix(HeaderBytes(c), d);
      ConvertedRoom(f, net);
    }
  }

  lemma NothingToConvert(g: seq<byte>)
    requires |g| >= 16 && ReadHeader(g, 0).dataType == TYPE_CONTAINER
    ensures ReadsCleanly(g)
  {
    FieldParts(g, 0);
    hide Field, IsNetworkOrder;
  }

  lemma ConvertedRoom(f: seq<byte>, net: bool)
    requires |f| >= 16 && Writable(f, net) && ReadsCleanly(f) && HasConverter(ReadHeader(f, 0).dataType)
    ensures var h := ReadHeader(f, 0);
            && (Converted(h, f[16..], net).0.net ==> Footprint(h.dataType) <= |f| - 16)
            && Converted(h, f[16..], net).0.dataType == h.dataType
    ensures forall g: seq<byte> :: |g| >= 16 && Converts(g, 0) ==> ReadHeader(g, 0).net
  {
    FieldParts(f, 0);
    hide Field, Footprint, NetworkData, HostData, IsNetworkOrder, WordAt;
  }

  // ----- parsing -----

  /** The object that a view stands for. */
  function ViewNode(f: seq<byte>): Node
    requires |f| >= 16
  {
    var h := ReadHeader(f, 0);
    if h.dataType == TYPE_CONTAINER && |f| == 16 then Box(h, []) else Leaf(h, f[16..])
  }

  /** The loop of `parse_buf` on the map: `insert_or_assign` of each frame in turn. */
  function Parsed(kids: seq<Node>, s: seq<byte>): seq<Node>
    decreases |s|
  {
    if !StartsFrame(s) then kids
    else Parsed(Insert(kids, ViewNode(s[..FrameEnd(s)])), s[FrameEnd(s)..])
  }

  /** What a map of frames holds as objects. */
  function Nodes(m: map<int32, seq<byte>>): map<int32, Node>
    requires forall k :: k in m ==> |m[k]| >= 16
  {
    map k | k in m :: ViewNode(m[k])
  }

  /** An object that some view stands for. */
  predicate Viewed(n: Node) {
    && Sized(n) && n.h.key >= 0 && n.h.size == |Payload(n)|
    && match n
       case Leaf(h, d) => h.dataType == TYPE_CONTAINER ==> d != []
       case Text(_, _) => false
       case Box(h, kids) => h.dataType == TYPE_CONTAINER && kids == []
  }

  predicate AllViewed(kids: seq<Node>) {
    forall n :: n in kids ==> Viewed(n)
  }

  lemma ViewedNode(f: seq<byte>)
    requires IsChildFrame(f) && |f| <= MAX_DSON_RAM_SIZE
    ensures var n := ViewNode(f);
            Viewed(n) && n.h.key == ReadHeader(f, 0).key && |Bytes(n)| == |f|
  {
    hide ReadHeader, HeaderBytes;
    Childless(ReadHeader(f, 0));
  }

  lemma NodeOfFrame(n: Node)
    requires Viewed(n)
    ensures IsChildFrame(Bytes(n)) && ViewNode(Bytes(n)) == n && FramedKid(n)
  {
    FrameHeader(n);
    hide HeaderBytes, Bytes, ReadHeader, Sized;
    if n.Box? {
      Childless(n.h);
    }
  }

  lemma {:induction false} KidsBytesCons(n: Node, rest: seq<Node>, i: nat)
    requires i <= |rest|
    ensures KidsBytes([n] + rest, i + 1) == Bytes(n) + KidsBytes(rest, i)
  {
    hide *;
    KidsBytesNext([n] + rest, i);
    if i == 0 {
      NoKids([n] + rest);
      NoKids(rest);
    } else {
      KidsBytesCons(n, rest, i - 1);
      KidsBytesNext(rest, i - 1);
      assert ([n] + rest)[i] == rest[i - 1];
    }
  }

  lemma NoKids(kids: seq<Node>)
    ensures KidsBytes(kids, 0) == []
  {
  }

  /** Of two frames with one key, one is dropped; nothing is ever added. */
  lemma {:induction false} InsertBytes(kids: seq<Node>, kid: Node)
    ensures var r := Insert(kids, kid);
            |KidsBytes(r, |r|)| <= |KidsBytes(kids, |kids|)| + |Bytes(kid)|
  {
    hide *;
    InsertCases(kids, kid);
    if kids == [] {
      KidsBytesCons(kid, [], 0);
      NoKids([]);
      assert [kid] + [] == [kid];
    } else {
      var first, rest := kids[0], kids[1..];
      assert kids == [first] + rest;
      KidsBytesCons(first, rest, |rest|);
      if kid.h.key < first.h.key {
        KidsBytesCons(kid, kids, |kids|);
      } else if kid.h.key == first.h.key {
        KidsBytesCons(kid, rest, |rest|);
      } else {
        var r := Insert(rest, kid);
        InsertBytes(rest, kid);
        KidsBytesCons(first, r, |r|);
      }
    }
  }

  lemma InsertCases(kids: seq<Node>, kid: Node)
    ensures Insert(kids, kid)
         == if kids == [] then [kid]
            else if kid.h.key < kids[0].h.key then [kid] + kids
            else if kid.h.key == kids[0].h.key then [kid] + kids[1..]
            else [kids[0]] + Insert(kids[1..], kid)
  {
  }

  /** What the map holds is what a reader of the payload finds: under each key the last
      frame that bears it. */
  lemma {:induction false} ParsedHolds(kids: seq<Node>, s: seq<byte>)
    requires Ascending(kids) && AllViewed(kids) && |s| <= MAX_DSON_RAM_SIZE
    ensures var r := Parsed(kids, s);
            && Ascending(r) && AllViewed(r) && ByKey(r) == ByKey(kids) + Nodes(FramesIn(s))
            && |KidsBytes(r, |r|)| <= |KidsBytes(kids, |kids|)| + |s|
    decreases |s|
  {
    hide *;
    ParsedUnfold(kids, s);
    if !StartsFrame(s) {
      assert ByKey(kids) + map[] == ByKey(kids);
    } else {
      var f, rest := s[..FrameEnd(s)], s[FrameEnd(s)..];
      var n := ViewNode(f);
      ViewedNode(f);
      InsertAscending(kids, n);
      InsertByKey(kids, n);
      InsertBytes(kids, n);
      OneMore(kids, n);
      ParsedHolds(Insert(kids, n), rest);
      UpdateThen(ByKey(kids), n.h.key, n, Nodes(FramesIn(rest)));
    }
  }

  lemma ParsedUnfold(kids: seq<Node>, s: seq<byte>)
    ensures if !StartsFrame(s) then Parsed(kids, s) == kids && Nodes(FramesIn(s)) == map[]
            else
              var f, rest := s[..FrameEnd(s)], s[FrameEnd(s)..];
              && |f| + |rest| == |s| && |rest| < |s| && |f| >= 16 && IsChildFrame(f)
              && Parsed(kids, s) == Parsed(Insert(kids, ViewNode(f)), rest)
              && Nodes(FramesIn(s)) == map[ReadHeader(f, 0).key := ViewNode(f)] + Nodes(FramesIn(rest))
  {
    NoFrame(s, 0);
    if StartsFrame(s) {
      var f, rest := s[..FrameEnd(s)], s[FrameEnd(s)..];
      Unfold(s, 0);
      hide ReadHeader, ViewNode, Insert, FramesIn, IsChildFrame;
      NodesCons(ReadHeader(f, 0).key, f, FramesIn(rest));
    }
  }

  lemma NodesCons(k: int32, f: seq<byte>, m: map<int32, seq<byte>>)
    requires |f| >= 16 && forall j :: j in m ==> |m[j]| >= 16
    ensures Nodes(map[k := f] + m) == map[k := ViewNode(f)] + Nodes(m)
  {
    hide ViewNode;
  }

  lemma UpdateThen<V>(m: map<int32, V>, k: int32, v: V, n: map<int32, V>)
    ensures m[k := v] + n == m + (map[k := v] + n)
  {
  }

  lemma OneMore(kids: seq<Node>, kid: Node)
    requires AllViewed(kids) && Viewed(kid)
    ensures AllViewed(Insert(kids, kid))
  {
    InsertMembers(kids, kid);
    hide Viewed, Insert;
  }

  /** The parsed container as an object tree. */
  lemma ParsedBox(h: Header, s: seq<byte>)
    requires |s| <= MAX_DSON_RAM_SIZE
    ensures var n := Box(h, Parsed([], s));
            && Sized(n) && |Payload(n)| <= |s| && Payload(n) == KidsBytes(n.kids, |n.kids|)
            && Ascending(n.kids) && AllViewed(n.kids) && ByKey(n.kids) == Nodes(FramesIn(s))
  {
    hide *;
    NothingYet(Nodes(FramesIn(s)));
    ParsedHolds([], s);
    ViewedBox(h, Parsed([], s));
  }

  lemma NothingYet(m: map<int32, Node>)
    ensures Ascending([]) && AllViewed([]) && KidsBytes([], 0) == [] && ByKey([]) + m == m
  {
  }

  lemma ViewedBox(h: Header, kids: seq<Node>)
    requires AllViewed(kids) && |KidsBytes(kids, |kids|)| <= MAX_DSON_RAM_SIZE
    ensures var n := Box(h, kids); Sized(n) && Payload(n) == KidsBytes(kids, |kids|)
  {
    hide KidsBytes, Payload;
    PayloadParts(Box(h, kids));
    assert forall i :: 0 <= i < |kids| ==> kids[i] in kids;
  }

  /** Frames in ascending key order parse to just those objects: there is one frame per
      key, and each is in its place. */
  lemma {:induction false} ParsedInOrder(n: Node, i: nat)
    requires n.Box? && i <= |n.kids| && Ascending(n.kids) && AllViewed(n.kids)
    ensures |KidsBytes(n.kids, i)| <= |Payload(n)|
    ensures Parsed(n.kids[..i], Payload(n)[|KidsBytes(n.kids, i)|..]) == n.kids
    decreases |n.kids| - i
  {
    hide *;
    if i == |n.kids| {
      NothingLeft(n);
    } else {
      var kid := n.kids[i];
      ParsedInOrder(n, i + 1);
      PayloadFrom(n, i);
      KidInOrder(n.kids, i);
      NodeOfFrame(kid);
      ViewFirst(n.kids[..i], kid, Payload(n)[|KidsBytes(n.kids, i + 1)|..]);
    }
  }

  lemma NothingLeft(n: Node)
    requires n.Box?
    ensures |KidsBytes(n.kids, |n.kids|)| == |Payload(n)|
    ensures Parsed(n.kids[..|n.kids|], Payload(n)[|KidsBytes(n.kids, |n.kids|)|..]) == n.kids
  {
    assert Payload(n)[|Payload(n)|..] == [] && n.kids[..|n.kids|] == n.kids;
  }

  lemma KidInOrder(kids: seq<Node>, i: nat)
    requires i < |kids| && Ascending(kids) && AllViewed(kids)
    ensures Viewed(kids[i]) && Insert(kids[..i], kids[i]) == kids[..i + 1]
  {
    InsertAt(kids[..i], kids[i], i, i);
    hide Viewed, Insert;
    assert kids[..i][..i] + [kids[i]] + kids[..i][i..] == kids[..i + 1];
  }

  lemma ViewFirst(before: seq<Node>, kid: Node, rest: seq<byte>)
    requires IsChildFrame(Bytes(kid)) && ViewNode(Bytes(kid)) == kid
    ensures Parsed(before, Bytes(kid) + rest) == Parsed(Insert(before, kid), rest)
  {
    InFront(Bytes(kid), rest, 0);
    hide Bytes, ReadHeader, ViewNode, Insert, StartsFrame, FrameEnd;
  }

  lemma InOneGo(n: Node)
    requires n.Box? && Ascending(n.kids) && AllViewed(n.kids)
    ensures Parsed([], Payload(n)) == n.kids
  {
    ParsedInOrder(n, 0);
    hide Parsed, Payload;
    assert KidsBytes(n.kids, 0) == [] && n.kids[..0] == [] && Payload(n)[0..] == Payload(n);
  }

  // ----- the whole -----

  /** The keys of the payload in ascending order. */
  function KeysOf(s: seq<byte>): seq<int32> {
    KeyOrder(FramesIn(s).Keys)
  }

  predicate Listed(s: seq<byte>, order: seq<int32>) {
    forall k :: k in order ==> k in FramesIn(s)
  }

  lemma KeysListed(s: seq<byte>)
    ensures Listed(s, KeysOf(s)) && forall k :: k in FramesIn(s) <==> k in KeysOf(s)
    ensures forall i, j :: 0 <= i < j < |KeysOf(s)| ==> KeysOf(s)[i] < KeysOf(s)[j]
  {
    KeyOrderIs(FramesIn(s).Keys);
    hide FramesIn, KeyOrder;
  }

  /** How long the frames under these keys are. */
  function Total(s: seq<byte>, order: seq<int32>): nat
    requires Listed(s, order)
  {
    if order == [] then 0 else |FramesIn(s)[order[0]]| + Total(s, order[1..])
  }

  /** What the writers of the views under these keys emit. */
  function Emitted(s: seq<byte>, order: seq<int32>, net: bool): seq<byte>
    requires Listed(s, order)
  {
    if order == [] then [] else Output(FramesIn(s)[order[0]], net) + Emitted(s, order[1..], net)
  }

  /** What `copy_to_stream_*` makes of a container with header `h` and payload `s`, once
      that payload is parsed: a header with the sizes of the views added up, then what each
      of them emits. */
  function Rewritten(h: Header, s: seq<byte>, net: bool): (f: seq<byte>)
    requires |s| <= MAX_DSON_RAM_SIZE
    ensures |f| >= 16
  {
    KeysListed(s);
    TotalFits(s);
    HeaderBytes(h.(net := net, size := Total(s, KeysOf(s)))) + Emitted(s, KeysOf(s), net)
  }

  /** The objects in order are those of the keys in order. */
  lemma KidOfKey(s: seq<byte>, i: nat)
    requires |s| <= MAX_DSON_RAM_SIZE && i < |Parsed([], s)|
    ensures var kids := Parsed([], s);
            && |kids| == |KeysOf(s)| && KeysOf(s)[i] == kids[i].h.key && kids[i].h.key in FramesIn(s)
            && IsChildFrame(FramesIn(s)[kids[i].h.key]) && |FramesIn(s)[kids[i].h.key]| <= |s|
            && kids[i] == ViewNode(FramesIn(s)[kids[i].h.key])
            && Viewed(kids[i]) && |Bytes(kids[i])| == |FramesIn(s)[kids[i].h.key]|
  {
    hide *;
    var kids := Parsed([], s);
    ParsedBox(Header(false, 0, 0, 0), s);
    NodesAre(FramesIn(s));
    OrderOfKids(kids);
    KeysOfIs(s);
    ByKeyAt(kids, i);
    var k := kids[i].h.key;
    ViewOfKey(s, 0, k);
    LiesWhere(s, Views(s, 0)[k], FramesIn(s)[k]);
    ViewedNode(FramesIn(s)[k]);
  }

  lemma KeysOfIs(s: seq<byte>)
    ensures KeysOf(s) == KeyOrder(FramesIn(s).Keys)
  {
  }

  lemma NodesAre(m: map<int32, seq<byte>>)
    requires forall k :: k in m ==> |m[k]| >= 16
    ensures Nodes(m).Keys == m.Keys && forall k :: k in m ==> Nodes(m)[k] == ViewNode(m[k])
  {
    hide ViewNode;
  }

  lemma ParsedLength(s: seq<byte>)
    requires |s| <= MAX_DSON_RAM_SIZE
    ensures |Parsed([], s)| == |KeysOf(s)|
  {
    hide *;
    ParsedBox(Header(false, 0, 0, 0), s);
    NodesAre(FramesIn(s));
    OrderOfKids(Parsed([], s));
    KeysOfIs(s);
  }

  /** Child `i` of `kids` has the size of the frame under key `i` of `order`. */
  lemma {:induction false} TotalOfKids(s: seq<byte>, order: seq<int32>, kids: seq<Node>)
    requires Listed(s, order) && |kids| == |order|
    requires forall i :: 0 <= i < |kids| ==> |Bytes(kids[i])| == |FramesIn(s)[order[i]]|
    ensures Total(s, order) == |KidsBytes(kids, |kids|)|
  {
    hide *;
    TotalFirst(s, order);
    NoKids(kids);
    if kids != [] {
      TotalOfKids(s, order[1..], kids[1..]);
      assert kids == [kids[0]] + kids[1..];
      KidsBytesCons(kids[0], kids[1..], |kids| - 1);
    }
  }

  lemma TotalFirst(s: seq<byte>, order: seq<int32>)
    requires Listed(s, order)
    ensures if order == [] then Total(s, order) == 0
            else
              && order[0] in FramesIn(s) && Listed(s, order[1..])
              && Total(s, order) == |FramesIn(s)[order[0]]| + Total(s, order[1..])
  {
    hide FramesIn;
  }

  /** The frames that count are no longer than the payload. */
  lemma TotalFits(s: seq<byte>)
    requires |s| <= MAX_DSON_RAM_SIZE
    ensures Listed(s, KeysOf(s)) && Total(s, KeysOf(s)) == |KidsBytes(Parsed([], s), |Parsed([], s)|)| <= |s|
    ensures |s| <= MAX_DSON_RAM_SIZE < 0x8000_0000
  {
    assert MAX_DSON_RAM_SIZE < 0x8000_0000;
    hide *;
    var kids := Parsed([], s);
    KeysListed(s);
    ParsedLength(s);
    ParsedBox(Header(false, 0, 0, 0), s);
    forall i | 0 <= i < |kids|
      ensures |Bytes(kids[i])| == |FramesIn(s)[KeysOf(s)[i]]|
    {
      KidOfKey(s, i);
    }
    TotalOfKids(s, KeysOf(s), kids);
  }

  lemma RewrittenIs(h: Header, s: seq<byte>, net: bool)
    requires |s| <= MAX_DSON_RAM_SIZE
    ensures Listed(s, KeysOf(s)) && Total(s, KeysOf(s)) <= |s| <= MAX_DSON_RAM_SIZE < 0x8000_0000
    ensures Rewritten(h, s, net)
         == HeaderBytes(h.(net := net, size := Total(s, KeysOf(s)))) + Emitted(s, KeysOf(s), net)
  {
    KeysListed(s);
    TotalFits(s);
    hide KeysOf, Total, Emitted, HeaderBytes, Listed, Parsed;
  }

  lemma RewrittenMark(h: Header, s: seq<byte>, net: bool)
    requires |s| <= MAX_DSON_RAM_SIZE
    ensures ValidMark(Rewritten(h, s, net), 0)
  {
    RewrittenIs(h, s, net);
    hide Rewritten, Emitted, Total, Listed, KeysOf;
    var g := h.(net := net, size := Total(s, KeysOf(s)));
    ReadWritten(g);
    HeaderOfPrefix(HeaderBytes(g), Emitted(s, KeysOf(s), net));
  }

  lemma {:induction false} EmittedLength(s: seq<byte>, order: seq<int32>, net: bool)
    requires Listed(s, order)
    ensures |Emitted(s, order, net)| <= Total(s, order)
    ensures |Emitted(s, order, net)| == Total(s, order) <==> forall k :: k in order ==> !Emptied(FramesIn(s)[k], net)
  {
    hide Output, FramesIn, Emptied;
    if order != [] {
      OutputLength(FramesIn(s)[order[0]], net);
      EmittedLength(s, order[1..], net);
      assert forall k :: k in order <==> k == order[0] || k in order[1..];
    }
  }

  /** What is written is a frame exactly when no nested container is to change its order:
      a nested one that is loses its children after their size has been declared. */
  lemma RewrittenIsFrame(h: Header, s: seq<byte>, net: bool)
    requires |s| <= MAX_DSON_RAM_SIZE
    ensures IsFrame(Rewritten(h, s, net)) <==> NoneEmptied(s, net)
  {
    hide *;
    RewrittenIs(h, s, net);
    EmittedLength(s, KeysOf(s), net);
    NoneIn(s, net);
    var g := h.(net := net, size := Total(s, KeysOf(s)));
    HeaderInFront(g, Emitted(s, KeysOf(s), net));
    FrameIs(Rewritten(h, s, net), g);
  }

  lemma NoneIn(s: seq<byte>, net: bool)
    ensures Listed(s, KeysOf(s))
    ensures NoneEmptied(s, net) <==> forall k :: k in KeysOf(s) ==> !Emptied(FramesIn(s)[k], net)
  {
    KeysListed(s);
    hide KeysOf, FramesIn, Emptied;
  }

  lemma FrameIs(f: seq<byte>, h: Header)
    requires |f| >= 16 && ReadHeader(f, 0) == h && |f| - 16 <= h.size <= MAX_DSON_RAM_SIZE
    ensures IsFrame(f) <==> |f| - 16 == h.size
  {
  }

  // ----- what it shows -----

  /** The frames under these keys, as they are written. */
  function WrittenFrames(s: seq<byte>, order: seq<int32>, net: bool): map<int32, seq<byte>>
    requires Listed(s, order)
  {
    map k | k in order :: AfterWrite(FramesIn(s)[k], net)
  }

  /** What is emitted parses into those frames. */
  lemma {:induction false} EmittedFrames(s: seq<byte>, order: seq<int32>, net: bool)
    requires Listed(s, order) && NoneEmptied(s, net)
    requires forall i, j :: 0 <= i < j < |order| ==> order[i] != order[j]
    ensures Tiles(Emitted(s, order, net)) && FramesIn(Emitted(s, order, net)) == WrittenFrames(s, order, net)
  {
    hide *;
    EmittedUnfold(s, order, net);
    if order != [] {
      var k := order[0];
      var f := FramesIn(s)[k];
      ViewOfKey(s, 0, k);
      NotEmptied(s, net, k);
      WrittenFrame(f, net);
      EmittedFrames(s, order[1..], net);
      InFront(AfterWrite(f, net), Emitted(s, order[1..], net), 0);
    }
  }

  lemma EmittedUnfold(s: seq<byte>, order: seq<int32>, net: bool)
    requires Listed(s, order) && NoneEmptied(s, net)
    requires forall i, j :: 0 <= i < j < |order| ==> order[i] != order[j]
    ensures if order == [] then
              && Emitted(s, order, net) == [] && Tiles([]) && FramesIn([]) == map[]
              && WrittenFrames(s, order, net) == map[]
            else
              var f := FramesIn(s)[order[0]];
              && order[0] in FramesIn(s) && Listed(s, order[1..])
              && Emitted(s, order, net) == AfterWrite(f, net) + Emitted(s, order[1..], net)
              && WrittenFrames(s, order, net) == map[order[0] := AfterWrite(f, net)] + WrittenFrames(s, order[1..], net)
  {
    hide *;
    EmittedFirst(s, order, net);
    if order != [] {
      NotEmptied(s, net, order[0]);
      OutputIs(FramesIn(s)[order[0]], net);
      WrittenFirst(s, order, net);
    }
  }

  lemma EmittedFirst(s: seq<byte>, order: seq<int32>, net: bool)
    requires Listed(s, order)
    ensures if order == [] then
              && Emitted(s, order, net) == [] && Tiles([]) && FramesIn([]) == map[]
              && WrittenFrames(s, order, net) == map[]
            else
              && order[0] in FramesIn(s) && Listed(s, order[1..])
              && Emitted(s, order, net) == Output(FramesIn(s)[order[0]], net) + Emitted(s, order[1..], net)
  {
    NoFrame([], 0);
    hide Output, FramesIn, AfterWrite;
  }

  lemma OutputIs(f: seq<byte>, net: bool)
    requires |f| >= 16
    ensures Output(f, net) == if Emptied(f, net) then AfterWrite(f, net)[..16] else AfterWrite(f, net)
  {
  }

  lemma WrittenFirst(s: seq<byte>, order: seq<int32>, net: bool)
    requires order != [] && Listed(s, order) && Listed(s, order[1..]) && order[0] in FramesIn(s)
    requires forall i, j :: 0 <= i < j < |order| ==> order[i] != order[j]
    ensures WrittenFrames(s, order, net)
         == map[order[0] := AfterWrite(FramesIn(s)[order[0]], net)] + WrittenFrames(s, order[1..], net)
  {
    hide AfterWrite, FramesIn;
    assert forall k :: k in order <==> k == order[0] || k in order[1..];
  }

  /** `r` has the frames of `s` as they are written. */
  predicate Carries(s: seq<byte>, r: seq<byte>, net: bool) {
    && FramesIn(r).Keys == FramesIn(s).Keys
    && forall k :: k in FramesIn(s) && k in FramesIn(r) ==> FramesIn(r)[k] == AfterWrite(FramesIn(s)[k], net)
  }

  lemma CarriesParts(s: seq<byte>, r: seq<byte>, net: bool)
    requires Carries(s, r, net)
    ensures FramesIn(r).Keys == FramesIn(s).Keys
    ensures forall k :: k in FramesIn(s) ==> k in FramesIn(r) && FramesIn(r)[k] == AfterWrite(FramesIn(s)[k], net)
  {
    hide FramesIn, AfterWrite;
    assert forall k :: k in FramesIn(s) <==> k in FramesIn(r);
  }

  /** What is written of a whole payload, as a reader finds it. */
  lemma RewrittenFrames(h: Header, s: seq<byte>, net: bool)
    requires |s| <= MAX_DSON_RAM_SIZE && NoneEmptied(s, net)
    ensures var f := Rewritten(h, s, net);
            && IsFrame(f) && ReadHeader(f, 0).(size := h.size) == h.(net := net) && |f| - 16 <= |s|
            && Tiles(f[16..]) && Carries(s, f[16..], net)
  {
    hide *;
    RewrittenIs(h, s, net);
    RewrittenIsFrame(h, s, net);
    KeysListed(s);
    EmittedFrames(s, KeysOf(s), net);
    CarriesWritten(s, Emitted(s, KeysOf(s), net), net);
    EmittedLength(s, KeysOf(s), net);
    HeaderInFront(h.(net := net, size := Total(s, KeysOf(s))), Emitted(s, KeysOf(s), net));
  }

  lemma CarriesWritten(s: seq<byte>, r: seq<byte>, net: bool)
    requires Listed(s, KeysOf(s)) && FramesIn(r) == WrittenFrames(s, KeysOf(s), net)
    ensures Carries(s, r, net)
  {
    KeysListed(s);
    hide KeysOf, FramesIn, AfterWrite;
  }

  /** Written out again, the container shows what it showed, and may be read under every
      key under which it could be read before. */
  lemma RewrittenShows(h: Header, s: seq<byte>, net: bool)
    requires |s| <= MAX_DSON_RAM_SIZE && NoneEmptied(s, net) && (s != [] ==> h.dataType == TYPE_CONTAINER)
    ensures Shows(Rewritten(h, s, net), Visible(s))
    ensures AllWritable(s, net) ==> forall k :: CleanKey(s, k) ==> CleanKey(Rewritten(h, s, net)[16..], k)
  {
    hide *;
    var f := Rewritten(h, s, net);
    RewrittenFrames(h, s, net);
    FrameParts(f);
    CarriesParts(s, f[16..], net);
    KeptType(h, f, net);
    forall k | k in FramesIn(s)
      ensures k in Visible(s) && k in Visible(f[16..]) && Visible(f[16..])[k] == Visible(s)[k]
    {
      ViewOfKey(s, 0, k);
      NotEmptied(s, net, k);
      WrittenFrame(FramesIn(s)[k], net);
      VisibleAt(s, k);
      VisibleAt(f[16..], k);
    }
    SameVisible(s, f[16..]);
    ShowsWhen(f, Visible(s));
    if AllWritable(s, net) {
      forall k | CleanKey(s, k)
        ensures CleanKey(f[16..], k)
      {
        CleanKeyKept(s, f[16..], net, k);
      }
    }
  }

  lemma KeptType(h: Header, f: seq<byte>, net: bool)
    requires |f| >= 16 && ReadHeader(f, 0).(size := h.size) == h.(net := net)
    ensures ReadHeader(f, 0).dataType == h.dataType
    ensures ReadHeader(f, 0) == h.(net := net, size := ReadHeader(f, 0).size)
  {
  }

  lemma SameVisible(s: seq<byte>, r: seq<byte>)
    requires FramesIn(r).Keys == FramesIn(s).Keys
    requires forall k :: k in FramesIn(s) ==> k in Visible(s) && k in Visible(r) && Visible(r)[k] == Visible(s)[k]
    ensures Visible(r) == Visible(s)
  {
    hide FramesIn, Seen;
  }

  lemma ShowsWhen(f: seq<byte>, m: map<int32, (int32, Value)>)
    requires IsFrame(f) && |f| >= 16 && (|f| > 16 ==> ReadHeader(f, 0).dataType == TYPE_CONTAINER)
    requires Tiles(f[16..]) && Visible(f[16..]) == m
    ensures Shows(f, m)
  {
  }

  lemma CleanKeyKept(s: seq<byte>, r: seq<byte>, net: bool, k: int32)
    requires AllWritable(s, net) && CleanKey(s, k) && Carries(s, r, net)
    ensures CleanKey(r, k)
  {
    hide FramesIn, AfterWrite, Writable, ReadsCleanly;
    CarriesParts(s, r, net);
    if k in FramesIn(s) {
      WrittenClean(FramesIn(s)[k], net);
    }
  }

  /** Loading, parsing and writing out settles after one round: doing it again changes not
      a byte, however the first payload was ordered and whatever it repeated. */
  lemma RewrittenTwice(h: Header, s: seq<byte>, net: bool)
    requires |s| <= MAX_DSON_RAM_SIZE && NoneEmptied(s, net)
    ensures var f := Rewritten(h, s, net);
            && |f| - 16 <= |s| && NoneEmptied(f[16..], net)
            && Rewritten(ReadHeader(f, 0), f[16..], net) == f
  {
    hide *;
    var f := Rewritten(h, s, net);
    RewrittenFrames(h, s, net);
    FrameParts(f);
    var r := f[16..];
    CarriesParts(s, r, net);
    KeptType(h, f, net);
    KeysOfIs(s);
    KeysOfIs(r);
    KeysListed(s);
    KeysListed(r);
    forall k | k in FramesIn(s)
      ensures k in FramesIn(r) && |FramesIn(r)[k]| == |FramesIn(s)[k]| >= 16
      ensures !Emptied(FramesIn(r)[k], net) && AfterWrite(FramesIn(r)[k], net) == FramesIn(r)[k]
    {
      ViewOfKey(s, 0, k);
      NotEmptied(s, net, k);
      WrittenFrame(FramesIn(s)[k], net);
    }
    StillNone(r, net);
    SameTotal(s, r, KeysOf(s));
    SettledOutput(s, r, KeysOf(s), net);
    RewrittenIs(h, s, net);
    RewrittenIs(ReadHeader(f, 0), r, net);
  }

  lemma FrameParts(f: seq<byte>)
    requires IsFrame(f)
    ensures |f| >= 16 && |f| - 16 == ReadHeader(f, 0).size
  {
  }

  lemma StillNone(s: seq<byte>, net: bool)
    requires forall k :: k in FramesIn(s) ==> !Emptied(FramesIn(s)[k], net)
    ensures NoneEmptied(s, net)
  {
  }

  lemma {:induction false} SameTotal(s: seq<byte>, r: seq<byte>, order: seq<int32>)
    requires Listed(s, order) && Listed(r, order)
    requires forall k :: k in order ==> |FramesIn(r)[k]| == |FramesIn(s)[k]|
    ensures Total(r, order) == Total(s, order)
  {
    hide FramesIn;
    if order != [] {
      SameTotal(s, r, order[1..]);
    }
  }

  /** Frames as they were left by a pass are emitted by the next as they are. */
  lemma {:induction false} SettledOutput(s: seq<byte>, r: seq<byte>, order: seq<int32>, net: bool)
    requires Listed(s, order) && Listed(r, order) && NoneEmptied(s, net)
    requires forall k :: k in order ==>
      && FramesIn(r)[k] == AfterWrite(FramesIn(s)[k], net) && !Emptied(FramesIn(r)[k], net)
      && AfterWrite(FramesIn(r)[k], net) == FramesIn(r)[k]
    ensures Emitted(r, order, net) == Emitted(s, order, net)
  {
    hide FramesIn, AfterWrite, Emptied;
    if order != [] {
      SettledOutput(s, r, order[1..], net);
    }
  }

  // ----- the same container, built by insertion -----

  predicate AllMarked(s: seq<byte>) {
    forall k :: k in FramesIn(s) ==> ValidMark(FramesIn(s)[k], 0)
  }

  /** With a valid mark a view stands for exactly its bytes. */
  lemma ViewedBytes(f: seq<byte>)
    requires IsChildFrame(f) && ValidMark(f, 0)
    ensures Bytes(ViewNode(f)) == f
  {
    hide HeaderBytes, ReadHeader, ValidMark;
    SoundHeader(f);
    Childless(ReadHeader(f, 0));
    assert f == f[..16] + f[16..];
  }

  /** It is written as the object it stands for would be. */
  lemma WrittenNode(f: seq<byte>, net: bool)
    requires IsChildFrame(f) && |f| <= MAX_DSON_RAM_SIZE && ValidMark(f, 0) && !Emptied(f, net)
    ensures Sized(ViewNode(f)) && Output(f, net) == Bytes(Prepare(ViewNode(f), net))
  {
    hide *;
    ViewedNode(f);
    var n, h := ViewNode(f), ReadHeader(f, 0);
    ViewedSized(n);
    ChildParts(f);
    AfterWriteParts(f, net);
    ViewNodeParts(f, net);
    ViewedBytes(f);
    if h.dataType == TYPE_CONTAINER && |f| == 16 {
      Childless(h);
      Childless(h.(net := net, size := 0));
      assert HeaderBytes(h.(net := net, size := 0)) + [] == HeaderBytes(h.(net := net, size := 0));
      PreparedEmpty(h, net);
    } else {
      PreparedLeaf(h, f[16..], net);
    }
  }

  lemma ViewNodeParts(f: seq<byte>, net: bool)
    requires |f| >= 16 && !Emptied(f, net)
    ensures var h := ReadHeader(f, 0);
            && Output(f, net) == AfterWrite(f, net)
            && ViewNode(f) == if h.dataType == TYPE_CONTAINER && |f| == 16 then Box(h, []) else Leaf(h, f[16..])
  {
    hide AfterWrite, ReadHeader;
  }

  lemma PreparedEmpty(h: Header, net: bool)
    requires Sized(Box(h, []))
    ensures Prepare(Box(h, []), net) == Box(h.(net := net, size := 0), [])
  {
    Childless(h);
  }

  lemma PreparedLeaf(h: Header, d: seq<byte>, net: bool)
    requires Sized(Leaf(h, d))
    ensures Bytes(Prepare(Leaf(h, d), net)) == HeaderBytes(Converted(h, d, net).0) + Converted(h, d, net).1
    ensures Bytes(Leaf(h, d)) == HeaderBytes(h) + d
    ensures !HasConverter(h.dataType) ==> Converted(h, d, net) == (h, d)
  {
    hide HeaderBytes, NetworkData, HostData;
  }

  lemma ViewedSized(n: Node)
    requires Viewed(n)
    ensures Sized(n)
  {
  }

  lemma {:induction false} EmittedOfKids(s: seq<byte>, order: seq<int32>, kids: seq<Node>, net: bool)
    requires Listed(s, order) && |kids| == |order|
    requires forall i :: 0 <= i < |kids| ==> Bytes(kids[i]) == Output(FramesIn(s)[order[i]], net)
    ensures Emitted(s, order, net) == KidsBytes(kids, |kids|)
  {
    hide *;
    EmittedFirst(s, order, net);
    NoKids(kids);
    if kids != [] {
      EmittedOfKids(s, order[1..], kids[1..], net);
      assert kids == [kids[0]] + kids[1..];
      KidsBytesCons(kids[0], kids[1..], |kids| - 1);
    }
  }

  lemma PreparedViewed(n: Node, net: bool)
    requires Viewed(n)
    ensures Sized(n) && Viewed(Prepare(n, net)) && Prepare(n, net).h.key == n.h.key
  {
    PrepareKeepsShape(n, net);
    PrepareKeepsLength(n, net);
    NodeSize(Prepare(n, net));
    hide Sized, Settled, Payload, Footprint, NetworkData, HostData;
  }

  lemma PreparedKids(n: Node, net: bool)
    requires n.Box? && Sized(n) && Ascending(n.kids) && AllViewed(n.kids)
    ensures var p := Prepare(n, net); p.Box? && Ascending(p.kids) && AllViewed(p.kids)
  {
    var p := Prepare(n, net);
    PreparedBox(n, net);
    hide Prepare, Viewed, Sized, Ascending;
    forall i | 0 <= i < |p.kids|
      ensures Viewed(p.kids[i])
    {
      PreparedViewed(n.kids[i], net);
    }
  }

  /** What is written is then the frame that the same objects, put into a container one by
      one, would make, and it parses into just those objects. */
  lemma RewrittenWhole(h: Header, s: seq<byte>, net: bool)
    requires |s| <= MAX_DSON_RAM_SIZE && NoneEmptied(s, net) && AllMarked(s)
    ensures var n := Box(h, Parsed([], s));
            && Sized(n) && Prepare(n, net).Box? && Rewritten(h, s, net) == Bytes(Prepare(n, net))
            && Parsed([], Rewritten(h, s, net)[16..]) == Prepare(n, net).kids
  {
    hide *;
    var n := Box(h, Parsed([], s));
    ParsedBox(h, s);
    var p := Prepare(n, net);
    PreparedBox(n, net);
    PreparedKids(n, net);
    FrameHeader(p);
    InOneGo(p);
    PreparedHeader(n, net);
    PayloadParts(p);
    TotalFits(s);
    ParsedLength(s);
    RewrittenIs(h, s, net);
    KeysListed(s);
    forall i | 0 <= i < |p.kids|
      ensures Bytes(p.kids[i]) == Output(FramesIn(s)[KeysOf(s)[i]], net)
    {
      KidOfKey(s, i);
      NotEmptied(s, net, KeysOf(s)[i]);
      MarkedKey(s, KeysOf(s)[i]);
      WrittenNode(FramesIn(s)[KeysOf(s)[i]], net);
    }
    EmittedOfKids(s, KeysOf(s), p.kids, net);
  }

  lemma MarkedKey(s: seq<byte>, k: int32)
    requires AllMarked(s) && k in FramesIn(s)
    ensures ValidMark(FramesIn(s)[k], 0)
  {
    hide FramesIn, ValidMark;
  }

  lemma PreparedHeader(n: Node, net: bool)
    requires n.Box? && Sized(n)
    ensures Prepare(n, net).Box? && Prepare(n, net).h == n.h.(net := net, size := |Payload(n)|)
    ensures |Payload(n)| <= MAX_DSON_RAM_SIZE < 0x8000_0000
  {
  }

  // ----- the buffer underneath -----

  /** The payload once the first `i` views of `order` are written. */
  function Brought(s: seq<byte>, order: seq<int32>, i: nat, net: bool): (r: seq<byte>)
    requires i <= |order|
    ensures |r| == |s|
  {
    if i == 0 then s else WriteAt(s, Brought(s, order, i - 1, net), order[i - 1], net)
  }

  function WriteAt(s: seq<byte>, r: seq<byte>, k: int32, net: bool): (t: seq<byte>)
    ensures |t| == |r|
  {
    if k in FramesIn(s) && k in Views(s, 0) && Views(s, 0)[k] + |FramesIn(s)[k]| <= |r| then
      Patched(r, Views(s, 0)[k], AfterWrite(FramesIn(s)[k], net))
    else r
  }

  lemma WriteAtKey(s: seq<byte>, r: seq<byte>, k: int32, net: bool)
    requires k in FramesIn(s) && |r| == |s|
    ensures var f := FramesIn(s)[k];
            && k in Views(s, 0) && LiesAt(s, Views(s, 0)[k], f) && Views(s, 0)[k] + |f| <= |r| && IsChildFrame(f)
            && WriteAt(s, r, k, net) == Patched(r, Views(s, 0)[k], AfterWrite(f, net))
  {
    hide *;
    ViewOfKey(s, 0, k);
    LiesWhere(s, Views(s, 0)[k], FramesIn(s)[k]);
    Written(s, r, k, net);
  }

  lemma Written(s: seq<byte>, r: seq<byte>, k: int32, net: bool)
    requires k in FramesIn(s) && k in Views(s, 0) && Views(s, 0)[k] + |FramesIn(s)[k]| <= |r|
    ensures WriteAt(s, r, k, net) == Patched(r, Views(s, 0)[k], AfterWrite(FramesIn(s)[k], net))
  {
    hide FramesIn, Views, AfterWrite, Patched;
  }

  lemma BroughtNext(s: seq<byte>, order: seq<int32>, i: nat, net: bool)
    requires i <= |order|
    ensures Brought(s, order, 0, net) == s
    ensures i > 0 ==> Brought(s, order, i, net) == WriteAt(s, Brought(s, order, i - 1, net), order[i - 1], net)
  {
  }

  /** A view whose turn has not come is as it was. */
  lemma {:induction false} BroughtLeaves(s: seq<byte>, order: seq<int32>, i: nat, net: bool, k: int32)
    requires i <= |order| && k in FramesIn(s) && k !in order[..i]
    ensures k in Views(s, 0) && LiesAt(Brought(s, order, i, net), Views(s, 0)[k], FramesIn(s)[k])
  {
    hide *;
    ViewOfKey(s, 0, k);
    BroughtNext(s, order, i, net);
    if i > 0 {
      var r, j := Brought(s, order, i - 1, net), order[i - 1];
      assert order[..i] == order[..i - 1] + [j];
      BroughtLeaves(s, order, i - 1, net, k);
      if j in FramesIn(s) {
        WriteAtKey(s, r, j, net);
        FramesApart(s, 0, j, k);
        PatchedApart(r, Views(s, 0)[j], AfterWrite(FramesIn(s)[j], net), Views(s, 0)[k], FramesIn(s)[k]);
      } else {
        NotWritten(s, r, j, net);
      }
    }
  }

  lemma NotWritten(s: seq<byte>, r: seq<byte>, k: int32, net: bool)
    requires k !in FramesIn(s)
    ensures WriteAt(s, r, k, net) == r
  {
  }

  lemma PatchedApart(r: seq<byte>, at: nat, g: seq<byte>, there: nat, f: seq<byte>)
    requires at + |g| <= |r| && LiesAt(r, there, f) && (at + |g| <= there || there + |f| <= at)
    ensures LiesAt(Patched(r, at, g), there, f)
  {
    var t := Patched(r, at, g);
    assert forall i :: there <= i < there + |f| ==> t[i] == r[i];
  }

  /** The same views, showing the same, each with its frame as it was or as written. */
  predicate SameViews(s: seq<byte>, r: seq<byte>) {
    && Views(r, 0) == Views(s, 0) && (Tiles(r) <==> Tiles(s)) && Visible(r) == Visible(s)
    && FramesIn(r).Keys == FramesIn(s).Keys
    && forall k :: k in FramesIn(s) && k in FramesIn(r) ==> |FramesIn(r)[k]| == |FramesIn(s)[k]|
  }

  lemma {:induction false} BroughtShows(s: seq<byte>, order: seq<int32>, i: nat, net: bool)
    requires i <= |order| && NoneEmptied(s, net)
    ensures SameViews(s, Brought(s, order, i, net))
  {
    hide *;
    BroughtNext(s, order, i, net);
    SameItself(s);
    if i > 0 {
      var r, k := Brought(s, order, i - 1, net), order[i - 1];
      BroughtShows(s, order, i - 1, net);
      if k in FramesIn(s) {
        WriteAtKey(s, r, k, net);
        WriteShows(s, r, k, net);
      } else {
        NotWritten(s, r, k, net);
      }
    }
  }

  lemma SameItself(s: seq<byte>)
    ensures SameViews(s, s)
  {
  }

  lemma WriteShows(s: seq<byte>, r: seq<byte>, k: int32, net: bool)
    requires SameViews(s, r) && NoneEmptied(s, net) && |r| == |s|
    requires k in FramesIn(s) && k in Views(s, 0) && Views(s, 0)[k] + |FramesIn(s)[k]| <= |r|
    requires IsChildFrame(FramesIn(s)[k])
    ensures SameViews(s, Patched(r, Views(s, 0)[k], AfterWrite(FramesIn(s)[k], net)))
  {
    hide *;
    var f := FramesIn(s)[k];
    var g := AfterWrite(f, net);
    NotEmptied(s, net, k);
    WrittenFrame(f, net);
    ViewOfKey(s, 0, k);
    KeptViews(s, r, k);
    ReplaceFrame(r, 0, k, g);
    ReplacedShows(s, r, Patched(r, Views(s, 0)[k], g), k, g);
  }

  lemma NotEmptied(s: seq<byte>, net: bool, k: int32)
    requires NoneEmptied(s, net) && k in FramesIn(s)
    ensures !Emptied(FramesIn(s)[k], net)
  {
    hide FramesIn, Emptied;
  }

  lemma KeptViews(s: seq<byte>, r: seq<byte>, k: int32)
    requires SameViews(s, r) && k in FramesIn(s)
    ensures k in FramesIn(r) && |FramesIn(r)[k]| == |FramesIn(s)[k]| && Views(r, 0) == Views(s, 0)
    ensures (Tiles(r) <==> Tiles(s)) && Visible(r) == Visible(s)
  {
    hide FramesIn, Views, Visible, Tiles;
  }

  lemma ReplacedShows(s: seq<byte>, r: seq<byte>, t: seq<byte>, k: int32, g: seq<byte>)
    requires SameViews(s, r) && k in FramesIn(s) && k in FramesIn(r) && |g| == |FramesIn(r)[k]| == |FramesIn(s)[k]|
    requires Views(t, 0) == Views(r, 0) && FramesIn(t) == FramesIn(r)[k := g] && (Tiles(t) <==> Tiles(r))
    requires |g| >= 16 && Seen(g) == Seen(FramesIn(s)[k])
    ensures SameViews(s, t)
  {
    VisibleAt(s, k);
    VisibleAt(r, k);
    hide Seen, FramesIn, Views, Tiles;
    assert Visible(t) == Visible(r)[k := Seen(g)];
  }

  /** A message of a container of single objects may be rewritten in either order. */
  lemma MessageWritable(n: Node, order: bool, net: bool)
    requires Sized(n) && Regular(n) && Flat(n)
    ensures var f := Bytes(Prepare(n, order));
            ValidMark(f, 0) && AllWritable(f[16..], net) && NoneEmptied(f[16..], net)
  {
    hide *;
    var p := Prepare(n, order);
    PreparedContents(n, order);
    FlatFrames(p);
    PayloadShows(p);
    FrameHeader(p);
    MarkOf(p);
    KidsWritable(p, net);
  }

  lemma MarkOf(n: Node)
    ensures ValidMark(Bytes(n), 0)
  {
    ReadWritten(n.h);
    HeaderOfPrefix(HeaderBytes(n.h), Payload(n));
  }

  lemma KidsWritable(n: Node, net: bool)
    requires Flat(n) && n.Box? && FramesIn(Payload(n)) == FramesOf(n.kids)
    ensures AllWritable(Payload(n), net) && NoneEmptied(Payload(n), net)
  {
    hide Storable, FramesIn, Bytes, Writable, Emptied, ByKey;
    forall k | k in FramesIn(Payload(n))
      ensures var f := FramesIn(Payload(n))[k]; Writable(f, net) && !Emptied(f, net)
    {
      ByKeyMember(n.kids, k);
      KidWritable(ByKey(n.kids)[k], net);
    }
  }

  lemma KidWritable(n: Node, net: bool)
    requires Storable(n)
    ensures Writable(Bytes(n), net) && !Emptied(Bytes(n), net)
  {
    FrameHeader(n);
    MarkOf(n);
    hide Bytes, ReadHeader, ValidMark, Footprint;
  }

  /** A container with a four-byte integer in it, itself under key 0 of a container. */
  const NESTED: seq<byte> :=
    [0, 0, 0, 1, 0, 0, 0, 20, 0, 0, 0, 0, 0, 0, 0, 1] + [0, 0, 0, 1, 0, 0, 0, 4, 0, 0, 0, 0, 0, 0, 0, 3, 0, 0, 0, 7]

  /** In network order, with its header in front, it loads and parses; what is written of
      it in host order is not a frame. */
  lemma NestedExample(h: Header)
    requires h == Header(true, 36, 0, TYPE_CONTAINER)
    ensures |NESTED| == 36 && Tiles(NESTED) && AllWritable(NESTED, false)
    ensures var f := HeaderBytes(h) + NESTED; Sound(f) && ReadHeader(f, 0) == h && Feed([], f) == Loaded(f)
    ensures !IsFrame(Rewritten(h, NESTED, false))
  {
    var s := NESTED;
    NestedWords(s);
    hide *;
    BigEndianHeader(s, 1, 20, 0, 1);
    NestedFrame(s);
    OneFrame(s);
    NestedEmptied(s);
    RewrittenIsFrame(h, s, false);
    NestedLoads(h, s);
  }

  lemma NestedLoads(h: Header, s: seq<byte>)
    requires h.size == |s| <= MAX_DSON_RAM_SIZE
    ensures var f := HeaderBytes(h) + s; Sound(f) && ReadHeader(f, 0) == h && Feed([], f) == Loaded(f)
  {
    HeaderInFront(h, s);
    ReadWritten(h);
    HeaderOfPrefix(HeaderBytes(h), s);
    StreamOfFrame(HeaderBytes(h) + s, HeaderBytes(h) + s);
    hide HeaderBytes, ReadHeader, Feed;
  }

  lemma NestedWords(s: seq<byte>)
    requires s == NESTED
    ensures |s| == 36 && s[0..4] == [0, 0, 0, 1] && s[4..8] == [0, 0, 0, 20]
    ensures s[8..12] == [0, 0, 0, 0] && s[12..16] == [0, 0, 0, 1]
  {
  }

  lemma NestedFrame(s: seq<byte>)
    requires |s| == 36 && ReadHeader(s, 0) == Header(true, 20, 0, 1) && IsNetworkOrder(s, 0)
    ensures IsChildFrame(s) && Writable(s, false) && Emptied(s, false) && |s| <= MAX_DSON_RAM_SIZE
  {
    hide ReadHeader, IsNetworkOrder;
  }

  lemma NestedEmptied(s: seq<byte>)
    requires |s| >= 16 && FramesIn(s) == map[0 := s] && Writable(s, false) && Emptied(s, false)
    ensures AllWritable(s, false) && !NoneEmptied(s, false)
  {
    hide FramesIn, Writable, Emptied;
    assert 0 in FramesIn(s);
  }
}
