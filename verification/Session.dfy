/** A container in use: objects go in under their keys, and between times the whole is
    sent, in either order, through a window of any size. */
module Session {
  import opened Memory
  import opened Headers
  import opened Converters
  import opened Frames
  import opened Insertion
  import opened Prepared
  import opened Loading
  import opened Forwarding
  import opened Tiling
  import opened RoundTrip
  import opened Canonical
  import opened Transport
  import opened DsonObj
  import opened DsonStringObj
  import opened DsonRouteObj
  import opened DsonCore
  import opened Sending
  import opened Parsing

  predicate AllStorable(ops: seq<Op>) {
    forall i :: 0 <= i < |ops| && ops[i].Put? ==> Storable(ops[i].kid)
  }

  /** How much all that is put in takes. */
  function Weight(ops: seq<Op>): nat {
    if ops == [] then 0 else (if ops[0].Put? && !ops[0].kid.Box? then 16 + |ops[0].kid.data| else 0) + Weight(ops[1..])
  }

  /** As long as all of it together stays within the limit, everything may be put in. */
  lemma {:induction false} LightIsPossible(n: Node, ops: seq<Op>)
    requires n.Box? && Sized(n) && AllStorable(ops) && |Payload(n)| + Weight(ops) <= MAX_DSON_RAM_SIZE
    ensures Possible(n, ops)
    decreases |ops|
  {
    hide *;
    WeightUnfold(ops);
    if ops == [] {
      PossibleNone(n);
    } else {
      match ops[0]
      case Put(kid) =>
        InsertBytes(n.kids, kid);
        PutWeight(n, kid);
        InsertedSized(n, kid);
        LightIsPossible(AfterPut(n, kid), ops[1..]);
        PossiblePut(n, ops);
      case Send(net) =>
        PrepareKeepsShape(n, net);
        PrepareKeepsLength(n, net);
        PreparedBox(n, net);
        LightIsPossible(Prepare(n, net), ops[1..]);
        PossibleSend(n, ops);
    }
  }

  lemma WeightUnfold(ops: seq<Op>)
    requires AllStorable(ops)
    ensures ops == [] ==> Weight(ops) == 0
    ensures ops != [] ==> AllStorable(ops[1..])
    ensures ops != [] && ops[0].Put? ==>
      Storable(ops[0].kid) && !ops[0].kid.Box? && Weight(ops) == 16 + |ops[0].kid.data| + Weight(ops[1..])
    ensures ops != [] && ops[0].Send? ==> Weight(ops) == Weight(ops[1..])
  {
    hide Sized, Regular, Footprint, HasConverter;
  }

  lemma PutWeight(n: Node, kid: Node)
    requires n.Box? && !kid.Box? && Storable(kid)
    requires var r := Insert(n.kids, kid); |KidsBytes(r, |r|)| <= |KidsBytes(n.kids, |n.kids|)| + |Bytes(kid)|
    ensures Sized(kid) && AfterPut(n, kid).Box? && |Payload(AfterPut(n, kid))| <= |Payload(n)| + 16 + |kid.data|
  {
    hide KidsBytes, Insert, Regular, HeaderBytes;
  }

  lemma PossibleNone(n: Node)
    requires n.Box? && Sized(n)
    ensures Possible(n, [])
  {
  }

  lemma PossiblePut(n: Node, ops: seq<Op>)
    requires n.Box? && Sized(n) && ops != [] && ops[0].Put? && Storable(ops[0].kid)
    requires Sized(AfterPut(n, ops[0].kid)) && Possible(AfterPut(n, ops[0].kid), ops[1..])
    ensures Possible(n, ops)
  {
    hide Sized, Storable, Insert;
  }

  lemma PossibleSend(n: Node, ops: seq<Op>)
    requires n.Box? && Sized(n) && ops != [] && ops[0].Send? && Prepare(n, ops[0].net).Box?
    requires Sized(Prepare(n, ops[0].net)) && Possible(Prepare(n, ops[0].net), ops[1..])
    ensures Possible(n, ops)
  {
    hide Sized, Storable, Insert;
  }

  /** Everything put in is new, and so in host order. */
  predicate New(ops: seq<Op>) {
    forall i :: 0 <= i < |ops| && ops[i].Put? ==> !ops[i].kid.h.net
  }

  /** An object of its own for a value under a key. */
  method Make(kid: Node) returns (o: Obj)
    requires Storable(kid) && !kid.h.net
    ensures o.Valid() && o.Idle() && o.Node() == kid && fresh(o.Foot())
  {
    if kid.Text? {
      var t := new StringObj(kid.h.key, kid.data);
      o := OfString(t);
    } else if kid.h.dataType == TYPE_VECTOR_UINT32 && kid.data == seq(16, _ => 0) {
      var r := new RouteObj(kid.h.key);
      o := OfRoute(r);
    } else {
      var d := new Dson.OneObject(kid.h.dataType, kid.data);
      d.SetKey(kid.h.key);
      o := OfDson(d);
    }
  }

  /** A container at rest that holds no containers. */
  ghost predicate Plain(d: Dson)
    reads d, d.Repr
  {
    d.Valid() && d.state.Ready? && Flat(d.node) && Regular(d.node)
  }

  /** Insertions and complete sends, as they come: what goes out is what `Messages` says. */
  method Perform(d: Dson, ops: seq<Op>, window: nat) returns (sent: seq<seq<byte>>)
    requires Plain(d) && Sized(d.node) && d.node.Box? && Possible(d.node, ops) && New(ops) && window > 0
    modifies d.Repr
    ensures sent == Messages(old(d.node), ops)
    decreases |ops|
  {
    hide *;
    if ops == [] {
      NoMessages(d.node, ops);
      return [];
    }
    NextOp(d.node, ops);
    OpsUnfold(d.node, map[], ops);
    match ops[0]
    case Put(kid) =>
      PutIn(d, kid);
      sent := Perform(d, ops[1..], window);
    case Send(net) =>
      Fitting(d.node, net);
      var message := SendOut(d, net, window);
      var rest := Perform(d, ops[1..], window);
      sent := [message] + rest;
  }

  lemma NextOp(n: Node, ops: seq<Op>)
    requires New(ops) && ops != []
    ensures New(ops[1..]) && (ops[0].Put? ==> !ops[0].kid.h.net)
  {
  }

  method PutIn(d: Dson, kid: Node)
    requires Plain(d) && Sized(d.node) && d.node.Box?
    requires Storable(kid) && !kid.h.net && Sized(AfterPut(d.node, kid))
    modifies d.Repr
    ensures Plain(d) && d.node == AfterPut(old(d.node), kid) && fresh(d.Repr - old(d.Repr))
  {
    hide *;
    PlainParts(d);
    PutKeeps(d.node, kid);
    PutFits(d.node, kid);
    var o := Make(kid);
    d.Emplace(o);
    PlainWhole(d);
  }

  method SendOut(d: Dson, net: bool, window: nat) returns (message: seq<byte>)
    requires Plain(d) && Sized(d.node) && window > 0
    modifies d.Repr
    ensures Plain(d) && d.node == Prepare(old(d.node), net) && d.Repr == old(d.Repr)
    ensures message == old(FrameOf(d.node, net))
  {
    hide *;
    PlainParts(d);
    FlatFits(d.node, net);
    PreparedContents(d.node, net);
    PrepareKeepsShape(d.node, net);
    var o := OfDson(d);
    AsDson(d);
    message := SendAll(o, net, window);
    AsDson(d);
    PlainWhole(d);
  }

  lemma PlainParts(d: Dson)
    requires Plain(d)
    ensures d.Valid() && d.state.Ready? && Flat(d.node) && Regular(d.node) && Sized(d.node) && d.node.Box?
    ensures d.kind.DsonContainer? && d in d.Repr && d.header in d.Repr
  {
  }

  lemma PlainWhole(d: Dson)
    requires d.Valid() && d.state.Ready? && Flat(d.node) && Regular(d.node)
    ensures Plain(d)
  {
  }

  lemma PutFits(n: Node, kid: Node)
    requires n.Box? && Sized(AfterPut(n, kid))
    ensures |Payload(AfterPut(n, kid))| <= MAX_DSON_RAM_SIZE
  {
  }

  lemma FlatFits(n: Node, net: bool)
    requires Flat(n)
    ensures Fits(n, net)
  {
    hide Sized, Footprint;
  }

  // ----- the receiving side -----

  /** A message that comes in pieces is there, whole, once the last of it is. */
  method LoadPieces(pieces: seq<seq<byte>>, ghost f: seq<byte>) returns (d: Dson)
    requires IsFrame(f) && f <= Join(pieces)
    ensures fresh(d) && d.Holds(f) && fresh(d.header) && (d.buf != null ==> fresh(d.buf))
  {
    hide *;
    FrameInChunks(f, pieces);
    d := new Dson();
    AtRest(d);
    var r, i := InProcess, 0;
    assert pieces[0..] == pieces;
    while r.InProcess?
      invariant i <= |pieces| && fresh(d) && d.Loadable() && fresh(d.header) && (d.buf != null ==> fresh(d.buf))
      invariant r.InProcess? ==> FeedAll(d.Received(), pieces[i..]) == Loaded(f)
      invariant r.Ready? ==> d.Holds(f)
      invariant r.InProcess? || r.Ready?
      decreases |pieces| - i, r.InProcess?
    {
      FeedAllStep(d.Received(), pieces, i);
      r := LoadPiece(d, pieces[i]);
      i := i + 1;
    }
  }

  lemma AtRest(d: Dson)
    requires d.Valid() && d.state.Ready? && d.node.Box?
    ensures d.Loadable() && d.Received() == [] && d.buf == null && d.header in d.Repr && d in d.Repr
  {
  }

  lemma FeedAllStep(prior: seq<byte>, pieces: seq<seq<byte>>, i: nat)
    requires i <= |pieces| && FeedAll(prior, pieces[i..]).Loaded?
    ensures i < |pieces|
    ensures match Feed(prior, pieces[i])
            case Waiting(partial) => FeedAll(partial, pieces[i + 1..]) == FeedAll(prior, pieces[i..])
            case other => other == FeedAll(prior, pieces[i..])
  {
    hide Outcome;
    if i < |pieces| {
      assert pieces[i..][1..] == pieces[i + 1..];
    }
  }

  method LoadPiece(d: Dson, piece: seq<byte>) returns (r: Result)
    requires d.Loadable()
    modifies d, d.header, d.buf
    ensures d.buf == null || d.buf == old(d.buf) || fresh(d.buf)
    ensures d.Loadable()
    ensures match Feed(old(d.Received()), piece)
            case Waiting(partial) => r.InProcess? && d.Received() == partial
            case Loaded(f) => r.Ready? && d.Holds(f)
            case Broken => r.Error?
  {
    hide *;
    var mem := new byte[|piece|](i requires 0 <= i < |piece| => piece[i]);
    assert mem[0..|piece|] == piece;
    r := d.LoadFromBuf(mem, 0, |piece|);
    Loadings(d, r, Feed(old(d.Received()), piece));
  }

  lemma Loadings(d: Dson, r: Result, fed: Fed)
    requires d.LoadedTo(r, fed)
    ensures d.Loadable()
    ensures match fed
            case Waiting(partial) => r.InProcess? && d.Received() == partial
            case Loaded(f) => r.Ready? && d.Holds(f)
            case Broken => r.Error?
  {
  }

  /** From pieces to `get`: whatever pieces a message arrives in, what is found under a key
      in host order, type and payload as they stand, is what the message shows there, and
      nothing is found under other keys. */
  method Fetch(pieces: seq<seq<byte>>, k: int32, ghost f: seq<byte>, ghost m: map<int32, (int32, Value)>)
    returns (got: Option<(int32, Value)>)
    requires Shows(f, m) && |f| >= 16 && CleanKey(f[16..], k) && f <= Join(pieces)
    ensures got == if k in m then Some(m[k]) else None
  {
    hide *;
    ShownParts(f, m);
    var d := LoadPieces(pieces, f);
    var l := Open(d, f);
    got := Lookup(l, k, f, m);
  }

  lemma ShownParts(f: seq<byte>, m: map<int32, (int32, Value)>)
    requires Shows(f, m)
    ensures IsFrame(f) && |f| >= 16 && (|f| == 16 ==> m == map[])
  {
    if |f| == 16 {
      assert f[16..] == [];
    }
  }

  /** The loaded object, to be looked into. */
  method Open(d: Dson, ghost f: seq<byte>) returns (l: LoadedDson)
    requires d.Holds(f)
    ensures fresh(l) && Opened(l, f) && l.header == d.header && (l.buf == d.buf || fresh(l.buf))
  {
    hide *;
    HeldParts(d, f);
    var buf: array<byte>;
    if d.buf == null {
      buf := new byte[0];
      assert d.header[..] + buf[..] == f;
    } else {
      buf := d.buf;
    }
    l := new LoadedDson(d.header, buf);
    OpenedWhole(l, f);
  }

  /** The frame `f`, loaded and not yet parsed. */
  ghost predicate Opened(l: LoadedDson, f: seq<byte>)
    reads l, l.header, l.buf
  {
    && l.Valid() && l.Intact() && l.state.Ready? && l.views == map[]
    && l.kind == (if l.buf.Length == 0 then DsonContainer else DataBufNeedParse) && l.header[..] + l.buf[..] == f
  }

  lemma OpenedWhole(l: LoadedDson, f: seq<byte>)
    requires l.Valid() && l.Intact() && l.state.Ready? && l.views == map[]
    requires l.kind == (if l.buf.Length == 0 then DsonContainer else DataBufNeedParse) && l.header[..] + l.buf[..] == f
    ensures Opened(l, f)
  {
  }

  lemma HeldParts(d: Dson, f: seq<byte>)
    requires d.Holds(f)
    ensures d.header.Length == 16 && IsFrame(f)
    ensures d.buf == null ==> d.header[..] == f
    ensures d.buf != null ==> d.header[..] + d.buf[..] == f && d.header != d.buf
  {
    assert f == f[..16] + f[16..];
  }

  method Lookup(l: LoadedDson, k: int32, ghost f: seq<byte>, ghost m: map<int32, (int32, Value)>)
    returns (got: Option<(int32, Value)>)
    requires Opened(l, f) && Shows(f, m) && |f| >= 16 && CleanKey(f[16..], k)
    modifies l, l.header, l.buf
    ensures got == if k in m then Some(m[k]) else None
  {
    hide *;
    ToLookUp(l, k, f, m);
    var r := l.Get(k);
    LookedUp(l, k);
    if r.Child? {
      ReadBack(old(l.buf[..]), l.buf[..], k, r.at);
      var rest := l.buf[r.at..];
      got := Some(HostSeen(rest[..FrameEnd(rest)]));
    } else {
      NotThere(l, k);
      got := None;
    }
  }

  lemma OpenedParts(l: LoadedDson, f: seq<byte>, m: map<int32, (int32, Value)>)
    requires Opened(l, f) && Shows(f, m)
    ensures l.Valid() && l.Intact() && l.state.Ready? && l.views == map[] && l.Frame() == f && |f| >= 16
    ensures l.header[..] + l.buf[..] == f
    ensures l.kind == if l.buf.Length == 0 then DsonContainer else DataBufNeedParse
    ensures l.header.Length == |l.header[..]| == 16 && |l.buf[..]| == l.buf.Length <= MAX_DSON_RAM_SIZE
    ensures f[16..] == l.buf[..] && f[..16] == l.header[..] && Tiles(l.buf[..]) && Visible(l.buf[..]) == m
    ensures ReadHeader(l.header[..], 0) == ReadHeader(f, 0) && ValidMark(f, 0) == ValidMark(l.header[..], 0)
    ensures l.kind.DataBufNeedParse? ==> l.DataType() == TYPE_CONTAINER == Field(l.header[..], 0, 3)
  {
    hide Tiles, Visible, Agree, ValidMark, Field;
    FieldsOfFrame(l.header[..], l.buf[..]);
    assert f[16..] == l.buf[..] && f[..16] == l.header[..];
  }

  lemma ToLookUp(l: LoadedDson, k: int32, f: seq<byte>, m: map<int32, (int32, Value)>)
    requires Opened(l, f) && Shows(f, m) && |f| >= 16 && CleanKey(f[16..], k)
    ensures l.Valid() && l.Within(k) && l.Intact() && l.state.Ready? && l.header.Length == 16
    ensures !l.kind.OneObjectInDataBuf? && (l.kind.DataBufNeedParse? ==> l.DataType() == TYPE_CONTAINER)
    ensures Tiles(l.buf[..]) && Visible(l.buf[..]) == m && CleanKey(l.buf[..], k)
  {
    OpenedParts(l, f, m);
    var d := l.buf[..];
    hide Field, Tiles, Visible, IsFrame, ReadsCleanly, CleanKey, Views, Contained, Agree, ReadHeader;
    ViewOfKey(d, 0, k);
    if k in FramesIn(d) {
      GetInPlace(d, k);
    }
  }

  lemma LookedUp(l: LoadedDson, k: int32)
    requires l.header.Length == 16 && l.kind.DsonContainer? && l.state.Ready?
    ensures l.Answers(k) <==> k in l.views
  {
  }

  lemma NotThere(l: LoadedDson, k: int32)
    requires l.kind.DsonContainer? && l.Intact()
    ensures k in l.views <==> k in Visible(l.buf[..])
  {
    hide Agree;
    AgreeKeys(l.buf[..], l.views);
    VisibleAt(l.buf[..], k);
  }

  /** Where the read leaves what it found, and what that is. */
  lemma ReadBack(s: seq<byte>, r: seq<byte>, k: int32, at: nat)
    requires ChildRead(s, r, k, at) && CleanKey(s, k)
    ensures at <= |r| && StartsFrame(r[at..])
    ensures k in Visible(s) && Visible(s)[k] == HostSeen(r[at..][..FrameEnd(r[at..])])
  {
    hide *;
    ReadParted(s, r, k, at);
    ViewOfKey(s, 0, k);
    ViewOfKey(r, 0, k);
    ReadIsHost(s, k);
    var f := FramesIn(r)[k];
    LiesWhere(r, at, f);
    ChildFrameFirst(f, r[at + |f|..]);
    assert r[at..] == f + r[at + |f|..] && (f + r[at + |f|..])[..|f|] == f;
  }

  lemma ReadParted(s: seq<byte>, r: seq<byte>, k: int32, at: nat)
    requires ChildRead(s, r, k, at) && CleanKey(s, k)
    ensures k in Views(s, 0) && k in Views(r, 0) && at == Views(r, 0)[k] && r == AfterGet(s, k)
  {
    hide Seen, Visible, Tiles, Views, AfterGet, ToHostAt, CleanKey;
  }

  // ----- in between -----

  /** Store, convert and forward: a message that comes in pieces is loaded, parsed and
      written out in the order asked for; a reader of what went out sees what the message
      showed. */
  method Relay(pieces: seq<seq<byte>>, net: bool, ghost f: seq<byte>, ghost m: map<int32, (int32, Value)>)
    returns (g: seq<byte>)
    requires Shows(f, m) && |f| >= 16 && ValidMark(f, 0) && f <= Join(pieces)
    requires AllWritable(f[16..], net) && NoneEmptied(f[16..], net)
    ensures Shows(g, m) && |g| >= 16 && forall k :: CleanKey(f[16..], k) ==> CleanKey(g[16..], k)
    ensures Relayed(f, g, net)
  {
    hide *;
    ShownParts(f, m);
    var d := LoadPieces(pieces, f);
    var l := Open(d, f);
    var out := new OutStream();
    RelayedAs(f, net);
    ToRewrite(l, f, net, m);
    l.CopyToStream(net, out);
    g := out.bytes;
    assert forall s: seq<byte> :: [] + s == s;
  }

  /** What goes out is what came in, if that has a payload and is in the order asked for, and else
      what rewriting makes of it: in the order asked for, under the same key. */
  predicate Relayed(f: seq<byte>, g: seq<byte>, net: bool) {
    && |f| >= 16 && |g| >= 16 && |f| - 16 <= MAX_DSON_RAM_SIZE
    && g == (if |f| > 16 && ReadHeader(f, 0).net == net then f else Rewritten(ReadHeader(f, 0), f[16..], net))
    && HeaderOf(g, ReadHeader(f, 0).key, net)
  }

  lemma RelayedAs(f: seq<byte>, net: bool)
    requires IsFrame(f) && |f| >= 16 && ValidMark(f, 0) && NoneEmptied(f[16..], net)
    ensures |f| - 16 <= MAX_DSON_RAM_SIZE
    ensures var h := ReadHeader(f, 0);
            Relayed(f, if |f| > 16 && h.net == net then f else Rewritten(h, f[16..], net), net)
    ensures InOrder(f, 0, net) <==> ReadHeader(f, 0).net == net
  {
    hide *;
    OrderOf(f, net);
    FrameParts(f);
    SizeOfFrame(f);
    var h := ReadHeader(f, 0);
    if |f| > 16 && h.net == net {
      RelayedWhen(f, f, net);
    } else {
      var g := Rewritten(h, f[16..], net);
      RewrittenFrames(h, f[16..], net);
      RewrittenMark(h, f[16..], net);
      FrameParts(g);
      KeptType(h, g, net);
      RelayedWhen(f, g, net);
    }
  }

  lemma SizeOfFrame(f: seq<byte>)
    requires IsFrame(f)
    ensures |f| - 16 <= MAX_DSON_RAM_SIZE
  {
  }

  lemma RelayedWhen(f: seq<byte>, g: seq<byte>, net: bool)
    requires |f| >= 16 && |g| >= 16 && |f| - 16 <= MAX_DSON_RAM_SIZE
    requires g == (if |f| > 16 && ReadHeader(f, 0).net == net then f else Rewritten(ReadHeader(f, 0), f[16..], net))
    requires ValidMark(g, 0) && ReadHeader(g, 0).key == ReadHeader(f, 0).key
    requires ReadHeader(g, 0).net == net && ReadHeader(g, 0).size == |g| - 16
    ensures Relayed(f, g, net)
  {
    hide ReadHeader, Rewritten, ValidMark;
  }

  /** What the writer of a loaded message makes of it. */
  lemma ToRewrite(l: LoadedDson, f: seq<byte>, net: bool, m: map<int32, (int32, Value)>)
    requires Opened(l, f) && Shows(f, m) && |f| >= 16 && ValidMark(f, 0)
    requires AllWritable(f[16..], net) && NoneEmptied(f[16..], net)
    ensures l.Valid() && l.header.Length == 16 && l.Convertible(net) && l.Intact() && l.Frame() == f
    ensures |l.buf[..]| == l.buf.Length <= MAX_DSON_RAM_SIZE && Tiles(l.buf[..]) && l.state.Ready?
    ensures !l.kind.OneObjectInDataBuf?
    ensures l.kind.DsonContainer? || !InOrder(l.header[..], 0, net) ==> l.Container(net)
    ensures f[16..] == l.buf[..] && ReadHeader(l.header[..], 0) == ReadHeader(f, 0)
    ensures (l.kind.DsonContainer? <==> |f| == 16) && InOrder(l.header[..], 0, net) == InOrder(f, 0, net)
    ensures var g := Rewritten(ReadHeader(l.header[..], 0), l.buf[..], net);
            Shows(g, m) && forall k :: CleanKey(f[16..], k) ==> CleanKey(g[16..], k)
  {
    hide *;
    OpenedParts(l, f, m);
    FieldParts(l.header[..], 0);
    RewrittenShows(ReadHeader(l.header[..], 0), l.buf[..], net);
    WillConvert(l, net);
    SameMark(l.header[..], l.buf[..], net);
  }

  lemma SameMark(h: seq<byte>, d: seq<byte>, net: bool)
    requires |h| == 16
    ensures InOrder(h + d, 0, net) == InOrder(h, 0, net)
  {
    FieldsOfFrame(h, d);
  }

  lemma WillConvert(l: LoadedDson, net: bool)
    requires l.Valid() && l.state.Ready? && !l.kind.OneObjectInDataBuf?
    requires l.kind.DataBufNeedParse? ==> Field(l.header[..], 0, 3) == TYPE_CONTAINER
    requires ValidMark(l.header[..], 0) && AllWritable(l.buf[..], net)
    ensures l.Convertible(net)
    ensures l.kind.DsonContainer? || !InOrder(l.header[..], 0, net) ==> l.Container(net)
  {
    hide Field, ValidMark, AllWritable, InOrder, Writable;
  }

  // ----- both sides -----

  /** A stream cut up: pieces of the given sizes, and the rest. */
  function Cut(s: seq<byte>, sizes: seq<nat>): (pieces: seq<seq<byte>>)
    decreases |sizes|
  {
    if sizes == [] || sizes[0] > |s| then [s] else [s[..sizes[0]]] + Cut(s[sizes[0]..], sizes[1..])
  }

  lemma {:induction false} CutJoins(s: seq<byte>, sizes: seq<nat>)
    ensures Join(Cut(s, sizes)) == s
    decreases |sizes|
  {
    if sizes == [] || sizes[0] > |s| {
      assert [s][1..] == [] && s + [] == s;
    } else {
      var rest := Cut(s[sizes[0]..], sizes[1..]);
      CutJoins(s[sizes[0]..], sizes[1..]);
      assert ([s[..sizes[0]]] + rest)[1..] == rest;
    }
  }

  /** A container is filled and sent, over and over; message `i` comes in cut up somehow;
      and what `get` finds there under `k` is what was last put under `k` before that
      message was sent. */
  method Exchange(d: Dson, ops: seq<Op>, window: nat, i: nat, sizes: seq<nat>, k: int32)
    returns (got: Option<(int32, Value)>)
    requires Plain(d) && Sized(d.node) && d.node.Box? && Possible(d.node, ops) && New(ops) && window > 0
    requires i < |Messages(d.node, ops)|
    modifies d.Repr
    ensures var promised := Promised(old(Contents(d.node.kids)), ops);
            i < |promised| && got == if k in promised[i] then Some(promised[i][k]) else None
    ensures Answered(ops, i, k, old(Contents(d.node.kids)), got)
  {
    hide *;
    PlainParts(d);
    ghost var promised := Promised(Contents(d.node.kids), ops);
    CutJoins(Messages(d.node, ops)[i], sizes);
    MessagesShowPromised(d.node, ops, i, Cut(Messages(d.node, ops)[i], sizes));
    Answers(d.node, ops, i, k);
    var sent := Perform(d, ops, window);
    got := Fetch(Cut(sent[i], sizes), k, sent[i], promised[i]);
  }

  /** The whole way, from nothing: a new container is given a key, filled and sent over and over;
      message `i` comes in cut up somehow, says that key, and gives under `k` what was last put
      there before it was sent, or nothing. */
  method Deliver(key: int32, ops: seq<Op>, window: nat, i: nat, sizes: seq<nat>, k: int32)
    returns (from: int32, got: Option<(int32, Value)>)
    requires New(ops) && AllStorable(ops) && Weight(ops) <= MAX_DSON_RAM_SIZE && window > 0 && i < |Orders(ops)|
    ensures from == key
    ensures match LastPut(ops, i, k, None)
            case Some(kid) => !kid.Box? && (kid.h.dataType == 8 ==> |kid.data| >= 13) && got == Some(AsPut(kid))
            case None => got.None?
  {
    hide *;
    var d := new Dson();
    AtRest(d);
    d.SetKey(key);
    ghost var n := d.node;
    NewContainer(d);
    LightIsPossible(n, ops);
    MessageHeaders(n, ops);
    ghost var promised := Promised(Contents(n.kids), ops);
    CutJoins(Messages(n, ops)[i], sizes);
    MessagesShowPromised(n, ops, i, Cut(Messages(n, ops)[i], sizes));
    Answers(n, ops, i, k);
    ShownParts(Messages(n, ops)[i], promised[i]);
    var sent := Perform(d, ops, window);
    var loaded := LoadPieces(Cut(sent[i], sizes), sent[i]);
    LoadedKey(loaded, sent[i], key, Orders(ops)[i]);
    from := loaded.Key();
    var l := Open(loaded, sent[i]);
    got := Lookup(l, k, sent[i], promised[i]);
    AnsweredIs(ops, i, k, map[], got);
  }

  lemma NewContainer(d: Dson)
    requires d.Valid() && d.state.Ready? && d.node.Box? && d.node.kids == [] && d.node.h.dataType == TYPE_EMPTY
    ensures Plain(d) && Flat(d.node) && Regular(d.node) && Sized(d.node) && |Payload(d.node)| == 0
    ensures Contents(d.node.kids) == map[]
  {
    Childless(d.node.h);
  }

  lemma LoadedKey(d: Dson, f: seq<byte>, key: int32, net: bool)
    requires d.Holds(f) && |f| >= 16 && HeaderOf(f, key, net)
    ensures d.Valid() && d.node.h.key == key
  {
    assert Sound(f);
    d.HeldIsValid(f);
    hide ReadHeader, ValidMark, IsFrame;
  }

  lemma AnsweredIs(ops: seq<Op>, i: nat, k: int32, m: map<int32, (int32, Value)>, got: Option<(int32, Value)>)
    requires Answered(ops, i, k, m, got)
    ensures match LastPut(ops, i, k, None)
            case Some(kid) => !kid.Box? && (kid.h.dataType == 8 ==> |kid.data| >= 13) && got == Some(AsPut(kid))
            case None => got == if k in m then Some(m[k]) else None
  {
  }

  /** What is found is what was put in: type and payload of the object last put under the key, as
      they were given, or else what the container held to begin with. */
  predicate Answered(ops: seq<Op>, i: nat, k: int32, m: map<int32, (int32, Value)>, got: Option<(int32, Value)>) {
    match LastPut(ops, i, k, None)
    case Some(kid) => !kid.Box? && (kid.h.dataType == 8 ==> |kid.data| >= 13) && got == Some(AsPut(kid))
    case None => got == if k in m then Some(m[k]) else None
  }

  lemma Answers(n: Node, ops: seq<Op>, i: nat, k: int32)
    requires n.Box? && Sized(n) && Possible(n, ops) && New(ops)
    requires i < |Promised(Contents(n.kids), ops)|
    ensures var m := Contents(n.kids);
            var p := Promised(m, ops)[i];
            Answered(ops, i, k, m, if k in p then Some(p[k]) else None)
  {
    hide *;
    var m := Contents(n.kids);
    PromisedIsLastPut(m, ops, i, k, None);
    LastPutStorable(n, ops, i, k, None);
    match LastPut(ops, i, k, None) {
      case Some(kid) => ItemAsPut(kid);
      case None =>
    }
    AnsweredWhen(ops, i, k, m);
  }

  lemma AnsweredWhen(ops: seq<Op>, i: nat, k: int32, m: map<int32, (int32, Value)>)
    requires i < |Promised(m, ops)|
    requires match LastPut(ops, i, k, None)
             case Some(kid) =>
               && !kid.Box? && (kid.h.dataType == 8 ==> |kid.data| >= 13)
               && k in Promised(m, ops)[i] && Promised(m, ops)[i][k] == AsPut(kid)
             case None =>
               (k in Promised(m, ops)[i] <==> k in m) && (k in m ==> Promised(m, ops)[i][k] == m[k])
    ensures var p := Promised(m, ops)[i]; Answered(ops, i, k, m, if k in p then Some(p[k]) else None)
  {
    hide Promised, LastPut, AsPut;
  }

  /** What is put in is new and may be stored. */
  lemma {:induction false} LastPutStorable(n: Node, ops: seq<Op>, i: nat, k: int32, last: Option<Node>)
    requires n.Box? && Sized(n) && Possible(n, ops) && New(ops)
    requires last.Some? ==> Storable(last.value) && !last.value.h.net && last.value.h.key == k
    ensures match LastPut(ops, i, k, last)
            case Some(kid) => Storable(kid) && !kid.h.net && !kid.Box? && kid.h.key == k
            case None => true
    decreases |ops|
  {
    hide *;
    StorableIsSingle(last);
    LastPutUnfold(ops, i, k, last);
    if ops != [] {
      NextOp(n, ops);
      OpsUnfold(n, map[], ops);
      match ops[0]
      case Put(kid) =>
        LastPutStorable(AfterPut(n, kid), ops[1..], i, k, if kid.h.key == k then Some(kid) else last);
      case Send(net) =>
        if i > 0 {
          LastPutStorable(Prepare(n, net), ops[1..], i - 1, k, last);
        }
    }
  }

  lemma StorableIsSingle(last: Option<Node>)
    requires last.Some? ==> Storable(last.value)
    ensures last.Some? ==> !last.value.Box?
  {
  }

  /** Every message of a session is that of a container of single objects. */
  lemma {:induction false} MessageNode(n: Node, ops: seq<Op>, i: nat) returns (p: Node, order: bool)
    requires Flat(n) && n.Box? && Sized(n) && Regular(n) && Possible(n, ops) && i < |Messages(n, ops)|
    ensures Flat(p) && Sized(p) && Regular(p) && Messages(n, ops)[i] == Bytes(Prepare(p, order))
    decreases |ops|
  {
    hide *;
    if ops == [] {
      NoMessages(n, ops);
    }
    OpsUnfold(n, map[], ops);
    match ops[0]
    case Put(kid) =>
      PutKeeps(n, kid);
      p, order := MessageNode(AfterPut(n, kid), ops[1..], i);
    case Send(net) =>
      if i == 0 {
        p, order := n, net;
      } else {
        PrepareKeepsShape(n, net);
        PreparedContents(n, net);
        p, order := MessageNode(Prepare(n, net), ops[1..], i - 1);
      }
  }

  /** The same with a relay in between, which loads the message from pieces and writes it out
      again in either order: what `get` finds at the far end is still what was last put under
      `k` before that message was sent. */
  method ExchangeThroughRelay(d: Dson, ops: seq<Op>, window: nat, i: nat, sizes: seq<nat>, net: bool,
                              further: seq<nat>, k: int32)
    returns (got: Option<(int32, Value)>)
    requires Plain(d) && Sized(d.node) && d.node.Box? && Possible(d.node, ops) && New(ops) && window > 0
    requires i < |Messages(d.node, ops)|
    modifies d.Repr
    ensures var promised := Promised(old(Contents(d.node.kids)), ops);
            i < |promised| && got == if k in promised[i] then Some(promised[i][k]) else None
    ensures Answered(ops, i, k, old(Contents(d.node.kids)), got)
  {
    hide *;
    PlainParts(d);
    ghost var promised, message := Promised(Contents(d.node.kids), ops), Messages(d.node, ops)[i];
    CutJoins(message, sizes);
    MessagesShowPromised(d.node, ops, i, Cut(message, sizes));
    Answers(d.node, ops, i, k);
    ghost var n, order := MessageNode(d.node, ops, i);
    MessageWritable(n, order, net);
    var sent := Perform(d, ops, window);
    var relayed := Relay(Cut(sent[i], sizes), net, sent[i], promised[i]);
    CutJoins(relayed, further);
    got := Fetch(Cut(relayed, further), k, relayed, promised[i]);
  }
}
