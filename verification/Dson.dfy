/** The container.  An object tree is a `Dson` whose children are strings, routes or
    further `Dson`s; `Obj` is the choice that virtual calls make. */
module DsonCore {
  import opened Memory
  import opened Headers
  import opened Converters
  import opened Frames
  import opened Insertion
  import opened Prepared
  import opened Loading
  import opened Forwarding
  import opened Transport
  import opened DsonObj
  import opened DsonStringObj
  import opened DsonRouteObj

  datatype Obj = OfDson(dson: Dson) | OfString(text: StringObj) | OfRoute(route: RouteObj) {
    ghost function Handle(): object {
      match this
      case OfDson(d) => d
      case OfString(t) => t
      case OfRoute(r) => r
    }

    /** Everything the object is made of. */
    ghost function Foot(): set<object>
      reads Handle()
    {
      match this
      case OfDson(d) => d.Repr
      case OfString(t) => {t, t.header}
      case OfRoute(r) => {r, r.buf}
    }

    ghost predicate Valid()
      reads Handle(), Foot()
      ensures Valid() ==> Handle() in Foot() && Sized(Node())
      decreases Foot(), 1
    {
      match this
      case OfDson(d) => d.Valid()
      case OfString(t) => t.Valid()
      case OfRoute(r) => r.Valid()
    }

    ghost function Node(): Node
      reads Handle()
    {
      match this
      case OfDson(d) => d.node
      case OfString(t) => t.node
      case OfRoute(r) => r.node
    }

    /** `key()`. */
    function Key(): (key: int32)
      requires Valid()
      reads Handle(), Foot()
      ensures key == Node().h.key
    {
      match this
      case OfDson(d) => d.Key()
      case OfString(t) => t.Key()
      case OfRoute(r) => r.Key()
    }

    ghost function Sent(): nat
      reads Handle()
    {
      match this
      case OfDson(d) => d.sent
      case OfString(t) => t.sent
      case OfRoute(r) => r.sent
    }

    ghost predicate Idle()
      reads Handle()
    {
      match this
      case OfDson(d) => d.state.Ready?
      case OfString(t) => t.state.Ready?
      case OfRoute(r) => r.state.Ready?
    }

    ghost function Order(): bool
      reads Handle()
    {
      match this
      case OfDson(d) => d.order
      case OfString(t) => t.order
      case OfRoute(r) => r.order
    }

    /** A copy in the given order may start or go on. */
    ghost predicate Resumable(net: bool)
      reads Handle()
    {
      (Idle() || Order() == net) && Fits(Node(), net)
    }
  }

  datatype Entry = Entry(key: int32, obj: Obj)

  /** The objects in `children` are distinct, lie within `region`, hold `kids`, and are
      idle but for the one at `busy`. */
  ghost predicate Held(children: seq<Entry>, kids: seq<Node>, busy: int, region: set<object>)
    reads region
    decreases region, 2
  {
    && |kids| == |children|
    && (forall i :: 0 <= i < |children| ==> children[i].obj.Handle() in region)
    && (forall i :: 0 <= i < |children| ==> children[i].obj.Foot() <= region)
    && (forall i, j :: 0 <= i < j < |children| ==> children[i].obj.Foot() !! children[j].obj.Foot())
    && (forall i :: 0 <= i < |children| ==> children[i].obj.Valid())
    && (forall i :: 0 <= i < |children| ==> children[i].obj.Node() == kids[i])
    && (forall i :: 0 <= i < |children| ==> children[i].key == kids[i].h.key)
    && (forall i :: 0 <= i < |children| && i != busy ==> children[i].obj.Idle())
  }

  /** How much of child `i` is already out. */
  ghost function Pending(children: seq<Entry>, i: nat, region: set<object>): nat
    reads region
  {
    if i < |children| && children[i].obj.Handle() in region then children[i].obj.Sent() else 0
  }

  /** A loop over the children in progress: those before `i` are done. */
  ghost predicate Underway(children: seq<Entry>, n: Node, i: nat, region: set<object>, net: bool)
    reads region
    decreases region, 3
  {
    && n.Box? && Sized(n) && Fits(n, net)
    && Held(children, n.kids, i, region)
    && i <= |children| == |n.kids|
    && (forall j :: 0 <= j < i ==> Sized(n.kids[j]) && Prepare(n.kids[j], net) == n.kids[j])
    && (i < |children| ==> children[i].obj.Handle() in region)
    && (i < |children| ==> children[i].obj.Idle() || children[i].obj.Order() == net)
  }

  /** How much of the container's frame is out by then. */
  ghost function Position(children: seq<Entry>, n: Node, i: nat, region: set<object>): nat
    reads region
  {
    16 + (if n.Box? && i <= |n.kids| then |KidsBytes(n.kids, i)| else 0) + Pending(children, i, region)
  }

  class Dson {
    const header: array<byte>
    var buf: array?<byte>
    var kind: Kind
    var children: seq<Entry>
    var iter: nat
    var state: State
    var offset: nat

    ghost var Repr: set<object>
    ghost var node: Node   // what the object holds
    ghost var sent: nat    // how much of its frame the copy in progress has emitted
    ghost var order: bool  // the order of that copy

    ghost predicate Valid()
      reads this, Repr
      ensures Valid() ==> this in Repr && Sized(node)
      decreases Repr, 0
    {
      && this in Repr && header in Repr
      && header[..] == HeaderBytes(node.h)
      && Sized(node) && sent <= |Bytes(node)|
      && (if kind.DsonContainer? then buf == null && node.Box? && Ascending(node.kids)
          else buf != null && buf in Repr && Buffer())
      && match state
         case Ready => sent == 0 && (kind.DsonContainer? ==> Held(children, node.kids, -1, Region()))
         case CopyingHeader =>
           sent == offset < 16 && Started() && (kind.DsonContainer? ==> Held(children, node.kids, -1, Region()))
         case CopyingData =>
           Started() && if kind.DsonContainer? then
             Underway(children, node, iter, Region(), order) && sent == Position(children, node, iter, Region())
           else sent == 16 + offset && offset < |node.data|
         case _ => false
    }

    /** One object, or a loaded frame, in a buffer of its own. */
    ghost predicate Buffer()
      reads this, buf
    {
      && buf != null && buf in Repr && buf != header
      && node == Leaf(node.h, buf[..])
      && (kind.OneObjectInDataBuf? ==> node.h.dataType != TYPE_CONTAINER)
    }

    ghost function Region(): set<object>
      reads this
    {
      Repr - {this, header}
    }

    /** The header already is the one the copy emits. */
    ghost predicate Started()
      reads this
    {
      && Sized(node) && Fits(node, order)
      && node.h == Prepare(node, order).h && (!node.Box? ==> node == Prepare(node, order))
    }

    // ----- building -----

    /** `Dson()`: an empty container. */
    constructor ()
      ensures Valid() && fresh(Repr) && state.Ready? && kind == DsonContainer
      ensures node == Box(Header(false, 0, 0, TYPE_EMPTY), []) && TYPE_EMPTY == 0
    {
      hide HeaderBytes, Sized, Bytes, Payload;
      var h := Header(false, 0, 0, TYPE_EMPTY);
      var s := HeaderBytes(h);
      Childless(h);
      header := new byte[16](i requires 0 <= i < 16 => s[i]);
      buf, kind, children, iter := null, DsonContainer, [], 0;
      state, offset := State.Ready, 0;
      node, sent, order := Box(h, []), 0, false;
      new;
      Repr := {this, header};
      assert header[..] == s;
    }

    /** `Dson(T)` through `init`: one object, in host order.  Its key is not set. */
    constructor OneObject(dataType: int32, data: seq<byte>)
      requires 0 < |data| <= MAX_DSON_RAM_SIZE && dataType != TYPE_CONTAINER
      ensures Valid() && fresh(Repr) && state.Ready? && kind == OneObjectInDataBuf
      ensures node == Leaf(Header(false, |data|, node.h.key, dataType), data)
    {
      var key: int32 := *;
      var h := Header(false, |data|, key, dataType);
      SizedLeaf(h, data);
      hide HeaderBytes, Sized, Bytes, Payload;
      var s := HeaderBytes(h);
      header := new byte[16](i requires 0 <= i < 16 => s[i]);
      buf := new byte[|data|](i requires 0 <= i < |data| => data[i]);
      kind, children, iter := OneObjectInDataBuf, [], 0;
      state, offset := State.Ready, 0;
      node, sent, order := Leaf(h, data), 0, false;
      new;
      Repr := {this, header, buf};
      assert header[..] == s && buf[..] == data;
    }

    function Key(): (key: int32)
      requires Valid()
      reads this, Repr
      ensures key == node.h.key
    {
      ReadWritten(node.h);
      Field(header[..], 0, 2)
    }

    /** `is_network_order`. */
    function InNetworkOrder(): (net: bool)
      requires Valid()
      reads this, Repr
      ensures net == node.h.net
    {
      ReadWritten(node.h);
      IsNetworkOrder(header[..], 0)
    }

    /** `set_key`. */
    method SetKey(key: int32)
      requires Valid()
      modifies header, `node
      ensures Valid() && node == WithKey(old(node), key) && Key() == key
      ensures node.h == old(node).h.(key := key) && node.Box? == old(node).Box?
      ensures if node.Box? then node.kids == old(node).kids else node.data == old(node).data
    {
      hide HeaderBytes, Sized, Payload, Bytes, Prepare, Fits, Held, Underway, Position, KidsBytes, Ascending;
      WithKeyPrepared(node, key, order);
      WithKeyIs(node, key);
      if state.CopyingData? && kind.DsonContainer? {
        UnderwayKeyed(children, node, iter, Region(), order, key);
      }
      SetHeaderField(header, 2, key, node.h);
      node := WithKey(node, key);
    }

    /** `emplace` into a container: the object goes where its key belongs, in place of
        any other with that key, and the container is marked as one. */
    method Emplace(obj: Obj)
      requires Valid() && state.Ready? && kind.DsonContainer?
      requires obj.Valid() && obj.Idle() && obj.Foot() !! Repr
      requires |Payload(AfterPut(node, obj.Node()))| <= MAX_DSON_RAM_SIZE
      modifies this, header
      ensures Valid() && state.Ready? && kind.DsonContainer?
      ensures node == AfterPut(old(node), old(obj.Node())) && Repr == old(Repr + obj.Foot())
      ensures Key() == old(Key()) && InNetworkOrder() == old(InNetworkOrder())
      ensures node.Box? && old(node).Box? && node.h == old(node).h.(dataType := 1)
      ensures var kid := old(obj.Node()); ByKey(node.kids) == ByKey(old(node).kids)[kid.h.key := kid]
    {
      hide *;
      ghost var n, kid, region := node, obj.Node(), Region();
      ContainerParts();
      AfterPutParts(n, kid);
      AfterPutIs(n, kid);
      var key := obj.Key();
      var i := LowerBound(children, key);
      var j := if i < |children| && children[i].key == key then i + 1 else i;
      HeldKeys(children, n.kids, region);
      InsertAt(n.kids, kid, i, j);
      HeldInserted(children, n.kids, region, i, j, Entry(key, obj));
      PutEntry(children[..i] + [Entry(key, obj)] + children[j..], kid, region + obj.Foot());
    }

    lemma ContainerParts()
      requires Valid() && state.Ready? && kind.DsonContainer?
      ensures node.Box? && Sized(node) && Ascending(node.kids) && Held(children, node.kids, -1, Region())
      ensures this in Repr && header in Repr && Repr == Region() + {this, header}
      ensures this !in Region() && header !in Region()
      ensures header[..] == HeaderBytes(node.h) && buf == null && sent == 0
    {
    }

    method PutEntry(all: seq<Entry>, ghost kid: Node, ghost region: set<object>)
      requires Valid() && state.Ready? && kind.DsonContainer? && node.Box?
      requires Sized(AfterPut(node, kid)) && Ascending(AfterPut(node, kid).kids)
      requires this !in region && header !in region && Held(all, AfterPut(node, kid).kids, -1, region)
      modifies this, header
      ensures Valid() && state.Ready? && kind.DsonContainer?
      ensures node == AfterPut(old(node), kid) && Repr == region + {this, header}
    {
      ghost var n := AfterPut(node, kid);
      SetHeaderField(header, 3, TYPE_CONTAINER, node.h);
      hide HeaderBytes, Sized, Payload, Bytes, Held, Ascending, Insert;
      children := all;
      node, Repr := n, region + {this, header};
      assert Region() == region;
    }

    // ----- reading -----

    /** What a read may have to convert has room. */
    ghost predicate ReadableAt(k: int32)
      reads this
    {
      if node.Box? then forall i :: 0 <= i < |node.kids| && node.kids[i].h.key == k ==> Readable(node.kids[i])
      else Readable(node)
    }

    /** `get` on an object that needs no parsing: the object itself or the child under the
        key, if it is there, and if it is a `Dson`, brought into host order; nothing in the
        middle of a copy.  Whatever is sent next still means the same. */
    method Get(k: int32) returns (found: Option<Obj>)
      requires Valid() && !kind.DataBufNeedParse? && ReadableAt(k)
      modifies Repr
      ensures Valid() && Repr == old(Repr) && kind == old(kind) && state == old(state) && children == old(children)
      ensures Meaning(node) == Meaning(old(node)) && (Regular(old(node)) ==> Regular(node))
      ensures found.None? ==> node == old(node)
      ensures !old(state.Ready?) ==> found.None?
      ensures old(state.Ready?) && !kind.DsonContainer? ==>
        if k == old(node.h.key) then found == Some(OfDson(this)) && node == ReadNode(old(node)) else found.None?
      ensures old(state.Ready?) && kind.DsonContainer? ==>
        node.Box? && (found.Some? <==> exists n :: n in node.kids && n.h.key == k)
      ensures old(state.Ready?) && kind.DsonContainer? && found.Some? ==>
        exists i :: 0 <= i < |children| && ChildFound(old(node), i, k, found.value)
    {
      hide *;
      InRepr();
      if !state.Ready? {
        return None;
      }
      ReadableSelf(k);
      if kind.DsonContainer? {
        found := GetChild(k);
      } else {
        if Key() != k {
          return None;
        }
        ReadKeepsMeaning(node);
        ToHost();
        found := Some(OfDson(this));
      }
    }

    lemma ReadableSelf(k: int32)
      requires Valid() && ReadableAt(k)
      ensures Sized(node) && (!kind.DsonContainer? ==> Readable(node))
      ensures kind.DsonContainer? ==>
        node.Box? && forall i :: 0 <= i < |node.kids| && node.kids[i].h.key == k ==> Readable(node.kids[i])
    {
    }

    method GetChild(k: int32) returns (found: Option<Obj>)
      requires Valid() && state.Ready? && kind.DsonContainer? && node.Box?
      requires forall i :: 0 <= i < |node.kids| && node.kids[i].h.key == k ==> Readable(node.kids[i])
      modifies Repr
      ensures Valid() && Repr == old(Repr) && kind == old(kind) && state == old(state) && children == old(children)
      ensures Meaning(node) == Meaning(old(node)) && (Regular(old(node)) ==> Regular(node))
      ensures found.None? ==> node == old(node)
      ensures node.Box? && (found.Some? <==> exists n :: n in node.kids && n.h.key == k)
      ensures found.Some? ==> exists i :: 0 <= i < |children| && ChildFound(old(node), i, k, found.value)
    {
      hide *;
      ContainerParts();
      HeldKeys(children, node.kids, Region());
      var i := LowerBound(children, k);
      KeyAt(node.kids, k, i);
      if i == |children| || children[i].key != k {
        return None;
      }
      ghost var n := node;
      ReadChild(i);
      FoundWhen(n, i, k, children[i].obj);
      found := Some(children[i].obj);
    }

    lemma FoundWhen(n: Node, i: nat, k: int32, o: Obj)
      requires n.Box? && i < |n.kids| == |children| && n.kids[i].h.key == k && o == children[i].obj
      requires node == Box(n.h, n.kids[i := if o.OfDson? then ReadNode(n.kids[i]) else n.kids[i]])
      ensures ChildFound(n, i, k, o)
      ensures node.Box? && exists m :: m in node.kids && m.h.key == k
    {
      assert node.kids[i] in node.kids && node.kids[i].h.key == k;
    }

    method ReadChild(i: nat)
      requires Valid() && state.Ready? && kind.DsonContainer? && node.Box? && i < |children| == |node.kids|
      requires Readable(node.kids[i])
      modifies Repr
      ensures Valid() && Repr == old(Repr) && kind == old(kind) && state == old(state) && children == old(children)
      ensures Meaning(node) == Meaning(old(node)) && (Regular(old(node)) ==> Regular(node))
      ensures var n, o := old(node), children[i].obj;
              node == Box(n.h, n.kids[i := if o.OfDson? then ReadNode(n.kids[i]) else n.kids[i]])
    {
      hide *;
      ContainerParts();
      ghost var n, region := node, Region();
      ghost var kid := if children[i].obj.OfDson? then ReadNode(n.kids[i]) else n.kids[i];
      ghost var m := Box(n.h, n.kids[i := kid]);
      HeldChild(children, n.kids, -1, region, i);
      OneBusy(children, n.kids, i, region);
      KidReadKeepsMeaning(n, i);
      ReadNth(children, n.kids, i, region);
      OneBusy(children, m.kids, i, region);
      assert kid == n.kids[i] ==> m.kids == n.kids;
      ReadBox(m);
    }

    /** Back from the child. */
    method ReadBox(ghost m: Node)
      requires state.Ready? && kind.DsonContainer? && buf == null && sent == 0
      requires this in Repr && header in Repr && header[..] == HeaderBytes(m.h)
      requires m.Box? && Sized(m) && Ascending(m.kids) && Held(children, m.kids, -1, Region())
      modifies `node
      ensures Valid() && node == m
    {
      hide HeaderBytes, Sized, Held, Ascending, Bytes;
      node := m;
    }

    /** `Converters::to_host` on the object. */
    method ToHost()
      requires Valid() && state.Ready? && Readable(node)
      modifies header, buf, `node
      ensures Valid() && node == ReadNode(old(node))
    {
      hide HeaderBytes, Sized, Held, Ascending, Bytes, Payload, Converted, Prepare, Fits, ReadNode, Readable;
      ReadKeepsMeaning(node);
      if kind.DsonContainer? {
        HeaderToHost();
      } else {
        BufferToHost();
      }
    }

    method BufferToHost()
      requires buf != null && header != buf && header[..] == HeaderBytes(node.h) && node == Leaf(node.h, buf[..])
      requires Sized(node) && Readable(node)
      modifies header, buf, `node
      ensures header[..] == HeaderBytes(node.h) && node == Leaf(node.h, buf[..]) && node == ReadNode(old(node))
      ensures node.h.dataType == old(node).h.dataType
    {
      hide *;
      ghost var h, d := node.h, buf[..];
      ReadLeaf(h, d);
      Unconverted(h, d, false);
      ReadWritten(h);
      assert |buf[..]| == buf.Length;
      ObjectToOrder(header, buf, false, h);
      node := Leaf(Converted(h, d, false).0, buf[..]);
    }

    /** A container has nothing but its header. */
    method HeaderToHost()
      requires header[..] == HeaderBytes(node.h) && node.Box?
      modifies header, `node
      ensures header[..] == HeaderBytes(node.h) && node == ReadNode(old(node))
    {
      hide HeaderBytes, HasConverter;
      ghost var h := node.h;
      ReadWritten(h);
      if IsHostOrder(header[..], 0) || !HasConverter(Field(header[..], 0, 3)) {
        return;
      }
      ConvertHeader(header, false, h);
      node := Box(h.(net := false), node.kids);
    }

    /** Child `i` is the one under `k`, and it alone has changed. */
    ghost predicate ChildFound(n: Node, i: nat, k: int32, o: Obj)
      reads this
    {
      && n.Box? && i < |n.kids| && i < |children| && n.kids[i].h.key == k && o == children[i].obj
      && node == Box(n.h, n.kids[i := if o.OfDson? then ReadNode(n.kids[i]) else n.kids[i]])
    }

    // ----- loading -----

    /** A load in progress. */
    ghost predicate LoadUnderway()
      reads this, header, buf
    {
      && header.Length == 16 && kind.DataBufNeedParse? && children == []
      && match state
         case LoadingHeader => buf == null && offset < 16 && Repr == {this, header}
         case LoadingData =>
           && buf != null && buf != header && Repr == {this, header, buf}
           && offset < buf.Length && SizeAccepted(header[..]) && buf.Length == ReadHeader(header[..], 0).size
         case _ => false
    }

    /** What a load in progress has received of its frame. */
    ghost function Received(): seq<byte>
      reads this, header, buf
    {
      if state.LoadingHeader? && offset <= header.Length then header[..offset]
      else if state.LoadingData? && buf != null && offset <= buf.Length then header[..] + buf[..offset]
      else []
    }

    /** A load may start or go on. */
    ghost predicate Loadable()
      reads this, header, buf
    {
      header.Length == 16 && (state.LoadingHeader? || state.LoadingData? ==> LoadUnderway())
    }

    /** A finished load of the frame `f`. */
    ghost predicate Holds(f: seq<byte>)
      reads this, header, buf
    {
      && IsFrame(f) && state.Ready? && children == [] && sent == 0 && node == FrameNode(f)
      && header[..] == f[..16]
      && if |f| == 16 then kind.DsonContainer? && buf == null && Repr == {this, header}
         else
           && kind.DataBufNeedParse? && buf != null && buf != header && Repr == {this, header, buf}
           && buf[..] == f[16..]
    }

    /** The state and the answer that a load in the given situation calls for. */
    ghost predicate LoadedTo(r: Result, fed: Fed)
      reads this, header, buf
    {
      match fed
      case Waiting(partial) => r.InProcess? && LoadUnderway() && Received() == partial
      case Loaded(f) => r.Ready? && Holds(f)
      case Broken => r.Error? && state.Error? && header.Length == 16
    }

    /** A loaded frame, if sound, is as good as any object. */
    lemma HeldIsValid(f: seq<byte>)
      requires Holds(f) && Sound(f)
      ensures Valid() && node == FrameNode(f) && Bytes(node) == f && Fits(node, node.h.net)
    {
      hide Sized, Bytes, HeaderBytes, ReadHeader, ValidMark, Fits;
      SoundNode(f);
    }

    /** `clear`: everything but the header is gone. */
    method Clear()
      modifies this
      ensures kind == DsonContainer && buf == null && children == [] && state == State.Ready
      ensures Repr == {this, header} && sent == 0 && node == Box(old(node).h, [])
    {
      buf, kind := null, DsonContainer;
      children, iter := [], 0;
      state := State.Ready;
      Repr, sent, node := {this, header}, 0, Box(node.h, []);
    }

    method BeginLoad()
      requires header.Length == 16
      modifies this
      ensures LoadUnderway() && state == LoadingHeader && buf == null && Received() == []
    {
      Clear();
      offset, state, kind := 0, LoadingHeader, DataBufNeedParse;
    }

    /** `load_from_buf`, told that `size` bytes lie at `at`. */
    method LoadFromBuf(mem: array<byte>, at: nat, size: nat) returns (r: Result)
      requires Loadable() && at + size <= mem.Length && mem != header && mem != buf
      modifies this, header, buf
      ensures LoadedTo(r, Feed(old(Received()), mem[at..at + size]))
      ensures buf == null || buf == old(buf) || fresh(buf)
    {
      hide *;
      ghost var prior, chunk := Received(), mem[at..at + size];
      LoadState();
      if !state.LoadingHeader? && !state.LoadingData? {
        BeginLoad();
      }
      if state.LoadingData? {
        r := BodyFromBuf(mem, at, size);
        return;
      }
      var used;
      r, used := HeaderFromBuf(mem, at, size);
      LoadStep(r, Feed(prior, mem[at..at + used]));
      FeedMore(prior, mem[at..at + used], mem[at + used..at + size]);
      assert chunk == mem[at..at + used] + mem[at + used..at + size];
      if !r.InProcess? || used == size {
        return;
      }
      r := BodyFromBuf(mem, at + used, size - used);
    }

    lemma LoadState()
      requires Loadable()
      ensures header.Length == 16
      ensures state.LoadingHeader? || state.LoadingData? ==> LoadUnderway()
      ensures !state.LoadingHeader? && !state.LoadingData? ==> Received() == []
    {
    }

    lemma LoadStep(r: Result, fed: Fed)
      requires LoadedTo(r, fed)
      ensures if r.InProcess? then fed == Waiting(Received()) && LoadUnderway() else !fed.Waiting?
    {
    }

    method HeaderFromBuf(mem: array<byte>, at: nat, size: nat) returns (r: Result, used: nat)
      requires LoadUnderway() && state.LoadingHeader? && at + size <= mem.Length && mem != header && mem != buf
      modifies this, header
      ensures used <= size && LoadedTo(r, Feed(old(Received()), mem[at..at + used]))
      ensures r.InProcess? && used < size ==> state.LoadingData?
      ensures buf == null || fresh(buf)
    {
      hide Feed, ReadHeader, SizeAccepted, Holds, IsFrame, FrameNode, LoadedTo;
      ghost var prior := Received();
      used := if 16 - offset <= size then 16 - offset else size;
      ghost var a := mem[at..at + used];
      Store(header, offset, mem[at..at + used]);
      r := HeaderArrived(used, prior, a);
    }

    method BodyFromBuf(mem: array<byte>, at: nat, size: nat) returns (r: Result)
      requires LoadUnderway() && state.LoadingData? && at + size <= mem.Length && mem != header && mem != buf
      modifies this, buf
      ensures LoadedTo(r, Feed(old(Received()), mem[at..at + size]))
      ensures buf == old(buf)
    {
      hide Feed, ReadHeader, SizeAccepted, Holds, IsFrame, FrameNode, LoadedTo;
      ghost var prior := Received();
      var n := if buf.Length - offset <= size then buf.Length - offset else size;
      ghost var a := mem[at..at + n];
      Store(buf, offset, mem[at..at + n]);
      r := BodyArrived(n, prior, a);
      LoadStep(r, Feed(prior, a));
      FeedMore(prior, a, mem[at + n..at + size]);
      assert mem[at..at + size] == a + mem[at + n..at + size];
    }

    /** `load_from_fd`: at most two reads, neither of which asks for more than is left of
        the header or of the payload, so that nothing beyond the frame is ever taken. */
    method LoadFromFd(input: Source) returns (r: Result)
      requires Loadable() && !input.broken
      modifies this, header, buf, input
      ensures |input.incoming| <= |old(input.incoming)|
      ensures var taken := |old(input.incoming)| - |input.incoming|;
              input.incoming == old(input.incoming)[taken..]
      ensures input.broken ==> r.Error? && state.Error? && header.Length == 16
      ensures !input.broken ==>
        var s := old(input.incoming)[..|old(input.incoming)| - |input.incoming|];
        LoadedTo(r, Feed(old(Received()), s)) && NothingBeyond(old(Received()), s)
      ensures r.InProcess? ==> input.short
      ensures buf == null || buf == old(buf) || fresh(buf)
    {
      hide *;
      ghost var prior, stream := Received(), input.incoming;
      LoadState();
      if !state.LoadingHeader? && !state.LoadingData? {
        BeginLoad();
      }
      if state.LoadingData? {
        r := BodyFromFd(input);
        return;
      }
      r := HeaderFromFd(input);
      if !state.LoadingData? {
        return;
      }
      LoadStep(r, Waiting(Received()));
      ghost var mid := input.incoming;
      r := BodyFromFd(input);
      ReadTwice(prior, stream, mid, input.incoming);
    }

    method HeaderFromFd(input: Source) returns (r: Result)
      requires LoadUnderway() && state.LoadingHeader? && !input.broken
      modifies this, header, input
      ensures |input.incoming| <= |old(input.incoming)|
      ensures input.incoming == old(input.incoming)[|old(input.incoming)| - |input.incoming|..]
      ensures input.broken ==> r.Error? && state.Error? && header.Length == 16
      ensures !input.broken ==>
        var s := old(input.incoming)[..|old(input.incoming)| - |input.incoming|];
        LoadedTo(r, Feed(old(Received()), s)) && NothingBeyond(old(Received()), s)
      ensures r.InProcess? ==> state.LoadingData? || input.short
      ensures state.LoadingData? ==> r.InProcess? && |Received()| == 16
      ensures state.LoadingData? ==>
        Feed(old(Received()), old(input.incoming)[..|old(input.incoming)| - |input.incoming|]) == Waiting(Received())
      ensures buf == null || fresh(buf)
    {
      hide Feed, ReadHeader, SizeAccepted, Holds, IsFrame, FrameNode;
      ghost var prior := Received();
      var n := input.Read(header, offset, 16 - offset);
      if n < 0 {
        state := State.Error;
        return Result.Error;
      }
      r := HeaderArrived(n, prior, old(input.incoming)[..n]);
    }

    method BodyFromFd(input: Source) returns (r: Result)
      requires LoadUnderway() && state.LoadingData? && !input.broken
      modifies this, buf, input
      ensures |input.incoming| <= |old(input.incoming)|
      ensures input.incoming == old(input.incoming)[|old(input.incoming)| - |input.incoming|..]
      ensures input.broken ==> r.Error? && state.Error? && header.Length == 16
      ensures !input.broken ==>
        var s := old(input.incoming)[..|old(input.incoming)| - |input.incoming|];
        LoadedTo(r, Feed(old(Received()), s)) && NothingBeyond(old(Received()), s)
      ensures r.InProcess? ==> input.short
      ensures buf == old(buf)
    {
      hide Feed, ReadHeader, SizeAccepted, Holds, IsFrame, FrameNode, LoadedTo;
      ghost var prior := Received();
      var n := input.Read(buf, offset, buf.Length - offset);
      if n < 0 {
        state := State.Error;
        return Result.Error;
      }
      r := BodyArrived(n, prior, old(input.incoming)[..n]);
    }

    /** `n` more bytes of the header are there. */
    method HeaderArrived(n: nat, ghost prior: seq<byte>, ghost a: seq<byte>) returns (r: Result)
      requires LoadUnderway() && state.LoadingHeader? && offset + n <= 16
      requires |prior| == offset && |a| == n && header[..offset + n] == prior + a
      modifies this
      ensures LoadedTo(r, Feed(prior, a)) && NothingBeyond(prior, a)
      ensures r.InProcess? ==> state.LoadingData? || (state.LoadingHeader? && old(offset) + n < 16)
      ensures state.LoadingData? ==> r.InProcess? && |Received()| == 16
      ensures buf == null || fresh(buf)
    {
      HeaderFed(prior, a);
      hide ReadHeader, Field, Feed;
      offset := offset + n;
      if offset < 16 {
        return InProcess;
      }
      assert header[..16] == header[..];
      r := HeaderDone();
    }

    /** The header is complete, and with it the length of the frame known. */
    method HeaderDone() returns (r: Result)
      requires header.Length == 16 && state.LoadingHeader? && kind.DataBufNeedParse?
      requires children == [] && buf == null && Repr == {this, header}
      modifies this
      ensures LoadedTo(r, var s := header[..];
                          if !SizeAccepted(s) then Broken
                          else if ReadHeader(s, 0).size == 0 then Loaded(s)
                          else Waiting(s))
      ensures r.InProcess? <==> state.LoadingData?
      ensures state.LoadingData? ==> |Received()| == 16
      ensures buf == null || fresh(buf)
    {
      hide Field;
      assert header[..][..16] == header[..];
      var size := Field(header[..], 0, 1);
      if size < 0 || size > MAX_DSON_RAM_SIZE {
        state := State.Error;
        return Result.Error;
      }
      if size == 0 {
        state, kind := State.Ready, DsonContainer;
        sent, node := 0, FrameNode(header[..]);
        return Result.Ready;
      }
      buf := new byte[size];
      offset, state := 0, LoadingData;
      Repr := {this, header, buf};
      return InProcess;
    }

    /** `n` more bytes of the payload are there. */
    method BodyArrived(n: nat, ghost prior: seq<byte>, ghost a: seq<byte>) returns (r: Result)
      requires LoadUnderway() && state.LoadingData? && offset + n <= buf.Length
      requires prior == header[..] + buf[..offset] && a == buf[offset..offset + n]
      modifies this
      ensures LoadedTo(r, Feed(prior, a)) && NothingBeyond(prior, a)
      ensures r.InProcess? ==> old(offset) + n < buf.Length
      ensures buf == old(buf)
    {
      hide *;
      BodyParts();
      PayloadFed(header[..], buf[..offset], a);
      assert buf[..offset + n] == buf[..offset] + a;
      if offset + n < buf.Length {
        r := BodyGrown(n);
      } else {
        assert buf[..offset + n] == buf[..];
        r := BodyDone();
      }
    }

    lemma BodyParts()
      requires LoadUnderway() && state.LoadingData?
      ensures header.Length == |header[..]| == 16 && kind.DataBufNeedParse? && children == []
      ensures buf != null && buf != header && Repr == {this, header, buf}
      ensures SizeAccepted(header[..]) && buf.Length == ReadHeader(header[..], 0).size && offset < buf.Length
    {
    }

    method BodyGrown(n: nat) returns (r: Result)
      requires LoadUnderway() && state.LoadingData? && offset + n < buf.Length
      modifies `offset
      ensures LoadedTo(r, Waiting(header[..] + buf[..old(offset) + n]))
    {
      hide ReadHeader, SizeAccepted;
      offset := offset + n;
      r := InProcess;
    }

    method BodyDone() returns (r: Result)
      requires header.Length == 16 && kind.DataBufNeedParse? && children == []
      requires buf != null && buf != header && Repr == {this, header, buf}
      requires SizeAccepted(header[..]) && buf.Length == ReadHeader(header[..], 0).size > 0
      modifies this
      ensures r.Ready? && buf != null && buf == old(buf)
      ensures LoadedTo(r, Loaded(header[..] + buf[..]))
    {
      WholeFrame(header[..], buf[..]);
      hide ReadHeader, IsFrame;
      state, sent, node := State.Ready, 0, FrameNode(header[..] + buf[..]);
      r := Result.Ready;
    }

    /** `data_size` on a tree: for a container, the sum over the children. */
    method DataSize() returns (size: int32)
      requires Valid()
      ensures size == |Payload(node)|
      decreases Repr, 1
    {
      if !kind.DsonContainer? {
        ReadWritten(node.h);
        return Field(header[..], 0, 1);
      }
      size := SumSizes(children, node.kids, if state.CopyingData? then iter else -1, Region());
    }

    /** `Converters::to_network` (net = true) and `Converters::to_host` on the object. */
    method ConvertOwned(net: bool)
      requires Valid() && state.Ready? && !kind.DsonContainer? && node.h.dataType != TYPE_CONTAINER && Fits(node, net)
      modifies header, buf, `node
      ensures header[..] == HeaderBytes(node.h) && Buffer()
      ensures node == Prepare(old(node), net)
    {
      hide HeaderBytes, Prepare, Sized, Fits, Bytes, Payload, Held, Underway, Position, Converted;
      ghost var h, d := node.h, buf[..];
      ConvertedCases(h, d, net);
      Unconverted(h, d, net);
      ReadWritten(h);
      ObjectToOrder(header, buf, net, h);
      node := Leaf(Converted(h, d, net).0, buf[..]);
    }

    /** The Ready branch of a copy: sizes and orders are settled before the first byte. */
    method Begin(net: bool)
      requires Valid() && state.Ready? && Fits(node, net)
      modifies this, header, buf
      ensures Valid() && state.CopyingHeader? && sent == 0 && order == net
      ensures Repr == old(Repr) && children == old(children) && buf == old(buf)
      ensures Prepare(node, net) == Prepare(old(node), net) && Fits(node, net)
    {
      if kind.DsonContainer? {
        BeginBox(net);
      } else {
        BeginBuffer(net);
      }
    }

    method BeginBuffer(net: bool)
      requires Valid() && state.Ready? && Fits(node, net) && !kind.DsonContainer?
      modifies this, header, buf
      ensures Valid() && state.CopyingHeader? && sent == 0 && order == net
      ensures Repr == old(Repr) && children == old(children) && buf == old(buf)
      ensures Prepare(node, net) == Prepare(old(node), net) && Fits(node, net)
    {
      hide HeaderBytes, Bytes, Prepare, Sized, Fits;
      PrepareIdempotent(node, net);
      FitsPrepared(node, net);
      OrderBuffer(net);
      state, offset, order := CopyingHeader, 0, net;
    }

    /** A buffer and its header in the order asked for. */
    method OrderBuffer(net: bool)
      requires Valid() && state.Ready? && Fits(node, net) && !kind.DsonContainer?
      modifies `kind, header, buf, `node
      ensures header[..] == HeaderBytes(node.h) && Buffer() && !kind.DsonContainer?
      ensures node == Prepare(old(node), net)
    {
      ghost var n := node;
      SameOrder(n, net);
      ReadWritten(n.h);
      if kind.DataBufNeedParse? && net != IsNetworkOrder(header[..], 0) {
        kind := OneObjectInDataBuf;  // all that `parse_buf` does to a single object
      }
      if kind.OneObjectInDataBuf? {
        hide HeaderBytes, Bytes, Prepare, Sized, Held;
        ConvertOwned(net);
      } else {
        hide Bytes, Prepare, Sized, Held;
        ConvertHeader(header, net, n.h);
      }
    }

    method BeginBox(net: bool)
      requires Valid() && state.Ready? && Fits(node, net) && kind.DsonContainer?
      modifies this, header
      ensures Valid() && state.CopyingHeader? && sent == 0 && order == net
      ensures Repr == old(Repr) && children == old(children) && buf == old(buf)
      ensures Prepare(node, net) == Prepare(old(node), net) && Fits(node, net)
    {
      hide HeaderBytes, Sized, Prepare, Payload, Ascending, Held, Bytes;
      PrepareBox(net);
      state, offset, order := CopyingHeader, 0, net;
    }

    /** The header of a container, with its size up to date, in the order asked for. */
    method PrepareBox(net: bool)
      requires Valid() && state.Ready? && kind.DsonContainer?
      modifies header, `node
      ensures Valid() && node == Box(old(node).h.(net := net, size := |Payload(old(node))|), old(node).kids)
      ensures Prepare(node, net) == Prepare(old(node), net) && Prepare(node, net).h == node.h
      ensures Fits(node, net) == Fits(old(node), net)
    {
      hide HeaderBytes, Sized, Prepare, Payload, Ascending;
      var size := DataSize();
      ghost var h, kids := node.h, node.kids;
      BoxStarted(h, kids, net, size);
      SetHeaderField(header, 1, size, h);
      ConvertHeader(header, net, h.(size := size));
      node := Box(h.(net := net, size := size), kids);
    }

    method CopyHeader(out: Sink) returns (r: Result)
      requires Valid() && state.CopyingHeader?
      requires out.Valid() && !out.broken && out !in Repr && out.mem !in Repr
      modifies this, out, out.mem
      ensures out.Valid() && node == old(node) && order == old(order)
      ensures Repr == old(Repr) && children == old(children) && buf == old(buf) && kind == old(kind)
      ensures Advanced(Bytes(Prepare(node, order)), old(sent), old(out.log), out.log)
      ensures (r.Error? <==> out.broken) && (r.Error? ==> state.Ready?)
      ensures !r.Error? ==> Valid() && sent == old(sent) + |out.log| - |old(out.log)|
      ensures r.Ready? ==> state.CopyingData? && sent == 16
      ensures r.InProcess? ==> state.CopyingHeader? && sent < |Bytes(node)| && out.full
    {
      hide *;
      var n := PutHeader(out);
      if n < 0 {
        state := State.Ready;
        return Result.Error;
      }
      var done := MoveHeader(n);
      return if done then Result.Ready else InProcess;
    }

    method MoveHeader(n: nat) returns (done: bool)
      requires Valid() && state.CopyingHeader? && offset + n <= 16
      modifies `offset, `sent, `iter, `state
      ensures Valid() && sent == old(sent) + n <= 16 && (done <==> sent == 16)
      ensures if done then state.CopyingData? else state.CopyingHeader? && sent < |Bytes(node)|
    {
      hide Bytes, HeaderBytes, Prepare, Ascending, Payload, Held, Sized, Fits, Underway, Position;
      offset, sent := offset + n, sent + n;
      done := offset == 16;
      if done {
        EnterData();
      }
    }

    /** The write of the header, which leaves the object alone. */
    method PutHeader(out: Sink) returns (n: int)
      requires Valid() && state.CopyingHeader?
      requires out.Valid() && !out.broken && out !in Repr && out.mem !in Repr
      modifies out, out.mem
      ensures Valid() && out.Valid() && (out.broken <==> n < 0)
      ensures Advanced(Bytes(Prepare(node, order)), sent, old(out.log), out.log)
      ensures n >= 0 ==> offset + n <= 16 && |out.log| == |old(out.log)| + n
      ensures 0 <= n < 16 - offset ==> out.full
    {
      assert offset < 16;  // `offset_ >= header_size` cannot hold
      HeaderPart(Prepare(node, order));
      n := WritePart(header[..], offset, out, Bytes(Prepare(node, order)), 0);
    }

    /** Header out: on to the first child, or to the buffer. */
    method EnterData()
      requires this in Repr && header in Repr
      requires header[..] == HeaderBytes(node.h) && Sized(node) && Started()
      requires if kind.DsonContainer? then
                 buf == null && node.Box? && Ascending(node.kids) && Held(children, node.kids, -1, Region())
               else buf != null && buf in Repr && Buffer()
      requires sent == 16
      modifies `iter, `offset, `state
      ensures Valid() && state.CopyingData?
    {
      StartedBuffer(node, order);
      if kind.DsonContainer? {
        EnterChildren();
      } else {
        offset, state := 0, CopyingData;
      }
    }

    method EnterChildren()
      requires this in Repr && header in Repr && Sized(node) && Started()
      requires header[..] == HeaderBytes(node.h)
      requires kind.DsonContainer? && buf == null && node.Box? && Ascending(node.kids)
      requires Held(children, node.kids, -1, Region())
      requires sent == 16
      modifies `iter, `state
      ensures Valid() && state.CopyingData?
    {
      hide HeaderBytes, Ascending, KidsBytes, Prepare, Underway, Position, Held, Sized, Bytes, Fits;
      FirstChild(children, node, Region(), order);
      iter := 0;
      state := CopyingData;
    }

    method CopyBuf(out: Sink) returns (r: Result)
      requires Valid() && state.CopyingData? && !kind.DsonContainer?
      requires out.Valid() && !out.broken && out !in Repr && out.mem !in Repr
      modifies this, out, out.mem
      ensures out.Valid() && node == old(node) && order == old(order)
      ensures Repr == old(Repr) && children == old(children) && buf == old(buf)
      ensures Advanced(Bytes(Prepare(node, order)), old(sent), old(out.log), out.log)
      ensures (r.Error? <==> out.broken) && (r.Error? ==> state.Ready?)
      ensures kind == old(kind)
      ensures r.Ready? ==> node == Prepare(node, order) && Valid() && state.Ready?
      ensures r.Ready? ==> old(sent) + |out.log| - |old(out.log)| == |Bytes(node)|
      ensures r.InProcess? ==> sent == old(sent) + |out.log| - |old(out.log)| < |Bytes(node)|
      ensures r.InProcess? ==> Valid() && !state.Ready? && out.full
    {
      hide Advanced, Bytes, HeaderBytes, Sized, Prepare;
      assert offset < buf.Length;  // `offset_ >= size` cannot hold
      DataPart(node);
      var n := WritePart(buf[..], offset, out, Bytes(node), 16);
      if n < 0 {
        state := State.Ready;
        return Result.Error;
      }
      offset, sent := offset + n, sent + n;
      if offset < buf.Length {
        return InProcess;
      }
      state, sent := State.Ready, 0;
      return Result.Ready;
    }

    /** `copy_to_buf_*` and `copy_to_fd_*`. */
    method CopyTo(net: bool, out: Sink) returns (r: Result)
      requires Valid() && (state.Ready? || order == net) && Fits(node, net)
      requires out.Valid() && !out.broken && out !in Repr && out.mem !in Repr
      modifies Repr, out, out.mem
      ensures out.Valid() && Repr == old(Repr) && Sized(node)
      ensures Prepare(node, net) == Prepare(old(node), net)
      ensures Advanced(Bytes(Prepare(old(node), net)), old(sent), old(out.log), out.log)
      ensures r.Error? <==> out.broken
      ensures r.Error? ==> state.Ready? || (kind.DsonContainer? && state.CopyingData?)
      ensures r.Ready? ==> Valid() && state.Ready? && node == Prepare(old(node), net)
      ensures r.Ready? ==> old(sent) + |out.log| - |old(out.log)| == |Bytes(node)|
      ensures r.InProcess? ==> Valid() && !state.Ready? && order == net
      ensures r.InProcess? ==> sent == old(sent) + |out.log| - |old(out.log)| < |Bytes(node)|
      ensures r.InProcess? ==> out.full
      decreases Repr, 7
    {
      hide Advanced, Bytes, Prepare, Sized, Held, HeaderBytes, Fits, Payload, Ascending, Underway, Position, KidsBytes;
      if state.Ready? {
        Begin(net);
      }
      if state.CopyingHeader? {
        ghost var frame, start, log := Bytes(Prepare(node, net)), sent, out.log;
        r := CopyHeader(out);
        if !r.Ready? {
          return;
        }
        ghost var mid := out.log;
        r := CopyPayload(net, out);
        AdvancedTwice(frame, start, log, mid, out.log);
      } else {
        r := CopyPayload(net, out);
      }
    }

    /** `copy_to_stream_*`: the whole frame at once, or nothing while a copy is underway. */
    method CopyToStream(net: bool, out: OutStream)
      requires Valid() && Fits(node, net) && out !in Repr
      modifies Repr, out
      ensures Valid() && Repr == old(Repr) && state == old(state)
      ensures old(state).Ready? ==> node == Prepare(old(node), net) && out.bytes == old(out.bytes) + Bytes(node)
      ensures !old(state).Ready? ==> node == old(node) && out.bytes == old(out.bytes)
      decreases Repr, 7
    {
      hide *;
      InRepr();
      if !state.Ready? {
        return;
      }
      if kind.DsonContainer? {
        StreamBox(net, out);
      } else {
        StreamBuffer(net, out);
      }
    }

    lemma InRepr()
      requires Valid()
      ensures this in Repr && header in Repr && (buf != null ==> buf in Repr)
    {
    }

    method StreamBuffer(net: bool, out: OutStream)
      requires Valid() && state.Ready? && Fits(node, net) && !kind.DsonContainer? && out !in Repr
      modifies `kind, header, buf, `node, out
      ensures Valid() && node == Prepare(old(node), net) && out.bytes == old(out.bytes) + Bytes(node)
    {
      PrepareIdempotent(node, net);
      OrderBuffer(net);
      hide HeaderBytes, Prepare, Sized, Fits, Held;
      out.bytes := out.bytes + (header[..] + buf[..]);
    }

    method StreamBox(net: bool, out: OutStream)
      requires Valid() && state.Ready? && Fits(node, net) && kind.DsonContainer? && out !in Repr
      modifies Repr, out
      ensures Valid() && Repr == old(Repr) && state.Ready?
      ensures node == Prepare(old(node), net) && out.bytes == old(out.bytes) + Bytes(node)
      decreases Repr, 6
    {
      hide *;
      ContainerParts();
      ghost var p, start := Prepare(node, net), out.bytes;
      PreparedBox(node, net);
      PayloadParts(p);
      PrepareBox(net);
      ContainerParts();
      out.bytes := out.bytes + header[..];
      StreamKids(children, node, Region(), net, out);
      StreamedBox(p);
      assert (start + HeaderBytes(p.h)) + Payload(p) == start + (HeaderBytes(p.h) + Payload(p));
    }

    /** Back from the children, which are all prepared. */
    method StreamedBox(ghost p: Node)
      requires state.Ready? && kind.DsonContainer? && buf == null && sent == 0
      requires this in Repr && header in Repr && header[..] == HeaderBytes(p.h)
      requires p.Box? && Sized(p) && Ascending(p.kids) && Held(children, p.kids, -1, Region())
      modifies `node
      ensures Valid() && node == p
    {
      hide HeaderBytes, Sized, Held, Ascending, Bytes;
      node := p;
    }

    method CopyPayload(net: bool, out: Sink) returns (r: Result)
      requires Valid() && state.CopyingData? && order == net && Fits(node, net)
      requires out.Valid() && !out.broken && out !in Repr && out.mem !in Repr
      modifies Repr, out, out.mem
      ensures out.Valid() && Repr == old(Repr) && Sized(node)
      ensures Prepare(node, net) == Prepare(old(node), net)
      ensures Advanced(Bytes(Prepare(old(node), net)), old(sent), old(out.log), out.log)
      ensures r.Error? <==> out.broken
      ensures r.Error? ==> state.Ready? || (kind.DsonContainer? && state.CopyingData?)
      ensures r.Ready? ==> Valid() && state.Ready? && node == Prepare(old(node), net)
      ensures r.Ready? ==> old(sent) + |out.log| - |old(out.log)| == |Bytes(node)|
      ensures r.InProcess? ==> Valid() && !state.Ready? && order == net
      ensures r.InProcess? ==> sent == old(sent) + |out.log| - |old(out.log)| < |Bytes(node)|
      ensures r.InProcess? ==> out.full
      decreases Repr, 6
    {
      if kind.DsonContainer? {
        r := CopyChildren(net, out);
      } else {
        r := CopyBuf(out);
      }
    }

    /** `copy_to_*_internal_map_*`. */
    method CopyChildren(net: bool, out: Sink) returns (r: Result)
      requires Valid() && state.CopyingData? && kind.DsonContainer? && order == net && Fits(node, net)
      requires out.Valid() && !out.broken && out !in Repr && out.mem !in Repr
      modifies Repr, out, out.mem
      ensures out.Valid() && Repr == old(Repr) && Sized(node)
      ensures Prepare(node, net) == Prepare(old(node), net)
      ensures Advanced(Bytes(Prepare(old(node), net)), old(sent), old(out.log), out.log)
      ensures r.Error? <==> out.broken
      ensures r.Error? ==> kind.DsonContainer? && state.CopyingData?
      ensures r.Ready? ==> Valid() && state.Ready? && node == Prepare(old(node), net)
      ensures r.Ready? ==> old(sent) + |out.log| - |old(out.log)| == |Bytes(node)|
      ensures r.InProcess? ==> Valid() && !state.Ready? && order == net
      ensures r.InProcess? ==> sent == old(sent) + |out.log| - |old(out.log)| < |Bytes(node)|
      ensures r.InProcess? ==> out.full
      decreases Repr, 5
    {
      hide *;
      ghost var region := InMiddle();
      ghost var n := node;
      ghost var m;
      var i;
      r, i, m := CopyKids(children, n, iter, region, net, out);
      SameFrame(n, n, if r.Error? then n else m, net, r.Error?);
      if r.Ready? {
        PositionEnd(children, m, region, net);
        Finish(m, region);
      } else if r.InProcess? {
        Pause(m, i, region);
      }
    }

    /** What validity says in the middle of the children. */
    lemma InMiddle() returns (region: set<object>)
      requires Valid() && state.CopyingData? && kind.DsonContainer?
      ensures region == Region() && region < Repr
      ensures this in Repr && header in Repr && this !in region && header !in region
      ensures buf == null && header[..] == HeaderBytes(node.h)
      ensures node.Box? && Sized(node) && Ascending(node.kids) && Started()
      ensures iter <= |children| && Underway(children, node, iter, region, order)
      ensures sent == Position(children, node, iter, region)
    {
      region := Region();
      assert Underway(children, node, iter, region, order);
    }

    /** Back from the children, with one of them not done. */
    method Pause(ghost m: Node, i: nat, ghost region: set<object>)
      requires this in Repr && header in Repr && region == Region()
      requires kind.DsonContainer? && buf == null && header[..] == HeaderBytes(node.h)
      requires node.Box? && Ascending(node.kids) && Started() && state.CopyingData?
      requires Underway(children, m, i, region, order) && SameBox(node, m, order)
      modifies `node, `iter, `sent
      ensures Valid() && node == m && sent == Position(children, m, i, region)
    {
      hide Underway, Held, HeaderBytes, Ascending, Prepare, Sized, Fits, Payload, Bytes, Position, SameBox;
      SameStarted(node, m, order);
      WithinFrame(children, m, i, region, order);
      node, iter := m, i;
      sent := Position(children, m, i, region);
    }

    /** Back from the children, all of them done. */
    method Finish(ghost m: Node, ghost region: set<object>)
      requires this in Repr && header in Repr && region == Region()
      requires kind.DsonContainer? && buf == null && header[..] == HeaderBytes(node.h)
      requires node.Box? && Ascending(node.kids) && Started() && state.CopyingData?
      requires Underway(children, m, |children|, region, order) && SameBox(node, m, order)
      modifies `node, `iter, `sent, `state
      ensures Valid() && node == m == Prepare(m, order) && state.Ready?
    {
      hide Underway, Held, HeaderBytes, Ascending, Prepare, Sized, Fits, Payload, Bytes, SameBox;
      SameStarted(node, m, order);
      AllDone(children, m, region, order);
      node, iter := m, |children|;
      state, sent := State.Ready, 0;
    }
  }

  lemma AllDone(children: seq<Entry>, n: Node, region: set<object>, net: bool)
    requires Underway(children, n, |children|, region, net) && n.h == Prepare(n, net).h
    ensures n == Prepare(n, net) && Held(children, n.kids, -1, region)
  {
    assert Prepare(n, net).kids == n.kids;
    assert Held(children, n.kids, |children|, region);
  }

  /** Children that are all idle: the loop stands at the first. */
  lemma FirstChild(children: seq<Entry>, n: Node, region: set<object>, net: bool)
    requires n.Box? && Sized(n) && Fits(n, net) && Held(children, n.kids, -1, region)
    ensures Underway(children, n, 0, region, net) && Position(children, n, 0, region) == 16
  {
    HeldIdle(children, n.kids, region);
  }

  /** `copy_to_*_internal_map_*`: each child in turn, until one is not done. */
  method CopyKids(children: seq<Entry>, ghost n: Node, start: nat, ghost region: set<object>, net: bool, out: Sink)
    returns (r: Result, i: nat, ghost m: Node)
    requires Sized(n) && start <= |children| && Underway(children, n, start, region, net)
    requires out.Valid() && !out.broken && out !in region && out.mem !in region
    modifies region, out, out.mem
    ensures out.Valid() && (r.Error? <==> out.broken)
    ensures Advanced(Bytes(Prepare(n, net)), old(Position(children, n, start, region)), old(out.log), out.log)
    ensures !r.Error? ==> Underway(children, m, i, region, net) && SameBox(n, m, net)
    ensures !r.Error? ==>
      Position(children, m, i, region) == old(Position(children, n, start, region)) + |out.log| - |old(out.log)|
    ensures r.Ready? ==> i == |children|
    ensures r.InProcess? ==> Position(children, m, i, region) < |Bytes(n)| && out.full
    decreases region, 11
  {
    hide *;
    ghost var frame, at, log := Bytes(Prepare(n, net)), Position(children, n, start, region), out.log;
    i, m, r := start, n, Result.Ready;
    LoopStart(children, n, start, region, net, log);
    while i < |children|
      invariant i <= |children| && Underway(children, m, i, region, net) && SameBox(n, m, net) && Sized(m)
      invariant out.Valid() && !out.broken && r.Ready?
      invariant Advanced(frame, at, log, out.log)
      invariant Position(children, m, i, region) == at + |out.log| - |log|
      decreases |children| - i
    {
      ghost var was, mid := m, out.log;
      r, m := CopyNext(children, m, i, region, net, out);
      SameFrame(n, was, m, net, r.Error?);
      AdvancedTwice(frame, at, log, mid, out.log);
      if !r.Ready? {
        return;
      }
      i := i + 1;
    }
  }

  lemma LoopStart(children: seq<Entry>, n: Node, i: nat, region: set<object>, net: bool, log: seq<byte>)
    requires Sized(n) && Underway(children, n, i, region, net)
    ensures i <= |children| && SameBox(n, n, net)
    ensures Advanced(Bytes(Prepare(n, net)), Position(children, n, i, region), log, log)
  {
    WithinFrame(children, n, i, region, net);
  }

  lemma WithinFrame(children: seq<Entry>, n: Node, i: nat, region: set<object>, net: bool)
    requires Sized(n) && Underway(children, n, i, region, net)
    ensures Fits(n, net) && Position(children, n, i, region) <= |Bytes(Prepare(n, net))| == |Bytes(n)|
  {
    PreparedLength(n, net);
    if i < |children| {
      HeldChild(children, n.kids, i, region, i);
      SentBound(children[i].obj);
      NextOffset(n, i);
    }
  }

  lemma SentBound(o: Obj)
    requires o.Valid()
    ensures o.Sent() <= |Bytes(o.Node())|
  {
  }

  /** One turn of that loop. */
  method CopyNext(children: seq<Entry>, ghost n: Node, i: nat, ghost region: set<object>, net: bool, out: Sink)
    returns (r: Result, ghost m: Node)
    requires Sized(n) && Underway(children, n, i, region, net) && i < |children|
    requires out.Valid() && !out.broken && out !in region && out.mem !in region
    modifies region, out, out.mem
    ensures out.Valid() && (r.Error? <==> out.broken)
    ensures Advanced(Bytes(Prepare(n, net)), old(Position(children, n, i, region)), old(out.log), out.log)
    ensures !r.Error? ==> Sized(m) && SameBox(n, m, net)
    ensures r.Ready? ==> Underway(children, m, i + 1, region, net)
    ensures r.Ready? ==>
      Position(children, m, i + 1, region) == old(Position(children, n, i, region)) + |out.log| - |old(out.log)|
    ensures r.InProcess? ==> Underway(children, m, i, region, net)
    ensures r.InProcess? ==>
      Position(children, m, i, region) == old(Position(children, n, i, region)) + |out.log| - |old(out.log)|
    ensures r.InProcess? ==> Position(children, m, i, region) < |Bytes(m)| && out.full
    decreases region, 10
  {
    hide *;
    ghost var sent := NextChild(children, n, i, region, net);
    ghost var kid;
    r, kid := CopyNth(children, n.kids, i, region, net, out);
    KidFrameAdvances(n, net, i, sent, old(out.log), out.log);
    m := Box(n.h, n.kids[i := kid]);
    if r.Ready? {
      ChildDone(children, n, i, region, net, kid);
    } else if r.InProcess? {
      ChildInProcess(children, n, i, region, net, kid);
    }
  }

  /** The child whose turn it is may be copied. */
  lemma NextChild(children: seq<Entry>, n: Node, i: nat, region: set<object>, net: bool) returns (sent: nat)
    requires Underway(children, n, i, region, net) && i < |children|
    ensures n.Box? && Sized(n) && Fits(n, net) && i < |n.kids| == |children| && Sized(n.kids[i])
    ensures forall j :: 0 <= j < i ==> Sized(n.kids[j]) && Prepare(n.kids[j], net) == n.kids[j]
    ensures Held(children, n.kids, i, region)
    ensures children[i].obj.Foot() <= region && children[i].obj.Resumable(net)
    ensures sent == children[i].obj.Sent() && Position(children, n, i, region) == 16 + |KidsBytes(n.kids, i)| + sent
  {
    HeldChild(children, n.kids, i, region, i);
    FitsKid(n, i, net);
    sent := children[i].obj.Sent();
  }

  lemma ChildDone(children: seq<Entry>, n: Node, i: nat, region: set<object>, net: bool, kid: Node)
    requires n.Box? && Sized(n) && Fits(n, net) && i < |children| == |n.kids| && Sized(n.kids[i])
    requires forall j :: 0 <= j < i ==> Sized(n.kids[j]) && Prepare(n.kids[j], net) == n.kids[j]
    requires kid == Prepare(n.kids[i], net) && Sized(kid) && Prepare(kid, net) == kid
    requires Held(children, n.kids[i := kid], i, region) && children[i].obj.Idle()
    ensures var m := Box(n.h, n.kids[i := kid]);
            && Sized(m) && SameBox(n, m, net) && Underway(children, m, i + 1, region, net)
            && Position(children, m, i + 1, region) == 16 + |KidsBytes(n.kids, i)| + |Bytes(kid)|
  {
    hide *;
    var m := Box(n.h, n.kids[i := kid]);
    ReplacedBox(n, i, kid, net);
    HeldNext(children, m.kids, i, region);
    PositionNext(children, m, i, region);
    UnderwayAt(children, m, i + 1, region, net);
  }

  lemma UnderwayAt(children: seq<Entry>, n: Node, i: nat, region: set<object>, net: bool)
    requires n.Box? && Sized(n) && Fits(n, net) && i <= |children| == |n.kids|
    requires Held(children, n.kids, i, region)
    requires forall j :: 0 <= j < i ==> Sized(n.kids[j]) && Prepare(n.kids[j], net) == n.kids[j]
    requires i < |children| ==> children[i].obj.Handle() in region
    requires i < |children| ==> children[i].obj.Idle() || children[i].obj.Order() == net
    ensures Underway(children, n, i, region, net)
  {
    hide Held, Fits, Sized, Prepare;
  }

  /** The key of the container plays no part in the copy of its children. */
  lemma UnderwayKeyed(children: seq<Entry>, n: Node, i: nat, region: set<object>, net: bool, key: int32)
    requires Underway(children, n, i, region, net)
    ensures Underway(children, WithKey(n, key), i, region, net)
    ensures Position(children, WithKey(n, key), i, region) == Position(children, n, i, region)
  {
    hide Held, Prepare;
    WithKeySized(n, key);
  }

  lemma PositionNext(children: seq<Entry>, n: Node, i: nat, region: set<object>)
    requires n.Box? && i < |children| == |n.kids|
    requires i + 1 < |children| ==> children[i + 1].obj.Handle() in region && children[i + 1].obj.Sent() == 0
    ensures Position(children, n, i + 1, region) == 16 + |KidsBytes(n.kids, i)| + |Bytes(n.kids[i])|
  {
    NextOffset(n, i);
  }

  lemma PositionEnd(children: seq<Entry>, n: Node, region: set<object>, net: bool)
    requires Underway(children, n, |children|, region, net)
    ensures Position(children, n, |children|, region) == |Bytes(n)|
  {
  }

  lemma PositionAt(children: seq<Entry>, n: Node, i: nat, region: set<object>)
    requires n.Box? && i < |children| == |n.kids| && children[i].obj.Handle() in region
    ensures Position(children, n, i, region) == 16 + |KidsBytes(n.kids, i)| + children[i].obj.Sent()
    ensures children[i].obj.Sent() < |Bytes(n.kids[i])| ==> Position(children, n, i, region) < |Bytes(n)|
  {
    NextOffset(n, i);
  }

  lemma ChildInProcess(children: seq<Entry>, n: Node, i: nat, region: set<object>, net: bool, kid: Node)
    requires n.Box? && Sized(n) && Fits(n, net) && i < |children| == |n.kids| && Sized(n.kids[i])
    requires forall j :: 0 <= j < i ==> Sized(n.kids[j]) && Prepare(n.kids[j], net) == n.kids[j]
    requires Sized(kid) && Prepare(kid, net) == Prepare(n.kids[i], net)
    requires Held(children, n.kids[i := kid], i, region) && children[i].obj.Order() == net
    requires children[i].obj.Sent() < |Bytes(kid)|
    ensures var m := Box(n.h, n.kids[i := kid]);
            && Sized(m) && SameBox(n, m, net) && Underway(children, m, i, region, net)
            && Position(children, m, i, region) == 16 + |KidsBytes(n.kids, i)| + children[i].obj.Sent()
            && Position(children, m, i, region) < |Bytes(m)|
  {
    hide *;
    var m := Box(n.h, n.kids[i := kid]);
    ReplacedBox(n, i, kid, net);
    HeldChild(children, m.kids, i, region, i);
    PositionAt(children, m, i, region);
    UnderwayAt(children, m, i, region, net);
  }

  /** With child `i` done, the next one is idle like those behind it. */
  lemma HeldNext(children: seq<Entry>, kids: seq<Node>, i: nat, region: set<object>)
    requires Held(children, kids, i, region) && i < |children| && children[i].obj.Idle()
    ensures Held(children, kids, i + 1, region) && |kids| == |children|
    ensures i + 1 < |children| ==> children[i + 1].obj.Handle() in region && children[i + 1].obj.Idle()
    ensures i + 1 < |children| ==> children[i + 1].obj.Sent() == 0
  {
    if i + 1 < |children| {
      IdleSentNothing(children[i + 1].obj);
    }
  }

  /** A copy of one object, whatever it is. */
  method CopyObj(o: Obj, net: bool, out: Sink) returns (r: Result)
    requires o.Valid() && o.Resumable(net)
    requires out.Valid() && !out.broken && out !in o.Foot() && out.mem !in o.Foot()
    modifies o.Foot(), out, out.mem
    ensures out.Valid() && o.Foot() == old(o.Foot()) && Sized(o.Node())
    ensures !r.Error? ==> Prepare(o.Node(), net) == Prepare(old(o.Node()), net)
    ensures Advanced(Bytes(Prepare(old(o.Node()), net)), old(o.Sent()), old(out.log), out.log)
    ensures r.Error? <==> out.broken
    ensures r.Ready? ==> o.Valid() && o.Idle() && o.Node() == Prepare(old(o.Node()), net)
    ensures r.Ready? ==> old(o.Sent()) + |out.log| - |old(out.log)| == |Bytes(o.Node())|
    ensures r.InProcess? ==> o.Valid() && !o.Idle() && o.Order() == net
    ensures r.InProcess? ==> o.Sent() == old(o.Sent()) + |out.log| - |old(out.log)| < |Bytes(o.Node())|
    ensures r.InProcess? ==> out.full
    decreases o.Foot(), 8
  {
    hide Advanced, Bytes, Prepare, Sized, Fits, HeaderBytes, Held, Underway, Position, Payload, Ascending;
    PrepareIdempotent(o.Node(), net);
    TextFits(o.Node(), net);
    match o
    case OfDson(d) => r := d.CopyTo(net, out);
    case OfString(t) => r := t.CopyTo(net, out);
    case OfRoute(b) => r := b.CopyTo(net, out);
  }

  /** A copy of child `i`, with its siblings left alone. */
  method CopyNth(children: seq<Entry>, ghost kids: seq<Node>, i: nat, ghost region: set<object>, net: bool, out: Sink)
    returns (r: Result, ghost kid: Node)
    requires i < |children| && Held(children, kids, i, region) && children[i].obj.Resumable(net)
    requires out.Valid() && !out.broken && out !in region && out.mem !in region
    modifies children[i].obj.Foot(), out, out.mem
    ensures out.Valid() && |kids| == |children|
    ensures Sized(kids[i]) && Sized(kid) && Prepare(kid, net) == Prepare(kids[i], net)
    ensures Advanced(Bytes(Prepare(kids[i], net)), old(children[i].obj.Sent()), old(out.log), out.log)
    ensures r.Error? <==> out.broken
    ensures !r.Error? ==> Held(children, kids[i := kid], i, region)
    ensures r.Ready? ==> kid == Prepare(kids[i], net) && children[i].obj.Idle()
    ensures r.Ready? ==> old(children[i].obj.Sent()) + |out.log| - |old(out.log)| == |Bytes(kid)|
    ensures r.InProcess? ==> !children[i].obj.Idle() && children[i].obj.Order() == net
    ensures r.InProcess? ==>
      children[i].obj.Sent() == old(children[i].obj.Sent()) + |out.log| - |old(out.log)| < |Bytes(kid)|
    ensures r.InProcess? ==> out.full
    decreases region, 9
  {
    hide *;
    HeldChild(children, kids, i, region, i);
    r := CopyObj(children[i].obj, net, out);
    kid := children[i].obj.Node();
    if r.Error? {
      kid := kids[i];
    } else {
      SamePrepared(kid, kids[i], net);
      SiblingsKept((children, region), kids, i, kid);
    }
  }

  /** Where a key is, if it is anywhere. */
  lemma KeyAt(kids: seq<Node>, k: int32, i: nat)
    requires Ascending(kids) && i <= |kids| && (i < |kids| ==> k <= kids[i].h.key)
    requires forall j :: 0 <= j < i ==> kids[j].h.key < k
    ensures i == |kids| || kids[i].h.key != k ==> forall n :: n in kids ==> n.h.key != k
  {
  }

  /** `get` converts what it finds if it is a `Dson`. */
  method ReadObj(o: Obj)
    requires o.Valid() && o.Idle() && Readable(o.Node())
    modifies o.Foot()
    ensures o.Valid() && o.Idle() && o.Foot() == old(o.Foot())
    ensures o.Node() == if o.OfDson? then ReadNode(old(o.Node())) else old(o.Node())
  {
    hide Bytes, Prepare, Sized, Fits, HeaderBytes, Held, Underway, Position, Payload, Ascending, ReadNode;
    match o
    case OfDson(d) =>
      d.InRepr();
      d.ToHost();
    case OfString(_) =>
    case OfRoute(_) =>
  }

  method ReadNth(children: seq<Entry>, ghost kids: seq<Node>, i: nat, ghost region: set<object>)
    requires i < |children| == |kids| && Held(children, kids, i, region) && children[i].obj.Idle() && Readable(kids[i])
    modifies children[i].obj.Foot()
    ensures var kid := if children[i].obj.OfDson? then ReadNode(kids[i]) else kids[i];
            Held(children, kids[i := kid], i, region) && children[i].obj.Idle()
  {
    hide *;
    HeldChild(children, kids, i, region, i);
    ReadKeepsMeaning(kids[i]);
    ReadObj(children[i].obj);
    SiblingsKept((children, region), kids, i, children[i].obj.Node());
  }

  /** One object into a stream, whatever it is. */
  method StreamObj(o: Obj, net: bool, out: OutStream)
    requires o.Valid() && o.Idle() && Fits(o.Node(), net) && out !in o.Foot()
    modifies o.Foot(), out
    ensures o.Valid() && o.Idle() && o.Foot() == old(o.Foot())
    ensures o.Node() == Prepare(old(o.Node()), net) && out.bytes == old(out.bytes) + Bytes(o.Node())
    decreases o.Foot(), 8
  {
    hide Bytes, Prepare, Sized, Fits, HeaderBytes, Held, Underway, Position, Payload, Ascending;
    match o
    case OfDson(d) => d.CopyToStream(net, out);
    case OfString(t) => t.CopyToStream(net, out);
    case OfRoute(b) => b.CopyToStream(net, out);
  }

  method StreamNth(children: seq<Entry>, ghost kids: seq<Node>, i: nat, ghost region: set<object>, net: bool,
                   out: OutStream)
    requires i < |children| == |kids| && Held(children, kids, i, region) && children[i].obj.Idle()
    requires Fits(kids[i], net) && out !in region
    modifies children[i].obj.Foot(), out
    ensures Sized(kids[i]) && Held(children, kids[i := Prepare(kids[i], net)], i, region) && children[i].obj.Idle()
    ensures out.bytes == old(out.bytes) + Bytes(Prepare(kids[i], net))
    decreases region, 9
  {
    hide *;
    HeldChild(children, kids, i, region, i);
    PrepareKeepsLength(kids[i], net);
    StreamObj(children[i].obj, net, out);
    SiblingsKept((children, region), kids, i, Prepare(kids[i], net));
  }

  /** The loops over the children of `copy_to_stream_*`. */
  method StreamKids(children: seq<Entry>, ghost n: Node, ghost region: set<object>, net: bool, out: OutStream)
    requires n.Box? && Sized(n) && Fits(n, net) && Held(children, n.kids, -1, region) && out !in region
    modifies region, out
    ensures Prepare(n, net).Box? && Held(children, Prepare(n, net).kids, -1, region)
    ensures out.bytes == old(out.bytes) + Payload(Prepare(n, net))
    decreases region, 11
  {
    hide *;
    ghost var p, start := Prepare(n, net), out.bytes;
    PreparedBox(n, net);
    HeldSize(children, n.kids, -1, region);
    MixedEnds(p.kids, n.kids);
    PayloadParts(p);
    assert start + KidsBytes(p.kids, 0) == start;
    for i := 0 to |children|
      invariant Held(children, Mixed(p.kids, n.kids, i), -1, region)
      invariant out.bytes == start + KidsBytes(p.kids, i)
    {
      StreamTurn(children, n, p, i, region, net, start, out);
    }
  }

  method StreamTurn(children: seq<Entry>, ghost n: Node, ghost p: Node, i: nat, ghost region: set<object>, net: bool,
                    ghost start: seq<byte>, out: OutStream)
    requires n.Box? && p.Box? && i < |children| == |n.kids| == |p.kids|
    requires Sized(n.kids[i]) && Fits(n.kids[i], net) && p.kids[i] == Prepare(n.kids[i], net) && out !in region
    requires Held(children, Mixed(p.kids, n.kids, i), -1, region) && out.bytes == start + KidsBytes(p.kids, i)
    modifies region, out
    ensures Held(children, Mixed(p.kids, n.kids, i + 1), -1, region) && out.bytes == start + KidsBytes(p.kids, i + 1)
    decreases region, 10
  {
    hide *;
    ghost var kids := Mixed(p.kids, n.kids, i);
    MixedNext(p.kids, n.kids, i);
    HeldChild(children, kids, -1, region, i);
    OneBusy(children, kids, i, region);
    StreamNth(children, kids, i, region, net, out);
    OneBusy(children, Mixed(p.kids, n.kids, i + 1), i, region);
    KidsBytesNext(p.kids, i);
    assert (start + KidsBytes(p.kids, i)) + Bytes(p.kids[i]) == start + (KidsBytes(p.kids, i) + Bytes(p.kids[i]));
  }

  /** It makes no difference which one may be busy when none is. */
  lemma OneBusy(children: seq<Entry>, kids: seq<Node>, i: nat, region: set<object>)
    requires i < |children| && children[i].obj.Handle() in region && children[i].obj.Idle()
    ensures Held(children, kids, -1, region) <==> Held(children, kids, i, region)
  {
  }

  /** An object none of whose parts changed is as it was. */
  twostate lemma ObjKept(o: Obj)
    requires old(o.Valid()) && unchanged(old(o.Foot()))
    ensures o.Valid() && o.Foot() == old(o.Foot()) && o.Node() == old(o.Node()) && o.Idle() == old(o.Idle())
  {
  }

  /** Children `held.0` in the region `held.1` are held as before when only the one at `i`
      changed, and only itself. */
  twostate lemma SiblingsKept(held: (seq<Entry>, set<object>), new kids: seq<Node>, new i: nat, new kid: Node)
    requires i < |held.0| && old(Held(held.0, kids, i, held.1))
    requires unchanged(held.1 - old(held.0[i].obj.Foot()))
    requires var o := held.0[i].obj; o.Valid() && o.Foot() == old(o.Foot()) && o.Node() == kid
    requires kid.h.key == old(held.0[i].obj.Node()).h.key
    ensures Held(held.0, kids[i := kid], i, held.1)
  {
    forall j | 0 <= j < |held.0| && j != i
      ensures var o := held.0[j].obj;
              o.Valid() && o.Foot() == old(o.Foot()) && o.Node() == old(o.Node()) && o.Idle() == old(o.Idle())
    {
      SiblingKept(held, kids, i, j);
    }
    HeldStill(held, kids, i, kid);
  }

  twostate lemma SiblingKept(held: (seq<Entry>, set<object>), new kids: seq<Node>, new i: nat, new j: nat)
    requires i < |held.0| && j < |held.0| && i != j && old(Held(held.0, kids, i, held.1))
    requires unchanged(held.1 - old(held.0[i].obj.Foot()))
    ensures var o := held.0[j].obj;
            o.Valid() && o.Foot() == old(o.Foot()) && o.Node() == old(o.Node()) && o.Idle() == old(o.Idle())
  {
    ObjKept(held.0[j].obj);
  }

  twostate lemma HeldStill(held: (seq<Entry>, set<object>), new kids: seq<Node>, new i: nat, new kid: Node)
    requires i < |held.0| && old(Held(held.0, kids, i, held.1))
    requires forall j :: 0 <= j < |held.0| ==>
      held.0[j].obj.Valid() && held.0[j].obj.Foot() == old(held.0[j].obj.Foot())
    requires forall j :: 0 <= j < |held.0| && j != i ==>
      held.0[j].obj.Node() == old(held.0[j].obj.Node()) && held.0[j].obj.Idle() == old(held.0[j].obj.Idle())
    requires held.0[i].obj.Node() == kid && kid.h.key == old(held.0[i].obj.Node()).h.key
    ensures Held(held.0, kids[i := kid], i, held.1)
  {
  }

  /** What `Held` says of one child. */
  lemma HeldChild(children: seq<Entry>, kids: seq<Node>, busy: int, region: set<object>, i: nat)
    requires Held(children, kids, busy, region) && i < |children|
    ensures |kids| == |children|
    ensures var o := children[i].obj;
            o.Valid() && o.Node() == kids[i] && o.Handle() in region && o.Foot() <= region && (i != busy ==> o.Idle())
    ensures children[i].key == kids[i].h.key
  {
  }

  lemma HeldSize(children: seq<Entry>, kids: seq<Node>, busy: int, region: set<object>)
    requires Held(children, kids, busy, region)
    ensures |kids| == |children|
  {
  }

  lemma IdleSentNothing(o: Obj)
    requires o.Valid() && o.Idle()
    ensures o.Sent() == 0
  {
  }

  /** Children that are all idle are so in particular at the start of their copy. */
  lemma HeldIdle(children: seq<Entry>, kids: seq<Node>, region: set<object>)
    requires Held(children, kids, -1, region)
    ensures Held(children, kids, 0, region) && |kids| == |children|
    ensures |children| > 0 ==> children[0].obj.Handle() in region && children[0].obj.Idle()
    ensures |children| > 0 ==> children[0].obj.Sent() == 0
  {
    if |children| > 0 {
      IdleSentNothing(children[0].obj);
    }
  }

  /** Where an object with the given key goes in a map. */
  function LowerBound(children: seq<Entry>, key: int32): (i: nat)
    ensures i <= |children|
    ensures forall k :: 0 <= k < i ==> children[k].key < key
    ensures i < |children| ==> key <= children[i].key
  {
    if children == [] || key <= children[0].key then 0 else 1 + LowerBound(children[1..], key)
  }

  lemma HeldKeys(children: seq<Entry>, kids: seq<Node>, region: set<object>)
    requires Held(children, kids, -1, region)
    ensures |kids| == |children| && forall i :: 0 <= i < |children| ==> children[i].key == kids[i].h.key
  {
  }

  /** One more child, with parts of its own. */
  lemma HeldInserted(children: seq<Entry>, kids: seq<Node>, region: set<object>, i: nat, j: nat, e: Entry)
    requires Held(children, kids, -1, region) && i <= j <= |children|
    requires e.obj.Valid() && e.obj.Idle() && e.obj.Foot() !! region && e.key == e.obj.Node().h.key
    ensures |kids| == |children|
    ensures Held(children[..i] + [e] + children[j..], kids[..i] + [e.obj.Node()] + kids[j..], -1, region + e.obj.Foot())
  {
    hide *;
    HeldSize(children, kids, -1, region);
    HandleInFoot(e.obj);
    var all, nodes := children[..i] + [e] + children[j..], kids[..i] + [e.obj.Node()] + kids[j..];
    forall k | 0 <= k < |all|
      ensures var o := all[k].obj;
              && o.Handle() in region + e.obj.Foot() && o.Foot() <= region + e.obj.Foot() && o.Valid()
              && o.Node() == nodes[k] && all[k].key == nodes[k].h.key && o.Idle()
    {
      if k != i {
        HeldChild(children, kids, -1, region, if k < i then k else k - i - 1 + j);
      }
    }
    forall k, l | 0 <= k < l < |all|
      ensures all[k].obj.Foot() !! all[l].obj.Foot()
    {
      InsertedApart(children, kids, region, i, j, e, k, l);
    }
    HeldWhole(all, nodes, region + e.obj.Foot());
  }

  lemma InsertedApart(children: seq<Entry>, kids: seq<Node>, region: set<object>, i: nat, j: nat, e: Entry,
                      k: nat, l: nat)
    requires Held(children, kids, -1, region) && i <= j <= |children|
    requires e.obj.Valid() && e.obj.Foot() !! region
    requires k < l < i + 1 + |children| - j
    ensures var all := children[..i] + [e] + children[j..]; all[k].obj.Foot() !! all[l].obj.Foot()
  {
    hide *;
    if k == i {
      HeldChild(children, kids, -1, region, l - i - 1 + j);
    } else if l == i {
      HeldChild(children, kids, -1, region, k);
    } else {
      HeldApart(children, kids, region, if k < i then k else k - i - 1 + j, if l < i then l else l - i - 1 + j);
    }
  }

  lemma HandleInFoot(o: Obj)
    requires o.Valid()
    ensures o.Handle() in o.Foot()
  {
  }

  lemma HeldApart(children: seq<Entry>, kids: seq<Node>, region: set<object>, i: nat, j: nat)
    requires Held(children, kids, -1, region) && i < j < |children|
    ensures children[i].obj.Foot() !! children[j].obj.Foot()
  {
  }

  lemma HeldWhole(children: seq<Entry>, kids: seq<Node>, region: set<object>)
    requires |kids| == |children|
    requires forall k :: 0 <= k < |children| ==>
      var o := children[k].obj;
      && o.Handle() in region && o.Foot() <= region && o.Valid()
      && o.Node() == kids[k] && children[k].key == kids[k].h.key && o.Idle()
    requires forall k, l :: 0 <= k < l < |children| ==> children[k].obj.Foot() !! children[l].obj.Foot()
    ensures Held(children, kids, -1, region)
  {
  }

  /** The object and everything in it, at every depth, is Ready. */
  ghost predicate AllReady(o: Obj)
    requires o.Valid()
    reads o.Handle(), o.Foot()
    decreases o.Foot(), 4
  {
    && o.Idle()
    && (o.OfDson? && o.dson.kind.DsonContainer? ==>
          forall i :: 0 <= i < |o.dson.children| ==> ReadyIn(o.dson.children[i].obj, o.dson.Region()))
  }

  ghost predicate ReadyIn(o: Obj, region: set<object>)
    reads region
    decreases region, 5
  {
    o.Handle() in region && o.Foot() <= region && o.Valid() && AllReady(o)
  }

  /** Whenever an object is Ready, so is everything in it. */
  lemma {:induction false} ReadyThroughout(o: Obj)
    requires o.Valid() && o.Idle()
    ensures AllReady(o)
    decreases o.Foot()
  {
    if o.OfDson? && o.dson.kind.DsonContainer? {
      var d := o.dson;
      d.ContainerParts();
      forall i | 0 <= i < |d.children|
        ensures ReadyIn(d.children[i].obj, d.Region())
      {
        HeldChild(d.children, d.node.kids, -1, d.Region(), i);
        ReadyThroughout(d.children[i].obj);
      }
    }
  }

  /** The loop of `data_size` over the children. */
  method SumSizes(children: seq<Entry>, ghost kids: seq<Node>, ghost busy: int, ghost region: set<object>)
    returns (re: nat)
    requires Held(children, kids, busy, region)
    ensures |kids| == |children| && re == |KidsBytes(kids, |kids|)|
    decreases region, 3
  {
    HeldSize(children, kids, busy, region);
    re := 0;
    var i := 0;
    while i < |children|
      invariant i <= |children|
      invariant re == |KidsBytes(kids, i)|
    {
      HeldChild(children, kids, busy, region, i);
      var n := ObjDataSize(children[i].obj);
      assert |Bytes(kids[i])| == 16 + |Payload(kids[i])|;
      re := re + n + 16;
      i := i + 1;
    }
  }

  method ObjDataSize(o: Obj) returns (size: int32)
    requires o.Valid()
    ensures size == |Payload(o.Node())|
    decreases o.Foot(), 2
  {
    match o
    case OfDson(d) => size := d.DataSize();
    case OfString(t) =>
      ReadWritten(t.node.h);
      size := Field(t.header[..], 0, 1);
    case OfRoute(r) => size := ADDRESS_SIZE;
  }
}
