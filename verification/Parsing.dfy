/** A loaded frame being looked into: the payload is cut into views of its own buffer,
    each is converted where it lies when it is first asked for, and the whole can be
    written out again. */
module Parsing {
  import opened Memory
  import opened Headers
  import opened Converters
  import opened Insertion
  import opened Loading
  import opened Forwarding
  import opened Transport
  import opened DsonObj
  import opened Tiling
  import opened Canonical

  /** A `Dson` laid over a stretch of its parent's buffer. */
  datatype View = View(at: nat, kind: Kind, state: State)

  /** The answer of `get`: nothing, the object itself, or the view at an offset. */
  datatype Found = Nothing | Itself | Child(at: nat)

  /** Where the views of a map lie. */
  function Places(views: map<int32, View>): map<int32, nat> {
    map k | k in views :: views[k].at
  }

  /** The constructor of a view: sizes out of bounds put it in the error state. */
  function ViewOf(s: seq<byte>, at: nat): View
    requires at + 16 <= |s|
  {
    var size := Field(s, at, 1);
    if size < 0 || size > MAX_DSON_RAM_SIZE then View(at, DataBufNeedParse, State.Error)
    else View(at, if Field(s, at, 3) == TYPE_CONTAINER then DataBufNeedParse else OneObjectInDataBuf, State.Ready)
  }

  /** The kind of a view agrees with the frame it lies over; once parsed, a view is an
      empty container. */
  predicate KindFits(v: View, f: seq<byte>)
    requires |f| >= 16
  {
    && v.state.Ready?
    && match v.kind
       case OneObjectInDataBuf => ReadHeader(f, 0).dataType != TYPE_CONTAINER
       case DataBufNeedParse => ReadHeader(f, 0).dataType == TYPE_CONTAINER
       case DsonContainer => ReadHeader(f, 0).dataType == TYPE_CONTAINER && |f| == 16
  }

  /** The views are those of the payload. */
  predicate Agree(s: seq<byte>, views: map<int32, View>) {
    && Tiles(s) && Places(views) == Views(s, 0)
    && forall k :: k in views && k in FramesIn(s) ==> KindFits(views[k], FramesIn(s)[k])
  }

  class LoadedDson {
    const header: array<byte>
    const buf: array<byte>
    var kind: Kind
    var state: State
    var views: map<int32, View>

    ghost predicate Valid()
      reads this, header, buf
    {
      && header.Length == 16 && header != buf && buf.Length <= MAX_DSON_RAM_SIZE
      && (state.Ready? || state.Error?)
      && (kind.DataBufNeedParse? && state.Ready? ==> views == map[] && Field(header[..], 0, 1) == buf.Length)
    }

    /** Nothing has happened to the payload since it was parsed that the views do not know
        of.  Reads and writes of clean frames leave it so. */
    ghost predicate Intact()
      reads this, buf
    {
      kind.DsonContainer? ==> Agree(buf[..], views)
    }

    /** The frame that was loaded, as it stands now. */
    ghost function Frame(): seq<byte>
      reads this, header, buf
    {
      header[..] + buf[..]
    }

    /** What a finished load leaves behind, its buffers and all: an object without a payload
        is an empty container. */
    constructor (header: array<byte>, buf: array<byte>)
      requires header.Length == 16 && header != buf && IsFrame(header[..] + buf[..])
      ensures Valid() && Intact() && kind == (if buf.Length == 0 then DsonContainer else DataBufNeedParse)
      ensures state == State.Ready && views == map[] && this.header == header && this.buf == buf
    {
      hide Field, IsFrame, ReadHeader, Tiles, Agree;
      LoadedSize(header[..], buf[..]);
      NothingAgrees();
      assert buf.Length == 0 ==> buf[..] == [];
      this.header, this.buf := header, buf;
      kind, state, views := if buf.Length == 0 then DsonContainer else DataBufNeedParse, State.Ready, map[];
    }

    /** `data_type`: a broken object has none. */
    function DataType(): int32
      requires header.Length == 16
      reads this, header
    {
      if state.Error? then TYPE_EMPTY else Field(header[..], 0, 3)
    }

    // ----- parsing -----

    /** `parse_buf`: the container is accepted exactly when its payload is nothing but
        frames, and of several frames with one key the last one stays. */
    method ParseBuf()
      requires Valid() && kind.DataBufNeedParse?
      modifies this
      ensures Valid() && Intact() && header[..] == old(header[..]) && buf[..] == old(buf[..])
      ensures old(DataType()) != TYPE_CONTAINER ==>
        kind.OneObjectInDataBuf? && state == old(state) && views == old(views)
      ensures old(DataType()) == TYPE_CONTAINER ==>
        (if Tiles(buf[..]) then kind.DsonContainer? && state == old(state) else kind.DataBufNeedParse? && state.Error?)
    {
      hide Tiles, Agree, Field;
      if DataType() != TYPE_CONTAINER {
        kind := OneObjectInDataBuf;
        return;
      }
      var notUsed, found := ScanFrames();
      views := found;
      if notUsed != 0 {
        state := State.Error;
        return;
      }
      kind := DsonContainer;
    }

    /** The loop of `parse_buf`; what it leaves unused is zero exactly for a tiling. */
    method ScanFrames() returns (notUsed: int, found: map<int32, View>)
      requires buf.Length <= MAX_DSON_RAM_SIZE
      ensures notUsed == 0 <==> Tiles(buf[..])
      ensures notUsed == 0 ==> Agree(buf[..], found)
    {
      hide *;
      ghost var s := buf[..];
      var ptr := 0;
      notUsed, found := buf.Length, map[];
      ScanStart(s);
      while notUsed >= 16
        invariant ptr >= 0 && ptr + notUsed == |s| == buf.Length && Scanned(s, ptr, found)
        decreases notUsed
      {
        var key, size := Field(buf[..], ptr, 2), Field(buf[..], ptr, 1);
        if key < 0 || size < 0 {
          ScanRefused(s, ptr, found);
          return;
        }
        ScanAccepted(s, ptr, found);
        found := found[key := ViewOf(buf[..], ptr)];
        notUsed, ptr := notUsed - (size as int + 16), ptr + size + 16;
      }
      ScanEnd(s, ptr, found);
    }

    // ----- reading -----

    /** What a read under `k` works on is memory of the buffers. */
    ghost predicate Within(k: int32)
      requires Valid()
      reads this, header, buf
    {
      state.Ready? ==>
        match kind
        case OneObjectInDataBuf => Contained(Frame(), 0)
        case DsonContainer => k in views ==> Contained(buf[..], views[k].at)
        case DataBufNeedParse =>
          if DataType() != TYPE_CONTAINER then Contained(Frame(), 0)
          else Tiles(buf[..]) && k in Views(buf[..], 0) ==> Contained(buf[..], Views(buf[..], 0)[k])
    }

    /** There is something to be had under `k`. */
    ghost predicate Answers(k: int32)
      requires header.Length == 16
      reads this, header
    {
      && state.Ready?
      && match kind
         case OneObjectInDataBuf => k == Field(header[..], 0, 2)
         case DsonContainer => k in views
         case DataBufNeedParse => false
    }

    /** `get`: the value under a key, brought into host order where it lies.  If the frame
        asked for reads cleanly, then whoever looks, under whatever key, sees what was
        there before. */
    method Get(k: int32) returns (r: Found)
      requires Valid() && Within(k)
      modifies this, header, buf
      ensures Valid()
      ensures old(kind.DataBufNeedParse? && DataType() == TYPE_CONTAINER) ==>
        if Tiles(old(buf[..])) then kind.DsonContainer? && state.Ready? else state.Error?
      ensures old(kind.DataBufNeedParse? && DataType() != TYPE_CONTAINER) ==>
        kind.OneObjectInDataBuf? && state == old(state)
      ensures old(!kind.DataBufNeedParse?) ==> kind == old(kind) && state == old(state)
      ensures r.Nothing? ==> header[..] == old(header[..]) && buf[..] == old(buf[..]) && !Answers(k)
      ensures r.Nothing? && old(Intact()) ==> Intact()
      ensures r.Itself? ==> kind.OneObjectInDataBuf? && state.Ready? && SelfRead(old(Frame()), Frame(), k)
      ensures r.Child? ==> kind.DsonContainer? && Answers(k) && header[..] == old(header[..])
      ensures r.Child? ==> ReadAt(old(buf[..]), buf[..], r.at) && r.at == views[k].at
      ensures r.Child? && old(Intact()) ==>
        ChildRead(old(buf[..]), buf[..], k, r.at) && (CleanKey(old(buf[..]), k) ==> Intact())
    {
      hide SelfRead, ChildRead, ReadAt, CleanKey, Contained, Agree, Tiles, Views, Field;
      if kind.DataBufNeedParse? {
        ParseBuf();
        PlacesFound(buf[..], views, k);
      }
      r := GetParsed(k);
    }

    method GetParsed(k: int32) returns (r: Found)
      requires Valid() && Within(k) && (kind.DataBufNeedParse? ==> state.Error?)
      modifies header, buf
      ensures Valid()
      ensures r.Nothing? ==> header[..] == old(header[..]) && buf[..] == old(buf[..]) && !Answers(k)
      ensures r.Itself? ==> kind.OneObjectInDataBuf? && state.Ready? && SelfRead(old(Frame()), Frame(), k)
      ensures r.Child? ==> kind.DsonContainer? && Answers(k) && header[..] == old(header[..])
      ensures r.Child? ==> ReadAt(old(buf[..]), buf[..], r.at) && r.at == views[k].at
      ensures r.Child? && old(Intact()) ==>
        ChildRead(old(buf[..]), buf[..], k, r.at) && (CleanKey(old(buf[..]), k) ==> Intact())
    {
      hide SelfRead, ChildRead, ReadAt, CleanKey, Contained, Agree, Tiles, Views, Field;
      if !state.Ready? {
        return Nothing;
      }
      match kind
      case OneObjectInDataBuf => r := GetSelf(k);
      case DsonContainer => r := GetChild(k);
    }

    method GetSelf(k: int32) returns (r: Found)
      requires Valid() && kind.OneObjectInDataBuf? && state.Ready? && Contained(Frame(), 0)
      modifies header, buf
      ensures Valid() && r == if old(Answers(k)) then Itself else Nothing
      ensures r.Itself? ==> SelfRead(old(Frame()), Frame(), k)
      ensures r.Nothing? ==> header[..] == old(header[..]) && buf[..] == old(buf[..])
    {
      hide Contained, SelfRead, Field;
      FieldsOfFrame(header[..], buf[..]);
      if Field(header[..], 0, 2) != k {
        return Nothing;
      }
      SelfIsRead(Frame(), k);
      SelfToHost();
      return Itself;
    }

    /** `Converters::to_host` on the object itself. */
    method SelfToHost()
      requires header.Length == 16 && header != buf && Contained(Frame(), 0)
      modifies header, buf
      ensures Frame() == old(ToHostAt(Frame(), 0))
    {
      hide *;
      ghost var h, d := header[..], buf[..];
      FrameParts();
      assert |h| == 16 && |d| == buf.Length;
      FieldsOfFrame(h, d);
      SelfParts(h, d);
      var t := Field(header[..], 0, 3);
      if IsHostOrder(header[..], 0) || !HasConverter(t) {
        return;
      }
      RawSizeOfFlipped(h);
      SwapWhole(header);
      PayloadToHost(t, Signed(WordAt(header[..], 4)), buf, 0);
      FrameParts();
    }

    lemma FrameParts()
      ensures Frame() == header[..] + buf[..]
    {
    }

    method GetChild(k: int32) returns (r: Found)
      requires Valid() && kind.DsonContainer? && state.Ready?
      requires k in views ==> Contained(buf[..], views[k].at)
      modifies buf
      ensures Valid() && (Answers(k) <==> r.Child?)
      ensures r.Child? ==> ReadAt(old(buf[..]), buf[..], r.at) && r.at == views[k].at
      ensures r.Child? && old(Intact()) ==>
        ChildRead(old(buf[..]), buf[..], k, r.at) && (CleanKey(old(buf[..]), k) ==> Intact())
      ensures !r.Child? ==> r.Nothing? && buf[..] == old(buf[..])
    {
      ghost var s := buf[..];
      hide CleanKey, Contained, ChildRead, Agree;
      if k !in views {
        return Nothing;
      }
      if Agree(s, views) {
        ChildIsRead(s, views, k);
      }
      ViewToHost(buf, views[k].at);
      return Child(views[k].at);
    }

    // ----- writing -----

    /** What `copy_to_stream_*` may be asked for: conversion where marks are valid and
        payloads have room. */
    ghost predicate Convertible(net: bool)
      requires Valid()
      reads this, header, buf
    {
      state.Ready? && !(kind.DataBufNeedParse? && InOrder(header[..], 0, net)) ==>
        if kind.DsonContainer? || (kind.DataBufNeedParse? && DataType() == TYPE_CONTAINER) then
          Tiles(buf[..]) ==> ValidMark(header[..], 0) && AllWritable(buf[..], net)
        else Field(header[..], 0, 3) != TYPE_CONTAINER && Writable(Frame(), net)
    }

    /** `copy_to_stream_*`: a frame nobody has looked into goes out as it is if it is in the
        order asked for; a single object is converted; and a container is parsed, its
        header brought up to date, and its views converted where they lie, one after the
        other in the order of their keys. */
    method CopyToStream(net: bool, out: OutStream)
      requires Valid() && Intact() && Convertible(net)
      modifies this, header, buf, out
      ensures Valid()
      ensures !old(state.Ready?) || old(kind.DataBufNeedParse? && InOrder(header[..], 0, net)) ==>
        && header[..] == old(header[..]) && buf[..] == old(buf[..])
        && kind == old(kind) && state == old(state) && views == old(views)
      ensures !old(state.Ready?) ==> out.bytes == old(out.bytes)
      ensures old(state.Ready? && kind.DataBufNeedParse? && InOrder(header[..], 0, net)) ==>
        out.bytes == old(out.bytes) + old(Frame())
      ensures old(Single(net)) ==>
        && kind.OneObjectInDataBuf? && state.Ready?
        && Frame() == AfterWrite(old(Frame()), net) && out.bytes == old(out.bytes) + Frame()
      ensures old(Container(net)) && Tiles(old(buf[..])) ==>
        && kind.DsonContainer? && state.Ready?
        && out.bytes == old(out.bytes) + Rewritten(ReadHeader(old(header[..]), 0), old(buf[..]), net)
        && WrittenOut(old(buf[..]), buf[..], net) && (NoneEmptied(old(buf[..]), net) ==> Intact())
      ensures old(Container(net)) && !Tiles(old(buf[..])) ==>
        state.Error? && header[..] == old(header[..]) && buf[..] == old(buf[..]) && out.bytes == old(out.bytes)
    {
      hide Tiles, Agree, Views, Field, ReadHeader, IsNetworkOrder, IsHostOrder, Writable, AllWritable;
      hide AfterWrite, WrittenOut, NoneEmptied, Rewritten;
      if Agree(buf[..], views) {
        AgreeKeys(buf[..], views);
      }
      if !state.Ready? {
        return;
      }
      if kind.DataBufNeedParse? {
        if InOrder(header[..], 0, net) {
          out.bytes := out.bytes + (header[..] + buf[..Field(header[..], 0, 1)]);
          return;
        }
        ParseBuf();
      }
      match kind
      case OneObjectInDataBuf => StreamSelf(net, out);
      case DsonContainer => StreamContainer(net, out);
      case DataBufNeedParse =>
    }

    /** A single object that is to be converted. */
    ghost predicate Single(net: bool)
      requires header.Length == 16
      reads this, header
    {
      && state.Ready? && !Container(net)
      && !(kind.DataBufNeedParse? && InOrder(header[..], 0, net))
    }

    /** A container whose views are to be written. */
    ghost predicate Container(net: bool)
      requires header.Length == 16
      reads this, header
    {
      && state.Ready?
      && (kind.DsonContainer?
          || (kind.DataBufNeedParse? && !InOrder(header[..], 0, net) && DataType() == TYPE_CONTAINER))
    }

    method StreamSelf(net: bool, out: OutStream)
      requires Valid() && kind.OneObjectInDataBuf? && state.Ready?
      requires Field(header[..], 0, 3) != TYPE_CONTAINER && Writable(Frame(), net)
      modifies header, buf, out
      ensures Valid() && Frame() == AfterWrite(old(Frame()), net) && out.bytes == old(out.bytes) + Frame()
    {
      hide HeaderBytes, ReadHeader, Converted, Field, Footprint;
      ghost var h, d := ReadHeader(header[..], 0), buf[..];
      FieldsOfFrame(header[..], d);
      SelfWritten(header[..], d, net);
      ObjectToOrder(header, buf, net, h);
      FieldsOfFrame(header[..], buf[..]);
      out.bytes := out.bytes + (header[..] + buf[..]);
    }

    method StreamContainer(net: bool, out: OutStream)
      requires Valid() && kind.DsonContainer? && state.Ready? && Agree(buf[..], views)
      requires ValidMark(header[..], 0) && AllWritable(buf[..], net)
      modifies `views, header, buf, out
      ensures header.Length == 16 && |old(buf[..])| <= MAX_DSON_RAM_SIZE
      ensures out.bytes == old(out.bytes) + Rewritten(ReadHeader(old(header[..]), 0), old(buf[..]), net)
      ensures WrittenOut(old(buf[..]), buf[..], net) && (NoneEmptied(old(buf[..]), net) ==> Agree(buf[..], views))
    {
      hide *;
      ContainerParts();
      ghost var h, s, start := ReadHeader(header[..], 0), buf[..], out.bytes;
      var order := KeyOrder(views.Keys);
      AgreeKeys(s, views);
      KeysOfIs(s);
      KeysListed(s);
      RewrittenIs(h, s, net);
      WrittenFromRead(header[..]);
      var size := SumSizes(order);
      ConvertHeader(header, net, h);
      SetHeaderField(header, 1, size, h.(net := net));
      SizedHeader(h.(net := net), size);
      out.bytes := out.bytes + header[..];
      StreamViews(order, net, out);
      assert start + header[..] + Emitted(s, order, net) == start + (header[..] + Emitted(s, order, net));
      AllWritten(s, views, order, buf[..], net);
    }

    lemma ContainerParts()
      requires Valid() && kind.DsonContainer?
      ensures header.Length == |header[..]| == 16 && header != buf && |buf[..]| == buf.Length <= MAX_DSON_RAM_SIZE
    {
    }

    /** `data_size` of a parsed container: the views' sizes added up. */
    method SumSizes(order: seq<int32>) returns (re: int32)
      requires Agree(buf[..], views) && Listed(buf[..], order) && Total(buf[..], order) <= MAX_DSON_RAM_SIZE
      ensures re == Total(buf[..], order)
    {
      hide *;
      ghost var s := buf[..];
      NoneTotal(s);
      var sum := 0;
      for i := 0 to |order|
        invariant Listed(s, order[..i]) && sum == Total(s, order[..i])
      {
        TotalNext(s, order, i);
        ViewSize(s, views, order[i]);
        var v := views[order[i]];
        sum := sum + 16 + (if v.kind.DsonContainer? then 0 else Field(buf[..], v.at, 1));
      }
      assert order[..|order|] == order;
      Bounded();
      re := sum;
    }

    /** The loop of `copy_to_stream_*` over the views. */
    method StreamViews(order: seq<int32>, net: bool, out: OutStream)
      requires Agree(buf[..], views) && AllWritable(buf[..], net) && Listed(buf[..], order)
      requires forall i, j :: 0 <= i < j < |order| ==> order[i] < order[j]
      modifies `views, buf, out
      ensures Listed(old(buf[..]), order) && out.bytes == old(out.bytes) + Emitted(old(buf[..]), order, net)
      ensures buf[..] == Brought(old(buf[..]), order, |order|, net)
      ensures InPass(old(buf[..]), views, order, net)
    {
      hide *;
      ghost var s, start := buf[..], out.bytes;
      NothingWritten(s, views, order, net);
      for i := 0 to |order|
        invariant buf[..] == Brought(s, order, i, net) && InPass(s, views, order[..i], net)
        invariant Listed(s, order[..i]) && out.bytes == start + Emitted(s, order[..i], net)
      {
        EmittedNext(s, order, i, net);
        StreamNext(order, i, net, out, s);
        ghost var f := FramesIn(s)[order[i]];
        assert start + Emitted(s, order[..i], net) + Output(f, net)
            == start + (Emitted(s, order[..i], net) + Output(f, net));
      }
      assert order[..|order|] == order;
    }

    method StreamNext(order: seq<int32>, i: nat, net: bool, out: OutStream, ghost s: seq<byte>)
      requires AllWritable(s, net) && i < |order| && order[i] in FramesIn(s)
      requires forall i, j :: 0 <= i < j < |order| ==> order[i] < order[j]
      requires buf[..] == Brought(s, order, i, net) && InPass(s, views, order[..i], net)
      modifies `views, buf, out
      ensures buf[..] == Brought(s, order, i + 1, net) && InPass(s, views, order[..i + 1], net)
      ensures order[i] in FramesIn(s) && |FramesIn(s)[order[i]]| >= 16
      ensures out.bytes == old(out.bytes) + Output(FramesIn(s)[order[i]], net)
    {
      hide *;
      var k := order[i];
      NextView(s, views, order, i, net);
      ghost var f := FramesIn(s)[k];
      var w := StreamView(buf, views[k], net, out, f);
      BroughtNext(s, order, i + 1, net);
      WriteAtKey(s, old(buf[..]), k, net);
      ViewWritten(s, views, order, i, net, w);
      views := views[k := w];
    }
  }

  lemma LoadedSize(h: seq<byte>, d: seq<byte>)
    requires |h| == 16 && IsFrame(h + d)
    ensures Field(h, 0, 1) == |d| <= MAX_DSON_RAM_SIZE
  {
    FieldsOfFrame(h, d);
    hide Field;
  }

  lemma NothingAgrees()
    ensures Agree([], map[])
  {
    NoFrame([], 0);
    assert Places(map[]) == map[];
  }

  /** The mark says that the frame is in the order asked for. */
  predicate InOrder(s: seq<byte>, at: nat, net: bool)
    requires at + 16 <= |s|
  {
    if net then IsNetworkOrder(s, at) else IsHostOrder(s, at)
  }

  /** A read of the object itself: converted, and, if it reads cleanly, seen as before. */
  ghost predicate SelfRead(s: seq<byte>, r: seq<byte>, k: int32) {
    && Contained(s, 0) && ReadHeader(s, 0).key == k && r == ToHostAt(s, 0)
    && (ReadsCleanly(s) && ReadHeader(s, 0).size == |s| - 16 ==>
          Seen(r) == Seen(s) && ReadHeader(r, 0).key == k && ReadHeader(r, 0).size == |r| - 16)
  }

  /** What lies at `at` is converted, in so far as its header asks for it. */
  ghost predicate ReadAt(s: seq<byte>, r: seq<byte>, at: nat) {
    Contained(s, at) && r == ToHostAt(s, at)
  }

  /** A read of the child under `k`: its frame converted where it lies.  If that reads
      cleanly, nothing else is touched, and every key shows what it showed. */
  ghost predicate ChildRead(s: seq<byte>, r: seq<byte>, k: int32, at: nat) {
    && k in Views(s, 0) && at == Views(s, 0)[k] && Contained(s, at) && r == ToHostAt(s, at) && r == AfterGet(s, k)
    && (CleanKey(s, k) ==> Tiles(r) == Tiles(s) && Views(r, 0) == Views(s, 0) && Visible(r) == Visible(s))
  }

  /** What a complete pass over the views leaves of the payload. */
  ghost predicate WrittenOut(s: seq<byte>, r: seq<byte>, net: bool) {
    var order := KeysOf(s);
    r == Brought(s, order, |order|, net) && (NoneEmptied(s, net) ==> SameViews(s, r))
  }

  /** The views as a pass over them goes on. */
  ghost predicate InPass(s: seq<byte>, views: map<int32, View>, done: seq<int32>, net: bool) {
    && Places(views) == Views(s, 0)
    && forall k :: k in views && k in FramesIn(s) ==>
         KindFits(views[k], FramesIn(s)[k]) || (k in done && Emptied(FramesIn(s)[k], net))
  }

  // ----- reading -----

  lemma PlacesFound(s: seq<byte>, views: map<int32, View>, k: int32)
    ensures Agree(s, views) ==> (k in Views(s, 0) <==> k in views)
    ensures Agree(s, views) && k in views ==> k in Views(s, 0) && Views(s, 0)[k] == views[k].at
  {
    hide Tiles, Views, FramesIn, KindFits;
    if Agree(s, views) {
      PlacesOf(views, k);
    }
  }

  lemma PlacesOf(views: map<int32, View>, k: int32)
    ensures k in Places(views) <==> k in views
    ensures k in views ==> Places(views)[k] == views[k].at
  {
  }

  /** What converting the view that the map has for `k` comes to. */
  lemma ChildIsRead(s: seq<byte>, views: map<int32, View>, k: int32)
    requires Agree(s, views) && k in views && Contained(s, views[k].at)
    ensures var r := ToHostAt(s, views[k].at);
            ChildRead(s, r, k, views[k].at) && (CleanKey(s, k) ==> Agree(r, views))
  {
    hide *;
    PlacesFound(s, views, k);
    AfterGetIs(s, k);
    var r := ToHostAt(s, views[k].at);
    if CleanKey(s, k) {
      GetIsInvisible(s, k);
      ViewOfKey(s, 0, k);
      CleanKeyIs(s, k);
      SameAfterGet(s, r, k);
      StillAgree(s, r, views);
    }
    ReadOfChild(s, r, k, views[k].at);
  }

  lemma SameAfterGet(s: seq<byte>, r: seq<byte>, k: int32)
    requires k in FramesIn(s) && CleanKey(s, k) && ReadsCleanly(FramesIn(s)[k])
    requires FramesIn(r) == FramesIn(s)[k := ToHostFrame(FramesIn(s)[k])]
    requires Views(r, 0) == Views(s, 0) && (Tiles(r) <==> Tiles(s)) && Visible(r) == Visible(s)
    ensures SameViews(s, r)
  {
    hide FramesIn, Views, Visible, Tiles, ReadsCleanly;
  }

  /** Views fit whatever shows the same in the same places. */
  lemma StillAgree(s: seq<byte>, r: seq<byte>, views: map<int32, View>)
    requires Agree(s, views) && SameViews(s, r)
    ensures Agree(r, views)
  {
    hide FramesIn, Views, Visible, Tiles, KindFits;
    forall k | k in views && k in FramesIn(r)
      ensures KindFits(views[k], FramesIn(r)[k])
    {
      VisibleAt(s, k);
      VisibleAt(r, k);
      FitsSame(views[k], FramesIn(s)[k], FramesIn(r)[k]);
    }
  }

  lemma FitsSame(v: View, f: seq<byte>, g: seq<byte>)
    requires |f| == |g| >= 16 && KindFits(v, f) && Seen(f) == Seen(g)
    ensures KindFits(v, g)
  {
    hide Field, Decoded, IsHostOrder;
  }

  lemma ReadOfChild(s: seq<byte>, r: seq<byte>, k: int32, at: nat)
    requires k in Views(s, 0) && at == Views(s, 0)[k] && Contained(s, at) && r == ToHostAt(s, at) && r == AfterGet(s, k)
    requires CleanKey(s, k) ==> Tiles(r) == Tiles(s) && Views(r, 0) == Views(s, 0) && Visible(r) == Visible(s)
    ensures ChildRead(s, r, k, at)
  {
  }

  lemma SelfIsRead(s: seq<byte>, k: int32)
    requires Contained(s, 0) && ReadHeader(s, 0).key == k
    ensures SelfRead(s, ToHostAt(s, 0), k)
  {
    hide *;
    var r := ToHostAt(s, 0);
    ContainedSize(s);
    if ReadsCleanly(s) && ReadHeader(s, 0).size == |s| - 16 {
      CleanSelf(s);
      CleanFrameKept(s);
    }
    SelfReadWhen(s, r, k);
  }

  lemma ContainedSize(s: seq<byte>)
    requires Contained(s, 0)
    ensures |s| >= 16
  {
  }

  lemma CleanSelf(s: seq<byte>)
    requires |s| >= 16 && ReadsCleanly(s) && ReadHeader(s, 0).size == |s| - 16
    ensures Contained(s, 0) && ToHostAt(s, 0) == ToHostFrame(s)
  {
    hide *;
    CleanInPlace([], s, []);
    assert [] + s + [] == s && [] + ToHostFrame(s) + [] == ToHostFrame(s);
  }

  lemma SelfReadWhen(s: seq<byte>, r: seq<byte>, k: int32)
    requires Contained(s, 0) && |s| >= 16 && |r| == |s| && ReadHeader(s, 0).key == k && r == ToHostAt(s, 0)
    requires ReadsCleanly(s) && ReadHeader(s, 0).size == |s| - 16 ==>
               Seen(r) == Seen(s) && ReadHeader(r, 0).key == k && ReadHeader(r, 0).size == |r| - 16
    ensures SelfRead(s, r, k)
  {
  }

  lemma FieldsOfFrame(h: seq<byte>, d: seq<byte>)
    requires |h| == 16
    ensures ReadHeader(h + d, 0) == ReadHeader(h, 0) && (h + d)[..16] == h && (h + d)[16..] == d
    ensures Field(h + d, 0, 1) == Field(h, 0, 1) && Field(h + d, 0, 2) == Field(h, 0, 2)
    ensures Field(h + d, 0, 3) == Field(h, 0, 3) && IsHostOrder(h + d, 0) == IsHostOrder(h, 0)
    ensures IsNetworkOrder(h + d, 0) == IsNetworkOrder(h, 0) && ValidMark(h + d, 0) == ValidMark(h, 0)
    ensures ReadHeader(h, 0).size == Field(h, 0, 1) && ReadHeader(h, 0).key == Field(h, 0, 2)
    ensures ReadHeader(h, 0).dataType == Field(h, 0, 3)
  {
    HeaderOfPrefix(h, d);
  }

  /** What there is to a read at `at`. */
  lemma ReadParts(s: seq<byte>, at: nat)
    requires Contained(s, at)
    ensures at + 16 <= |s|
    ensures var t, size := Field(s, at, 3), Field(s, at, 1);
            var n := Reach(t, size);
            if IsHostOrder(s, at) || !HasConverter(t) then ToHostAt(s, at) == s
            else
              && (t == TYPE_VECTOR_UINT32 ==> size >= 0) && at + 16 + n <= |s| && n >= Footprint(t)
              && ToHostAt(s, at)
              == s[..at] + Flip(s[at..at + 16], 4) + HostData(t, s[at + 16..at + 16 + n]) + s[at + 16 + n..]
  {
    hide Field, IsHostOrder, HostData, Flip, Footprint;
    if Field(s, at, 3) != TYPE_VECTOR_UINT32 || Field(s, at, 1) >= 0 {
      ReachCases(Field(s, at, 3), Field(s, at, 1));
    }
  }

  /** A read of an object with an array for the header and one for the payload. */
  lemma SelfParts(h: seq<byte>, d: seq<byte>)
    requires |h| == 16 && Contained(h + d, 0)
    ensures var t, size := Field(h, 0, 3), Field(h, 0, 1);
            var n := Reach(t, size);
            if IsHostOrder(h, 0) || !HasConverter(t) then ToHostAt(h + d, 0) == h + d
            else
              && (t == TYPE_VECTOR_UINT32 ==> size >= 0) && Footprint(t) <= n <= |d|
              && ToHostAt(h + d, 0) == Flip(h, 4) + (d[..0] + HostData(t, d[0..n]) + d[n..])
  {
    hide *;
    var s := h + d;
    ReadParts(s, 0);
    FieldsOfFrame(h, d);
    var n := Reach(Field(h, 0, 3), Field(h, 0, 1));
    SelfCut(h, d, if n <= |d| then n else 0);
  }

  lemma SelfCut(h: seq<byte>, d: seq<byte>, n: nat)
    requires |h| == 16 && n <= |d|
    ensures var s := h + d;
            s[0..16] == h && s[16..16 + n] == d[0..n] && s[16 + n..] == d[n..] && s[..0] == [] && d[..0] == []
    ensures forall a: seq<byte>, b: seq<byte>, c: seq<byte> :: [] + a + b + c == a + ([] + b + c)
  {
    Regroup3();
  }

  lemma Regroup3()
    ensures forall a: seq<byte>, b: seq<byte>, c: seq<byte> :: [] + a + b + c == a + ([] + b + c)
  {
    forall a: seq<byte>, b: seq<byte>, c: seq<byte>
      ensures [] + a + b + c == a + ([] + b + c)
    {
      assert [] + a + b + c == a + ([] + b + c);
    }
  }

  method SwapWhole(a: array<byte>)
    requires a.Length == 16
    modifies a
    ensures a[..] == Flip(old(a[..]), 4)
  {
    hide *;
    assert a[0..] == a[..] && a[..0] == [] && |a[..]| == 16;
    SwapWordsInPlace(a, 0, 4);
  }

  /** The size as the payload converter reads it, once the header is swapped. */
  lemma RawSizeOfFlipped(h: seq<byte>)
    requires |h| == 16 && !IsHostOrder(h, 0)
    ensures Signed(WordAt(Flip(h, 4), 4)) == Field(h, 0, 1)
  {
    FlipWord(h, 4, 1);
  }

  /** `Converters::to_host` on the view at `at`: header first, then the payload by the
      size that the header, now in host order, declares. */
  method ViewToHost(a: array<byte>, at: nat)
    requires Contained(a[..], at)
    modifies a
    ensures a[..] == old(ToHostAt(a[..], at))
  {
    hide *;
    ghost var s := a[..];
    assert |s| == a.Length;
    ReadParts(s, at);
    var t := Field(a[..], at, 3);
    if IsHostOrder(a[..], at) || !HasConverter(t) {
      return;
    }
    ghost var p, h, d, q := HostPieces(s, at, Reach(t, Field(s, at, 1)));
    SizeOfFlipped(s, at, p + Flip(h, 4) + (d + q));
    SwapViewHeader(a, at, p, h, d + q);
    Regroup(p + Flip(h, 4), d, q);
    ConvertViewData(a, at + 16, t, Signed(WordAt(a[..], at + 4)), false, p + Flip(h, 4), d, q);
  }

  lemma HostPieces(s: seq<byte>, at: nat, n: nat) returns (p: seq<byte>, h: seq<byte>, d: seq<byte>, q: seq<byte>)
    requires at + 16 + n <= |s|
    ensures p == s[..at] && h == s[at..at + 16] && d == s[at + 16..at + 16 + n] && q == s[at + 16 + n..]
    ensures s == p + h + (d + q) && s[at + 16..] == d + q && |p| == at && |h| == 16 && |d| == n
  {
    p, h, d, q := s[..at], s[at..at + 16], s[at + 16..at + 16 + n], s[at + 16 + n..];
  }

  lemma SizeOfFlipped(s: seq<byte>, at: nat, r: seq<byte>)
    requires at + 16 <= |s| == |r| && !IsHostOrder(s, at)
    requires r == s[..at] + Flip(s[at..at + 16], 4) + s[at + 16..]
    ensures Signed(WordAt(r, at + 4)) == Field(s, at, 1)
  {
    hide Flip, Swap32, Signed, IsHostOrder;
    var h := s[at..at + 16];
    FlipWord(h, 4, 1);
    InnerSlice(s, at, at + 16, 4);
    SameWord(s, at + 4, h, 4);
    assert r[at + 4..at + 8] == Flip(h, 4)[4..8];
    SameWord(r, at + 4, Flip(h, 4), 4);
  }

  method SwapViewHeader(a: array<byte>, at: nat, ghost p: seq<byte>, ghost h: seq<byte>, ghost d: seq<byte>)
    requires a[..] == p + h + d && |p| == at && |h| == 16
    modifies a
    ensures a[..] == p + Flip(h, 4) + d
  {
    hide *;
    assert a.Length == |a[..]|;
    assert a[..at] == p && a[at..] == h + d;
    FlipConcat(h, d, 4);
    SwapWordsInPlace(a, at, 4);
    assert p + (Flip(h, 4) + d) == p + Flip(h, 4) + d;
  }

  /** The payload converter on exactly the bytes it works on. */
  method ConvertViewData(a: array<byte>, at: nat, t: int32, size: int32, net: bool,
                         ghost p: seq<byte>, ghost d: seq<byte>, ghost q: seq<byte>)
    requires a[..] == p + d + q && |p| == at && |d| == Reach(t, size) >= Footprint(t)
    requires t == TYPE_VECTOR_UINT32 ==> size >= 0
    modifies a
    ensures a[..] == p + (if net then NetworkData(t, d) else HostData(t, d)) + q
  {
    hide *;
    assert a.Length == |a[..]|;
    assert a[..at] == p && a[at..at + |d|] == d && a[at + |d|..] == q;
    if net {
      PayloadToNetwork(t, size, a, at);
    } else {
      PayloadToHost(t, size, a, at);
    }
  }

  // ----- writing -----

  /** A valid mark says one or the other. */
  lemma OrderOf(f: seq<byte>, net: bool)
    requires |f| >= 16 && ValidMark(f, 0)
    ensures InOrder(f, 0, net) <==> ReadHeader(f, 0).net == net
  {
    hide Field, WordAt;
  }

  /** One object with an array for the header and one for the payload. */
  lemma SelfWritten(h: seq<byte>, d: seq<byte>, net: bool)
    requires |h| == 16 && ReadHeader(h, 0).dataType != TYPE_CONTAINER && Writable(h + d, net)
    ensures var g := ReadHeader(h, 0);
            && (HasConverter(g.dataType) ==> h == HeaderBytes(g)) && g.size == |d|
            && (g.net != net && HasConverter(g.dataType) ==> Footprint(g.dataType) <= |d|)
            && AfterWrite(h + d, net)
            == if HasConverter(g.dataType) then HeaderBytes(Converted(g, d, net).0) + Converted(g, d, net).1 else h + d
    ensures !HasConverter(ReadHeader(h, 0).dataType) ==> Converted(ReadHeader(h, 0), d, net).1 == d
  {
    FieldsOfFrame(h, d);
    Unconverted(ReadHeader(h, 0), d, net);
    if HasConverter(ReadHeader(h, 0).dataType) {
      SoundHeader(h + d);
    }
    hide HeaderBytes, Converted, ReadHeader, Footprint, ValidMark;
  }

  lemma SizedHeader(h: Header, size: int32)
    ensures WithField(h, 1, size) == h.(size := size)
  {
  }

  lemma AgreeKeys(s: seq<byte>, views: map<int32, View>)
    requires Agree(s, views)
    ensures Tiles(s) && views.Keys == FramesIn(s).Keys && Places(views) == Views(s, 0)
  {
    forall k
      ensures k in views <==> k in FramesIn(s)
    {
      ViewOfKey(s, 0, k);
      PlacesOf(views, k);
    }
    hide Views, FramesIn, Tiles, KindFits, Places;
  }

  /** The size that a view answers. */
  lemma ViewSize(s: seq<byte>, views: map<int32, View>, k: int32)
    requires Agree(s, views) && k in FramesIn(s)
    ensures k in views && views[k].at + 16 <= |s|
    ensures 16 + (if views[k].kind.DsonContainer? then 0 else Field(s, views[k].at, 1)) == |FramesIn(s)[k]|
  {
    hide *;
    ViewOfKey(s, 0, k);
    AgreeKeys(s, views);
    PlacesOf(views, k);
    AgreeAt(s, views, k);
    var f := FramesIn(s)[k];
    ChildParts(f);
    HeaderThere(s, views[k].at, f);
    FieldParts(s, views[k].at);
    FitsCases(views[k], f);
  }

  lemma AgreeAt(s: seq<byte>, views: map<int32, View>, k: int32)
    requires Agree(s, views) && k in views && k in FramesIn(s)
    ensures KindFits(views[k], FramesIn(s)[k])
  {
    hide Tiles, FramesIn, Views, KindFits;
  }

  lemma NoneTotal(s: seq<byte>)
    ensures Listed(s, []) && Total(s, []) == 0
  {
  }

  lemma Bounded()
    ensures MAX_DSON_RAM_SIZE < 0x8000_0000
  {
  }

  lemma {:induction false} TotalNext(s: seq<byte>, order: seq<int32>, i: nat)
    requires Listed(s, order) && i < |order|
    ensures Listed(s, order[..i]) && Listed(s, order[..i + 1]) && order[i] in FramesIn(s)
    ensures Total(s, order[..i + 1]) == Total(s, order[..i]) + |FramesIn(s)[order[i]]|
  {
    hide FramesIn;
    if i > 0 {
      TotalNext(s, order[1..], i - 1);
      assert order[..i][1..] == order[1..][..i - 1] && order[..i + 1][1..] == order[1..][..i];
    } else {
      assert order[..1] == [order[0]];
    }
  }

  lemma NothingWritten(s: seq<byte>, views: map<int32, View>, order: seq<int32>, net: bool)
    requires Agree(s, views)
    ensures InPass(s, views, order[..0], net) && Brought(s, order, 0, net) == s
    ensures Listed(s, order[..0]) && Emitted(s, order[..0], net) == []
  {
    hide Tiles, FramesIn, Views, KindFits;
  }

  lemma {:induction false} EmittedNext(s: seq<byte>, order: seq<int32>, i: nat, net: bool)
    requires Listed(s, order) && i < |order|
    ensures Listed(s, order[..i]) && Listed(s, order[..i + 1]) && order[i] in FramesIn(s)
    ensures Emitted(s, order[..i + 1], net) == Emitted(s, order[..i], net) + Output(FramesIn(s)[order[i]], net)
  {
    hide FramesIn, Output;
    if i > 0 {
      EmittedNext(s, order[1..], i - 1, net);
      assert order[..i][1..] == order[1..][..i - 1] && order[..i + 1][1..] == order[1..][..i];
    } else {
      assert order[..1] == [order[0]];
    }
  }

  /** The view whose turn it is: its frame is still as it was. */
  lemma NextView(s: seq<byte>, views: map<int32, View>, order: seq<int32>, i: nat, net: bool)
    requires AllWritable(s, net) && i < |order| && order[i] in FramesIn(s)
    requires forall i, j :: 0 <= i < j < |order| ==> order[i] < order[j]
    requires InPass(s, views, order[..i], net)
    ensures var k := order[i];
            && k in views && k in Views(s, 0) && views[k].at == Views(s, 0)[k]
            && LiesAt(Brought(s, order, i, net), views[k].at, FramesIn(s)[k])
            && IsChildFrame(FramesIn(s)[k]) && KindFits(views[k], FramesIn(s)[k]) && Writable(FramesIn(s)[k], net)
  {
    hide *;
    var k := order[i];
    ViewOfKey(s, 0, k);
    assert forall j :: 0 <= j < i ==> order[..i][j] < k;
    BroughtLeaves(s, order, i, net, k);
    InPassPlace(s, views, order[..i], net, k);
    WritableKey(s, net, k);
  }

  lemma InPassPlace(s: seq<byte>, views: map<int32, View>, done: seq<int32>, net: bool, k: int32)
    requires InPass(s, views, done, net) && k in Views(s, 0) && k in FramesIn(s) && k !in done
    ensures k in views && views[k].at == Views(s, 0)[k] && KindFits(views[k], FramesIn(s)[k])
  {
    PlacesOf(views, k);
    hide FramesIn, Views, KindFits, Emptied, Places;
  }

  lemma WritableKey(s: seq<byte>, net: bool, k: int32)
    requires AllWritable(s, net) && k in FramesIn(s)
    ensures Writable(FramesIn(s)[k], net)
  {
    hide FramesIn, Writable;
  }

  lemma ViewWritten(s: seq<byte>, views: map<int32, View>, order: seq<int32>, i: nat, net: bool, w: View)
    requires i < |order| && InPass(s, views, order[..i], net)
    requires order[i] in views && order[i] in FramesIn(s) && w.at == views[order[i]].at
    requires KindFits(w, FramesIn(s)[order[i]]) || Emptied(FramesIn(s)[order[i]], net)
    ensures InPass(s, views[order[i] := w], order[..i + 1], net)
  {
    hide FramesIn, Views, KindFits, Emptied;
    assert Places(views[order[i] := w]) == Places(views);
    assert order[..i + 1] == order[..i] + [order[i]];
  }

  /** The pass is over. */
  lemma AllWritten(s: seq<byte>, views: map<int32, View>, order: seq<int32>, r: seq<byte>, net: bool)
    requires Tiles(s) && order == KeysOf(s) && r == Brought(s, order, |order|, net)
    requires InPass(s, views, order, net)
    ensures WrittenOut(s, r, net) && (NoneEmptied(s, net) ==> Agree(r, views))
  {
    hide *;
    if NoneEmptied(s, net) {
      BroughtShows(s, order, |order|, net);
      AgreeAgain(s, views, order, net);
      StillAgree(s, r, views);
    }
    WrittenOutWhen(s, r, net);
  }

  lemma AgreeAgain(s: seq<byte>, views: map<int32, View>, order: seq<int32>, net: bool)
    requires Tiles(s) && InPass(s, views, order, net) && NoneEmptied(s, net)
    ensures Agree(s, views)
  {
    hide Tiles, Views, FramesIn, KindFits, Emptied;
  }

  lemma WrittenOutWhen(s: seq<byte>, r: seq<byte>, net: bool)
    requires r == Brought(s, KeysOf(s), |KeysOf(s)|, net)
    requires NoneEmptied(s, net) ==> SameViews(s, r)
    ensures WrittenOut(s, r, net)
  {
  }

  /** What every writer of a view does first: a container that is to change its order is
      parsed and its size set, anything else converted. */
  method PrepareView(a: array<byte>, v: View, net: bool, ghost f: seq<byte>) returns (kind: Kind)
    requires LiesAt(a[..], v.at, f) && IsChildFrame(f) && |f| >= 16 && KindFits(v, f) && Writable(f, net)
    modifies a
    ensures v.at + |f| <= a.Length && a[..] == Patched(old(a[..]), v.at, AfterWrite(f, net))
    ensures KindFits(View(v.at, kind, v.state), f) || Emptied(f, net)
    ensures kind.DsonContainer? <==> Hollow(v, f, net)
    ensures kind.DataBufNeedParse? ==> ReadHeader(f, 0).net == net
    ensures !kind.DsonContainer? ==> 16 + Field(a[..], v.at, 1) == |f| && !Emptied(f, net)
    ensures kind.DsonContainer? ==> |f| == 16 || Emptied(f, net)
  {
    hide *;
    ghost var s := a[..];
    StartOfView(s, v, f, net);
    HollowCases(v, f, net);
    WrittenThere(s, v.at, f, net);
    kind := v.kind;
    if kind.DataBufNeedParse? {
      if InOrder(a[..], v.at, net) {
        return;
      }
      kind := DsonContainer;  // `parse_buf`, to which a view is of size zero
    }
    if kind.OneObjectInDataBuf? {
      ViewToOrder(a, v.at, net, f);
    } else {
      EmptyHeader(a, v.at, net, f);
    }
    EndOfView(v, View(v.at, kind, v.state), f, net);
    if KindFits(View(v.at, kind, v.state), f) {
      FitsCases(View(v.at, kind, v.state), f);
    }
  }

  /** The view is an empty container by the time it is written, whatever it was before. */
  predicate Hollow(v: View, f: seq<byte>, net: bool)
    requires |f| >= 16
  {
    v.kind.DsonContainer? || (v.kind.DataBufNeedParse? && ReadHeader(f, 0).net != net)
  }

  lemma HollowCases(v: View, f: seq<byte>, net: bool)
    requires |f| >= 16
    ensures v.kind.DsonContainer? ==> Hollow(v, f, net)
    ensures v.kind.OneObjectInDataBuf? ==> !Hollow(v, f, net)
    ensures v.kind.DataBufNeedParse? ==> (Hollow(v, f, net) <==> ReadHeader(f, 0).net != net)
  {
  }

  /** `copy_to_stream_*` on a view. */
  method StreamView(a: array<byte>, v: View, net: bool, out: OutStream, ghost f: seq<byte>) returns (w: View)
    requires LiesAt(a[..], v.at, f) && IsChildFrame(f) && |f| >= 16
    requires KindFits(v, f) && Writable(f, net)
    modifies a, out
    ensures v.at + |f| <= a.Length && a[..] == Patched(old(a[..]), v.at, AfterWrite(f, net))
    ensures out.bytes == old(out.bytes) + Output(f, net)
    ensures w.at == v.at && (KindFits(w, f) || Emptied(f, net))
  {
    hide *;
    ghost var s := a[..];
    var kind := PrepareView(a, v, net, f);
    WrittenThere(s, v.at, f, net);
    OutputIs(f, net);
    out.bytes := out.bytes + a[v.at..v.at + 16 + if kind.DsonContainer? then 0 else Field(a[..], v.at, 1)];
    w := View(v.at, kind, v.state);
  }

  /** What there is to know before a view is written. */
  lemma StartOfView(s: seq<byte>, v: View, f: seq<byte>, net: bool)
    requires LiesAt(s, v.at, f) && IsChildFrame(f) && |f| >= 16
    requires KindFits(v, f) && Writable(f, net)
    ensures v.at + |f| <= |s| && s[v.at..v.at + |f|] == f && 16 + Field(s, v.at, 1) == |f|
    ensures Output(f, net) == if Emptied(f, net) then AfterWrite(f, net)[..16] else AfterWrite(f, net)
    ensures v.kind.OneObjectInDataBuf? ==> ReadHeader(f, 0).dataType != TYPE_CONTAINER
    ensures !v.kind.OneObjectInDataBuf? ==> ReadHeader(f, 0).dataType == TYPE_CONTAINER && ValidMark(f, 0)
    ensures !v.kind.OneObjectInDataBuf? ==> (InOrder(s, v.at, net) <==> ReadHeader(f, 0).net == net)
    ensures v.kind.DsonContainer? ==> |f| == 16
    ensures v.kind.DataBufNeedParse? && InOrder(s, v.at, net) ==>
      AfterWrite(f, net) == f && !Emptied(f, net) && Patched(s, v.at, f) == s
  {
    hide *;
    LiesWhere(s, v.at, f);
    HeaderThere(s, v.at, f);
    FieldParts(s, v.at);
    ChildParts(f);
    WritableParts(f, net);
    SameOrderThere(s, v.at, f, net);
    OutputIs(f, net);
    FitsCases(v, f);
    PatchedIs(s, v.at, f);
    if !v.kind.OneObjectInDataBuf? {
      OrderOf(f, net);
      if v.kind.DataBufNeedParse? && InOrder(s, v.at, net) {
        RawView(f, net);
      }
    }
  }

  lemma WritableParts(f: seq<byte>, net: bool)
    requires |f| >= 16 && Writable(f, net)
    ensures var h := ReadHeader(f, 0);
            && h.size == |f| - 16
            && (HasConverter(h.dataType) || h.dataType == TYPE_CONTAINER ==> ValidMark(f, 0))
            && (h.net != net && HasConverter(h.dataType) ==> Footprint(h.dataType) <= |f| - 16)
  {
    hide Field, ValidMark, Footprint;
  }

  lemma SameOrderThere(s: seq<byte>, at: nat, f: seq<byte>, net: bool)
    requires LiesAt(s, at, f) && |f| >= 16
    ensures at + 16 <= |s| && InOrder(s, at, net) == InOrder(f, 0, net)
  {
    LiesWhere(s, at, f);
    SameHeaderWord(s, f, at, 0);
  }

  lemma FitsCases(v: View, f: seq<byte>)
    requires |f| >= 16 && KindFits(v, f)
    ensures v.kind.OneObjectInDataBuf? <==> ReadHeader(f, 0).dataType != TYPE_CONTAINER
    ensures v.kind.DsonContainer? ==> |f| == 16
  {
  }

  /** A container that is in order is passed on as it is. */
  lemma RawView(f: seq<byte>, net: bool)
    requires IsChildFrame(f) && |f| >= 16 && ValidMark(f, 0)
    requires ReadHeader(f, 0).dataType == TYPE_CONTAINER && ReadHeader(f, 0).net == net
    ensures AfterWrite(f, net) == f && !Emptied(f, net)
  {
    hide *;
    SoundHeader(f);
    RawParts(f, net);
    assert f == f[..16] + f[16..];
  }

  lemma RawParts(f: seq<byte>, net: bool)
    requires IsChildFrame(f) && |f| >= 16
    requires ReadHeader(f, 0).dataType == TYPE_CONTAINER && ReadHeader(f, 0).net == net
    ensures AfterWrite(f, net) == if |f| == 16 then HeaderBytes(ReadHeader(f, 0)) + f[16..] else f
    ensures !Emptied(f, net)
  {
    hide HeaderBytes, ReadHeader;
  }

  /** The frame of a view after it is written. */
  lemma WrittenThere(s: seq<byte>, at: nat, f: seq<byte>, net: bool)
    requires |f| >= 16 && at + |f| <= |s| && IsChildFrame(f)
    ensures var r, g := Patched(s, at, AfterWrite(f, net)), AfterWrite(f, net);
            && r[at..at + |f|] == g && r[at..at + 16] == g[..16]
            && (ReadHeader(f, 0).dataType != TYPE_CONTAINER ==> 16 + Field(r, at, 1) == |f| && !Emptied(f, net))
            && (|f| == 16 ==> g[..16] == g && !Emptied(f, net))
  {
    hide *;
    var g := AfterWrite(f, net);
    var r := Patched(s, at, g);
    PatchedIs(s, at, g);
    assert r[at..at + |f|] == g && r[at..at + 16] == g[..16] && (|f| == 16 ==> g[..16] == g);
    LiesAgain(r, at, g);
    HeaderThere(r, at, g);
    FieldParts(r, at);
    WrittenKeeps(f, net);
  }

  lemma LiesAgain(r: seq<byte>, at: nat, g: seq<byte>)
    requires at + |g| <= |r| && r[at..at + |g|] == g
    ensures LiesAt(r, at, g)
  {
  }

  lemma WrittenKeeps(f: seq<byte>, net: bool)
    requires |f| >= 16 && IsChildFrame(f)
    ensures ReadHeader(f, 0).dataType != TYPE_CONTAINER ==>
      16 + ReadHeader(AfterWrite(f, net), 0).size == |f| && !Emptied(f, net)
    ensures |f| == 16 ==> !Emptied(f, net)
  {
    hide *;
    NotContainer(f, net);
    if ReadHeader(f, 0).dataType != TYPE_CONTAINER {
      WrittenFrame(f, net);
      ChildParts(AfterWrite(f, net));
    }
  }

  lemma NotContainer(f: seq<byte>, net: bool)
    requires |f| >= 16
    ensures Emptied(f, net) ==> |f| > 16 && ReadHeader(f, 0).dataType == TYPE_CONTAINER
  {
  }

  lemma EndOfView(v: View, w: View, f: seq<byte>, net: bool)
    requires |f| >= 16 && KindFits(v, f) && w.at == v.at && w.state == v.state
    requires w.kind == v.kind || (v.kind.DataBufNeedParse? && w.kind.DsonContainer? && ReadHeader(f, 0).net != net)
    ensures KindFits(w, f) || Emptied(f, net)
  {
    hide ReadHeader;
  }

  /** `Converters::to_host` or `Converters::to_network` on the view at `at`. */
  method ViewToOrder(a: array<byte>, at: nat, net: bool, ghost f: seq<byte>)
    requires LiesAt(a[..], at, f) && IsChildFrame(f) && |f| >= 16 && Writable(f, net)
    requires ReadHeader(f, 0).dataType != TYPE_CONTAINER
    modifies a
    ensures at + |f| <= a.Length && a[..] == Patched(old(a[..]), at, AfterWrite(f, net))
  {
    hide *;
    LiesWhere(a[..], at, f);
    if net {
      ViewToNetwork(a, at, f);
    } else {
      PatchedIs(a[..], at, AfterWrite(f, false));
      WritableParts(f, false);
      CleanWrite(f);
      CleanInPlace(a[..at], f, a[at + |f|..]);
      assert a[..][..at] == a[..at] && a[..][at + |f|..] == a[at + |f|..];
      ViewToHost(a, at);
    }
  }

  /** `Converters::to_network`: the payload first, by the size that the header, still in host
      order, declares; then the header. */
  method ViewToNetwork(a: array<byte>, at: nat, ghost f: seq<byte>)
    requires LiesAt(a[..], at, f) && |f| >= 16 && Writable(f, true) && ReadHeader(f, 0).dataType != TYPE_CONTAINER
    modifies a
    ensures at + |f| <= |old(a[..])| && a[..] == Patched(old(a[..]), at, AfterWrite(f, true))
  {
    hide *;
    ghost var s := a[..];
    ToConvert(s, at, f);
    var t := Field(a[..], at, 3);
    if IsNetworkOrder(a[..], at) || !HasConverter(t) {
      return;
    }
    ghost var p, h, d, q := NetworkPieces(s, at, f);
    ConvertViewData(a, at + 16, t, Signed(WordAt(a[..], at + 4)), true, p + h, d, q);
    ghost var e := NetworkData(t, d);
    Regroup(p + h, e, q);
    SwapViewHeader(a, at, p, h, e + q);
  }

  /** Whether there is anything to do. */
  lemma ToConvert(s: seq<byte>, at: nat, f: seq<byte>)
    requires LiesAt(s, at, f) && |f| >= 16 && Writable(f, true) && ReadHeader(f, 0).dataType != TYPE_CONTAINER
    ensures at + |f| <= |s|
    ensures IsNetworkOrder(s, at) || !HasConverter(Field(s, at, 3)) ==> Patched(s, at, AfterWrite(f, true)) == s
    ensures !IsNetworkOrder(s, at) && HasConverter(Field(s, at, 3)) ==>
      IsHostOrder(f, 0) && IsHostOrder(s, at) && !ReadHeader(f, 0).net
    ensures Field(s, at, 3) == ReadHeader(f, 0).dataType && Field(s, at, 1) == ReadHeader(f, 0).size
  {
    hide *;
    LiesWhere(s, at, f);
    WritableParts(f, true);
    WrittenParts(f, true);
    HeaderThere(s, at, f);
    FieldParts(s, at);
    SameOrderThere(s, at, f, true);
    InOrderIs(s, at);
    PatchedIs(s, at, AfterWrite(f, true));
    if HasConverter(ReadHeader(f, 0).dataType) {
      OrderOf(f, true);
    }
  }

  lemma NetworkPieces(s: seq<byte>, at: nat, f: seq<byte>)
    returns (p: seq<byte>, h: seq<byte>, d: seq<byte>, q: seq<byte>)
    requires LiesAt(s, at, f) && |f| >= 16 && Writable(f, true) && ReadHeader(f, 0).dataType != TYPE_CONTAINER
    requires at + 16 <= |s| && !IsNetworkOrder(s, at) && HasConverter(Field(s, at, 3))
    ensures var t, size := Field(s, at, 3), Signed(WordAt(s, at + 4));
            && at + |f| <= |s| && s == p + h + d + q && |p| == at && |h| == 16
            && |d| == Reach(t, size) >= Footprint(t) && (t == TYPE_VECTOR_UINT32 ==> size >= 0)
            && Patched(s, at, AfterWrite(f, true)) == p + Flip(h, 4) + (NetworkData(t, d) + q)
  {
    hide *;
    ToConvert(s, at, f);
    LiesWhere(s, at, f);
    WritableParts(f, true);
    WrittenParts(f, true);
    HostSize(s, at);
    PatchedIs(s, at, AfterWrite(f, true));
    var t, all := Field(s, at, 3), f[16..];
    ReachCases(t, Field(s, at, 1));
    var n := Reach(t, Field(s, at, 1));
    WithinReach(t, all);
    p, h, d, q := s[..at], f[..16], all[..n], all[n..] + s[at + |f|..];
    CutFrame(f, n);
    Regroup5(p, h, d, all[n..], s[at + |f|..]);
    Regroup(p + h, d, q);
    Regroup5(p, Flip(h, 4), NetworkData(t, d), all[n..], s[at + |f|..]);
  }

  lemma CutFrame(f: seq<byte>, n: nat)
    requires 16 + n <= |f|
    ensures f == f[..16] + (f[16..][..n] + f[16..][n..]) && |f[16..][..n]| == n
  {
  }

  lemma InOrderIs(s: seq<byte>, at: nat)
    requires at + 16 <= |s|
    ensures InOrder(s, at, true) <==> IsNetworkOrder(s, at)
  {
  }

  lemma HostSize(s: seq<byte>, at: nat)
    requires at + 16 <= |s| && IsHostOrder(s, at)
    ensures Signed(WordAt(s, at + 4)) == Field(s, at, 1)
  {
  }

  /** What is written of a single object, in terms of the swap and the payload converters. */
  lemma WrittenParts(f: seq<byte>, net: bool)
    requires |f| >= 16 && Writable(f, net) && ReadHeader(f, 0).dataType != TYPE_CONTAINER
    ensures var h, t, d := ReadHeader(f, 0), ReadHeader(f, 0).dataType, f[16..];
            && (HasConverter(t) ==> if h.net then IsNetworkOrder(f, 0) else IsHostOrder(f, 0))
            && if h.net == net || !HasConverter(t) then AfterWrite(f, net) == f
               else
                 && Footprint(t) <= |d|
                 && AfterWrite(f, net) == Flip(f[..16], 4) + (if net then NetworkData(t, d) else HostData(t, d))
  {
    hide *;
    var h, t, d := ReadHeader(f, 0), ReadHeader(f, 0).dataType, f[16..];
    AfterWriteParts(f, net);
    WritableParts(f, net);
    if HasConverter(t) {
      MarkSays(f);
      SoundHeader(f);
      FlipHeader(h);
      ConvertedWhen(h, d, net);
      assert f == f[..16] + d;
    }
  }

  lemma MarkSays(f: seq<byte>)
    requires |f| >= 16 && ValidMark(f, 0)
    ensures if ReadHeader(f, 0).net then IsNetworkOrder(f, 0) else IsHostOrder(f, 0)
  {
    hide Field, WordAt;
  }

  lemma ConvertedWhen(h: Header, d: seq<byte>, net: bool)
    requires HasConverter(h.dataType) && (h.net != net ==> Footprint(h.dataType) <= |d|)
    ensures Converted(h, d, net)
         == if h.net == net then (h, d)
            else (h.(net := !h.net), if net then NetworkData(h.dataType, d) else HostData(h.dataType, d))
  {
    hide NetworkData, HostData, Footprint;
  }

  /** What the host-order writer does to a view is what `get` does to it. */
  lemma CleanWrite(f: seq<byte>)
    requires |f| >= 16 && Writable(f, false) && ReadHeader(f, 0).dataType != TYPE_CONTAINER
    ensures ReadsCleanly(f) && ToHostFrame(f) == AfterWrite(f, false)
  {
    WrittenParts(f, false);
    FieldParts(f, 0);
    hide Field, Flip, Footprint, HostData, WordAt, AfterWrite;
  }

  /** The header of an empty container in the order asked for, with its size set to zero. */
  method EmptyHeader(a: array<byte>, at: nat, net: bool, ghost f: seq<byte>)
    requires LiesAt(a[..], at, f) && IsChildFrame(f) && |f| >= 16 && Writable(f, net)
    requires ReadHeader(f, 0).dataType == TYPE_CONTAINER && (|f| == 16 || ReadHeader(f, 0).net != net)
    modifies a
    ensures at + |f| <= a.Length && a[..] == Patched(old(a[..]), at, AfterWrite(f, net))
  {
    hide *;
    ghost var s, h := a[..], ReadHeader(f, 0);
    ghost var p, d := EmptyPieces(s, at, f, net);
    OrderOf(f, net);
    SameOrderThere(s, at, f, net);
    if !InOrder(a[..], at, net) {
      SwapViewHeader(a, at, p, HeaderBytes(h), d);
      FlipHeader(h);
    }
    SetEmpty(a, at, h.(net := net), p, d);
  }

  lemma EmptyPieces(s: seq<byte>, at: nat, f: seq<byte>, net: bool) returns (p: seq<byte>, d: seq<byte>)
    requires LiesAt(s, at, f) && |f| >= 16 && Writable(f, net)
    requires ReadHeader(f, 0).dataType == TYPE_CONTAINER && (|f| == 16 || ReadHeader(f, 0).net != net)
    ensures at + |f| <= |s| && ValidMark(f, 0)
    ensures var h := ReadHeader(f, 0);
            && |p| == at && s == p + HeaderBytes(h) + d && |HeaderBytes(h)| == 16
            && Patched(s, at, AfterWrite(f, net)) == p + HeaderBytes(h.(net := net, size := 0)) + d
  {
    hide *;
    LiesWhere(s, at, f);
    PatchedIs(s, at, AfterWrite(f, net));
    WritableParts(f, net);
    SoundHeader(f);
    EmptyWritten(f, net);
    var q := s[at + |f|..];
    p, d := s[..at], f[16..] + q;
    Regroup4(p, f[..16], f[16..], q);
    assert f == f[..16] + f[16..];
    Regroup4(p, HeaderBytes(ReadHeader(f, 0).(net := net, size := 0)), f[16..], q);
  }

  lemma Regroup4(p: seq<byte>, s: seq<byte>, t: seq<byte>, u: seq<byte>)
    ensures p + (s + t) + u == p + s + (t + u)
  {
  }

  lemma EmptyWritten(f: seq<byte>, net: bool)
    requires |f| >= 16 && ReadHeader(f, 0).dataType == TYPE_CONTAINER && (|f| == 16 || ReadHeader(f, 0).net != net)
    ensures AfterWrite(f, net) == HeaderBytes(ReadHeader(f, 0).(net := net, size := 0)) + f[16..]
  {
  }

  /** `set_data_size_internal(0)`: zero is the same in either order. */
  method SetEmpty(a: array<byte>, at: nat, ghost h: Header, ghost p: seq<byte>, ghost d: seq<byte>)
    requires a[..] == p + HeaderBytes(h) + d && |p| == at
    modifies a
    ensures a[..] == p + HeaderBytes(h.(size := 0)) + d
  {
    hide *;
    ghost var s, b := a[..], HeaderBytes(h);
    assert |s| == a.Length;
    ZeroSize(h);
    assert s[..at + 4] == p + b[..4] && s[at + 8..] == b[8..] + d;
    Store(a, at + 4, WordBytes(0));
    assert (p + b[..4]) + WordBytes(0) + (b[8..] + d) == p + (b[..4] + WordBytes(0) + b[8..]) + d;
  }

  lemma ZeroSize(h: Header)
    ensures var b := HeaderBytes(h); b[..4] + WordBytes(0) + b[8..] == HeaderBytes(h.(size := 0))
    ensures |WordBytes(0)| == 4
  {
    ReadWritten(h);
    SetFieldReads(HeaderBytes(h), 1, 0);
    WrittenFromRead(SetField(HeaderBytes(h), 0, 1, 0));
    ZeroSwaps();
    hide ReadHeader, HeaderBytes, Swap32, WordBytes, IsHostOrder;
  }

  lemma ZeroSwaps()
    ensures Unsigned(0) == 0 && Swap32(0) == 0
  {
    var s: seq<byte> := [0, 0, 0, 0];
    NumberOf4(s);
    WordRoundTrip(s, 0);
    assert s[0..4] == s && Reverse(s) == s;
  }

  /** The scan has come to `ptr`, possibly beyond the end, and found these views. */
  ghost predicate Scanned(s: seq<byte>, ptr: nat, found: map<int32, View>) {
    if ptr <= |s| then
      && (Tiles(s) <==> Tiles(s[ptr..]))
      && Views(s, 0) == Places(found) + Views(s[ptr..], ptr)
      && Seeing(s, found)
    else !Tiles(s)
  }

  /** Every view found is what the constructor makes of the place it is at. */
  ghost predicate Seeing(s: seq<byte>, found: map<int32, View>) {
    forall k :: k in found ==> SeenThere(s, found[k])
  }

  ghost predicate SeenThere(s: seq<byte>, v: View) {
    v.at + 16 <= |s| && v == ViewOf(s, v.at) && v.state.Ready?
  }

  lemma ScanStart(s: seq<byte>)
    ensures Scanned(s, 0, map[])
  {
    assert s[0..] == s && Places(map[]) == map[] && Places(map[]) + Views(s, 0) == Views(s, 0);
  }

  /** A field of the header at `ptr` is one of the frame that starts there. */
  lemma FieldOfRest(s: seq<byte>, ptr: nat)
    requires ptr + 16 <= |s|
    ensures ReadHeader(s, ptr) == ReadHeader(s[ptr..], 0)
  {
    var t := s[ptr..];
    SameWord(s, ptr, t, 0);
    SameWord(s, ptr + 4, t, 4);
    SameWord(s, ptr + 8, t, 8);
    SameWord(s, ptr + 12, t, 12);
  }

  lemma ScanRefused(s: seq<byte>, ptr: nat, found: map<int32, View>)
    requires ptr + 16 <= |s| && Scanned(s, ptr, found) && (Field(s, ptr, 2) < 0 || Field(s, ptr, 1) < 0)
    ensures !Tiles(s)
  {
    FieldOfRest(s, ptr);
    hide Field, IsHostOrder;
  }

  lemma ScanAccepted(s: seq<byte>, ptr: nat, found: map<int32, View>)
    requires ptr + 16 <= |s| <= MAX_DSON_RAM_SIZE && Scanned(s, ptr, found)
    requires Field(s, ptr, 2) >= 0 && Field(s, ptr, 1) >= 0
    ensures Scanned(s, ptr + Field(s, ptr, 1) + 16, found[Field(s, ptr, 2) := ViewOf(s, ptr)])
  {
    hide *;
    var key, next, view := Field(s, ptr, 2), ptr + Field(s, ptr, 1) + 16, ViewOf(s, ptr);
    RestOfScan(s, ptr);
    if next <= |s| {
      PlacesStep(found, key, view, Views(s[next..], next));
      ScanNext(s, ptr, found, key, view, next);
    } else {
      ScanPast(s, ptr, found, key, view, next);
    }
  }

  lemma ScanNext(s: seq<byte>, ptr: nat, found: map<int32, View>, key: int32, view: View, next: nat)
    requires ptr < next <= |s| && Scanned(s, ptr, found) && SeenThere(s, view)
    requires Tiles(s[ptr..]) <==> Tiles(s[next..])
    requires Places(found) + Views(s[ptr..], ptr) == Places(found[key := view]) + Views(s[next..], next)
    ensures Scanned(s, next, found[key := view])
  {
    hide Tiles, Views, Places;
  }

  lemma ScanPast(s: seq<byte>, ptr: nat, found: map<int32, View>, key: int32, view: View, next: nat)
    requires ptr <= |s| < next && Scanned(s, ptr, found) && !Tiles(s[ptr..])
    ensures Scanned(s, next, found[key := view])
  {
    hide Tiles, Views, Places;
  }

  /** What the header at `ptr` says about the rest of the scan. */
  lemma RestOfScan(s: seq<byte>, ptr: nat)
    requires ptr + 16 <= |s| <= MAX_DSON_RAM_SIZE && Field(s, ptr, 2) >= 0 && Field(s, ptr, 1) >= 0
    ensures var next := ptr + Field(s, ptr, 1) + 16;
            if next > |s| then !Tiles(s[ptr..]) else
            && (Tiles(s[ptr..]) <==> Tiles(s[next..]))
            && Views(s[ptr..], ptr) == map[Field(s, ptr, 2) := ViewOf(s, ptr).at] + Views(s[next..], next)
            && SeenThere(s, ViewOf(s, ptr))
  {
    hide *;
    var rest, next := s[ptr..], ptr + Field(s, ptr, 1) + 16;
    RestStarts(s, ptr);
    UnfoldTiles(rest);
    ViewPlaced(s, ptr);
    if next <= |s| {
      UnfoldViews(rest, ptr);
      assert rest[next - ptr..] == s[next..];
    }
  }

  lemma ViewPlaced(s: seq<byte>, at: nat)
    requires at + 16 <= |s|
    ensures ViewOf(s, at).at == at
    ensures 0 <= Field(s, at, 1) <= MAX_DSON_RAM_SIZE ==> SeenThere(s, ViewOf(s, at))
  {
    hide Field;
  }

  lemma RestStarts(s: seq<byte>, ptr: nat)
    requires ptr + 16 <= |s| && Field(s, ptr, 2) >= 0 && Field(s, ptr, 1) >= 0
    ensures var rest, next := s[ptr..], ptr + Field(s, ptr, 1) + 16;
            && (StartsFrame(rest) <==> next <= |s|)
            && (StartsFrame(rest) ==> ptr + FrameEnd(rest) == next && ReadHeader(rest, 0).key == Field(s, ptr, 2))
  {
    FieldOfRest(s, ptr);
    hide Field, IsHostOrder;
  }

  lemma PlacesStep(found: map<int32, View>, key: int32, view: View, ahead: map<int32, nat>)
    ensures Places(found) + (map[key := view.at] + ahead) == Places(found[key := view]) + ahead
  {
    assert Places(found[key := view]) == Places(found)[key := view.at];
    hide Places;
    assert Places(found) + (map[key := view.at] + ahead) == Places(found)[key := view.at] + ahead;
  }

  lemma ScanEnd(s: seq<byte>, ptr: nat, found: map<int32, View>)
    requires Scanned(s, ptr, found) && |s| - ptr < 16
    ensures |s| == ptr <==> Tiles(s)
    ensures |s| == ptr ==> Agree(s, found)
  {
    hide *;
    ScannedAtEnd(s, ptr, found);
    if ptr == |s| {
      forall k | k in found && k in FramesIn(s)
        ensures KindFits(found[k], FramesIn(s)[k])
      {
        PlacesOf(found, k);
        ViewOfKey(s, 0, k);
        FoundFits(s, found[k], FramesIn(s)[k]);
      }
      AgreeWhen(s, found);
    }
  }

  lemma ScannedAtEnd(s: seq<byte>, ptr: nat, found: map<int32, View>)
    requires Scanned(s, ptr, found) && |s| - ptr < 16
    ensures |s| == ptr <==> Tiles(s)
    ensures |s| == ptr ==> Places(found) == Views(s, 0) && forall k :: k in found ==> SeenThere(s, found[k])
  {
    if ptr == |s| {
      assert s[ptr..] == [];
    }
  }

  lemma FoundFits(s: seq<byte>, v: View, f: seq<byte>)
    requires SeenThere(s, v) && LiesAt(s, v.at, f) && |f| >= 16
    ensures KindFits(v, f)
  {
    HeaderThere(s, v.at, f);
    FieldParts(s, v.at);
    hide Field, ReadHeader;
  }

  lemma AgreeWhen(s: seq<byte>, views: map<int32, View>)
    requires Tiles(s) && Places(views) == Views(s, 0)
    requires forall k :: k in views && k in FramesIn(s) ==> KindFits(views[k], FramesIn(s)[k])
    ensures Agree(s, views)
  {
  }
}
