/** Copies driven to completion: through one buffer of the right size, through windows of
    any sizes, and from a queue to a descriptor. */
module Sending {
  import opened Memory
  import opened Headers
  import opened Frames
  import opened Prepared
  import opened Forwarding
  import opened Transport
  import opened DsonObj
  import opened DsonCore

  /** The frame that a copy in the given order emits. */
  ghost function FrameOf(n: Node, net: bool): (f: seq<byte>)
    requires Sized(n)
    ensures |f| >= 16
  {
    Bytes(Prepare(n, net))
  }

  /** A window that took all it could of what was left of `frame`, and is otherwise as it
      was. */
  predicate Filled(frame: seq<byte>, sent: nat, before: seq<byte>, after: seq<byte>, n: nat) {
    && sent <= |frame|
    && n == (if |before| <= |frame| - sent then |before| else |frame| - sent)
    && after == frame[sent..sent + n] + before[n..]
  }

  /** One call of `copy_to_buf_*`. */
  method FillWindow(o: Obj, net: bool, mem: array<byte>) returns (r: Result, n: nat)
    requires o.Valid() && o.Resumable(net) && mem !in o.Foot()
    modifies o.Foot(), mem
    ensures o.Valid() && o.Foot() == old(o.Foot()) && o.Resumable(net)
    ensures Prepare(o.Node(), net) == Prepare(old(o.Node()), net)
    ensures Filled(old(FrameOf(o.Node(), net)), old(o.Sent()), old(mem[..]), mem[..], n)
    ensures r == if old(o.Sent()) + n == |old(FrameOf(o.Node(), net))| then Result.Ready else InProcess
    ensures r.Ready? ==> o.Idle() && o.Node() == Prepare(old(o.Node()), net)
    ensures r.InProcess? ==> !o.Idle() && o.Sent() == old(o.Sent()) + n
  {
    hide Filled, FrameOf, Prepare, Sized, Bytes, Payload, Fits, Held, HeaderBytes, Underway, Position, Ascending;
    var out := new Sink.Window(mem, 0, mem.Length);
    r, n := FillSink(o, net, out);
  }

  method FillSink(o: Obj, net: bool, out: Sink) returns (r: Result, n: nat)
    requires o.Valid() && o.Resumable(net) && out !in o.Foot() && out.mem !in o.Foot()
    requires out.Valid() && !out.isFd && out.log == [] && out.start == 0 && out.size == out.mem.Length
    requires out.before == out.mem[..]
    modifies o.Foot(), out, out.mem
    ensures o.Valid() && o.Foot() == old(o.Foot()) && o.Resumable(net)
    ensures Prepare(o.Node(), net) == Prepare(old(o.Node()), net)
    ensures Filled(old(FrameOf(o.Node(), net)), old(o.Sent()), old(out.mem[..]), out.mem[..], n)
    ensures r == if old(o.Sent()) + n == |old(FrameOf(o.Node(), net))| then Result.Ready else InProcess
    ensures r.Ready? ==> o.Idle() && o.Node() == Prepare(old(o.Node()), net)
    ensures r.InProcess? ==> !o.Idle() && o.Sent() == old(o.Sent()) + n
  {
    hide *;
    MayResume(o, net);
    ghost var frame, sent, before, was := FrameOf(o.Node(), net), o.Sent(), out.mem[..], o.Node();
    Fitting(was, net);
    WindowParts(out);
    r := CopyObj(o, net, out);
    WindowParts(out);
    n := out.pos;
    Fitting(o.Node(), net);
    NextResume(o, net);
    WindowFilled(frame, sent, before, out.mem[..], out.log, r);
  }

  lemma MayResume(o: Obj, net: bool)
    requires o.Valid() && o.Resumable(net)
    ensures Sized(o.Node()) && Fits(o.Node(), net)
  {
  }

  lemma NextResume(o: Obj, net: bool)
    requires o.Idle() || o.Order() == net
    ensures Fits(o.Node(), net) ==> o.Resumable(net)
  {
  }

  lemma WindowParts(out: Sink)
    requires out.Valid() && !out.isFd
    ensures !out.broken && |out.before| == out.mem.Length && out.start + out.size <= out.mem.Length
    ensures out.pos == out.start + |out.log| && out.room == out.size - |out.log| && (out.full ==> out.room == 0)
    ensures out.mem[..] == out.before[..out.start] + out.log + out.before[out.pos..]
  {
  }

  lemma WindowFilled(frame: seq<byte>, sent: nat, before: seq<byte>, after: seq<byte>, log: seq<byte>, r: Result)
    requires Advanced(frame, sent, [], log)
    requires |log| <= |before| && after == before[..0] + log + before[|log|..]
    requires r == Result.Ready ==> sent + |log| == |frame|
    requires r == InProcess ==> sent + |log| < |frame| && |log| == |before|
    requires !r.Error?
    ensures Filled(frame, sent, before, after, |log|)
    ensures after[..|log|] == frame[sent..sent + |log|]
    ensures r == if sent + |log| == |frame| then Result.Ready else InProcess
  {
  }

  lemma Fitting(n: Node, net: bool)
    requires Sized(n)
    ensures FrameOf(n, net) == Bytes(Prepare(n, net)) && |FrameOf(n, net)| == |Bytes(n)|
    ensures Fits(Prepare(n, net), net) <==> Fits(n, net)
  {
    FitsPrepared(n, net);
    PreparedLength(n, net);
  }

  /** `to_buf_host_order`: one window of just the right size.  Its own assertion holds. */
  method ToBufHostOrder(o: Obj) returns (re: array<byte>)
    requires o.Valid() && o.Idle() && Fits(o.Node(), false)
    modifies o.Foot()
    ensures fresh(re) && re[..] == old(FrameOf(o.Node(), false))
    ensures o.Valid() && o.Idle() && o.Node() == Prepare(old(o.Node()), false)
  {
    hide Prepare, Sized, Bytes, Payload, Fits, Held, HeaderBytes, Underway, Position, Ascending;
    var size := ObjDataSize(o);
    IdleSentNothing(o);
    WholeFrame(o.Node(), false);
    re := new byte[size + 16];
    var result, n := FillWindow(o, false, re);
    assert n == re.Length && result.Ready?;
  }

  lemma WholeFrame(n: Node, net: bool)
    requires Sized(n)
    ensures |FrameOf(n, net)| == 16 + |Payload(n)|
  {
    Fitting(n, net);
    FrameHeader(n);
  }

  /** What the first `i` windows hold together. */
  function Total(sizes: seq<nat>, i: nat): nat
    requires i <= |sizes|
  {
    if i == 0 then 0 else Total(sizes, i - 1) + sizes[i - 1]
  }

  lemma {:induction false} TotalGrows(sizes: seq<nat>, i: nat, j: nat)
    requires i <= j <= |sizes|
    ensures Total(sizes, i) <= Total(sizes, j)
    decreases j
  {
    if i < j {
      TotalGrows(sizes, i, j - 1);
    }
  }

  /** A copy through windows of any sizes, empty ones included: together they hold the
      frame's beginning, as much of it as they have room for, and the copy is done exactly
      when they have room for all of it. */
  method CopyThrough(o: Obj, net: bool, sizes: seq<nat>) returns (r: Result, got: seq<byte>)
    requires o.Valid() && o.Idle() && Fits(o.Node(), net)
    modifies o.Foot()
    ensures o.Valid() && o.Foot() == old(o.Foot()) && o.Resumable(net)
    ensures var frame, room := old(FrameOf(o.Node(), net)), Total(sizes, |sizes|);
            && got == frame[..if room <= |frame| then room else |frame|]
            && r == (if |frame| <= room then Result.Ready else InProcess)
    ensures r.Ready? ==> o.Idle() && o.Node() == Prepare(old(o.Node()), net)
  {
    hide *;
    IdleSentNothing(o);
    NextResume(o, net);
    Fitting(o.Node(), net);
    ghost var frame, was := FrameOf(o.Node(), net), o.Node();
    r, got := InProcess, [];
    var i := 0;
    TotalNone(sizes);
    while i < |sizes| && r.InProcess?
      invariant i <= |sizes| && (r.Ready? || r.InProcess?)
      invariant o.Valid() && o.Foot() == old(o.Foot()) && o.Resumable(net)
      invariant Sized(o.Node()) && Prepare(o.Node(), net) == Prepare(was, net)
      invariant got <= frame
      invariant r == if got == frame then Result.Ready else InProcess
      invariant r.InProcess? ==> o.Sent() == |got| == Total(sizes, i)
      invariant r.Ready? ==> o.Idle() && o.Node() == Prepare(was, net) && |got| <= Total(sizes, i)
    {
      SameFrames(o.Node(), was, net);
      r, got := NextWindow(o, net, sizes[i], frame, got);
      TotalNext(sizes, i);
      i := i + 1;
    }
    TotalGrows(sizes, i, |sizes|);
  }

  lemma SameFrames(n: Node, m: Node, net: bool)
    requires Sized(n) && Sized(m) && Prepare(n, net) == Prepare(m, net)
    ensures FrameOf(n, net) == FrameOf(m, net)
  {
  }

  lemma TotalNone(sizes: seq<nat>)
    ensures Total(sizes, 0) == 0
  {
  }

  lemma TotalNext(sizes: seq<nat>, i: nat)
    requires i < |sizes|
    ensures Total(sizes, i + 1) == Total(sizes, i) + sizes[i]
  {
  }

  /** One more window in a copy that has brought out `got` of its frame. */
  method NextWindow(o: Obj, net: bool, size: nat, ghost frame: seq<byte>, got: seq<byte>)
    returns (r: Result, more: seq<byte>)
    requires o.Valid() && o.Resumable(net) && frame == FrameOf(o.Node(), net)
    requires got <= frame && |got| == o.Sent()
    modifies o.Foot()
    ensures o.Valid() && o.Foot() == old(o.Foot()) && o.Resumable(net)
    ensures Prepare(o.Node(), net) == Prepare(old(o.Node()), net)
    ensures more == frame[..if |got| + size <= |frame| then |got| + size else |frame|]
    ensures r == if more == frame then Result.Ready else InProcess
    ensures r.Ready? ==> o.Idle() && o.Node() == Prepare(old(o.Node()), net)
    ensures r.InProcess? ==> o.Sent() == |more|
  {
    hide Prepare, Sized, Bytes, Payload, Fits, Held, HeaderBytes, Underway, Position, Ascending;
    var mem := new byte[size];
    var n;
    r, n := FillWindow(o, net, mem);
    more := got + mem[..n];
  }

  /** Sending through one window over and over, as long as it holds anything at all. */
  method SendAll(o: Obj, net: bool, size: nat) returns (got: seq<byte>)
    requires o.Valid() && o.Idle() && Fits(o.Node(), net) && size > 0
    modifies o.Foot()
    ensures o.Valid() && o.Foot() == old(o.Foot()) && o.Idle()
    ensures got == old(FrameOf(o.Node(), net)) && o.Node() == Prepare(old(o.Node()), net)
  {
    hide *;
    IdleSentNothing(o);
    NextResume(o, net);
    Fitting(o.Node(), net);
    ghost var frame, was := FrameOf(o.Node(), net), o.Node();
    var r := InProcess;
    got := [];
    while r.InProcess?
      invariant r.Ready? || r.InProcess?
      invariant o.Valid() && o.Foot() == old(o.Foot()) && o.Resumable(net)
      invariant Sized(o.Node()) && Prepare(o.Node(), net) == Prepare(was, net)
      invariant got <= frame && (r.Ready? ==> got == frame)
      invariant r.InProcess? ==> o.Sent() == |got|
      invariant r.Ready? ==> o.Idle() && o.Node() == Prepare(was, net)
      decreases |frame| - |got|, r.InProcess?
    {
      SameFrames(o.Node(), was, net);
      r, got := NextWindow(o, net, size, frame, got);
    }
  }

  /** The same object sent again and again, in whatever orders: every frame still reads as what
      the object meant to begin with. */
  method SendRepeatedly(o: Obj, orders: seq<bool>, size: nat) returns (frames: seq<seq<byte>>)
    requires o.Valid() && o.Idle() && Fits(o.Node(), true) && Fits(o.Node(), false) && size > 0
    modifies o.Foot()
    ensures o.Valid() && o.Foot() == old(o.Foot()) && o.Idle()
    ensures Sized(old(o.Node())) && o.Node() == AfterCopies(old(o.Node()), orders) && |frames| == |orders|
    ensures forall i :: 0 <= i < |orders| ==>
      frames[i] == FrameOf(AfterCopies(old(o.Node()), orders[..i]), orders[i])
    ensures Regular(old(o.Node())) ==>
      forall i :: 0 <= i < |orders| ==> Decode(frames[i]) == Some(Meaning(old(o.Node())))
  {
    hide *;
    IdleSentNothing(o);
    ghost var n := o.Node();
    AfterCopiesSnoc(n, [], true);
    frames := [];
    assert orders[..0] == [];
    for i := 0 to |orders|
      invariant o.Valid() && o.Idle() && o.Foot() == old(o.Foot()) && |frames| == i
      invariant Sized(n) && o.Node() == AfterCopies(n, orders[..i]) && Fits(o.Node(), true) && Fits(o.Node(), false)
      invariant forall j :: 0 <= j < i ==> frames[j] == FrameOf(AfterCopies(n, orders[..j]), orders[j])
      invariant Regular(n) ==> forall j :: 0 <= j < i ==> Decode(frames[j]) == Some(Meaning(n))
    {
      FitsEither(o.Node(), orders[i]);
      Fitting(o.Node(), orders[i]);
      AfterCopiesSnoc(n, orders[..i], orders[i]);
      if Regular(n) {
        ReemissionDecodes(n, orders[..i], orders[i]);
      }
      assert orders[..i + 1] == orders[..i] + [orders[i]];
      var frame := SendAll(o, orders[i], size);
      frames := frames + [frame];
    }
    assert orders[..|orders|] == orders;
  }

  /** Store and forward: a loaded frame, not looked into, goes out again byte for byte in
      the order it has, whatever pieces it came in and whatever windows it leaves by. */
  method ForwardUnread(d: Dson, sizes: seq<nat>, ghost f: seq<byte>) returns (r: Result, got: seq<byte>)
    requires d.Holds(f) && Sound(f)
    modifies d.Repr
    ensures var room := Total(sizes, |sizes|);
            && got == f[..if room <= |f| then room else |f|]
            && r == (if |f| <= room then Result.Ready else InProcess)
  {
    hide *;
    d.HeldIsValid(f);
    ForwardedUnread(f);
    AsDson(d);
    var net := d.InNetworkOrder();
    Fitting(d.node, net);
    var o := OfDson(d);
    r, got := CopyThrough(o, net, sizes);
  }

  lemma AsDson(d: Dson)
    ensures var o := OfDson(d);
            && (o.Valid() <==> d.Valid()) && (o.Idle() <==> d.state.Ready?) && o.Foot() == d.Repr && o.Node() == d.node
    ensures forall f :: d.Holds(f) ==> d.state.Ready?
  {
  }
}
