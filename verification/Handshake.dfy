/** One window of fixed size passed back and forth: the sender fills it when it is free,
    the loader empties it when it is full, each in its own time.  The loader is always told
    the whole window, even when the last of it holds left-overs. */
module Handshake {
  import opened Memory
  import opened Frames
  import opened Prepared
  import opened Loading
  import opened Forwarding
  import opened Transport
  import opened DsonCore
  import opened Sending

  /** The sender of `was` has put out the first `covered` bytes of its frame. */
  ghost predicate Sends(o: Obj, net: bool, was: Node, covered: nat, r: Result)
    reads o.Handle(), o.Foot()
  {
    && o.Valid() && Sized(was) && covered <= |FrameOf(was, net)|
    && if covered < |FrameOf(was, net)| then
         r.InProcess? && o.Resumable(net) && Prepare(o.Node(), net) == Prepare(was, net) && o.Sent() == covered
       else r.Ready? && o.Idle() && o.Node() == Prepare(was, net)
  }

  /** The loader has the first `loaded` bytes of the frame. */
  ghost predicate Loads(d: Dson, frame: seq<byte>, loaded: nat, r: Result)
    reads d, d.header, d.buf
  {
    && d.Loadable() && loaded <= |frame|
    && if loaded < |frame| then r.InProcess? && d.Received() == frame[..loaded]
       else r.Ready? && d.Holds(frame)
  }

  /** The window holds the next stretch of the frame, as much as it has room for or as is
      left, and whatever it held before behind that. */
  predicate InWindow(window: seq<byte>, frame: seq<byte>, loaded: nat, covered: nat) {
    && loaded <= covered <= |frame|
    && covered == (if loaded + |window| <= |frame| then loaded + |window| else |frame|)
    && window[..covered - loaded] == frame[loaded..covered]
  }

  /** Where a transfer stands: what the sender has put out, what the loader has taken, and
      whether the window is full. */
  datatype Round = Round(covered: nat, loaded: nat, full: bool)

  /** One turn, the sender's or the loader's, with a window of `w` bytes and a frame of
      `n`: the sender finds the window free and fills it, the loader finds it full and
      empties it, or nothing happens. */
  function Turn(w: nat, n: nat, s: Round, sender: bool): Round {
    if sender then
      if s.full || s.covered >= n then s
      else Round(if s.covered + w <= n then s.covered + w else n, s.loaded, true)
    else
      if s.full then Round(s.covered, s.covered, false) else s
  }

  function Turns(w: nat, n: nat, s: Round, turns: seq<bool>): Round
    decreases |turns|
  {
    if turns == [] then s else Turns(w, n, Turn(w, n, s, turns[0]), turns[1..])
  }

  lemma TurnCases(w: nat, n: nat, s: Round)
    ensures Turn(w, n, s, true)
         == if s.full || s.covered >= n then s
            else Round(if s.covered + w <= n then s.covered + w else n, s.loaded, true)
    ensures Turn(w, n, s, false) == if s.full then Round(s.covered, s.covered, false) else s
  {
  }

  lemma NoTurn(w: nat, n: nat, s: Round)
    ensures Turns(w, n, s, []) == s
  {
  }

  lemma {:induction false} TurnsSnoc(w: nat, n: nat, s: Round, turns: seq<bool>, last: bool)
    ensures Turns(w, n, s, turns + [last]) == Turn(w, n, Turns(w, n, s, turns), last)
    decreases |turns|
  {
    hide Turn;
    if turns == [] {
      assert [] + [last] == [last] && [last][1..] == [];
    } else {
      TurnsSnoc(w, n, Turn(w, n, s, turns[0]), turns[1..], last);
      assert (turns + [last])[1..] == turns[1..] + [last];
    }
  }

  /** `k` rounds of one turn each. */
  function Rounds(k: nat): seq<bool> {
    if k == 0 then [] else [true, false] + Rounds(k - 1)
  }

  /** In step, a frame of n bytes takes exactly as many rounds as it takes windows: after k
      rounds both have done min(k * w, n) bytes. */
  lemma {:induction false} RoundsDone(w: nat, n: nat, at: nat, k: nat)
    requires at <= n
    ensures var done := if at + k * w <= n then at + k * w else n;
            Turns(w, n, Round(at, at, false), Rounds(k)) == Round(done, done, false)
    decreases k
  {
    if k > 0 {
      var next := if at + w <= n then at + w else n;
      var s := Round(at, at, false);
      OneRound(w, n, at, Rounds(k - 1));
      RoundsDone(w, n, next, k - 1);
      MoreRounds(w, n, at, k);
    }
  }

  lemma OneRound(w: nat, n: nat, at: nat, rest: seq<bool>)
    requires at <= n
    ensures var next := if at + w <= n then at + w else n;
            Turns(w, n, Round(at, at, false), [true, false] + rest) == Turns(w, n, Round(next, next, false), rest)
  {
    var turns := [true, false] + rest;
    assert turns[1..] == [false] + rest && turns[1..][1..] == rest;
    var s := Round(at, at, false);
    var t := Turn(w, n, s, true);
    assert Turns(w, n, s, turns) == Turns(w, n, t, turns[1..]);
    assert Turns(w, n, t, turns[1..]) == Turns(w, n, Turn(w, n, t, false), rest);
  }

  lemma MoreRounds(w: nat, n: nat, at: nat, k: nat)
    requires k > 0 && at <= n
    ensures var next := if at + w <= n then at + w else n;
            (if next + (k - 1) * w <= n then next + (k - 1) * w else n) == (if at + k * w <= n then at + k * w else n)
  {
    assert k * w == (k - 1) * w + w && (k - 1) * w >= 0;
  }

  class SharedWindow {
    const buf: array<byte>
    const net: bool
    const loader: Dson
    var bufReady: bool
    var sender: Obj
    var sendResult: Result
    var loadResult: Result

    ghost var foot: set<object>
    ghost var was: Node     // what is being sent
    ghost var covered: nat  // how much of its frame the sender has put out
    ghost var loaded: nat   // how much of it the loader has taken

    ghost predicate Valid()
      reads this, buf, loader, loader.header, loader.buf, sender.Handle(), sender.Foot()
    {
      && buf.Length > 0 && sender.Foot() == foot && Apart()
      && Sends(sender, net, was, covered, sendResult)
      && IsFrame(FrameOf(was, net))
      && Loads(loader, FrameOf(was, net), loaded, loadResult)
      && if bufReady then InWindow(buf[..], FrameOf(was, net), loaded, covered) && loadResult.InProcess?
         else loaded == covered
    }

    ghost predicate Apart()
      reads this, loader
    {
      && foot !! {this, buf, loader, loader.header} && loader.buf !in foot
      && buf != loader.header && buf != loader.buf
    }

    ghost function Standing(): Round
      reads this
    {
      Round(covered, loaded, bufReady)
    }

    lemma Stands()
      ensures Standing() == Round(covered, loaded, bufReady)
    {
    }

    /** A free window, an object that is not being copied, and a loader at rest. */
    constructor (o: Obj, net: bool, buf: array<byte>, loader: Dson, ghost foot: set<object>)
      requires o.Valid() && o.Idle() && Fits(o.Node(), net) && buf.Length > 0
      requires loader.Loadable() && loader.state.Ready? && foot == o.Foot()
      requires foot !! {buf, loader, loader.header} && loader.buf !in foot
      requires buf != loader.header && buf != loader.buf
      ensures Valid() && !bufReady && sendResult.InProcess? && loadResult.InProcess?
      ensures sender == o && was == o.Node() && this.net == net && this.buf == buf && this.loader == loader
    {
      hide *;
      StartParts(o, net);
      LoadStart(loader, FrameOf(o.Node(), net));
      this.buf, this.loader := buf, loader;
      this.net, sender, bufReady := net, o, false;
      sendResult, loadResult := InProcess, InProcess;
      this.foot, was, covered, loaded := foot, o.Node(), 0, 0;
      new;
      Whole();
    }

    lemma Parts()
      requires Valid()
      ensures sender.Handle() in foot && foot == sender.Foot()
      ensures foot !! {this, buf, loader, loader.header} && loader.buf !in foot
      ensures buf != loader.header && buf != loader.buf
      ensures buf.Length > 0 && Sends(sender, net, was, covered, sendResult)
      ensures Sized(was) && IsFrame(FrameOf(was, net)) && Loads(loader, FrameOf(was, net), loaded, loadResult)
      ensures if bufReady then InWindow(buf[..], FrameOf(was, net), loaded, covered) && loadResult.InProcess?
              else loaded == covered
    {
    }

    lemma Whole()
      requires foot == sender.Foot() && foot !! {this, buf, loader, loader.header} && loader.buf !in foot
      requires buf != loader.header && buf != loader.buf
      requires buf.Length > 0 && Sends(sender, net, was, covered, sendResult)
      requires Sized(was) && IsFrame(FrameOf(was, net)) && Loads(loader, FrameOf(was, net), loaded, loadResult)
      requires if bufReady then InWindow(buf[..], FrameOf(was, net), loaded, covered) && loadResult.InProcess?
               else loaded == covered
      ensures Valid()
    {
    }

    /** One turn of the sender's loop. */
    method SenderTurn()
      requires Valid() && sendResult.InProcess?
      modifies this, buf, sender.Foot()
      ensures Valid() && was == old(was) && sender == old(sender) && foot == old(foot)
      ensures Standing() == Turn(buf.Length, |FrameOf(was, net)|, old(Standing()), true)
      ensures loadResult == old(loadResult) && bufReady
      ensures !old(bufReady) ==> old(covered) < covered
    {
      hide *;
      Parts();
      Stands();
      ghost var at, s, frame := covered, Standing(), FrameOf(was, net);
      TurnCases(buf.Length, |frame|, s);
      if bufReady {
        return;
      }
      SendParts(sender, net, was, at, sendResult);
      sendResult, covered := Fill(sender, net, buf, was, covered);
      bufReady := true;
      WindowGrows(buf[..], frame, at, covered);
      Whole();
      Stands();
    }

    /** One turn of the loader's loop. */
    method LoaderTurn()
      requires Valid() && loadResult.InProcess?
      modifies this, loader, loader.header, loader.buf
      ensures Valid() && was == old(was) && sender == old(sender) && foot == old(foot)
      ensures Standing() == Turn(buf.Length, |FrameOf(was, net)|, old(Standing()), false)
      ensures sendResult == old(sendResult) && covered == old(covered) == loaded && !bufReady
      ensures loader.buf == null || loader.buf == old(loader.buf) || fresh(loader.buf)
    {
      hide *;
      Parts();
      Stands();
      TurnCases(buf.Length, |FrameOf(was, net)|, Standing());
      if !bufReady {
        return;
      }
      loadResult := Empty(loader, buf, FrameOf(was, net), loaded, covered);
      bufReady, loaded := false, covered;
      Whole();
      Stands();
    }

    /** Turns in any order, whoever's it is, from anywhere in a transfer: the objects do
        what the rounds say. */
    method Run(turns: seq<bool>)
      requires Valid()
      modifies this, buf, loader, loader.header, loader.buf, foot
      ensures Valid() && was == old(was)
      ensures Standing() == Turns(buf.Length, |FrameOf(was, net)|, old(Standing()), turns)
    {
      hide *;
      Parts();
      ghost var n := |FrameOf(was, net)|;
      NoTurn(buf.Length, n, Standing());
      for i := 0 to |turns|
        invariant Valid() && was == old(was) && foot == old(foot)
        invariant loader.buf == null || loader.buf == old(loader.buf) || fresh(loader.buf)
        invariant Standing() == Turns(buf.Length, n, old(Standing()), turns[..i])
      {
        Parts();
        Between();
        Stands();
        TurnCases(buf.Length, n, Standing());
        InStep();
        TurnsSnoc(buf.Length, n, old(Standing()), turns[..i], turns[i]);
        assert turns[..i + 1] == turns[..i] + [turns[i]];
        if turns[i] && sendResult.InProcess? {
          SenderTurn();
        } else if !turns[i] && loadResult.InProcess? {
          LoaderTurn();
        }
      }
      assert turns[..|turns|] == turns;
    }

    /** The two alternating until both are done, which they are. */
    method Transfer()
      requires Valid()
      modifies this, buf, loader, loader.header, loader.buf, foot
      ensures Valid() && was == old(was) && sendResult.Ready? && loadResult.Ready? && !bufReady
      ensures loader.Holds(FrameOf(was, net)) && sender.Idle() && sender.Node() == Prepare(was, net)
      ensures sender == old(sender) && foot == old(foot) == sender.Foot()
      ensures loader.buf == null || loader.buf == old(loader.buf) || fresh(loader.buf)
    {
      hide *;
      Between();
      while sendResult.InProcess? || loadResult.InProcess?
        invariant Valid() && was == old(was) && sender == old(sender) && foot == old(foot)
        invariant Sized(was) && loaded <= covered <= |FrameOf(was, net)|
        invariant (sendResult.InProcess? || sendResult.Ready?) && (loadResult.InProcess? || loadResult.Ready?)
        invariant loader.buf == null || loader.buf == old(loader.buf) || fresh(loader.buf)
        decreases |FrameOf(was, net)| - covered, bufReady
      {
        Parts();
        if sendResult.InProcess? && !bufReady {
          SenderTurn();
        } else {
          InStep();
          LoaderTurn();
        }
        Between();
      }
      InStep();
      Parts();
      Done();
    }

    lemma Between()
      requires Valid()
      ensures Sized(was) && loaded <= covered <= |FrameOf(was, net)|
      ensures (sendResult.InProcess? || sendResult.Ready?) && (loadResult.InProcess? || loadResult.Ready?)
    {
    }

    /** Both report Ready in the same round: with the window free, either both are done or
        neither is; with the window full, the loader has just this turn to go. */
    lemma InStep()
      requires Valid()
      ensures !bufReady ==> (sendResult.Ready? <==> loadResult.Ready?)
      ensures bufReady ==> loadResult.InProcess?
      ensures loadResult.Ready? ==> sendResult.Ready?
      ensures sendResult.Ready? <==> covered == |FrameOf(was, net)|
      ensures loadResult.Ready? <==> loaded == |FrameOf(was, net)|
    {
    }

    /** The loader ends up with the frame, and the sender with what it sent. */
    lemma Done()
      requires Valid()
      ensures loadResult.Ready? ==> loader.Holds(FrameOf(was, net))
      ensures sendResult.Ready? ==> sender.Idle() && sender.Node() == Prepare(was, net)
    {
    }
  }

  // ----- a row of messages -----

  /** Window and loader have nothing to do with what is sent. */
  ghost predicate Separate(buf: array<byte>, loader: Dson, region: set<object>)
    reads loader, loader.header, loader.buf
  {
    && buf.Length > 0 && loader.Loadable() && loader.state.Ready?
    && region !! {buf, loader, loader.header} && loader.buf !in region
    && buf != loader.header && buf != loader.buf
  }

  /** Message after message through one window to one loader: it is done with each before
      the next can enter the window, which the last stretch of the one before keeps full. */
  method TransferAll(messages: seq<Entry>, ghost nodes: seq<Node>, ghost region: set<object>, net: bool,
                     buf: array<byte>, loader: Dson)
    returns (heard: seq<seq<byte>>)
    requires Held(messages, nodes, -1, region) && forall i :: 0 <= i < |nodes| ==> Fits(nodes[i], net)
    requires Separate(buf, loader, region)
    modifies region, buf, loader, loader.header, loader.buf
    ensures |heard| == |messages| == |nodes|
    ensures forall i :: 0 <= i < |nodes| ==> Sized(nodes[i]) && heard[i] == FrameOf(nodes[i], net)
  {
    hide *;
    RowSized(messages, nodes, region);
    ghost var done := seq(|nodes|, i requires 0 <= i < |nodes| => Prepare(nodes[i], net));
    MixedEnds(done, nodes);
    heard := [];
    for i := 0 to |messages|
      invariant Held(messages, Mixed(done, nodes, i), -1, region) && Separate(buf, loader, region)
      invariant loader.buf == null || loader.buf == old(loader.buf) || fresh(loader.buf)
      invariant |heard| == i && forall j :: 0 <= j < i ==> heard[j] == FrameOf(nodes[j], net)
    {
      MixedNext(done, nodes, i);
      var frame := TransferNext(messages, Mixed(done, nodes, i), i, region, net, buf, loader);
      heard := heard + [frame];
    }
  }

  method TransferNext(messages: seq<Entry>, ghost nodes: seq<Node>, i: nat, ghost region: set<object>, net: bool,
                      buf: array<byte>, loader: Dson)
    returns (frame: seq<byte>)
    requires i < |messages| == |nodes| && Held(messages, nodes, -1, region) && Fits(nodes[i], net)
    requires Separate(buf, loader, region)
    modifies region, buf, loader, loader.header, loader.buf
    ensures Sized(nodes[i]) && frame == FrameOf(nodes[i], net)
    ensures Held(messages, nodes[i := Prepare(nodes[i], net)], -1, region) && Separate(buf, loader, region)
    ensures loader.buf == null || loader.buf == old(loader.buf) || fresh(loader.buf)
  {
    hide *;
    HeldChild(messages, nodes, -1, region, i);
    OneBusy(messages, nodes, i, region);
    TransferNth(messages, nodes, i, region, net, buf, loader);
    OneBusy(messages, nodes[i := Prepare(nodes[i], net)], i, region);
    HeldBytes(loader, FrameOf(nodes[i], net));
    frame := loader.header[..] + if loader.buf == null then [] else loader.buf[..];
  }

  method TransferNth(messages: seq<Entry>, ghost nodes: seq<Node>, i: nat, ghost region: set<object>, net: bool,
                     buf: array<byte>, loader: Dson)
    requires i < |messages| == |nodes| && Held(messages, nodes, i, region) && messages[i].obj.Idle()
    requires Fits(nodes[i], net) && Separate(buf, loader, region)
    modifies messages[i].obj.Foot(), buf, loader, loader.header, loader.buf
    ensures Sized(nodes[i]) && Held(messages, nodes[i := Prepare(nodes[i], net)], i, region)
    ensures messages[i].obj.Handle() in region && messages[i].obj.Idle()
    ensures loader.Holds(FrameOf(nodes[i], net)) && Separate(buf, loader, region)
    ensures loader.buf == null || loader.buf == old(loader.buf) || fresh(loader.buf)
  {
    hide *;
    HeldChild(messages, nodes, i, region, i);
    SeparateParts(buf, loader, region);
    PrepareKeepsLength(nodes[i], net);
    TransferOne(messages[i].obj, messages[i].obj.Foot(), net, buf, loader);
    SiblingsKept((messages, region), nodes, i, Prepare(nodes[i], net));
    HeldBytes(loader, FrameOf(nodes[i], net));
    StillSeparate(buf, loader, region);
  }

  method TransferOne(o: Obj, ghost foot: set<object>, net: bool, buf: array<byte>, loader: Dson)
    requires o.Valid() && o.Idle() && Fits(o.Node(), net) && buf.Length > 0 && foot == o.Foot()
    requires loader.Loadable() && loader.state.Ready? && foot !! {buf, loader, loader.header} && loader.buf !in foot
    requires buf != loader.header && buf != loader.buf
    modifies foot, buf, loader, loader.header, loader.buf
    ensures o.Valid() && o.Idle() && o.Foot() == foot
    ensures Sized(old(o.Node())) && o.Node() == Prepare(old(o.Node()), net)
    ensures loader.Holds(FrameOf(old(o.Node()), net))
    ensures loader.buf == null || loader.buf == old(loader.buf) || fresh(loader.buf)
  {
    hide *;
    var w := new SharedWindow(o, net, buf, loader, foot);
    w.Parts();
    w.Transfer();
    w.Parts();
    SendParts(o, net, w.was, w.covered, w.sendResult);
  }

  lemma RowSized(messages: seq<Entry>, nodes: seq<Node>, region: set<object>)
    requires Held(messages, nodes, -1, region)
    ensures |nodes| == |messages| && forall i :: 0 <= i < |nodes| ==> Sized(nodes[i])
  {
    forall i | 0 <= i < |nodes|
      ensures Sized(nodes[i])
    {
      HeldChild(messages, nodes, -1, region, i);
    }
  }

  lemma SeparateParts(buf: array<byte>, loader: Dson, region: set<object>)
    requires Separate(buf, loader, region)
    ensures buf.Length > 0 && loader.Loadable() && loader.state.Ready?
    ensures region !! {buf, loader, loader.header} && loader.buf !in region
    ensures buf != loader.header && buf != loader.buf
  {
  }

  lemma StillSeparate(buf: array<byte>, loader: Dson, region: set<object>)
    requires buf.Length > 0 && loader.Loadable() && loader.state.Ready?
    requires region !! {buf, loader, loader.header} && loader.buf !in region
    requires buf != loader.header && buf != loader.buf
    ensures Separate(buf, loader, region)
  {
  }

  /** A frame that was loaded is in the loader's two buffers. */
  lemma HeldBytes(d: Dson, f: seq<byte>)
    requires d.Holds(f)
    ensures d.Loadable() && d.state.Ready?
    ensures f == d.header[..] + if d.buf == null then [] else d.buf[..]
  {
    assert f == f[..16] + f[16..];
  }

  lemma SendParts(o: Obj, net: bool, was: Node, covered: nat, r: Result)
    requires Sends(o, net, was, covered, r)
    ensures o.Valid() && Sized(was) && covered <= |FrameOf(was, net)|
    ensures r.InProcess? ==> o.Resumable(net) && Prepare(o.Node(), net) == Prepare(was, net) && o.Sent() == covered
    ensures r == if covered < |FrameOf(was, net)| then InProcess else Result.Ready
    ensures r.Ready? ==> o.Idle() && o.Node() == Prepare(was, net)
  {
  }

  lemma SendWhole(o: Obj, net: bool, was: Node, covered: nat, r: Result)
    requires o.Valid() && Sized(was) && covered <= |FrameOf(was, net)|
    requires r.InProcess? ==> o.Resumable(net) && Prepare(o.Node(), net) == Prepare(was, net) && o.Sent() == covered
    requires r == if covered < |FrameOf(was, net)| then InProcess else Result.Ready
    requires r.Ready? ==> o.Idle() && o.Node() == Prepare(was, net)
    ensures Sends(o, net, was, covered, r)
  {
  }

  lemma FilledWindow(frame: seq<byte>, covered: nat, before: seq<byte>, after: seq<byte>, n: nat)
    requires Filled(frame, covered, before, after, n) && |after| == |before|
    ensures InWindow(after, frame, covered, covered + n)
  {
  }

  /** The window after one call of `copy_to_buf_*`. */
  method Fill(o: Obj, net: bool, buf: array<byte>, ghost was: Node, ghost covered: nat)
    returns (r: Result, ghost next: nat)
    requires Sends(o, net, was, covered, InProcess) && buf !in o.Foot()
    modifies buf, o.Foot()
    ensures Sends(o, net, was, next, r) && o.Foot() == old(o.Foot())
    ensures InWindow(buf[..], FrameOf(was, net), covered, next)
  {
    hide *;
    SendParts(o, net, was, covered, InProcess);
    SameFrames(o.Node(), was, net);
    ghost var before := buf[..];
    var n;
    r, n := FillWindow(o, net, buf);
    FilledWindow(FrameOf(was, net), covered, before, buf[..], n);
    InWindowParts(buf[..], FrameOf(was, net), covered, covered + n);
    next := covered + n;
    SendWhole(o, net, was, next, r);
  }

  lemma WindowGrows(window: seq<byte>, frame: seq<byte>, loaded: nat, covered: nat)
    requires InWindow(window, frame, loaded, covered) && loaded < |frame| && |window| > 0
    ensures loaded < covered == if loaded + |window| <= |frame| then loaded + |window| else |frame|
  {
  }

  lemma InWindowParts(window: seq<byte>, frame: seq<byte>, loaded: nat, covered: nat)
    requires InWindow(window, frame, loaded, covered)
    ensures loaded <= covered <= |frame|
  {
  }

  lemma StartParts(o: Obj, net: bool)
    requires o.Valid() && o.Idle() && Fits(o.Node(), net)
    ensures Sized(o.Node()) && IsFrame(FrameOf(o.Node(), net)) && Sends(o, net, o.Node(), 0, InProcess)
    ensures o.Handle() in o.Foot()
  {
    EmittedIsSound(o.Node(), net);
    IdleSentNothing(o);
    hide Sized, Prepare, Bytes;
  }

  lemma LoadStart(d: Dson, frame: seq<byte>)
    requires d.Loadable() && d.state.Ready? && |frame| > 0
    ensures Loads(d, frame, 0, InProcess)
  {
  }

  /** What the loader is told is the next stretch of the frame and then left-overs; the
      left-overs are only there when the frame is complete, and then never read. */
  lemma WindowFed(window: seq<byte>, frame: seq<byte>, loaded: nat, covered: nat)
    requires IsFrame(frame) && InWindow(window, frame, loaded, covered)
    ensures Feed(frame[..loaded], window) == if covered == |frame| then Loaded(frame) else Waiting(frame[..covered])
  {
    hide IsFrame, Feed;
    if covered == |frame| {
      assert frame[..loaded] + window == frame + window[covered - loaded..];
    } else {
      assert frame[..loaded] + window == frame[..covered];
    }
    FedAtOnce(frame, frame[..loaded], window);
  }

  lemma FedAtOnce(frame: seq<byte>, prior: seq<byte>, window: seq<byte>)
    requires IsFrame(frame)
    ensures prior + window < frame ==> Feed(prior, window) == Waiting(prior + window)
    ensures frame <= prior + window ==> Feed(prior, window) == Loaded(frame)
  {
    StreamOfFrame(frame, prior + window);
    hide Outcome, IsFrame;
    assert [] + (prior + window) == prior + window;
  }

  method Empty(d: Dson, buf: array<byte>, ghost frame: seq<byte>, ghost loaded: nat, ghost covered: nat)
    returns (r: Result)
    requires IsFrame(frame) && Loads(d, frame, loaded, InProcess) && InWindow(buf[..], frame, loaded, covered)
    requires buf != d.header && buf != d.buf
    modifies d, d.header, d.buf
    ensures Loads(d, frame, covered, r)
    ensures d.buf == null || d.buf == old(d.buf) || fresh(d.buf)
  {
    hide *;
    LoadParts(d, frame, loaded);
    WindowFed(buf[..], frame, loaded, covered);
    InWindowParts(buf[..], frame, loaded, covered);
    r := d.LoadFromBuf(buf, 0, buf.Length);
    assert buf[0..buf.Length] == buf[..];
    LoadedOn(d, frame, covered, r);
  }

  lemma LoadParts(d: Dson, frame: seq<byte>, loaded: nat)
    requires Loads(d, frame, loaded, InProcess)
    ensures d.Loadable() && loaded <= |frame| && d.Received() == frame[..loaded]
  {
  }

  lemma LoadedOn(d: Dson, frame: seq<byte>, covered: nat, r: Result)
    requires covered <= |frame|
    requires d.LoadedTo(r, if covered == |frame| then Loaded(frame) else Waiting(frame[..covered]))
    ensures Loads(d, frame, covered, r)
  {
  }
}
