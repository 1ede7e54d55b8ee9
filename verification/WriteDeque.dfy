/** The server's queue of outgoing messages, drained into a descriptor that takes what it
    likes. */
module WriteDeque {
  import opened Memory
  import opened Headers
  import opened Frames
  import opened Prepared
  import opened Fifo
  import opened Transport
  import opened DsonCore
  import opened Sending

  /** Messages that wait their turn: `frames` is what they will be on the wire.  All but
      the first are untouched. */
  ghost predicate Lined(deque: seq<Dson>, frames: seq<seq<byte>>, region: set<object>)
    reads region
  {
    && |frames| == |deque|
    && (forall i :: 0 <= i < |deque| ==> deque[i] in region)
    && (forall i :: 0 <= i < |deque| ==> deque[i].Repr <= region)
    && (forall i, j :: 0 <= i < j < |deque| ==> deque[i].Repr !! deque[j].Repr)
    && (forall i :: 0 <= i < |deque| ==> Underway(deque[i], frames[i], region))
    && (forall i :: 0 < i < |deque| ==> deque[i].state.Ready?)
  }

  ghost predicate Underway(d: Dson, frame: seq<byte>, region: set<object>)
    requires d in region && d.Repr <= region
    reads region
  {
    d.Valid() && Fits(d.node, true) && FrameOf(d.node, true) == frame && (d.state.Ready? || d.order) && d.sent < |frame|
  }

  /** `k` bytes of a frame, from `at` on, have gone out; the answer says whether it is
      complete. */
  predicate Moved(frame: seq<byte>, at: nat, k: nat, log: seq<byte>, next: seq<byte>, r: Result) {
    && at + k <= |frame| && next == log + frame[at..at + k]
    && (r.Ready? ==> at + k == |frame|) && (r.InProcess? ==> at + k < |frame|)
  }

  class Outbox {
    var deque: seq<Dson>
    ghost var frames: seq<seq<byte>>
    ghost var region: set<object>

    ghost predicate Valid()
      reads this, region
    {
      this !in region && Lined(deque, frames, region)
    }

    /** How much of the first message is out. */
    ghost function Out(): nat
      reads this, region
    {
      if deque != [] && deque[0] in region then deque[0].sent else 0
    }

    constructor ()
      ensures Valid() && deque == [] && frames == [] && region == {}
    {
      deque, frames, region := [], [], {};
    }

    /** `emplace_back`. */
    method Put(d: Dson)
      requires Valid() && d.Valid() && d.state.Ready? && Fits(d.node, true) && d.Repr !! region && this !in d.Repr
      modifies this
      ensures Valid() && deque == old(deque) + [d] && Out() == old(Out())
      ensures frames == old(frames) + [FrameOf(d.node, true)] && region == old(region) + d.Repr
    {
      LinedBehind(deque, frames, region, d);
      hide *;
      deque, frames, region := deque + [d], frames + [FrameOf(d.node, true)], region + d.Repr;
    }

    lemma OutboxParts()
      requires Valid()
      ensures this !in region && Lined(deque, frames, region)
      ensures deque != [] ==> deque[0] in region && Out() == deque[0].sent
    {
    }

    /** One turn of `send_dson_from_deque`: the first message is sent on, and leaves the
        queue once it is out. */
    method WriteFront(out: Sink) returns (r: Result, ghost k: nat)
      requires Valid() && deque != []
      requires out.Valid() && !out.broken && out !in region && out.mem !in region
      modifies this, region, out, out.mem
      ensures out.Valid() && (r.Error? <==> out.broken)
      ensures |old(frames)| > 0 && Moved(old(frames[0]), old(Out()), k, old(out.log), out.log, r)
      ensures region == old(region) && (!r.Error? ==> Valid())
      ensures r.Ready? ==> deque == old(deque)[1..] && frames == old(frames)[1..] && Out() == 0
      ensures !r.Ready? ==> deque == old(deque) && frames == old(frames)
      ensures r.InProcess? ==> Out() == old(Out()) + k && out.full
    {
      OutboxParts();
      hide *;
      r, k := SendFront(deque, frames, region, out);
      if r.Ready? {
        Pop();
      } else if r.InProcess? {
        OutboxWhole();
      }
    }

    method Pop()
      requires deque != [] && |frames| == |deque| && this !in region && Lined(deque[1..], frames[1..], region)
      requires |deque| > 1 ==> deque[1].sent == 0
      modifies `deque, `frames
      ensures Valid() && deque == old(deque)[1..] && frames == old(frames)[1..] && Out() == 0
    {
      hide *;
      deque, frames := deque[1..], frames[1..];
      OutboxWhole();
    }

    lemma OutboxWhole()
      requires this !in region && Lined(deque, frames, region)
      ensures Valid() && Out() == if deque == [] then 0 else deque[0].sent
    {
    }

    /** All that is still to be sent. */
    ghost function Due(): seq<byte>
      requires Valid()
      reads this, region
    {
      Unsent(frames, Out())
    }

    lemma DueUnsent()
      requires Valid()
      ensures |frames| == |deque| && (frames != [] ==> Out() < |frames[0]|) && Due() == Unsent(frames, Out())
      ensures deque == [] ==> Due() == []
    {
    }

    /** `send_dson_from_deque`: on until the queue is empty or the descriptor will not take
        more for now.  What is still to be sent is what was, less what went out. */
    method SendFromDeque(out: Sink) returns (r: Result)
      requires Valid() && out.Valid() && !out.broken && out !in region && out.mem !in region
      modifies this, region, out, out.mem
      ensures out.Valid() && (r.Error? <==> out.broken) && old(out.log) <= out.log
      ensures !r.Error? ==> Valid() && region == old(region) && (r.Ready? <==> deque == [])
      ensures r.InProcess? ==> out.full
      ensures !r.Error? ==> old(Due()) == out.log[|old(out.log)|..] + Due()
      ensures r.Error? ==> out.log[|old(out.log)|..] <= old(Due())
    {
      hide *;
      ghost var log, due := out.log, Due();
      assert out.log[|log|..] + due == due;
      while deque != []
        invariant Valid() && region == old(region) && out.Valid() && !out.broken
        invariant log <= out.log && due == out.log[|log|..] + Due()
        decreases |deque|
      {
        r := Turn(out, log, due);
        if !r.Ready? {
          return;
        }
      }
      r := Result.Ready;
    }

    method Turn(out: Sink, ghost log: seq<byte>, ghost due: seq<byte>) returns (r: Result)
      requires Valid() && deque != [] && log <= out.log && due == out.log[|log|..] + Due()
      requires out.Valid() && !out.broken && out !in region && out.mem !in region
      modifies this, region, out, out.mem
      ensures out.Valid() && (r.Error? <==> out.broken) && log <= out.log
      ensures !r.Error? ==> Valid() && region == old(region) && due == out.log[|log|..] + Due()
      ensures r.Error? ==> out.log[|log|..] <= due
      ensures r.Ready? ==> |deque| < |old(deque)|
      ensures r.InProcess? ==> deque == old(deque) && out.full
    {
      hide *;
      DueUnsent();
      ghost var queue, at, mid := frames, Out(), out.log;
      ghost var k;
      r, k := WriteFront(out);
      GoneFurther(log, mid, out.log, queue, at, k, due, r);
      if !r.Error? {
        DueUnsent();
      }
    }
  }

  lemma LinedBehind(deque: seq<Dson>, frames: seq<seq<byte>>, region: set<object>, d: Dson)
    requires Lined(deque, frames, region) && d.Valid() && d.state.Ready? && Fits(d.node, true) && d.Repr !! region
    ensures Lined(deque + [d], frames + [FrameOf(d.node, true)], region + d.Repr)
  {
    hide FrameOf, Fits;
  }

  lemma Front(deque: seq<Dson>, frames: seq<seq<byte>>, region: set<object>)
    requires Lined(deque, frames, region) && deque != []
    ensures |frames| == |deque| && deque[0] in region && deque[0].Repr <= region
    ensures Underway(deque[0], frames[0], region)
  {
  }

  /** A call of `copy_to_fd_network_order` on the first message, seen from the queue. */
  method SendFront(deque: seq<Dson>, ghost frames: seq<seq<byte>>, ghost region: set<object>, out: Sink)
    returns (r: Result, ghost k: nat)
    requires Lined(deque, frames, region) && deque != [] && deque[0] in region
    requires out.Valid() && !out.broken && out !in region && out.mem !in region
    modifies region, out, out.mem
    ensures out.Valid() && (r.Error? <==> out.broken) && |frames| == |deque|
    ensures Moved(frames[0], old(deque[0].sent), k, old(out.log), out.log, r)
    ensures r.Ready? ==> Lined(deque[1..], frames[1..], region) && (|deque| > 1 ==> deque[1].sent == 0)
    ensures r.InProcess? ==> Lined(deque, frames, region) && deque[0].sent == old(deque[0].sent) + k && out.full
  {
    Front(deque, frames, region);
    hide *;
    r, k := CopyFront(deque[0], frames[0], region, out);
    if r.Ready? {
      RestLined((deque, frames, region));
    } else if r.InProcess? {
      StillLined((deque, frames, region));
    }
  }

  /** A call of `copy_to_fd_network_order` on one message. */
  method CopyFront(d: Dson, ghost frame: seq<byte>, ghost region: set<object>, out: Sink)
    returns (r: Result, ghost k: nat)
    requires d in region && d.Repr <= region && Underway(d, frame, region)
    requires out.Valid() && !out.broken && out !in region && out.mem !in region
    modifies d.Repr, out, out.mem
    ensures out.Valid() && (r.Error? <==> out.broken) && d.Repr == old(d.Repr)
    ensures Moved(frame, old(d.sent), k, old(out.log), out.log, r)
    ensures r.InProcess? ==> d.sent == old(d.sent) + k && Underway(d, frame, region) && out.full
  {
    hide Bytes, Prepare, Sized, Fits, HeaderBytes, Held, Payload, FrameOf;
    Fitting(d.node, true);
    r := d.CopyTo(true, out);
    Fitting(d.node, true);
    k := |out.log| - |old(out.log)|;
  }

  /** A message none of whose parts changed is as it was. */
  twostate lemma MessageKept(m: (Dson, set<object>), new frame: seq<byte>)
    requires old(m.0.Repr <= m.1 && m.0 in m.1 && Underway(m.0, frame, m.1))
    requires unchanged(old(m.0.Repr))
    ensures m.0.Repr == old(m.0.Repr) && m.0.state == old(m.0.state) && m.0.sent == old(m.0.sent)
    ensures m.0.Repr <= m.1 && m.0 in m.1 && Underway(m.0, frame, m.1)
  {
    hide Fits, FrameOf;
    assert m.0 in old(m.0.Repr);
  }

  twostate lemma OthersKept(lined: (seq<Dson>, seq<seq<byte>>, set<object>))
    requires old(Lined(lined.0, lined.1, lined.2)) && lined.0 != []
    requires unchanged(lined.2 - old(lined.0[0].Repr))
    ensures |lined.1| == |lined.0| && forall i :: 0 < i < |lined.0| ==>
      var d := lined.0[i];
      && d.Repr == old(d.Repr) && d.state == old(d.state) && d.state.Ready? && d.sent == old(d.sent)
      && d.Repr <= lined.2 && d in lined.2 && Underway(d, lined.1[i], lined.2)
  {
    hide Underway;
    forall i | 0 < i < |lined.0|
      ensures var d := lined.0[i];
              && d.Repr == old(d.Repr) && d.state == old(d.state) && d.state.Ready? && d.sent == old(d.sent)
              && d.Repr <= lined.2 && d in lined.2 && Underway(d, lined.1[i], lined.2)
    {
      MessageKept((lined.0[i], lined.2), lined.1[i]);
    }
  }

  twostate lemma StillLined(lined: (seq<Dson>, seq<seq<byte>>, set<object>))
    requires old(Lined(lined.0, lined.1, lined.2)) && lined.0 != []
    requires unchanged(lined.2 - old(lined.0[0].Repr))
    requires lined.0[0].Repr == old(lined.0[0].Repr) && lined.0[0] in lined.2 && lined.0[0].Repr <= lined.2
    requires |lined.1| > 0 && Underway(lined.0[0], lined.1[0], lined.2)
    ensures Lined(lined.0, lined.1, lined.2)
  {
    hide Underway;
    OthersKept(lined);
  }

  twostate lemma RestLined(lined: (seq<Dson>, seq<seq<byte>>, set<object>))
    requires old(Lined(lined.0, lined.1, lined.2)) && lined.0 != []
    requires unchanged(lined.2 - old(lined.0[0].Repr))
    ensures |lined.1| == |lined.0| && Lined(lined.0[1..], lined.1[1..], lined.2)
    ensures |lined.0| > 1 ==> lined.0[1].sent == 0
  {
    OthersKept(lined);
    forall i, j | 0 < i < j < |lined.0|
      ensures lined.0[i].Repr !! lined.0[j].Repr
    {
      assert old(lined.0[i].Repr !! lined.0[j].Repr);
    }
    hide Underway;
    TailLined(lined.0, lined.1, lined.2);
    if |lined.0| > 1 {
      NothingOut(lined.0[1], lined.1[1], lined.2);
    }
  }

  lemma TailLined(deque: seq<Dson>, frames: seq<seq<byte>>, region: set<object>)
    requires |frames| == |deque| > 0
    requires forall i :: 0 < i < |deque| ==> deque[i] in region && deque[i].Repr <= region && deque[i].state.Ready?
    requires forall i, j :: 0 < i < j < |deque| ==> deque[i].Repr !! deque[j].Repr
    requires forall i :: 0 < i < |deque| ==> Underway(deque[i], frames[i], region)
    ensures Lined(deque[1..], frames[1..], region)
  {
    hide Underway;
  }

  lemma NothingOut(d: Dson, frame: seq<byte>, region: set<object>)
    requires d in region && d.Repr <= region && Underway(d, frame, region) && d.state.Ready?
    ensures d.sent == 0
  {
  }

  lemma GoneFurther(log: seq<byte>, mid: seq<byte>, next: seq<byte>, queue: seq<seq<byte>>, at: nat, k: nat,
                    due: seq<byte>, r: Result)
    requires queue != [] && Moved(queue[0], at, k, mid, next, r)
    requires log <= mid && due == mid[|log|..] + Unsent(queue, at)
    ensures log <= next && next[|log|..] <= due
    ensures r.Ready? ==> due == next[|log|..] + Unsent(queue[1..], 0)
    ensures r.InProcess? ==> due == next[|log|..] + Unsent(queue, at + k)
  {
    UnsentWritten(queue, at, k);
    var piece := queue[0][at..at + k];
    assert next == mid + piece && (r.Ready? ==> at + k == |queue[0]|) && (r.InProcess? ==> at + k < |queue[0]|);
    hide *;
    Behind(log, mid, piece, if at + k == |queue[0]| then Unsent(queue[1..], 0) else Unsent(queue, at + k));
  }

  lemma Behind(log: seq<byte>, mid: seq<byte>, piece: seq<byte>, rest: seq<byte>)
    requires log <= mid
    ensures log <= mid + piece && (mid + piece)[|log|..] == mid[|log|..] + piece
    ensures mid[|log|..] + (piece + rest) == (mid[|log|..] + piece) + rest
  {
  }
}
