/** A byte stream between a queue of outgoing messages and a loader: every write and
    every read may be short, and they interleave at will. */
module Fifo {
  import opened Memory
  import opened Headers
  import opened Loading

  /** `messages` is all that was ever enqueued, `queue` what is left to send, `out` how
      much of its first message is out, `pipe` what is in flight, `partial` what the
      receiver holds of the next message, and `inbox` what it has reported Ready. */
  datatype Link = Link(
    messages: seq<seq<byte>>,
    queue: seq<seq<byte>>,
    out: nat,
    pipe: seq<byte>,
    partial: seq<byte>,
    inbox: seq<seq<byte>>,
    failed: bool)

  /** `Write(k)` is a write of k bytes, `Read(k)` one call of the loader that took k, in one
      or two reads. */
  datatype Step = Enqueue(message: seq<byte>) | Write(k: nat) | Read(k: nat)

  const IDLE: Link := Link([], [], 0, [], [], [], false)

  predicate Enabled(s: Link, step: Step) {
    match step
    case Enqueue(f) => IsFrame(f)
    case Write(k) => s.queue != [] && s.out + k <= |s.queue[0]|
    case Read(k) => !s.failed && Incomplete(s.partial) && k <= |s.pipe| && NothingBeyond(s.partial, s.pipe[..k])
  }

  function Next(s: Link, step: Step): Link
    requires Enabled(s, step)
  {
    match step
    case Enqueue(f) => s.(messages := s.messages + [f], queue := s.queue + [f])
    case Write(k) =>
      var end := s.out + k;
      var pipe := s.pipe + s.queue[0][s.out..end];
      if end == |s.queue[0]| then s.(queue := s.queue[1..], out := 0, pipe := pipe)
      else s.(out := end, pipe := pipe)
    case Read(k) =>
      var rest := s.(pipe := s.pipe[k..]);
      match Feed(s.partial, s.pipe[..k])
      case Waiting(partial) => rest.(partial := partial)
      case Loaded(f) => rest.(partial := [], inbox := s.inbox + [f])
      case Broken => rest.(failed := true)
  }

  predicate Possible(s: Link, run: seq<Step>)
    decreases |run|
  {
    run != [] ==> Enabled(s, run[0]) && Possible(Next(s, run[0]), run[1..])
  }

  function After(s: Link, run: seq<Step>): Link
    requires Possible(s, run)
    decreases |run|
  {
    if run == [] then s else After(Next(s, run[0]), run[1..])
  }

  /** What is still to come out of a queue with `out` bytes of its first message gone. */
  function Unsent(queue: seq<seq<byte>>, out: nat): seq<byte>
    requires queue != [] ==> out <= |queue[0]|
  {
    if queue == [] then [] else queue[0][out..] + Join(queue[1..])
  }

  /** The queue and the inbox are what they should be of the messages enqueued. */
  predicate Shape(s: Link) {
    && !s.failed
    && (forall i :: 0 <= i < |s.messages| ==> IsFrame(s.messages[i]))
    && (if s.queue == [] then s.out == 0 else s.out < |s.queue[0]|)
    && |s.inbox| + |s.queue| <= |s.messages|
    && s.queue == s.messages[|s.messages| - |s.queue|..]
    && s.inbox == s.messages[..|s.inbox|]
    && Incomplete(s.partial)
  }

  /** Nothing is lost, repeated or reordered: what the receiver holds of its next
      message, what is in flight and what is unsent are exactly the messages it has not
      reported yet. */
  predicate Conserved(s: Link)
    requires Shape(s)
  {
    s.partial + (s.pipe + Unsent(s.queue, s.out)) == Join(s.messages[|s.inbox|..])
  }

  predicate Inv(s: Link) { Shape(s) && Conserved(s) }

  lemma {:induction false} JoinSnoc(ss: seq<seq<byte>>, t: seq<byte>)
    ensures Join(ss + [t]) == Join(ss) + t
  {
    if ss == [] {
      assert [t][1..] == [] && [] + [t] == [t];
    } else {
      JoinSnoc(ss[1..], t);
      assert (ss + [t])[1..] == ss[1..] + [t];
    }
  }

  lemma UnsentEnqueued(queue: seq<seq<byte>>, out: nat, f: seq<byte>)
    requires if queue == [] then out == 0 else out <= |queue[0]|
    ensures Unsent(queue + [f], out) == Unsent(queue, out) + f
  {
    if queue == [] {
      assert [] + [f] == [f] && [f][1..] == [] && f[0..] == f;
    } else {
      assert (queue + [f])[1..] == queue[1..] + [f];
      JoinSnoc(queue[1..], f);
    }
  }

  lemma EnqueueKeeps(s: Link, f: seq<byte>)
    requires Inv(s) && IsFrame(f)
    ensures Inv(Next(s, Enqueue(f)))
  {
    hide IsFrame, Incomplete, Unsent, Join;
    UnsentEnqueued(s.queue, s.out, f);
    assert (s.messages + [f])[|s.inbox|..] == s.messages[|s.inbox|..] + [f];
    JoinSnoc(s.messages[|s.inbox|..], f);
    Reassociate(s.partial, s.pipe, Unsent(s.queue, s.out), f);
    assert |f| > 0 by { FrameNotEmpty(f); }
  }

  lemma FrameNotEmpty(f: seq<byte>)
    requires IsFrame(f)
    ensures |f| >= 16
  {
  }

  lemma Reassociate(a: seq<byte>, b: seq<byte>, c: seq<byte>, d: seq<byte>)
    ensures a + (b + (c + d)) == (a + (b + c)) + d && a + ((b + c) + d) == a + (b + (c + d))
    ensures (a + b) + (c + d) == a + (b + (c + d))
  {
  }

  /** What leaves the queue is what it no longer owes. */
  lemma UnsentWritten(queue: seq<seq<byte>>, out: nat, k: nat)
    requires queue != [] && out + k <= |queue[0]|
    ensures var front := queue[0][out..out + k];
            Unsent(queue, out)
            == front + if out + k == |queue[0]| then Unsent(queue[1..], 0) else Unsent(queue, out + k)
  {
    var first, end, others := queue[0], out + k, Join(queue[1..]);
    UnsentFresh(queue[1..]);
    SplitRest(first, out, end, others);
    hide Join;
  }

  lemma UnsentFresh(queue: seq<seq<byte>>)
    ensures Unsent(queue, 0) == Join(queue)
  {
    if queue != [] {
      assert queue[0][0..] == queue[0];
    }
  }

  lemma SplitRest(s: seq<byte>, a: nat, b: nat, t: seq<byte>)
    requires a <= b <= |s|
    ensures s[a..] + t == s[a..b] + (s[b..] + t)
    ensures b == |s| ==> s[a..] + t == s[a..b] + t
  {
  }

  lemma WriteKeeps(s: Link, k: nat)
    requires Inv(s) && Enabled(s, Write(k))
    ensures Inv(Next(s, Write(k)))
  {
    hide IsFrame, Incomplete, Unsent, Join;
    var t, front := Next(s, Write(k)), s.queue[0][s.out..s.out + k];
    UnsentWritten(s.queue, s.out, k);
    Reassociate(s.partial, s.pipe, front, Unsent(t.queue, t.out));
    WriteShape(s, k);
  }

  lemma WriteShape(s: Link, k: nat)
    requires Shape(s) && Enabled(s, Write(k))
    ensures Shape(Next(s, Write(k)))
  {
    hide Incomplete, IsFrame;
    var t := Next(s, Write(k));
    FirstOfRest(s.messages, s.queue);
    if t.queue != [] {
      FrameNotEmpty(t.queue[0]);
    }
  }

  lemma FirstOfRest(messages: seq<seq<byte>>, queue: seq<seq<byte>>)
    requires 0 < |queue| <= |messages| && queue == messages[|messages| - |queue|..]
    ensures queue[1..] == messages[|messages| - |queue[1..]|..]
    ensures |queue| > 1 ==> queue[1..][0] == messages[|messages| - |queue| + 1]
  {
  }

  lemma SameFirstHeader(s: seq<byte>, tail: seq<byte>, f: seq<byte>, rest: seq<byte>)
    requires |s| >= 16 && |f| >= 16 && s + tail == f + rest
    ensures ReadHeader(s, 0) == ReadHeader(f, 0)
  {
    HeaderOfLonger(s, tail);
    HeaderOfLonger(f, rest);
  }

  /** One read against the messages that are due: frames delimit themselves, so what
      completes is the first of them. */
  lemma ReadStep(partial: seq<byte>, chunk: seq<byte>, tail: seq<byte>, due: seq<seq<byte>>)
    requires Incomplete(partial) && NothingBeyond(partial, chunk)
    requires forall i :: 0 <= i < |due| ==> IsFrame(due[i])
    requires (partial + chunk) + tail == Join(due)
    ensures match Feed(partial, chunk)
            case Waiting(p) => Incomplete(p) && p == partial + chunk
            case Loaded(f) => due != [] && f == due[0] == partial + chunk && tail == Join(due[1..])
            case Broken => false
  {
    FeedMore(partial, chunk, []);
    var s := partial + chunk;
    if |s| >= 16 {
      assert due != [] && Join(due) == due[0] + Join(due[1..]);
      SameFirstHeader(s, tail, due[0], Join(due[1..]));
      hide ReadHeader, Join, Feed;
      if Feed(partial, chunk).Loaded? {
        SplitAt(s, tail, due[0], Join(due[1..]));
      }
    }
  }

  lemma SplitAt(a: seq<byte>, b: seq<byte>, c: seq<byte>, d: seq<byte>)
    requires a + b == c + d && |a| == |c|
    ensures a == c && b == d
  {
    assert a == (a + b)[..|a|] && b == (a + b)[|a|..];
  }

  /** A message that has all arrived has all been sent: it is not in the queue. */
  lemma ArrivedIsSent(s: Link, arrived: nat)
    requires Inv(s) && |s.inbox| < |s.messages| && |s.messages[|s.inbox|]| <= arrived <= |s.partial| + |s.pipe|
    ensures |s.inbox| + 1 + |s.queue| <= |s.messages|
  {
    if |s.inbox| + |s.queue| == |s.messages| {
      var due := s.messages[|s.inbox|..];
      assert s.queue == due && Join(due) == due[0] + Join(due[1..]);
      assert |Unsent(s.queue, s.out)| == |Join(due)| - s.out;
      assert false;
    }
  }

  lemma ReadKeeps(s: Link, k: nat)
    requires Inv(s) && Enabled(s, Read(k))
    ensures Inv(Next(s, Read(k)))
  {
    var due, chunk := s.messages[|s.inbox|..], s.pipe[..k];
    var tail := s.pipe[k..] + Unsent(s.queue, s.out);
    ReadDue(s, k);
    ReadStep(s.partial, chunk, tail, due);
    hide Inv, Incomplete, Unsent, Join, Feed, Wanted, IsFrame;
    match Feed(s.partial, chunk)
    case Waiting(partial) => WaitKeeps(s, k);
    case Loaded(f) => DeliverKeeps(s, k, f, tail);
  }

  lemma ReadDue(s: Link, k: nat)
    requires Inv(s) && k <= |s.pipe|
    ensures s.queue != [] ==> s.out <= |s.queue[0]|
    ensures |s.inbox| <= |s.messages|
    ensures var due := s.messages[|s.inbox|..];
            && (s.partial + s.pipe[..k]) + (s.pipe[k..] + Unsent(s.queue, s.out)) == Join(due)
            && forall i :: 0 <= i < |due| ==> IsFrame(due[i])
  {
    hide Join, Unsent, IsFrame;
    assert s.pipe == s.pipe[..k] + s.pipe[k..];
    Reassociate(s.partial, s.pipe[..k], s.pipe[k..], Unsent(s.queue, s.out));
  }

  lemma WaitKeeps(s: Link, k: nat)
    requires Inv(s) && k <= |s.pipe| && Incomplete(s.partial + s.pipe[..k])
    ensures Inv(s.(pipe := s.pipe[k..], partial := s.partial + s.pipe[..k]))
  {
    hide IsFrame, Unsent, Join, Incomplete;
    ReadDue(s, k);
  }

  lemma DeliverKeeps(s: Link, k: nat, f: seq<byte>, tail: seq<byte>)
    requires Inv(s) && k <= |s.pipe| && |s.inbox| < |s.messages| && f == s.messages[|s.inbox|]
    requires |f| <= |s.partial| + k && tail == s.pipe[k..] + Unsent(s.queue, s.out)
    requires tail == Join(s.messages[|s.inbox|..][1..])
    ensures Inv(s.(pipe := s.pipe[k..], partial := [], inbox := s.inbox + [f]))
  {
    InvParts(s);
    hide *;
    var t := s.(pipe := s.pipe[k..], partial := [], inbox := s.inbox + [f]);
    ArrivedIsSent(s, |s.partial| + k);
    NextDue(s.messages, s.inbox, f);
    DeliverShape(s, t, f);
    NewlyConserved(t, tail);
    InvParts(t);
  }

  lemma InvParts(s: Link)
    ensures Inv(s) <==> Shape(s) && Conserved(s)
    ensures Inv(s) ==> s.inbox == s.messages[..|s.inbox|] && (s.queue != [] ==> s.out <= |s.queue[0]|)
  {
  }

  lemma DeliverShape(s: Link, t: Link, f: seq<byte>)
    requires Shape(s) && |s.inbox| + 1 + |s.queue| <= |s.messages|
    requires t == s.(pipe := t.pipe, partial := [], inbox := s.inbox + [f])
    requires s.inbox + [f] == s.messages[..|s.inbox| + 1]
    ensures Shape(t)
  {
    hide IsFrame;
  }

  lemma NextDue(messages: seq<seq<byte>>, inbox: seq<seq<byte>>, f: seq<byte>)
    requires |inbox| < |messages| && inbox == messages[..|inbox|] && f == messages[|inbox|]
    ensures messages[|inbox|..][1..] == messages[|inbox| + 1..]
    ensures inbox + [f] == messages[..|inbox| + 1]
  {
  }

  lemma NewlyConserved(t: Link, tail: seq<byte>)
    requires Shape(t) && t.partial == [] && tail == t.pipe + Unsent(t.queue, t.out)
    requires tail == Join(t.messages[|t.inbox|..])
    ensures Conserved(t)
  {
    hide Unsent, Join, Incomplete, IsFrame;
    assert [] + tail == tail;
  }

  lemma StepKeeps(s: Link, step: Step)
    requires Inv(s) && Enabled(s, step)
    ensures Inv(Next(s, step))
  {
    match step
    case Enqueue(f) => EnqueueKeeps(s, f);
    case Write(k) => WriteKeeps(s, k);
    case Read(k) => ReadKeeps(s, k);
  }

  /** Over every interleaving of enqueuing, partial writes and partial reads, the stream
      neither loses, repeats nor reorders a byte, the loader never refuses a header, and
      what it has reported is a prefix of what was enqueued. */
  lemma {:induction false} EveryRunKeeps(s: Link, run: seq<Step>)
    requires Inv(s) && Possible(s, run)
    ensures Inv(After(s, run))
    decreases |run|
  {
    if run != [] {
      StepKeeps(s, run[0]);
      EveryRunKeeps(Next(s, run[0]), run[1..]);
    }
  }

  /** One step more at the end of a run. */
  lemma {:induction false} RunOn(s: Link, run: seq<Step>, step: Step)
    requires Possible(s, run) && Enabled(After(s, run), step)
    ensures Possible(s, run + [step]) && After(s, run + [step]) == Next(After(s, run), step)
    decreases |run|
  {
    hide Enabled, Next;
    if run == [] {
      assert [] + [step] == [step] && [step][1..] == [];
      assert After(Next(s, step), []) == Next(s, step);
    } else {
      RunOn(Next(s, run[0]), run[1..], step);
      assert (run + [step])[1..] == run[1..] + [step];
    }
  }

  lemma NoStep(s: Link)
    ensures Possible(s, []) && After(s, []) == s
  {
  }

  lemma IdleInv()
    ensures Inv(IDLE)
  {
    assert IDLE.messages[0..] == [] && Join([]) == [];
  }

  /** Hence a receiver that runs behind any sequence of such steps from rest has, once the
      stream is empty, received everything in order. */
  lemma FifoDelivery(run: seq<Step>)
    requires Possible(IDLE, run)
    ensures var s := After(IDLE, run);
            && !s.failed && s.inbox <= s.messages
            && (s.queue == [] && s.pipe == [] ==> s.partial == [] && s.inbox == s.messages)
  {
    IdleInv();
    EveryRunKeeps(IDLE, run);
    hide After, Possible, Conserved;
    var s := After(IDLE, run);
    if s.queue == [] && s.pipe == [] {
      Drained(s);
    }
  }

  // ----- what one step does, for those who take it -----

  lemma Enqueued(s: Link, f: seq<byte>)
    requires Inv(s) && IsFrame(f)
    ensures Enabled(s, Enqueue(f))
    ensures var t := Next(s, Enqueue(f));
            Inv(t) && t == s.(messages := s.messages + [f], queue := s.queue + [f])
  {
    EnqueueKeeps(s, f);
  }

  lemma Written(s: Link, k: nat)
    requires Inv(s) && s.queue != [] && s.out + k <= |s.queue[0]|
    ensures Enabled(s, Write(k))
    ensures var t := Next(s, Write(k));
            && Inv(t) && t.pipe == s.pipe + s.queue[0][s.out..s.out + k]
            && t.partial == s.partial && t.inbox == s.inbox && t.messages == s.messages
            && (s.out + k == |s.queue[0]| ==> t.queue == s.queue[1..] && t.out == 0)
            && (s.out + k < |s.queue[0]| ==> t.queue == s.queue && t.out == s.out + k)
  {
    WriteKeeps(s, k);
    hide Inv, Incomplete;
  }

  /** One call of the loader: it takes its own, and if that completes a message, it is the
      next one due.  No header is ever refused. */
  lemma Taken(s: Link, k: nat)
    requires Inv(s) && k <= |s.pipe| && NothingBeyond(s.partial, s.pipe[..k])
    ensures Enabled(s, Read(k))
    ensures var t := Next(s, Read(k));
            && Inv(t) && t.pipe == s.pipe[k..]
            && t.queue == s.queue && t.out == s.out && t.messages == s.messages
            && match Feed(s.partial, s.pipe[..k])
               case Waiting(partial) => t.partial == partial && t.inbox == s.inbox
               case Loaded(f) =>
                 && t.partial == [] && t.inbox == s.inbox + [f]
                 && |s.inbox| < |s.messages| && f == s.messages[|s.inbox|]
               case Broken => false
  {
    MayRead(s);
    assert Enabled(s, Read(k));
    ReadKeeps(s, k);
    MayRead(Next(s, Read(k)));
    hide Inv, Incomplete, NothingBeyond, Feed;
    var t := Next(s, Read(k));
    assert t.inbox == s.inbox || t.inbox[|s.inbox|] == t.messages[|s.inbox|];
  }

  lemma MayRead(s: Link)
    requires Inv(s)
    ensures !s.failed && Incomplete(s.partial) && s.inbox <= s.messages
  {
  }

  /** With nothing queued and nothing in flight, everything has been delivered. */
  lemma Drained(s: Link)
    requires Inv(s) && s.queue == [] && s.pipe == []
    ensures s.partial == [] && s.inbox == s.messages
  {
    var due := s.messages[|s.inbox|..];
    assert s.partial + ([] + []) == s.partial == Join(due);
    if due != [] {
      // an incomplete message cannot hold a whole frame
      assert IsFrame(due[0]) by { assert due[0] == s.messages[|s.inbox|]; }
      assert Join(due) == due[0] + Join(due[1..]);
      HeaderOfLonger(due[0], Join(due[1..]));
      assert false;
    }
  }

  /** How far the stream is from rest. */
  function Left(s: Link): nat
    requires Inv(s)
  {
    2 * |Unsent(s.queue, s.out)| + |s.pipe|
  }

  /** Until everything is delivered some transfer of at least one byte is possible, and
      every such transfer brings the end nearer. */
  lemma Progress(s: Link)
    requires Inv(s) && s.inbox != s.messages
    ensures Enabled(s, Write(1)) || Enabled(s, Read(1))
  {
    if s.queue == [] {
      if s.pipe == [] {
        Drained(s);
      } else {
        WantedIsOwn(s.partial, s.pipe[..1]);
      }
    }
  }

  lemma TransfersShrink(s: Link, step: Step)
    requires Inv(s) && Enabled(s, step) && !step.Enqueue? && step.k > 0
    ensures Inv(Next(s, step)) && Left(Next(s, step)) < Left(s)
  {
    hide *;
    StepKeeps(s, step);
    LeftIs(s);
    LeftIs(Next(s, step));
    TransferEffect(s, step);
    if step.Write? {
      WriteShrinks(s.queue, s.out, step.k);
    }
  }

  lemma LeftIs(s: Link)
    requires Inv(s)
    ensures (s.queue != [] ==> s.out <= |s.queue[0]|) && Left(s) == 2 * |Unsent(s.queue, s.out)| + |s.pipe|
  {
    hide Unsent;
  }

  lemma TransferEffect(s: Link, step: Step)
    requires Enabled(s, step) && !step.Enqueue?
    ensures var t := Next(s, step);
            if step.Write? then
              && s.queue != [] && s.out + step.k <= |s.queue[0]| && |t.pipe| == |s.pipe| + step.k
              && (if s.out + step.k == |s.queue[0]| then t.queue == s.queue[1..] && t.out == 0
                  else t.queue == s.queue && t.out == s.out + step.k)
            else t.queue == s.queue && t.out == s.out && step.k <= |s.pipe| && |t.pipe| == |s.pipe| - step.k
  {
    hide Feed, NothingBeyond, Incomplete;
  }

  lemma WriteShrinks(queue: seq<seq<byte>>, out: nat, k: nat)
    requires queue != [] && out + k <= |queue[0]|
    ensures |Unsent(queue, out)|
         == k + if out + k == |queue[0]| then |Unsent(queue[1..], 0)| else |Unsent(queue, out + k)|
  {
    UnsentWritten(queue, out, k);
  }
}
