/** Both ends of a stream: the queue of one side, what is in flight, and the loader of the
    other, taking turns in any order.  Each turn is one step of the `Link` machine. */
module Connection {
  import opened Memory
  import opened Frames
  import opened Prepared
  import opened Loading
  import opened Forwarding
  import opened Fifo
  import opened Transport
  import opened DsonCore
  import opened Sending
  import opened WriteDeque

  /** The writing end stands where the machine says. */
  ghost predicate AtSender(outbox: Outbox, output: Sink, queue: seq<seq<byte>>, out: nat)
    reads outbox, outbox.region, output, output.mem
  {
    output.isFd && output.Valid() && outbox.Valid() && queue == outbox.frames && out == outbox.Out()
  }

  /** The reading end stands where the machine says. */
  ghost predicate AtReceiver(receiver: Dson, partial: seq<byte>)
    reads receiver, receiver.header, receiver.buf
  {
    receiver.Loadable() && partial == receiver.Received()
  }

  ghost predicate Apart(outbox: Outbox, output: Sink, input: Source, receiver: Dson)
    reads outbox, receiver
  {
    && outbox.region !! {outbox, output, output.mem, input, receiver, receiver.header}
    && receiver.buf !in outbox.region && receiver.header != output.mem && receiver.buf != output.mem
  }

  class Connection {
    const outbox: Outbox
    const output: Sink
    const input: Source
    const receiver: Dson
    var inbox: seq<seq<byte>>  // the messages reported Ready, as they came
    ghost var link: Link

    /** Whatever has failed, what has been reported stands. */
    ghost predicate Valid()
      reads this, outbox, outbox.region, output, output.mem, input, receiver, receiver.header, receiver.buf
    {
      && Inv(link) && inbox == link.inbox
      && this !in outbox.region && Apart(outbox, output, input, receiver)
      && (!output.broken ==> AtSender(outbox, output, link.queue, link.out))
      && (!input.broken ==> AtReceiver(receiver, link.partial) && link.pipe == input.incoming)
    }

    constructor ()
      ensures Valid() && inbox == [] && link == IDLE && !output.broken && !input.broken
      ensures fresh(outbox) && fresh(output) && fresh(output.mem) && fresh(input) && fresh(receiver.Repr)
    {
      hide *;
      IdleInv();
      IdleParts();
      outbox := new Outbox();
      output := new Sink.Descriptor();
      input := new Source([]);
      receiver := new Dson();
      inbox, link := [], IDLE;
      new;
      FreshEnds(outbox, output, receiver);
      Whole();
    }

    lemma Parts()
      requires Valid()
      ensures Inv(link) && inbox == link.inbox && receiver !in outbox.region
      ensures this !in outbox.region && Apart(outbox, output, input, receiver)
      ensures !output.broken ==> AtSender(outbox, output, link.queue, link.out)
      ensures !input.broken ==> AtReceiver(receiver, link.partial) && link.pipe == input.incoming
    {
    }

    lemma Whole()
      requires Inv(link) && inbox == link.inbox
      requires this !in outbox.region && Apart(outbox, output, input, receiver)
      requires !output.broken ==> AtSender(outbox, output, link.queue, link.out)
      requires !input.broken ==> AtReceiver(receiver, link.partial) && link.pipe == input.incoming
      ensures Valid()
    {
    }

    /** `send_dson`, but for the draining, which is left to the turns of the writer. */
    method Send(d: Dson)
      requires Valid() && !output.broken
      requires d.Valid() && d.state.Ready? && Fits(d.node, true)
      requires d.Repr !! outbox.region + {this, outbox, output, output.mem, input, receiver, receiver.header}
      requires receiver.buf !in d.Repr
      modifies this, outbox
      ensures Valid() && inbox == old(inbox)
      ensures link.messages == old(link.messages) + [old(FrameOf(d.node, true))]
    {
      hide *;
      ghost var f := FrameOf(d.node, true);
      Parts();
      WriteParts(outbox, output, link.queue, link.out);
      MessageIsFrame(d.node);
      Enqueued(link, f);
      outbox.Put(d);
      link := Next(link, Enqueue(f));
      WriteWhole(outbox, output);
      Whole();
    }

    /** One turn of the writer: the first message of the queue is sent on. */
    method Write() returns (r: Result, ghost steps: seq<Step>)
      requires Valid() && !output.broken
      modifies this, outbox, outbox.region, output, output.mem, input
      ensures Valid() && inbox == old(inbox) && link.messages == old(link.messages)
      ensures (r.Error? <==> output.broken) && (r.InProcess? ==> output.full)
      ensures outbox.region == old(outbox.region) && input.broken == old(input.broken)
      ensures Possible(old(link), steps) && link == After(old(link), steps)
      ensures if old(outbox.deque) == [] then steps == [] && outbox.deque == [] else |steps| == 1 && steps[0].Write?
    {
      hide *;
      Parts();
      NoStep(link);
      if outbox.deque == [] {
        return Result.Ready, [];
      }
      var piece;
      ghost var k;
      r, piece, k := WriteEnd(outbox, output, link);
      input.incoming := input.incoming + piece;
      steps := [Step.Write(k)];
      OneStep(link, Step.Write(k));
      link := Next(link, Step.Write(k));
      Whole();
    }

    /** One turn of the loader.  A message it reports is the next one due, whole. */
    method Poll() returns (r: Result, ghost steps: seq<Step>)
      requires Valid() && !input.broken
      modifies this, receiver, receiver.header, receiver.buf, input
      ensures Valid() && link.messages == old(link.messages)
      ensures (r.Error? <==> input.broken) && (r.InProcess? ==> input.short)
      ensures receiver.buf == null || receiver.buf == old(receiver.buf) || fresh(receiver.buf)
      ensures r.Ready? ==> |old(inbox)| < |link.messages| && inbox == old(inbox) + [link.messages[|old(inbox)|]]
      ensures !r.Ready? ==> inbox == old(inbox)
      ensures Possible(old(link), steps) && link == After(old(link), steps)
      ensures if r.Error? then steps == [] else |steps| == 1 && steps[0].Read?
      ensures !r.Error? ==> steps[0].k <= |old(input.incoming)| && input.incoming == old(input.incoming)[steps[0].k..]
    {
      hide *;
      Parts();
      NoStep(link);
      var message;
      ghost var k;
      r, message, k := ReadEnd(receiver, input, link);
      if r.Error? {
        steps := [];
        Whole();
        return;
      }
      if r.Ready? {
        inbox := inbox + [message];
      }
      steps := [Step.Read(k)];
      OneStep(link, Step.Read(k));
      link := Next(link, Step.Read(k));
      Whole();
    }

    /** Turns in any order; one that has failed is passed over.  What they do together is a
        run of the machine, with one step for each turn of a loader that has not failed, and
        for each turn of a writer with something to write. */
    method Serve(turns: seq<bool>) returns (ghost run: seq<Step>)
      requires Valid()
      modifies this, outbox, outbox.region, output, output.mem, input, receiver, receiver.header, receiver.buf
      ensures Valid() && link.messages == old(link.messages) && old(inbox) <= inbox <= link.messages
      ensures Possible(old(link), run) && link == After(old(link), run)
      ensures !input.broken ==> Reads(run) == |turns| - Turns(turns)
      ensures !output.broken && outbox.deque != [] ==> Writes(run) == Turns(turns)
    {
      hide *;
      Reported();
      NoStep(link);
      CountNone();
      run := [];
      for i := 0 to |turns|
        invariant Valid() && link.messages == old(link.messages) && old(inbox) <= inbox <= link.messages
        invariant outbox.region == old(outbox.region)
        invariant receiver.buf == null || receiver.buf == old(receiver.buf) || fresh(receiver.buf)
        invariant Possible(old(link), run) && link == After(old(link), run)
        invariant !input.broken ==> Reads(run) == i - Turns(turns[..i])
        invariant !output.broken && outbox.deque != [] ==> Writes(run) == Turns(turns[..i])
      {
        Parts();
        NoStep(link);
        var r;
        ghost var steps: seq<Step> := [];
        if turns[i] && !output.broken {
          r, steps := Write();
        } else if !turns[i] && !input.broken {
          r, steps := Poll();
        }
        RunFurther(old(link), run, steps);
        CountFurther(turns, i, run, steps);
        run := run + steps;
        Reported();
      }
      assert turns[..|turns|] == turns;
    }

    /** What has been reported is a prefix of what was sent; with nothing queued and nothing
        in flight, it is all of it. */
    lemma Reported()
      requires Valid()
      ensures inbox <= link.messages
      ensures !output.broken && !input.broken && outbox.deque == [] && input.incoming == [] ==>
        inbox == link.messages && receiver.Received() == []
    {
      hide *;
      Parts();
      MayRead(link);
      if !output.broken && !input.broken && outbox.deque == [] && input.incoming == [] {
        WriteParts(outbox, output, link.queue, link.out);
        outbox.DueUnsent();
        ReadParts(receiver, link.partial);
        Drained(link);
      }
    }
  }

  lemma OneStep(s: Link, step: Step)
    requires Enabled(s, step)
    ensures Possible(s, [step]) && After(s, [step]) == Next(s, step)
  {
    NoStep(s);
    RunOn(s, [], step);
    assert [] + [step] == [step];
  }

  lemma RunFurther(s: Link, run: seq<Step>, steps: seq<Step>)
    requires Possible(s, run) && |steps| <= 1 && Possible(After(s, run), steps)
    ensures Possible(s, run + steps) && After(s, run + steps) == After(After(s, run), steps)
  {
    hide Enabled, Next;
    if steps == [] {
      assert run + steps == run;
    } else {
      assert steps == [steps[0]] && steps[1..] == [];
      RunOn(s, run, steps[0]);
    }
  }

  /** How many of the turns are the writer's. */
  function Turns(turns: seq<bool>): nat {
    if turns == [] then 0 else Turns(turns[..|turns| - 1]) + if turns[|turns| - 1] then 1 else 0
  }

  function Writes(run: seq<Step>): nat {
    if run == [] then 0 else Writes(run[..|run| - 1]) + if run[|run| - 1].Write? then 1 else 0
  }

  function Reads(run: seq<Step>): nat {
    if run == [] then 0 else Reads(run[..|run| - 1]) + if run[|run| - 1].Read? then 1 else 0
  }

  lemma CountNone()
    ensures Turns([]) == 0 && Writes([]) == 0 && Reads([]) == 0
  {
  }

  lemma CountFurther(turns: seq<bool>, i: nat, run: seq<Step>, steps: seq<Step>)
    requires i < |turns| && |steps| <= 1
    ensures Turns(turns[..i + 1]) == Turns(turns[..i]) + if turns[i] then 1 else 0
    ensures Writes(run + steps) == Writes(run) + if steps != [] && steps[0].Write? then 1 else 0
    ensures Reads(run + steps) == Reads(run) + if steps != [] && steps[0].Read? then 1 else 0
  {
    assert turns[..i + 1][..i] == turns[..i];
    if steps == [] {
      assert run + steps == run;
    } else {
      assert (run + steps)[..|run|] == run;
    }
  }

  lemma MessageIsFrame(n: Node)
    requires Sized(n)
    ensures IsFrame(FrameOf(n, true))
  {
    EmittedIsSound(n, true);
  }

  lemma IdleParts()
    ensures IDLE.inbox == [] && IDLE.queue == [] && IDLE.out == 0 && IDLE.partial == [] && IDLE.pipe == []
  {
  }

  lemma FreshEnds(outbox: Outbox, output: Sink, receiver: Dson)
    requires outbox.Valid() && outbox.deque == [] && outbox.frames == [] && output.Valid() && output.isFd
    requires receiver.Valid() && receiver.state.Ready? && receiver.node.Box?
    ensures AtSender(outbox, output, [], 0) && AtReceiver(receiver, [])
    ensures receiver.buf == null && receiver.header in receiver.Repr && receiver in receiver.Repr
  {
  }

  lemma WriteParts(outbox: Outbox, output: Sink, queue: seq<seq<byte>>, out: nat)
    requires AtSender(outbox, output, queue, out)
    ensures output.isFd && output.Valid() && outbox.Valid() && queue == outbox.frames && out == outbox.Out()
  {
  }

  lemma WriteWhole(outbox: Outbox, output: Sink)
    requires output.isFd && output.Valid() && outbox.Valid()
    ensures AtSender(outbox, output, outbox.frames, outbox.Out())
  {
  }

  lemma MovedParts(frame: seq<byte>, at: nat, k: nat, log: seq<byte>, next: seq<byte>, r: Result)
    requires Moved(frame, at, k, log, next, r)
    ensures at + k <= |frame| && log <= next && next[|log|..] == frame[at..at + k]
    ensures (r.Ready? ==> at + k == |frame|) && (r.InProcess? ==> at + k < |frame|)
  {
  }

  method WriteEnd(outbox: Outbox, output: Sink, ghost link: Link) returns (r: Result, piece: seq<byte>, ghost k: nat)
    requires Inv(link) && AtSender(outbox, output, link.queue, link.out) && outbox.deque != [] && !output.broken
    requires output !in outbox.region && output.mem !in outbox.region
    modifies outbox, outbox.region, output, output.mem
    ensures Enabled(link, Step.Write(k)) && outbox.region == old(outbox.region)
    ensures (r.Error? <==> output.broken) && (r.InProcess? ==> output.full)
    ensures var t := Next(link, Step.Write(k));
            && Inv(t) && t.pipe == link.pipe + piece
            && t.partial == link.partial && t.inbox == link.inbox && t.messages == link.messages
            && (!r.Error? ==> AtSender(outbox, output, t.queue, t.out))
  {
    hide *;
    ghost var log := output.log;
    var n := |output.log|;
    WriteParts(outbox, output, link.queue, link.out);
    r, k := outbox.WriteFront(output);
    MovedParts(link.queue[0], link.out, k, log, output.log, r);
    piece := output.log[n..];
    Written(link, k);
    if !r.Error? {
      WriteWhole(outbox, output);
    }
  }

  lemma ReadParts(receiver: Dson, partial: seq<byte>)
    requires AtReceiver(receiver, partial)
    ensures receiver.Loadable() && partial == receiver.Received()
  {
  }

  lemma AfterLoad(d: Dson, r: Result, fed: Fed)
    requires d.LoadedTo(r, fed)
    ensures match fed
            case Waiting(partial) => r.InProcess? && AtReceiver(d, partial)
            case Loaded(f) => r.Ready? && d.Holds(f)
            case Broken => r.Error?
  {
  }

  method ReadEnd(receiver: Dson, input: Source, ghost link: Link) returns (r: Result, message: seq<byte>, ghost k: nat)
    requires Inv(link) && AtReceiver(receiver, link.partial) && link.pipe == input.incoming && !input.broken
    modifies receiver, receiver.header, receiver.buf, input
    ensures (r.Error? <==> input.broken) && (r.InProcess? ==> input.short)
    ensures receiver.buf == null || receiver.buf == old(receiver.buf) || fresh(receiver.buf)
    ensures !r.Error? ==> Enabled(link, Step.Read(k)) && k <= |link.pipe| && input.incoming == link.pipe[k..]
    ensures !r.Error? ==>
      var t := Next(link, Step.Read(k));
      && Inv(t) && t.pipe == input.incoming && AtReceiver(receiver, t.partial)
      && t.queue == link.queue && t.out == link.out && t.messages == link.messages
      && t.inbox == (if r.Ready? then link.inbox + [message] else link.inbox)
      && (r.Ready? ==> |link.inbox| < |link.messages| && message == link.messages[|link.inbox|])
  {
    hide *;
    ReadParts(receiver, link.partial);
    message := [];
    r := receiver.LoadFromFd(input);
    k := |link.pipe| - |input.incoming|;
    if input.broken {
      return;
    }
    Taken(link, k);
    AfterLoad(receiver, r, Feed(link.partial, link.pipe[..k]));
    if r.Ready? {
      message := TakeOut(receiver, Feed(link.partial, link.pipe[..k]).frame);
    }
  }

  /** The message is moved out of the loader, which starts afresh. */
  method TakeOut(d: Dson, ghost f: seq<byte>) returns (message: seq<byte>)
    requires d.Holds(f)
    modifies d
    ensures message == f && AtReceiver(d, []) && d.buf == null
  {
    assert f == f[..16] + f[16..];
    message := d.header[..] + if d.buf == null then [] else d.buf[..];
    d.Clear();
  }
}
