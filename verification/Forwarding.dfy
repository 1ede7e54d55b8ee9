/** A loaded frame that nobody has looked into yet: what it is as an object, and that it
    can be passed on unread. */
module Forwarding {
  import opened Memory
  import opened Headers
  import opened Frames
  import opened Prepared
  import opened Loading

  /** The object a finished load leaves behind. */
  function FrameNode(f: seq<byte>): Node
    requires |f| >= 16
  {
    var h := ReadHeader(f, 0);
    if |f| == 16 then Box(h, []) else Leaf(h, f[16..])
  }

  /** A frame with a valid mark. */
  predicate Sound(f: seq<byte>) {
    IsFrame(f) && ValidMark(f, 0)
  }

  lemma SoundHeader(f: seq<byte>)
    requires |f| >= 16 && ValidMark(f, 0)
    ensures HeaderBytes(ReadHeader(f, 0)) == f[..16]
  {
    assert f == f[..16] + f[16..];
    HeaderOfPrefix(f[..16], f[16..]);
    WrittenFromRead(f[..16]);
  }

  /** The object stands for exactly the bytes that were loaded. */
  lemma SoundNode(f: seq<byte>)
    requires Sound(f)
    ensures var n := FrameNode(f);
            Sized(n) && Bytes(n) == f && HeaderBytes(n.h) == f[..16] && Fits(n, n.h.net)
  {
    hide HeaderBytes, ReadHeader, ValidMark;
    SoundHeader(f);
    var h := ReadHeader(f, 0);
    assert f == f[..16] + f[16..];
    if |f| == 16 {
      assert f[16..] == [];
      Childless(h);
    }
  }

  lemma Childless(h: Header)
    ensures var n := Box(h, []);
            Sized(n) && Payload(n) == [] && Bytes(n) == HeaderBytes(h) && forall net :: Fits(n, net)
  {
    var n := Box(h, []);
    assert KidsBytes(n.kids, 0) == [] && Payload(n) == [];
  }

  /** Store and forward: sending it on in the order it came in reproduces the frame. */
  lemma ForwardedUnread(f: seq<byte>)
    requires Sound(f)
    ensures var n := FrameNode(f); Sized(n) && Bytes(Prepare(n, n.h.net)) == f
  {
    hide HeaderBytes, ReadHeader, ValidMark;
    SoundNode(f);
    var n := FrameNode(f);
    assert Prepare(n, n.h.net) == n;
  }

  /** What a copy emits, a loader accepts. */
  lemma EmittedIsSound(n: Node, net: bool)
    requires Sized(n)
    ensures Sound(Bytes(Prepare(n, net)))
  {
    var p := Prepare(n, net);
    PrepareKeepsShape(n, net);
    PrepareKeepsLength(n, net);
    FrameHeader(p);
    NodeSize(p);
    ReadWritten(p.h);
    HeaderOfPrefix(HeaderBytes(p.h), Payload(p));
  }

  /** From tree to frame to loaded object: it still decodes to what the tree means. */
  lemma ReceivedMeansSent(n: Node, net: bool)
    requires Sized(n) && Regular(n)
    ensures var f := Bytes(Prepare(n, net));
            Sound(f) && Decode(Bytes(FrameNode(f))) == Some(Meaning(n))
  {
    EmittedIsSound(n, net);
    SoundNode(Bytes(Prepare(n, net)));
    EmittedFrameDecodes(n, net);
  }
}
