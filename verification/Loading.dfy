/** What a loader makes of a stream of bytes that reaches it in pieces: it learns the
    length of the frame from the header, part way through. */
module Loading {
  import opened Memory
  import opened Headers

  /** The outcome of feeding a loader: still incomplete, complete, or refused for the
      size in its header. */
  datatype Fed = Waiting(partial: seq<byte>) | Loaded(frame: seq<byte>) | Broken

  predicate SizeAccepted(s: seq<byte>)
    requires |s| >= 16
  {
    0 <= ReadHeader(s, 0).size <= MAX_DSON_RAM_SIZE
  }

  /** What all that has arrived amounts to; what lies beyond the frame is left alone. */
  function Outcome(s: seq<byte>): Fed {
    if |s| < 16 then Waiting(s)
    else if !SizeAccepted(s) then Broken
    else
      var end := 16 + ReadHeader(s, 0).size;
      if |s| < end then Waiting(s) else Loaded(s[..end])
  }

  /** A header alone: refused if its size is negative or more than 2^30, complete if it is
      zero, and otherwise waited on. */
  lemma SizeLimits(h: Header)
    ensures Outcome(HeaderBytes(h))
         == if h.size < 0 || h.size > 0x4000_0000 then Broken
            else if h.size == 0 then Loaded(HeaderBytes(h)) else Waiting(HeaderBytes(h))
  {
    ReadWritten(h);
    hide HeaderBytes, ReadHeader;
    assert HeaderBytes(h)[..16] == HeaderBytes(h);
  }

  /** Bytes `chunk` arriving behind `prior`. */
  function Feed(prior: seq<byte>, chunk: seq<byte>): Fed {
    Outcome(prior + chunk)
  }

  function FeedAll(prior: seq<byte>, chunks: seq<seq<byte>>): Fed
    decreases |chunks|
  {
    if chunks == [] then Waiting(prior)
    else
      match Feed(prior, chunks[0])
      case Waiting(partial) => FeedAll(partial, chunks[1..])
      case other => other
  }

  function Join(chunks: seq<seq<byte>>): seq<byte> {
    if chunks == [] then [] else chunks[0] + Join(chunks[1..])
  }

  /** A frame that a loader accepts: it declares the payload it carries. */
  predicate IsFrame(f: seq<byte>) {
    |f| >= 16 && ReadHeader(f, 0).size == |f| - 16 <= MAX_DSON_RAM_SIZE
  }

  /** What a loader may hold while it waits for more. */
  predicate Incomplete(s: seq<byte>) {
    |s| >= 16 ==> SizeAccepted(s) && |s| < 16 + ReadHeader(s, 0).size
  }

  /** The header is read from the first 16 bytes, whatever follows. */
  lemma HeaderOfLonger(s: seq<byte>, t: seq<byte>)
    requires |s| >= 16
    ensures ReadHeader(s + t, 0) == ReadHeader(s, 0)
  {
    var h, rest := s[..16], s[16..];
    assert s == h + rest && s + t == h + (rest + t);
    HeaderOfPrefix(h, rest);
    HeaderOfPrefix(h, rest + t);
  }

  lemma OutcomeGrows(s: seq<byte>, b: seq<byte>)
    ensures match Outcome(s)
            case Waiting(partial) => Incomplete(partial) && partial == s
            case other => Outcome(s + b) == other
  {
    if |s| >= 16 {
      HeaderOfLonger(s, b);
      hide ReadHeader;
      if Outcome(s).Loaded? {
        var end := 16 + ReadHeader(s, 0).size;
        assert (s + b)[..end] == s[..end];
      }
    }
  }

  lemma FeedMore(prior: seq<byte>, a: seq<byte>, b: seq<byte>)
    ensures match Feed(prior, a)
            case Waiting(partial) =>
              Incomplete(partial) && partial == prior + a && Feed(partial, b) == Feed(prior, a + b)
            case other => Feed(prior, a + b) == other
  {
    hide Outcome, Incomplete;
    OutcomeGrows(prior + a, b);
    assert prior + (a + b) == (prior + a) + b;
  }

  /** Loading does not depend on how the stream is cut up. */
  lemma {:induction false} ChunkIndependence(prior: seq<byte>, chunks: seq<seq<byte>>)
    requires Incomplete(prior)
    ensures FeedAll(prior, chunks) == Feed(prior, Join(chunks))
    decreases |chunks|
  {
    if chunks == [] {
      assert prior + [] == prior;
    } else {
      FeedMore(prior, chunks[0], Join(chunks[1..]));
      if Feed(prior, chunks[0]).Waiting? {
        ChunkIndependence(prior + chunks[0], chunks[1..]);
      }
    }
  }

  /** Reading towards the end of the header. */
  lemma HeaderFed(prior: seq<byte>, a: seq<byte>)
    requires |prior| + |a| <= 16
    ensures var s := prior + a;
            Feed(prior, a)
            == if |s| < 16 then Waiting(s)
               else if !SizeAccepted(s) then Broken
               else if ReadHeader(s, 0).size == 0 then Loaded(s)
               else Waiting(s)
  {
    hide ReadHeader;
    assert (prior + a)[..|prior + a|] == prior + a;
  }

  lemma PayloadFed(h: seq<byte>, d: seq<byte>, a: seq<byte>)
    requires |h| == 16 && SizeAccepted(h) && |d| + |a| <= ReadHeader(h, 0).size
    ensures NothingBeyond(h + d, a)
    ensures Feed(h + d, a)
         == if |d| + |a| == ReadHeader(h, 0).size then Loaded(h + (d + a)) else Waiting(h + (d + a))
  {
    HeaderOfLonger(h, d);
    assert SizeAccepted(h + d);
    hide *;
    BodyFed(h + d, a);
    assert (h + d) + a == h + (d + a);
  }

  /** Reading towards the end of the payload. */
  lemma BodyFed(s: seq<byte>, a: seq<byte>)
    requires |s| >= 16 && SizeAccepted(s) && |s| + |a| <= 16 + ReadHeader(s, 0).size
    ensures Feed(s, a) == if |s| + |a| == 16 + ReadHeader(s, 0).size then Loaded(s + a) else Waiting(s + a)
    ensures NothingBeyond(s, a)
  {
    HeaderOfLonger(s, a);
    hide ReadHeader;
    assert (s + a)[..|s + a|] == s + a;
  }

  lemma WholeFrame(h: seq<byte>, d: seq<byte>)
    requires |h| == 16 && SizeAccepted(h) && ReadHeader(h, 0).size == |d|
    ensures var f := h + d; IsFrame(f) && f[..16] == h && f[16..] == d
  {
    HeaderOfLonger(h, d);
    hide ReadHeader;
  }

  lemma FrameFed(f: seq<byte>, rest: seq<byte>)
    requires IsFrame(f)
    ensures Feed([], f + rest) == Loaded(f)
  {
    HeaderOfLonger(f, rest);
    hide ReadHeader;
    assert [] + (f + rest) == f + rest && (f + rest)[..|f|] == f;
  }

  lemma FrameAwaited(f: seq<byte>, n: nat)
    requires IsFrame(f) && n < |f|
    ensures Feed([], f[..n]) == Waiting(f[..n])
  {
    assert [] + f[..n] == f[..n];
    if n >= 16 {
      HeaderOfLonger(f[..n], f[n..]);
      assert f[..n] + f[n..] == f;
    }
  }

  /** A frame in any chunks, empty ones included: the loader waits until its last byte is
      there, then holds exactly the frame, and what follows it is not consumed. */
  lemma FrameInChunks(f: seq<byte>, chunks: seq<seq<byte>>)
    requires IsFrame(f)
    ensures Join(chunks) < f ==> FeedAll([], chunks) == Waiting(Join(chunks))
    ensures f <= Join(chunks) ==> FeedAll([], chunks) == Loaded(f)
  {
    ChunkIndependence([], chunks);
    hide *;
    StreamOfFrame(f, Join(chunks));
  }

  lemma StreamOfFrame(f: seq<byte>, s: seq<byte>)
    requires IsFrame(f)
    ensures s < f ==> Feed([], s) == Waiting(s)
    ensures f <= s ==> Feed([], s) == Loaded(f)
  {
    hide *;
    if s < f {
      FrameAwaited(f, |s|);
      assert s == f[..|s|];
    } else if f <= s {
      FrameFed(f, s[|f|..]);
      assert s == f + s[|f|..];
    }
  }

  /** All of `a` belongs to the frame that `prior` starts; of a frame that is refused
      nothing but its header has been taken. */
  predicate NothingBeyond(prior: seq<byte>, a: seq<byte>) {
    match Feed(prior, a)
    case Waiting(_) => true
    case Loaded(f) => f == prior + a
    case Broken => |prior + a| == 16
  }

  /** Two reads that follow each other are one. */
  lemma ReadTwice(prior: seq<byte>, stream: seq<byte>, mid: seq<byte>, rest: seq<byte>)
    requires |rest| <= |mid| <= |stream|
    requires mid == stream[|stream| - |mid|..] && rest == mid[|mid| - |rest|..]
    requires Feed(prior, stream[..|stream| - |mid|]).Waiting?
    ensures var s, partial := stream[..|stream| - |rest|], Feed(prior, stream[..|stream| - |mid|]).partial;
            && rest == stream[|stream| - |rest|..]
            && Feed(prior, s) == Feed(partial, mid[..|mid| - |rest|])
            && (NothingBeyond(partial, mid[..|mid| - |rest|]) ==> NothingBeyond(prior, s))
  {
    hide *;
    var a, b := stream[..|stream| - |mid|], mid[..|mid| - |rest|];
    FeedMore(prior, a, b);
    assert a + b == stream[..|stream| - |rest|];
    StillNothingBeyond(prior, a, b);
  }

  lemma StillNothingBeyond(prior: seq<byte>, a: seq<byte>, b: seq<byte>)
    requires Feed(prior, a + b) == Feed(prior + a, b)
    ensures NothingBeyond(prior + a, b) ==> NothingBeyond(prior, a + b)
  {
    hide Feed;
    assert (prior + a) + b == prior + (a + b);
  }

  /** How many bytes `load_from_fd` asks for when it holds `partial`. */
  function Wanted(partial: seq<byte>): (n: nat)
    requires Incomplete(partial)
    ensures n > 0
  {
    if |partial| < 16 then 16 - |partial| else 16 + ReadHeader(partial, 0).size - |partial|
  }

  /** One read never reaches past the frame it is for. */
  lemma WantedIsOwn(partial: seq<byte>, chunk: seq<byte>)
    requires Incomplete(partial) && |chunk| <= Wanted(partial)
    ensures NothingBeyond(partial, chunk)
  {
    var s := partial + chunk;
    if |partial| >= 16 {
      HeaderOfLonger(partial, chunk);
    }
    hide ReadHeader;
    if |s| >= 16 && SizeAccepted(s) && |s| == 16 + ReadHeader(s, 0).size {
      assert s[..|s|] == s;
    }
  }
}
