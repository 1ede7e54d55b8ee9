/** What all objects share: their states, and how a resumable copy advances. */
module DsonObj {
  import opened Memory
  import opened Transport

  /** What a `Dson` holds: children, a loaded frame not looked into yet, or one object. */
  datatype Kind = DsonContainer | DataBufNeedParse | OneObjectInDataBuf

  datatype State = Ready | LoadingHeader | LoadingData | CopyingHeader | CopyingData | Error

  /** From one log to the next, `frame` has been emitted from `sent` on, without gap or
      repetition. */
  predicate Advanced(frame: seq<byte>, sent: nat, log: seq<byte>, next: seq<byte>) {
    && |log| <= |next|
    && sent + |next| - |log| <= |frame|
    && next == log + frame[sent..sent + |next| - |log|]
  }

  lemma AdvancedTwice(frame: seq<byte>, sent: nat, log: seq<byte>, mid: seq<byte>, next: seq<byte>)
    requires Advanced(frame, sent, log, mid) && Advanced(frame, sent + |mid| - |log|, mid, next)
    ensures Advanced(frame, sent, log, next)
  {
    var a, b, c := sent, sent + |mid| - |log|, sent + |next| - |log|;
    assert frame[a..c] == frame[a..b] + frame[b..c];
  }

  /** A child's frame advancing inside its container's. */
  lemma AdvancedInside(outer: seq<byte>, at: nat, frame: seq<byte>, sent: nat, log: seq<byte>, next: seq<byte>)
    requires at + |frame| <= |outer| && outer[at..at + |frame|] == frame
    requires Advanced(frame, sent, log, next)
    ensures Advanced(outer, at + sent, log, next)
  {
    var a, b := sent, sent + |next| - |log|;
    SliceOfSlice(outer, at, at + |frame|, a, b);
  }

  lemma SliceOfSlice(s: seq<byte>, i: nat, j: nat, a: nat, b: nat)
    requires i <= j <= |s| && a <= b <= j - i
    ensures s[i..j][a..b] == s[i + a..i + b]
  {
    var l, r := s[i..j][a..b], s[i + a..i + b];
    forall k | 0 <= k < |l|
      ensures l[k] == r[k]
    {
    }
  }

  /** One write in the middle of a copy: what is left of a part of the frame that starts
      at `at`.  The answer is -1 only when the descriptor failed. */
  method WritePart(part: seq<byte>, offset: nat, out: Sink, ghost frame: seq<byte>, ghost at: nat) returns (n: int)
    requires out.Valid() && !out.broken
    requires offset <= |part| && at + |part| <= |frame| && frame[at..at + |part|] == part
    modifies out, out.mem
    ensures out.Valid() && (out.broken <==> n < 0)
    ensures Advanced(frame, at + offset, old(out.log), out.log)
    ensures n >= 0 ==> offset + n <= |part| && |out.log| == |old(out.log)| + n
    ensures n < 0 ==> n == -1 && out.isFd && out.log == old(out.log)
    ensures 0 <= n < |part| - offset ==> out.full
  {
    ghost var log := out.log;
    n := out.Write(part[offset..]);
    ghost var k := |out.log| - |log|;
    SliceOfSlice(frame, at, at + |part|, offset, offset + k);
    assert part[offset..][..k] == part[offset..offset + k];
  }
}
