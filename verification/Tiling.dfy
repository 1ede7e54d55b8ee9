/** The payload of a loaded container as a run of frames, and what a reader of the
    container sees under each key. */
module Tiling {
  import opened Memory
  import opened Headers
  import opened Converters
  import opened Loading
  import Insertion
  import DoubleCodec

  /** A frame that `parse_buf` accepts starts here. */
  predicate StartsFrame(s: seq<byte>) {
    |s| >= 16 && ReadHeader(s, 0).key >= 0 && 0 <= ReadHeader(s, 0).size <= |s| - 16
  }

  function FrameEnd(s: seq<byte>): (end: nat)
    requires StartsFrame(s)
    ensures 16 <= end <= |s|
  {
    16 + ReadHeader(s, 0).size
  }

  /** `s` is nothing but such frames. */
  predicate Tiles(s: seq<byte>) {
    s == [] || (StartsFrame(s) && Tiles(s[FrameEnd(s)..]))
  }

  /** Where the frames of `s` start, by key, if `s` itself starts at `at`: of several
      frames with one key the last one counts. */
  function Views(s: seq<byte>, at: nat): map<int32, nat>
    decreases |s|
  {
    if !StartsFrame(s) then map[]
    else map[ReadHeader(s, 0).key := at] + Views(s[FrameEnd(s)..], at + FrameEnd(s))
  }

  predicate IsChildFrame(f: seq<byte>) {
    |f| >= 16 && ReadHeader(f, 0).key >= 0 && ReadHeader(f, 0).size == |f| - 16
  }

  lemma ChildFrameFirst(f: seq<byte>, rest: seq<byte>)
    requires IsChildFrame(f)
    ensures StartsFrame(f + rest) && FrameEnd(f + rest) == |f| && ReadHeader(f + rest, 0) == ReadHeader(f, 0)
    ensures (f + rest)[|f|..] == rest
  {
    HeaderOfLonger(f, rest);
  }

  /** A payload tiles exactly when it is frames strung together. */
  lemma {:induction false} FramesTile(frames: seq<seq<byte>>)
    requires forall i :: 0 <= i < |frames| ==> IsChildFrame(frames[i])
    ensures Tiles(Join(frames))
  {
    if frames != [] {
      ChildFrameFirst(frames[0], Join(frames[1..]));
      FramesTile(frames[1..]);
    }
  }

  lemma {:induction false} TilesAreFrames(s: seq<byte>) returns (frames: seq<seq<byte>>)
    requires Tiles(s)
    ensures Join(frames) == s
    ensures forall i :: 0 <= i < |frames| ==> IsChildFrame(frames[i])
    decreases |s|
  {
    if s == [] {
      frames := [];
    } else {
      var end := FrameEnd(s);
      var rest := TilesAreFrames(s[end..]);
      frames := [s[..end]] + rest;
      FirstIsChild(s);
      JoinCons(s[..end], rest);
    }
  }

  lemma FirstIsChild(s: seq<byte>)
    requires StartsFrame(s)
    ensures IsChildFrame(s[..FrameEnd(s)]) && s == s[..FrameEnd(s)] + s[FrameEnd(s)..]
  {
    var f, rest := s[..FrameEnd(s)], s[FrameEnd(s)..];
    assert s == f + rest;
    HeaderOfLonger(f, rest);
    hide ReadHeader;
  }

  lemma JoinCons(f: seq<byte>, rest: seq<seq<byte>>)
    ensures Join([f] + rest) == f + Join(rest)
  {
    assert ([f] + rest)[1..] == rest;
  }

  /** The frame under each key: of several with one key the last one counts. */
  function FramesIn(s: seq<byte>): (m: map<int32, seq<byte>>)
    ensures forall k :: k in m ==> |m[k]| >= 16
    decreases |s|
  {
    if !StartsFrame(s) then map[]
    else map[ReadHeader(s, 0).key := s[..FrameEnd(s)]] + FramesIn(s[FrameEnd(s)..])
  }

  /** What a reader sees of a frame: its type and its value. */
  function Seen(f: seq<byte>): (r: (int32, Value))
    requires |f| >= 16
  {
    (Field(f, 0, 3), Decoded(!IsHostOrder(f, 0), Field(f, 0, 3), f[16..]))
  }

  /** What `data_type` and `data` give whoever does not ask for the order: the type and the
      bytes as they stand, those of a double up to what survives the codec. */
  function HostSeen(f: seq<byte>): (r: (int32, Value))
    requires |f| >= 16
  {
    var t, d := Field(f, 0, 3), f[16..];
    var double := t == TYPE_DOUBLE && |d| >= DoubleCodec.SLOT_SIZE;
    (t, if double then Double(DoubleCodec.Canonical(DWordAt(d, 0))) else Raw(d))
  }

  /** What a reader sees under each key. */
  function Visible(s: seq<byte>): map<int32, (int32, Value)> {
    var m := FramesIn(s);
    map k | k in m :: Seen(m[k])
  }

  /** `f` lies at `at`. */
  predicate LiesAt(s: seq<byte>, at: nat, f: seq<byte>) {
    at + |f| <= |s| && s[at..at + |f|] == f
  }

  function Patched(s: seq<byte>, at: nat, g: seq<byte>): (r: seq<byte>)
    requires at + |g| <= |s|
    ensures |r| == |s|
  {
    s[..at] + g + s[at + |g|..]
  }

  lemma Unfold(s: seq<byte>, base: nat)
    requires StartsFrame(s)
    ensures var end, key := FrameEnd(s), ReadHeader(s, 0).key;
            && Views(s, base) == map[key := base] + Views(s[end..], base + end)
            && FramesIn(s) == map[key := s[..end]] + FramesIn(s[end..])
            && (Tiles(s) <==> Tiles(s[end..]))
            && IsChildFrame(s[..end]) && ReadHeader(s[..end], 0).key == key && s == s[..end] + s[end..]
  {
    hide *;
    FirstIsChild(s);
    FirstHeader(s);
    UnfoldViews(s, base);
    UnfoldFrames(s);
    UnfoldTiles(s);
  }

  lemma UnfoldViews(s: seq<byte>, base: nat)
    requires StartsFrame(s)
    ensures Views(s, base) == map[ReadHeader(s, 0).key := base] + Views(s[FrameEnd(s)..], base + FrameEnd(s))
  {
  }

  lemma UnfoldFrames(s: seq<byte>)
    requires StartsFrame(s)
    ensures FramesIn(s) == map[ReadHeader(s, 0).key := s[..FrameEnd(s)]] + FramesIn(s[FrameEnd(s)..])
  {
  }

  lemma UnfoldTiles(s: seq<byte>)
    ensures Tiles(s) <==> s == [] || (StartsFrame(s) && Tiles(s[FrameEnd(s)..]))
    ensures StartsFrame(s) ==> s != []
  {
  }

  lemma FirstHeader(s: seq<byte>)
    requires StartsFrame(s)
    ensures ReadHeader(s[..FrameEnd(s)], 0) == ReadHeader(s, 0)
  {
    var f, rest := s[..FrameEnd(s)], s[FrameEnd(s)..];
    HeaderOfLonger(f, rest);
    assert s == f + rest;
  }

  lemma NoFrame(s: seq<byte>, base: nat)
    ensures !StartsFrame(s) ==> Views(s, base) == map[] && FramesIn(s) == map[]
  {
  }

  /** A frame in front of a payload. */
  lemma InFront(f: seq<byte>, rest: seq<byte>, base: nat)
    requires IsChildFrame(f)
    ensures var s, key := f + rest, ReadHeader(f, 0).key;
            && StartsFrame(s) && FrameEnd(s) == |f| && s[..|f|] == f && s[|f|..] == rest
            && Views(s, base) == map[key := base] + Views(rest, base + |f|)
            && FramesIn(s) == map[key := f] + FramesIn(rest)
            && (Tiles(s) <==> Tiles(rest))
  {
    hide *;
    ChildFrameFirst(f, rest);
    var s := f + rest;
    assert s[..|f|] == f && s[|f|..] == rest;
    Unfold(s, base);
  }

  /** The map that the scan builds leads to the frame a reader sees under each key. */
  lemma {:induction false} ViewOfKey(s: seq<byte>, base: nat, k: int32)
    ensures k in Views(s, base) <==> k in FramesIn(s)
    ensures k in FramesIn(s) ==>
              var f := FramesIn(s)[k];
              && Views(s, base)[k] >= base && LiesAt(s, Views(s, base)[k] - base, f)
              && IsChildFrame(f) && ReadHeader(f, 0).key == k
    decreases |s|
  {
    hide *;
    NoFrame(s, base);
    if StartsFrame(s) {
      var end := FrameEnd(s);
      Unfold(s, base);
      ViewOfKey(s[end..], base + end, k);
      if k in FramesIn(s[end..]) {
        LiesBehind(s[..end], s[end..], Views(s[end..], base + end)[k] - base - end, FramesIn(s[end..])[k]);
      } else if k == ReadHeader(s, 0).key {
        LiesInFront(s, s[..end]);
      }
    }
  }

  lemma LiesBehind(p: seq<byte>, s: seq<byte>, at: nat, f: seq<byte>)
    requires LiesAt(s, at, f)
    ensures LiesAt(p + s, |p| + at, f)
  {
    assert (p + s)[|p| + at..|p| + at + |f|] == s[at..at + |f|];
  }

  lemma LiesInFront(s: seq<byte>, f: seq<byte>)
    requires f <= s
    ensures LiesAt(s, 0, f)
  {
  }

  lemma LiesWhere(s: seq<byte>, at: nat, f: seq<byte>)
    requires LiesAt(s, at, f)
    ensures at + |f| <= |s| && s[at..at + |f|] == f && s == s[..at] + f + s[at + |f|..]
  {
    assert s == s[..at] + s[at..at + |f|] + s[at + |f|..];
  }

  /** The frame under a key replaced by another of its size: nothing moves, and no other
      key is affected. */
  lemma {:induction false} ReplaceFrame(s: seq<byte>, base: nat, k: int32, g: seq<byte>)
    requires k in FramesIn(s) && IsChildFrame(g) && |g| == |FramesIn(s)[k]| && ReadHeader(g, 0).key == k
    ensures k in Views(s, base) && Views(s, base)[k] >= base && Views(s, base)[k] - base + |g| <= |s|
    ensures var r := Patched(s, Views(s, base)[k] - base, g);
            && Views(r, base) == Views(s, base) && FramesIn(r) == FramesIn(s)[k := g]
            && (Tiles(r) <==> Tiles(s))
    decreases |s|
  {
    hide *;
    ViewOfKey(s, base, k);
    LiesWhere(s, Views(s, base)[k] - base, FramesIn(s)[k]);
    NoFrame(s, base);
    var end := FrameEnd(s);
    var f, rest := s[..end], s[end..];
    Unfold(s, base);
    ViewOfKey(rest, base + end, k);
    if k in FramesIn(rest) {
      ReplaceFrame(rest, base + end, k, g);
      var at := Views(rest, base + end)[k] - base - end;
      PatchedBehind(f, rest, at, g);
      InFront(f, Patched(rest, at, g), base);
      Insertion.UpdateBehind(FramesIn(rest), ReadHeader(s, 0).key, f, k, g);
    } else {
      PatchedFirst(f, rest, g);
      InFront(g, rest, base);
      Insertion.UpdateFirst(FramesIn(rest), k, f, g);
    }
  }

  lemma PatchedBehind(p: seq<byte>, s: seq<byte>, at: nat, g: seq<byte>)
    requires at + |g| <= |s|
    ensures Patched(p + s, |p| + at, g) == p + Patched(s, at, g)
  {
    assert (p + s)[..|p| + at] == p + s[..at] && (p + s)[|p| + at + |g|..] == s[at + |g|..];
  }

  lemma PatchedFirst(f: seq<byte>, rest: seq<byte>, g: seq<byte>)
    requires |f| == |g|
    ensures Patched(f + rest, 0, g) == g + rest
  {
  }

  /** Frames under different keys have no byte in common. */
  lemma {:induction false} FramesApart(s: seq<byte>, base: nat, j: int32, k: int32)
    requires j in FramesIn(s) && k in FramesIn(s) && j != k
    ensures var m, v := FramesIn(s), Views(s, base);
            j in v && k in v && (v[j] + |m[j]| <= v[k] || v[k] + |m[k]| <= v[j])
    decreases |s|
  {
    hide *;
    NoFrame(s, base);
    Unfold(s, base);
    var end := FrameEnd(s);
    ViewOfKey(s[end..], base + end, j);
    ViewOfKey(s[end..], base + end, k);
    if j in FramesIn(s[end..]) && k in FramesIn(s[end..]) {
      FramesApart(s[end..], base + end, j, k);
    }
  }

  // ----- reading a view -----

  /** `Converters::to_host` has something to do on the frame at `at`. */
  predicate Converts(s: seq<byte>, at: nat)
    requires at + 16 <= |s|
  {
    !IsHostOrder(s, at) && HasConverter(Field(s, at, 3))
  }

  /** What it works on is memory of the buffer. */
  predicate Contained(s: seq<byte>, at: nat) {
    && at + 16 <= |s|
    && (Converts(s, at) ==>
          var t, size := Field(s, at, 3), Field(s, at, 1);
          (t == TYPE_VECTOR_UINT32 ==> size >= 0) && at + 16 + Reach(t, size) <= |s|)
  }

  /** The buffer after `Converters::to_host` on the frame at `at`: the header is swapped,
      then the payload converter works on as many bytes as it takes, whether or not they
      are the payload's. */
  function ToHostAt(s: seq<byte>, at: nat): (r: seq<byte>)
    requires Contained(s, at)
    ensures |r| == |s|
  {
    if !Converts(s, at) then s
    else
      var t := Field(s, at, 3);
      var end := at + 16 + Reach(t, Field(s, at, 1));
      s[..at] + Flip(s[at..at + 16], 4) + HostData(t, s[at + 16..end]) + s[end..]
  }

  /** The payload after `get(k)`; a converter that would run past the end of the buffer is
      left out of account. */
  function AfterGet(s: seq<byte>, k: int32): (r: seq<byte>)
    ensures |r| == |s|
  {
    if k in Views(s, 0) && Contained(s, Views(s, 0)[k]) then ToHostAt(s, Views(s, 0)[k]) else s
  }

  /** Nothing to convert, or else a valid mark and a payload with room for its type. */
  predicate ReadsCleanly(f: seq<byte>)
    requires |f| >= 16
  {
    Converts(f, 0) ==> IsNetworkOrder(f, 0) && Footprint(Field(f, 0, 3)) <= |f| - 16
  }

  /** Such a frame, read. */
  function ToHostFrame(f: seq<byte>): (r: seq<byte>)
    requires |f| >= 16 && ReadsCleanly(f)
    ensures |r| == |f|
  {
    if Converts(f, 0) then Flip(f[..16], 4) + HostData(Field(f, 0, 3), f[16..]) else f
  }

  /** Converting a clean frame changes nothing a reader sees, nor its key and size, and
      leaves nothing more to convert. */
  lemma CleanFrameKept(f: seq<byte>)
    requires |f| >= 16 && ReadsCleanly(f)
    ensures var r := ToHostFrame(f);
            && Seen(r) == Seen(f) && !Converts(r, 0)
            && ReadHeader(r, 0).key == ReadHeader(f, 0).key && ReadHeader(r, 0).size == ReadHeader(f, 0).size
  {
    if Converts(f, 0) {
      var h, d, t := f[..16], f[16..], Field(f, 0, 3);
      assert f == h + d;
      FlippedHeader(h, d, HostData(t, d));
      var r := Flip(h, 4) + HostData(t, d);
      assert ToHostFrame(f) == r && r[16..] == HostData(t, d);
      ConversionKeepsValue(ReadHeader(f, 0), d, false);
    }
  }

  lemma FlippedHeader(h: seq<byte>, d: seq<byte>, e: seq<byte>)
    requires |h| == 16 && ValidMark(h + d, 0)
    ensures var g, f := ReadHeader(Flip(h, 4) + e, 0), ReadHeader(h + d, 0);
            g == f.(net := !f.net)
  {
    HeaderOfPrefix(h, d);
    HeaderOfPrefix(Flip(h, 4), e);
    ConvertedHeader(h);
  }

  /** The header at `at` is that of what lies there. */
  lemma HeaderAt(p: seq<byte>, f: seq<byte>, q: seq<byte>)
    requires |f| >= 16
    ensures var s := p + f + q;
            && ReadHeader(s, |p|) == ReadHeader(f, 0) && IsHostOrder(s, |p|) == IsHostOrder(f, 0)
            && Converts(s, |p|) == Converts(f, 0)
  {
    var s := p + f + q;
    assert s[|p|..|p| + 16] == f[..16];
    SameHeaderWord(s, f, |p|, 0);
    SameHeaderWord(s, f, |p|, 1);
    SameHeaderWord(s, f, |p|, 2);
    SameHeaderWord(s, f, |p|, 3);
  }

  lemma SameHeaderWord(s: seq<byte>, f: seq<byte>, at: nat, i: nat)
    requires i < 4 && |f| >= 16 && at + 16 <= |s| && s[at..at + 16] == f[..16]
    ensures WordAt(s, at + 4 * i) == WordAt(f, 4 * i)
  {
    var a := 4 * i;
    InnerSlice(s, at, at + 16, a);
    InnerSlice(f, 0, 16, a);
  }

  lemma InnerSlice(s: seq<byte>, from: nat, to: nat, a: nat)
    requires from + a + 4 <= to <= |s|
    ensures s[from..to][a..a + 4] == s[from + a..from + a + 4]
  {
    var r, t := s[from..to][a..a + 4], s[from + a..from + a + 4];
    assert |r| == |t| && forall i :: 0 <= i < 4 ==> r[i] == t[i];
  }

  /** A clean frame is read within its own bounds. */
  lemma CleanInPlace(p: seq<byte>, f: seq<byte>, q: seq<byte>)
    requires |f| >= 16 && ReadHeader(f, 0).size == |f| - 16 && ReadsCleanly(f)
    ensures Contained(p + f + q, |p|) && ToHostAt(p + f + q, |p|) == p + ToHostFrame(f) + q
  {
    hide *;
    CleanParts(f);
    HeaderAt(p, f, q);
    if Converts(f, 0) {
      var t, size := Field(f, 0, 3), Field(f, 0, 1);
      var d, n := f[16..], Reach(t, size);
      WithinReach(t, d);
      CutAt(p, f, q, n);
      ConvertedParts(p + f + q, |p|, t, n);
      Regroup5(p, Flip(f[..16], 4), HostData(t, d[..n]), d[n..], q);
      Regroup(p + Flip(f[..16], 4), HostData(t, d[..n]), d[n..] + q);
    } else {
      UnconvertedParts(p + f + q, |p|);
    }
  }

  lemma ChildParts(f: seq<byte>)
    requires IsChildFrame(f)
    ensures |f| >= 16 && ReadHeader(f, 0).size == |f| - 16 && ReadHeader(f, 0).key >= 0
  {
  }

  lemma CleanParts(f: seq<byte>)
    requires |f| >= 16 && ReadHeader(f, 0).size == |f| - 16 && ReadsCleanly(f)
    ensures var d, t, n := f[16..], Field(f, 0, 3), Reach(Field(f, 0, 3), Field(f, 0, 1));
            if Converts(f, 0) then
              && Footprint(t) <= |d| && (t == TYPE_VECTOR_UINT32 ==> Field(f, 0, 1) >= 0)
              && n <= |d| && n == (if t == TYPE_VECTOR_UINT32 then |d| else Footprint(t))
              && ToHostFrame(f) == Flip(f[..16], 4) + HostData(t, d)
            else ToHostFrame(f) == f
    ensures ReadHeader(f, 0).size == Field(f, 0, 1) && ReadHeader(f, 0).dataType == Field(f, 0, 3)
  {
    hide Field, IsHostOrder, IsNetworkOrder, HostData, Flip, Footprint;
  }

  lemma ConvertedParts(s: seq<byte>, at: nat, t: int32, n: nat)
    requires at + 16 + n <= |s| && Converts(s, at)
    requires var h := ReadHeader(s, at);
             h.dataType == t && n == Reach(t, h.size) && (t == TYPE_VECTOR_UINT32 ==> h.size >= 0)
    ensures Contained(s, at) && Footprint(t) <= n
    ensures ToHostAt(s, at)
         == s[..at] + Flip(s[at..at + 16], 4) + HostData(t, s[at + 16..at + 16 + n]) + s[at + 16 + n..]
  {
    hide Field, IsHostOrder, IsNetworkOrder, HostData, Flip;
  }

  lemma UnconvertedParts(s: seq<byte>, at: nat)
    requires at + 16 <= |s| && !Converts(s, at)
    ensures Contained(s, at) && ToHostAt(s, at) == s
  {
  }

  lemma Regroup5(p: seq<byte>, s: seq<byte>, t: seq<byte>, u: seq<byte>, v: seq<byte>)
    ensures p + (s + (t + u)) + v == p + s + (t + (u + v))
  {
  }

  lemma CutAt(p: seq<byte>, f: seq<byte>, q: seq<byte>, n: nat)
    requires 16 + n <= |f|
    ensures var s, at := p + f + q, |p|;
            && s[..at] == p && s[at..at + 16] == f[..16] && s[at + 16..at + 16 + n] == f[16..][..n]
            && s[at + 16 + n..] == f[16..][n..] + q
  {
  }

  /** The condition on the frame of the key that is asked for, if there is one. */
  predicate CleanKey(s: seq<byte>, k: int32) {
    k in FramesIn(s) ==> ReadsCleanly(FramesIn(s)[k])
  }

  /** `get` touches the bytes of one frame and no others. */
  lemma GetInPlace(s: seq<byte>, k: int32)
    requires k in FramesIn(s) && CleanKey(s, k)
    ensures var f := FramesIn(s)[k];
            && k in Views(s, 0) && LiesAt(s, Views(s, 0)[k], f) && Contained(s, Views(s, 0)[k])
            && AfterGet(s, k) == Patched(s, Views(s, 0)[k], ToHostFrame(f))
  {
    hide *;
    ViewOfKey(s, 0, k);
    var f, at := FramesIn(s)[k], Views(s, 0)[k];
    assert ReadsCleanly(f) by { CleanKeyIs(s, k); }
    LiesWhere(s, at, f);
    ChildParts(f);
    CleanInPlace(s[..at], f, s[at + |f|..]);
    AfterGetIs(s, k);
    PatchedIs(s, at, ToHostFrame(f));
  }

  lemma CleanKeyIs(s: seq<byte>, k: int32)
    requires k in FramesIn(s)
    ensures CleanKey(s, k) <==> ReadsCleanly(FramesIn(s)[k])
  {
  }

  lemma AfterGetIs(s: seq<byte>, k: int32)
    ensures k !in Views(s, 0) ==> AfterGet(s, k) == s
    ensures k in Views(s, 0) && Contained(s, Views(s, 0)[k]) ==> AfterGet(s, k) == ToHostAt(s, Views(s, 0)[k])
  {
  }

  lemma PatchedIs(s: seq<byte>, at: nat, g: seq<byte>)
    requires at + |g| <= |s|
    ensures Patched(s, at, g) == s[..at] + g + s[at + |g|..]
  {
  }

  /** After a read through `get` every key shows what it showed, whatever the frames of
      other keys are like; no view has moved, the payload still parses, and a second read
      of the same key changes nothing at all. */
  lemma GetIsInvisible(s: seq<byte>, k: int32)
    requires CleanKey(s, k)
    ensures var r := AfterGet(s, k);
            && Visible(r) == Visible(s) && Views(r, 0) == Views(s, 0) && (Tiles(r) <==> Tiles(s))
            && AfterGet(r, k) == r && forall j :: CleanKey(s, j) ==> CleanKey(r, j)
    ensures FramesIn(AfterGet(s, k))
         == if k in FramesIn(s) then FramesIn(s)[k := ToHostFrame(FramesIn(s)[k])] else FramesIn(s)
  {
    hide *;
    ViewOfKey(s, 0, k);
    AfterGetIs(s, k);
    if k in FramesIn(s) {
      CleanKeyIs(s, k);
      var f, r := FramesIn(s)[k], AfterGet(s, k);
      var g := ToHostFrame(f);
      GetInPlace(s, k);
      CleanFrameKept(f);
      ChildLike(f, g);
      ReplaceFrame(s, 0, k, g);
      UpdatedVisible(s, r, k, g);
      ReadAgain(r, k);
    }
  }

  lemma ChildLike(f: seq<byte>, g: seq<byte>)
    requires IsChildFrame(f) && |g| == |f|
    requires ReadHeader(g, 0).key == ReadHeader(f, 0).key && ReadHeader(g, 0).size == ReadHeader(f, 0).size
    ensures IsChildFrame(g)
  {
  }

  lemma UpdatedVisible(s: seq<byte>, r: seq<byte>, k: int32, g: seq<byte>)
    requires k in FramesIn(s) && |g| >= 16 && FramesIn(r) == FramesIn(s)[k := g] && !Converts(g, 0)
    ensures Seen(g) == Seen(FramesIn(s)[k]) ==> Visible(r) == Visible(s)
    ensures forall j :: CleanKey(s, j) ==> CleanKey(r, j)
  {
    hide Seen, Converts, FramesIn;
  }

  lemma ReadAgain(r: seq<byte>, k: int32)
    requires k in FramesIn(r) && !Converts(FramesIn(r)[k], 0)
    ensures AfterGet(r, k) == r
  {
    hide *;
    ViewOfKey(r, 0, k);
    var f, at := FramesIn(r)[k], Views(r, 0)[k];
    LiesWhere(r, at, f);
    HeaderThere(r, at, f);
    UnconvertedParts(r, at);
    AfterGetIs(r, k);
  }

  lemma HeaderThere(s: seq<byte>, at: nat, f: seq<byte>)
    requires LiesAt(s, at, f) && |f| >= 16
    ensures at + 16 <= |s| && ReadHeader(s, at) == ReadHeader(f, 0) && Converts(s, at) == Converts(f, 0)
    ensures IsHostOrder(s, at) == IsHostOrder(f, 0)
  {
    LiesWhere(s, at, f);
    HeaderAt(s[..at], f, s[at + |f|..]);
  }

  /** What was asked for is in host order from then on: its type and its payload, read as
      they stand, are what was seen there. */
  lemma ReadIsHost(s: seq<byte>, k: int32)
    requires k in FramesIn(s) && CleanKey(s, k)
    ensures k in Visible(s) && k in FramesIn(AfterGet(s, k))
    ensures HostSeen(FramesIn(AfterGet(s, k))[k]) == Visible(s)[k]
  {
    hide *;
    CleanKeyIs(s, k);
    GetIsInvisible(s, k);
    CleanFrameKept(FramesIn(s)[k]);
    HostIsSeen(ToHostFrame(FramesIn(s)[k]));
    VisibleAt(s, k);
  }

  lemma HostIsSeen(f: seq<byte>)
    requires |f| >= 16 && !Converts(f, 0)
    ensures HostSeen(f) == Seen(f)
  {
    hide HostData, DoubleCodec.Canonical, DWordAt, IsHostOrder, Field;
  }

  function AfterGets(s: seq<byte>, keys: seq<int32>): (r: seq<byte>)
    ensures |r| == |s|
    decreases |keys|
  {
    if keys == [] then s else AfterGets(AfterGet(s, keys[0]), keys[1..])
  }

  lemma {:induction false} GetsAreInvisible(s: seq<byte>, keys: seq<int32>)
    requires forall k :: k in keys ==> CleanKey(s, k)
    ensures var r := AfterGets(s, keys);
            Visible(r) == Visible(s) && Views(r, 0) == Views(s, 0) && (Tiles(r) <==> Tiles(s))
    decreases |keys|
  {
    hide CleanKey, AfterGet, Tiles, Views, Visible;
    if keys != [] {
      GetIsInvisible(s, keys[0]);
      GetsAreInvisible(AfterGet(s, keys[0]), keys[1..]);
    }
  }

  // ----- the frames that a read does disturb -----

  /** Without a valid mark the swap is its own undoing: the type reads differently
      afterwards. */
  lemma UnmarkedChanges(h: seq<byte>, rest: seq<byte>)
    requires |h| == 16 && Converts(h, 0) && !IsNetworkOrder(h, 0)
    ensures Field(Flip(h, 4) + rest, 0, 3) != Field(h, 0, 3)
  {
    hide Flip, Swap32, WordAt, Reverse;
    HeaderOfPrefix(Flip(h, 4), rest);
    FlipWord(h, 4, 0);
    FlipWord(h, 4, 3);
    MarkSwap();
    Swap32Involutive(WordAt(h, 0));
    Swap32Involutive(WordAt(h, 12));
    SmallTypeSwap(Field(h, 0, 3));
  }

  /** No small type reads the same in both orders. */
  lemma SmallTypeSwap(t: int32)
    requires 0 < t < 0x100
    ensures Swap32(Unsigned(t)) != Unsigned(t)
  {
    var s: seq<byte> := [t as int, 0, 0, 0];
    NumberOf4(s);
    WordRoundTrip(s, 0);
    assert s[0..4] == s && WordBytes(Unsigned(t)) == s;
    assert Reverse(s) == [0, 0, 0, t as int];
    NumberOf4(Reverse(s));
  }

  /** What lies behind `f` neither changes when `f` is read nor makes a difference. */
  ghost predicate Alone(f: seq<byte>) {
    forall rest, other :: Contained(f + rest, 0) && Contained(f + other, 0) ==> ApartFrom(f, rest, other)
  }

  predicate ApartFrom(f: seq<byte>, rest: seq<byte>, other: seq<byte>)
    requires Contained(f + rest, 0) && Contained(f + other, 0)
  {
    var r, o := ToHostAt(f + rest, 0), ToHostAt(f + other, 0);
    r[|f|..] == rest && r[..|f|] == o[..|f|]
  }

  /** A read of a frame with this header, whatever its payload, is a matter of the frame. */
  ghost predicate Private(f: seq<byte>)
    requires |f| >= 16
  {
    forall d: seq<byte> :: |d| == |f| - 16 ==> Alone(f[..16] + d)
  }

  lemma CleanIsPrivate(f: seq<byte>)
    requires IsChildFrame(f) && ReadsCleanly(f)
    ensures Private(f)
  {
    forall d: seq<byte> | |d| == |f| - 16
      ensures Alone(f[..16] + d)
    {
      SameHeaderClean(f, d);
      CleanAlone(f[..16] + d);
    }
  }

  lemma SameHeaderClean(f: seq<byte>, d: seq<byte>)
    requires IsChildFrame(f) && ReadsCleanly(f) && |d| == |f| - 16
    ensures IsChildFrame(f[..16] + d) && ReadsCleanly(f[..16] + d)
  {
    assert f == f[..16] + f[16..];
    HeaderOfPrefix(f[..16], f[16..]);
    HeaderOfPrefix(f[..16], d);
  }

  lemma CleanAlone(f: seq<byte>)
    requires IsChildFrame(f) && ReadsCleanly(f)
    ensures Alone(f)
  {
    forall rest, other | Contained(f + rest, 0) && Contained(f + other, 0)
      ensures ApartFrom(f, rest, other)
    {
      ReadInFront(f, rest);
      ReadInFront(f, other);
      hide *;
      AreApart(f, rest, other, ToHostFrame(f));
    }
  }

  lemma ReadInFront(f: seq<byte>, rest: seq<byte>)
    requires IsChildFrame(f) && ReadsCleanly(f)
    ensures Contained(f + rest, 0) && ToHostAt(f + rest, 0) == ToHostFrame(f) + rest
  {
    hide *;
    ChildParts(f);
    CleanInPlace([], f, rest);
    CleanParts(f);
    assert [] + f + rest == f + rest && [] + ToHostFrame(f) + rest == ToHostFrame(f) + rest;
  }

  lemma AreApart(f: seq<byte>, rest: seq<byte>, other: seq<byte>, g: seq<byte>)
    requires Contained(f + rest, 0) && Contained(f + other, 0) && |g| == |f|
    requires ToHostAt(f + rest, 0) == g + rest && ToHostAt(f + other, 0) == g + other
    ensures ApartFrom(f, rest, other)
  {
    hide Contained, ToHostAt;
  }

  /** A payload that, together with what is behind it, is `full`. */
  lemma ReadFull(h: seq<byte>, full: seq<byte>, n: nat)
    requires |h| == 16 && Converts(h, 0) && n <= |full| == Footprint(Field(h, 0, 3))
    requires Field(h, 0, 3) != TYPE_VECTOR_UINT32
    ensures h + full[..n] + full[n..] == h + full && Contained(h + full, 0)
    ensures ToHostAt(h + full, 0) == Flip(h, 4) + HostData(Field(h, 0, 3), full)
  {
    hide *;
    var s, t := h + full, Field(h, 0, 3);
    HeaderAt([], h, full);
    assert [] + h + full == s && full[..n] + full[n..] == full;
    assert s[..0] == [] && s[0..16] == h && s[16..16 + |full|] == full && s[16 + |full|..] == [];
    FieldParts(h, 0);
    ReachCases(t, Field(h, 0, 1));
    ConvertedParts(s, 0, t, |full|);
  }

  lemma FieldParts(s: seq<byte>, at: nat)
    requires at + 16 <= |s|
    ensures ReadHeader(s, at).size == Field(s, at, 1) && ReadHeader(s, at).dataType == Field(s, at, 3)
  {
  }

  /** The converter changes a byte behind the payload. */
  lemma Spills(h: seq<byte>, full: seq<byte>, n: nat, i: nat)
    requires |h| == 16 && Converts(h, 0) && n <= i < |full| == Footprint(Field(h, 0, 3))
    requires Field(h, 0, 3) != TYPE_VECTOR_UINT32 && HostData(Field(h, 0, 3), full)[i] != full[i]
    ensures !Alone(h + full[..n])
  {
    hide *;
    ReadFull(h, full, n);
    var f, rest, e := h + full[..n], full[n..], HostData(Field(h, 0, 3), full);
    assert (Flip(h, 4) + e)[|f|..][i - n] == e[i] && rest[i - n] == full[i];
    NotAlone(f, rest, rest);
  }

  /** What is behind the payload makes a difference to it. */
  lemma Depends(h: seq<byte>, full: seq<byte>, twin: seq<byte>, n: nat, i: nat)
    requires |h| == 16 && Converts(h, 0) && i < n <= |full| == |twin| == Footprint(Field(h, 0, 3))
    requires Field(h, 0, 3) != TYPE_VECTOR_UINT32 && full[..n] == twin[..n]
    requires HostData(Field(h, 0, 3), full)[i] != HostData(Field(h, 0, 3), twin)[i]
    ensures !Alone(h + full[..n])
  {
    hide *;
    ReadFull(h, full, n);
    ReadFull(h, twin, n);
    var f, d, e := h + full[..n], HostData(Field(h, 0, 3), full), HostData(Field(h, 0, 3), twin);
    assert (Flip(h, 4) + d)[..|f|][16 + i] == d[i] && (Flip(h, 4) + e)[..|f|][16 + i] == e[i];
    NotAlone(f, full[n..], twin[n..]);
  }

  lemma NotAlone(f: seq<byte>, rest: seq<byte>, other: seq<byte>)
    requires Contained(f + rest, 0) && Contained(f + other, 0)
    requires var r, o := ToHostAt(f + rest, 0), ToHostAt(f + other, 0); r[|f|..] != rest || r[..|f|] != o[..|f|]
    ensures !Alone(f)
  {
    hide ToHostAt, Contained;
    assert !ApartFrom(f, rest, other);
  }

  /** However few bytes the payload is short of what its type takes, some payload shows it. */
  lemma ShortIsNotPrivate(f: seq<byte>)
    requires |f| >= 16 && Converts(f, 0) && |f| - 16 < Footprint(Field(f, 0, 3))
    ensures !Private(f)
  {
    hide *;
    var h, n := f[..16], |f| - 16;
    HeaderAt([], h, f[16..]);
    assert [] + h + f[16..] == f;
    FieldParts(f, 0);
    FieldParts(h, 0);
    var full := ShortPayload(h, n);
    NotPrivate(f, full[..n]);
  }

  lemma NotPrivate(f: seq<byte>, d: seq<byte>)
    requires |f| >= 16 && |d| == |f| - 16 && !Alone(f[..16] + d)
    ensures !Private(f)
  {
    hide Alone;
  }

  lemma ShortPayload(h: seq<byte>, n: nat) returns (full: seq<byte>)
    requires |h| == 16 && Converts(h, 0) && n < Footprint(Field(h, 0, 3))
    ensures n <= |full| && !Alone(h + full[..n])
  {
    hide *;
    var t := Field(h, 0, 3);
    ReachCases(t, 0);
    if t == TYPE_DOUBLE {
      var one, two := DoubleCodec.OneAndTwo();
      HostCases(t, one);
      HostCases(t, two);
      full := one;
      assert n <= 12 && one[..n] == one[..12][..n] && two[..n] == two[..12][..n];
      if n <= 7 {
        Spills(h, one, n, 7);
      } else {
        Depends(h, one, two, n, 7);
      }
    } else {
      full := [1] + seq(Footprint(t) - 1, _ => 0);
      HostCases(t, full);
      NetworkCases(t, full);
      assert full[Footprint(t) - 1] == 0 && HostData(t, full)[Footprint(t) - 1] == 1 by {
        FirstToLast(t, full);
      }
      Spills(h, full, n, Footprint(t) - 1);
    }
  }

  lemma FirstToLast(t: int32, full: seq<byte>)
    requires TYPE_INT32 <= t <= TYPE_UINT64 && |full| == Footprint(t)
    ensures HostData(t, full)[Footprint(t) - 1] == full[0]
  {
  }

  /** The views, being where they were before, show under each key what they showed. */
  predicate LooksSame(s: seq<byte>, r: seq<byte>) {
    forall j :: j in FramesIn(s) ==> ShowsSame(s, r, j)
  }

  predicate ShowsSame(s: seq<byte>, r: seq<byte>, j: int32)
    requires j in FramesIn(s)
  {
    var f := FramesIn(s)[j];
    j in Views(s, 0) && Views(s, 0)[j] + |f| <= |r| && Seen(r[Views(s, 0)[j]..Views(s, 0)[j] + |f|]) == Seen(f)
  }

  /** Exactly when a read through `get` stays inside the buffer, goes unnoticed and keeps to
      its frame: when that frame, whatever the others are like, has nothing to convert, or a
      valid mark and room for its type. */
  lemma GetNoticedIff(s: seq<byte>, k: int32)
    requires k in FramesIn(s)
    ensures k in Views(s, 0)
    ensures Contained(s, Views(s, 0)[k]) && LooksSame(s, AfterGet(s, k)) && Private(FramesIn(s)[k])
       <==> ReadsCleanly(FramesIn(s)[k])
  {
    hide *;
    ViewOfKey(s, 0, k);
    var f := FramesIn(s)[k];
    CleanCases(f);
    CleanKeyIs(s, k);
    if ReadsCleanly(f) {
      GetInPlace(s, k);
      GetIsInvisible(s, k);
      StillLooksSame(s, AfterGet(s, k));
      CleanIsPrivate(f);
    } else if IsNetworkOrder(f, 0) {
      ShortIsNotPrivate(f);
    } else {
      UnmarkedIsNoticed(s, k);
    }
  }

  lemma CleanCases(f: seq<byte>)
    requires |f| >= 16
    ensures ReadsCleanly(f) <==> Converts(f, 0) ==> IsNetworkOrder(f, 0) && Footprint(Field(f, 0, 3)) <= |f| - 16
  {
  }

  lemma StillLooksSame(s: seq<byte>, r: seq<byte>)
    requires Views(r, 0) == Views(s, 0) && Visible(r) == Visible(s)
    requires forall j :: j in FramesIn(s) && j in FramesIn(r) ==> |FramesIn(r)[j]| == |FramesIn(s)[j]|
    ensures LooksSame(s, r)
  {
    hide Views, Visible, FramesIn, ShowsSame;
    forall j | j in FramesIn(s)
      ensures ShowsSame(s, r, j)
    {
      StillShowsSame(s, r, j);
    }
  }

  lemma StillShowsSame(s: seq<byte>, r: seq<byte>, j: int32)
    requires Views(r, 0) == Views(s, 0) && Visible(r) == Visible(s) && j in FramesIn(s)
    requires j in FramesIn(r) ==> |FramesIn(r)[j]| == |FramesIn(s)[j]|
    ensures ShowsSame(s, r, j)
  {
    hide *;
    ViewOfKey(s, 0, j);
    ViewOfKey(r, 0, j);
    VisibleAt(s, j);
    VisibleAt(r, j);
    LiesWhere(r, Views(r, 0)[j], FramesIn(r)[j]);
    SameShown(s, r, j);
  }

  lemma SameShown(s: seq<byte>, r: seq<byte>, j: int32)
    requires j in FramesIn(s) && j in Views(s, 0) && Views(s, 0)[j] + |FramesIn(s)[j]| <= |r|
    requires Seen(r[Views(s, 0)[j]..Views(s, 0)[j] + |FramesIn(s)[j]|]) == Seen(FramesIn(s)[j])
    ensures ShowsSame(s, r, j)
  {
    hide Seen, FramesIn, Views;
  }

  lemma VisibleAt(s: seq<byte>, k: int32)
    ensures k in Visible(s) <==> k in FramesIn(s)
    ensures k in FramesIn(s) ==> Visible(s)[k] == Seen(FramesIn(s)[k])
  {
    hide Seen, FramesIn;
  }

  /** Without a valid mark a read runs past the end of the buffer, or it is noticed. */
  lemma UnmarkedIsNoticed(s: seq<byte>, k: int32)
    requires k in FramesIn(s) && Converts(FramesIn(s)[k], 0) && !IsNetworkOrder(FramesIn(s)[k], 0)
    ensures k in Views(s, 0) && (Contained(s, Views(s, 0)[k]) ==> !LooksSame(s, AfterGet(s, k)))
  {
    hide *;
    ViewOfKey(s, 0, k);
    var f, at, r := FramesIn(s)[k], Views(s, 0)[k], AfterGet(s, k);
    if Contained(s, at) {
      AfterGetIs(s, k);
      LiesWhere(s, at, f);
      HeaderThere(s, at, f);
      HeaderFlipped(s, at);
      var now := r[at..at + |f|];
      assert now[..16] == r[at..at + 16] && s[at..at + 16] == f[..16];
      NowDiffers(f, now);
      NotSame(s, r, k);
    }
  }

  lemma HeaderFlipped(s: seq<byte>, at: nat)
    requires Contained(s, at) && Converts(s, at)
    ensures ToHostAt(s, at)[at..at + 16] == Flip(s[at..at + 16], 4)
  {
    hide HostData, Flip, Field, IsHostOrder, Reach;
  }

  lemma NowDiffers(f: seq<byte>, now: seq<byte>)
    requires |f| == |now| >= 16 && Converts(f, 0) && !IsNetworkOrder(f, 0) && now[..16] == Flip(f[..16], 4)
    ensures Seen(now).0 != Seen(f).0
  {
    var h := f[..16];
    assert f == h + f[16..] && now == Flip(h, 4) + now[16..];
    HeaderOfPrefix(h, f[16..]);
    hide Flip, IsHostOrder, IsNetworkOrder, Decoded;
    UnmarkedChanges(h, now[16..]);
  }

  lemma NotSame(s: seq<byte>, r: seq<byte>, k: int32)
    requires k in Views(s, 0) && k in FramesIn(s) && Views(s, 0)[k] + |FramesIn(s)[k]| <= |r|
    requires Seen(r[Views(s, 0)[k]..Views(s, 0)[k] + |FramesIn(s)[k]|]).0 != Seen(FramesIn(s)[k]).0
    ensures !LooksSame(s, r)
  {
    hide Seen, FramesIn, Views;
    assert !ShowsSame(s, r, k);
  }

  // ----- two payloads that the parser accepts and a read disturbs -----

  /** A four-byte integer under key 0, behind a header whose mark is zero. */
  const UNMARKED: seq<byte> := [0, 0, 0, 0, 0, 0, 0, 4, 0, 0, 0, 0, 0, 0, 0, 3, 0, 0, 0, 7]

  /** A 64-bit integer of four bytes under key 0, in network order. */
  const SHORT: seq<byte> := [0, 0, 0, 1, 0, 0, 0, 4, 0, 0, 0, 0, 0, 0, 0, 5, 0, 0, 0, 7]

  /** A string of one character under key 1, in host order. */
  const NEXT: seq<byte> := [1, 0, 0, 0, 1, 0, 0, 0, 1, 0, 0, 0, 2, 0, 0, 0, 65]

  lemma BigEndianAt(s: seq<byte>, at: nat, v: byte)
    requires at + 4 <= |s| && s[at..at + 4] == [0, 0, 0, v]
    ensures Swap32(WordAt(s, at)) == v as int && WordAt(s, at) == 0x100_0000 * v as int
  {
    Swap32Reverses(s, at);
    var r := Reverse(s[at..at + 4]);
    assert r == [v, 0, 0, 0];
    NumberOf4(r);
    WordRoundTrip(s, at);
    NumberOf4(s[at..at + 4]);
    assert r[0..4] == r && s[at..at + 4][0..4] == s[at..at + 4];
  }

  lemma LittleEndianAt(s: seq<byte>, at: nat, v: byte)
    requires at + 4 <= |s| && s[at..at + 4] == [v, 0, 0, 0]
    ensures WordAt(s, at) == v as int
  {
    NumberOf4(s[at..at + 4]);
    assert s[at..at + 4][0..4] == s[at..at + 4];
  }

  lemma BigEndianHeader(f: seq<byte>, mark: byte, size: byte, key: byte, t: byte)
    requires |f| >= 16 && f[0..4] == [0, 0, 0, mark] && f[4..8] == [0, 0, 0, size]
    requires f[8..12] == [0, 0, 0, key] && f[12..16] == [0, 0, 0, t]
    ensures ReadHeader(f, 0) == Header(true, size as int, key as int, t as int)
    ensures !IsHostOrder(f, 0) && Field(f, 0, 1) == size as int && Field(f, 0, 3) == t as int
    ensures IsNetworkOrder(f, 0) <==> mark == 1
  {
    BigEndianAt(f, 0, mark);
    BigEndianAt(f, 4, size);
    BigEndianAt(f, 8, key);
    BigEndianAt(f, 12, t);
    hide WordAt, Swap32;
  }

  lemma LittleEndianHeader(f: seq<byte>, mark: byte, size: byte, key: byte, t: byte)
    requires |f| >= 16 && f[0..4] == [mark, 0, 0, 0] && f[4..8] == [size, 0, 0, 0]
    requires f[8..12] == [key, 0, 0, 0] && f[12..16] == [t, 0, 0, 0]
    ensures mark == 1 ==> ReadHeader(f, 0) == Header(false, size as int, key as int, t as int)
    ensures Field(f, 0, 3) == if mark == 1 then t as int else Signed(Swap32(t as int))
  {
    LittleEndianAt(f, 0, mark);
    LittleEndianAt(f, 4, size);
    LittleEndianAt(f, 8, key);
    LittleEndianAt(f, 12, t);
    hide WordAt, Swap32;
  }

  lemma OneFrame(f: seq<byte>)
    requires IsChildFrame(f)
    ensures var k := ReadHeader(f, 0).key;
            Tiles(f) && FramesIn(f) == map[k := f] && Views(f, 0) == map[k := 0]
  {
    InFront(f, [], 0);
    assert f + [] == f;
  }

  lemma TwoFrames(f: seq<byte>, g: seq<byte>)
    requires IsChildFrame(f) && IsChildFrame(g) && ReadHeader(f, 0).key != ReadHeader(g, 0).key
    ensures var k, l := ReadHeader(f, 0).key, ReadHeader(g, 0).key;
            && Tiles(f + g) && FramesIn(f + g) == map[k := f, l := g]
            && Views(f + g, 0) == map[k := 0, l := |f|]
  {
    hide *;
    OneFrame(g);
    InFront(f, g, 0);
    OneFrameFrom(g, |f|);
  }

  lemma OneFrameFrom(f: seq<byte>, base: nat)
    requires IsChildFrame(f)
    ensures Views(f, base) == map[ReadHeader(f, 0).key := base]
  {
    InFront(f, [], base);
    assert f + [] == f;
  }

  /** It is an integer until it is asked for, and something else from then on. */
  lemma UnmarkedExample()
    ensures Tiles(UNMARKED) && 0 in Visible(UNMARKED) && Visible(UNMARKED)[0].0 == TYPE_INT32
    ensures Seen(AfterGet(UNMARKED, 0)).0 != TYPE_INT32
  {
    BigEndianHeader(UNMARKED, 0, 4, 0, 3);
    assert |UNMARKED| == 20;
    UnmarkedRead(UNMARKED);
  }

  lemma UnmarkedRead(f: seq<byte>)
    requires |f| == 20 && ReadHeader(f, 0) == Header(true, 4, 0, TYPE_INT32)
    requires !IsHostOrder(f, 0) && !IsNetworkOrder(f, 0) && Field(f, 0, 3) == TYPE_INT32 && Field(f, 0, 1) == 4
    ensures Tiles(f) && 0 in Visible(f) && Visible(f)[0].0 == TYPE_INT32
    ensures Seen(AfterGet(f, 0)).0 != TYPE_INT32
  {
    OneFrame(f);
    VisibleAt(f, 0);
    ReachCases(TYPE_INT32, 4);
    ConvertedParts(f, 0, TYPE_INT32, 4);
    assert Seen(f).0 == TYPE_INT32;
    hide *;
    HeaderFlipped(f, 0);
    AfterGetIs(f, 0);
    var r := AfterGet(f, 0);
    assert r[..16] == r[0..16] && f[..16] == f[0..16];
    NowDiffers(f, r);
  }

  /** A string next to it until the short integer is asked for, and something else from
      then on: the integer's converter has reversed the string's mark along with its own
      payload. */
  lemma ShortExample()
    ensures |SHORT| == 20 && |NEXT| == 17 && Seen(NEXT).0 == TYPE_STRING
    ensures Tiles(SHORT + NEXT) && FramesIn(SHORT + NEXT) == map[0 := SHORT, 1 := NEXT]
    ensures Seen(AfterGet(SHORT + NEXT, 0)[20..]).0 != TYPE_STRING
  {
    var f, g := SHORT, NEXT;
    hide Field, ReadHeader, Tiles, FramesIn, AfterGet, Seen;
    ShortHeaders(f, g);
    SplitsInto(f, [0, 0, 0, 7], g, [1, 0, 0, 0, 2, 0, 0, 0, 65]);
    hide *;
    ShortRead(f, g, f[..16], g[8..]);
  }

  /** Behind the short integer alone there is nothing: the parser accepts it, and a read of it
      runs past the end of the buffer. */
  lemma AtEndExample()
    ensures Tiles(SHORT) && FramesIn(SHORT) == map[0 := SHORT] && Views(SHORT, 0) == map[0 := 0]
    ensures !Contained(SHORT, 0)
  {
    var f := SHORT;
    hide *;
    ShortHeaders(f, NEXT);
    HaveFrame(f);
    OneFrame(f);
    PastTheEnd(f);
  }

  lemma HaveFrame(f: seq<byte>)
    requires |f| == 20 && ReadHeader(f, 0) == Header(true, 4, 0, TYPE_INT64)
    ensures IsChildFrame(f)
  {
  }

  lemma PastTheEnd(f: seq<byte>)
    requires |f| == 20 && ReadHeader(f, 0) == Header(true, 4, 0, TYPE_INT64)
    ensures !Contained(f, 0)
  {
    MustConvert(f);
    FieldParts(f, 0);
    ReachCases(TYPE_INT64, 4);
    hide Field, Converts, Reach;
  }

  lemma ShortHeaders(f: seq<byte>, g: seq<byte>)
    requires f == SHORT && g == NEXT
    ensures |f| == 20 && ReadHeader(f, 0) == Header(true, 4, 0, TYPE_INT64)
    ensures |g| == 17 && ReadHeader(g, 0) == Header(false, 1, 1, TYPE_STRING)
  {
    hide *;
    ShortWords(f);
    NextWords(g);
    BigEndianHeader(f, 1, 4, 0, 5);
    LittleEndianHeader(g, 1, 1, 1, 2);
  }

  lemma ShortWords(f: seq<byte>)
    requires f == SHORT
    ensures |f| == 20 && f[0..4] == [0, 0, 0, 1] && f[4..8] == [0, 0, 0, 4]
    ensures f[8..12] == [0, 0, 0, 0] && f[12..16] == [0, 0, 0, 5] && TYPE_INT64 == 5
  {
  }

  lemma NextWords(g: seq<byte>)
    requires g == NEXT
    ensures |g| == 17 && g[0..4] == [1, 0, 0, 0] && g[4..8] == [1, 0, 0, 0]
    ensures g[8..12] == [1, 0, 0, 0] && g[12..16] == [2, 0, 0, 0] && TYPE_STRING == 2
  {
  }

  lemma ShortRead(f: seq<byte>, g: seq<byte>, h: seq<byte>, tail: seq<byte>)
    requires |f| == 20 && |g| == 17
    requires ReadHeader(f, 0) == Header(true, 4, 0, TYPE_INT64) && ReadHeader(g, 0) == Header(false, 1, 1, TYPE_STRING)
    requires |h| == 16 && f == h + [0, 0, 0, 7] && g == [1, 0, 0, 0, 1, 0, 0, 0] + tail && |tail| == 9
    requires tail[..8] == [1, 0, 0, 0, 2, 0, 0, 0]
    ensures Seen(g).0 == TYPE_STRING && Tiles(f + g) && FramesIn(f + g) == map[0 := f, 1 := g]
    ensures Seen(AfterGet(f + g, 0)[20..]).0 != TYPE_STRING
  {
    hide *;
    HaveFrames(f, g);
    TwoFrames(f, g);
    Overrun(f, g, h, tail);
    AfterGetIs(f + g, 0);
  }

  lemma HaveFrames(f: seq<byte>, g: seq<byte>)
    requires |f| == 20 && |g| == 17
    requires ReadHeader(f, 0) == Header(true, 4, 0, TYPE_INT64) && ReadHeader(g, 0) == Header(false, 1, 1, TYPE_STRING)
    ensures IsChildFrame(f) && IsChildFrame(g) && Seen(g).0 == TYPE_STRING
  {
    hide Decoded;
  }

  lemma Overrun(f: seq<byte>, g: seq<byte>, h: seq<byte>, tail: seq<byte>)
    requires |h| == 16 && f == h + [0, 0, 0, 7] && g == [1, 0, 0, 0, 1, 0, 0, 0] + tail && |tail| == 9
    requires tail[..8] == [1, 0, 0, 0, 2, 0, 0, 0]
    requires ReadHeader(f, 0) == Header(true, 4, 0, TYPE_INT64)
    ensures Contained(f + g, 0) && Seen(ToHostAt(f + g, 0)[20..]).0 != TYPE_STRING
  {
    hide *;
    var s, d := f + g, [0, 0, 0, 7, 1, 0, 0, 0];
    var rest := [1, 0, 0, 0] + tail;
    HeaderAt([], f, g);
    FieldParts(f, 0);
    MustConvert(f);
    assert [] + f + g == s;
    ReachCases(TYPE_INT64, 4);
    assert s == h + d + rest && s[16..24] == d && s[24..] == rest && s[..0] == [];
    ConvertedParts(s, 0, TYPE_INT64, 8);
    ReversedPayload(d);
    var now := ToHostAt(s, 0)[20..];
    assert |Flip(s[0..16], 4)| == 16;
    assert now == [7, 0, 0, 0] + rest;
    OverrunHeader(now, tail);
  }

  lemma MustConvert(f: seq<byte>)
    requires |f| >= 16 && ReadHeader(f, 0) == Header(true, 4, 0, TYPE_INT64)
    ensures Converts(f, 0) && TYPE_INT64 != TYPE_VECTOR_UINT32
  {
  }

  lemma ReversedPayload(d: seq<byte>)
    requires d == [0, 0, 0, 7, 1, 0, 0, 0]
    ensures |d| >= Footprint(TYPE_INT64) && HostData(TYPE_INT64, d) == [0, 0, 0, 1, 7, 0, 0, 0]
  {
    assert d[..8] == d && d[8..] == [];
    assert Reverse(d) == [0, 0, 0, 1, 7, 0, 0, 0];
    hide Reverse;
  }

  lemma OverrunHeader(f: seq<byte>, tail: seq<byte>)
    requires f == [7, 0, 0, 0] + ([1, 0, 0, 0] + tail) && |tail| == 9 && tail[..8] == [1, 0, 0, 0, 2, 0, 0, 0]
    ensures Seen(f).0 != TYPE_STRING
  {
    assert f[8..12] == tail[..8][..4] && f[12..16] == tail[..8][4..8];
    LittleEndianHeader(f, 7, 1, 1, 2);
    SmallTypeSwap(2);
    hide Field, Decoded, Swap32;
  }

  lemma SplitsInto(f: seq<byte>, d: seq<byte>, g: seq<byte>, tail: seq<byte>)
    requires f == SHORT && d == [0, 0, 0, 7] && g == NEXT && tail == [1, 0, 0, 0, 2, 0, 0, 0, 65]
    ensures |f| == 20 && |g| == 17 && f == f[..16] + d && g == [1, 0, 0, 0, 1, 0, 0, 0] + g[8..] && g[8..] == tail
    ensures tail[..8] == [1, 0, 0, 0, 2, 0, 0, 0]
  {
  }
}
