/** A view of a parsed container copied to a window or a descriptor.  Its buffer size is
    never set, so that the copy has nothing to send behind the header and says so by an
    error. */
module ViewCopy {
  import opened Memory
  import opened Headers
  import opened Transport
  import opened DsonObj
  import opened Tiling
  import opened Canonical
  import opened Parsing

  /** Where the copy of the view over `f` stands: `offset` bytes of the header are out. */
  ghost predicate Copying(s: seq<byte>, v: View, offset: nat, net: bool, f: seq<byte>)
    requires |f| >= 16
  {
    match v.state
    case Ready => KindFits(v, f) && LiesAt(s, v.at, f)
    case CopyingHeader =>
      offset < 16 && LiesAt(s, v.at, AfterWrite(f, net)) && (v.kind.DataBufNeedParse? ==> ReadHeader(f, 0).net == net)
    case CopyingData =>
      LiesAt(s, v.at, AfterWrite(f, net)) && !Hollow(v, f, net)
    case _ => false
  }

  /** How much of the header is out by then. */
  function HeaderSent(v: View, offset: nat): nat {
    if v.state.Ready? then 0 else if v.state.CopyingHeader? then offset else 16
  }

  /** `copy_to_buf_*` and `copy_to_fd_*`: each call sends the next bytes of the header, and
      once that is out it ends: in Ready for what is an empty container by then, in an error
      for everything else. */
  method CopyViewTo(a: array<byte>, v: View, offset: nat, net: bool, out: Sink, ghost f: seq<byte>)
    returns (r: Result, w: View, next: nat)
    requires |f| >= 16 && IsChildFrame(f) && Writable(f, net) && Copying(a[..], v, offset, net, f)
    requires out.Valid() && !out.broken && out.mem != a
    modifies a, out, out.mem
    ensures out.Valid() && v.at + |f| <= a.Length
    ensures a[..] == Patched(old(a[..]), v.at, AfterWrite(f, net))
    ensures Advanced(AfterWrite(f, net)[..16], HeaderSent(v, offset), old(out.log), out.log)
    ensures out.broken ==> r.Error?
    ensures r.InProcess? ==> Copying(a[..], w, next, net, f) && w.state.CopyingHeader? && out.full
    ensures r.InProcess? ==> HeaderSent(w, next) == HeaderSent(v, offset) + |out.log| - |old(out.log)| < 16
    ensures r.InProcess? ==> Hollow(w, f, net) == Hollow(v, f, net)
    ensures !r.InProcess? && !out.broken ==> HeaderSent(v, offset) + |out.log| - |old(out.log)| == 16
    ensures !r.InProcess? && !out.broken ==> r == if Hollow(v, f, net) then Result.Ready else Result.Error
  {
    hide *;
    ghost var s := a[..];
    CopyingCases(s, v, offset, net, f);
    w, next := v, offset;
    if v.state.Ready? {
      var kind := PrepareView(a, v, net, f);
      w, next := View(v.at, kind, CopyingHeader), 0;
      HeaderReady(s, v, kind, net, f);
    }
    CopyingCases(a[..], w, next, net, f);
    NothingOut(AfterWrite(f, net)[..16], HeaderSent(v, offset), out.log);
    if w.state.CopyingHeader? {
      var n := WritePart(a[w.at..w.at + 16], next, out, AfterWrite(f, net)[..16], 0);
      if n < 0 {
        w := View(w.at, w.kind, State.Ready);
        return Result.Error, w, next;
      }
      next := next + n;
      if next < 16 {
        CopyingFurther(a[..], w, next - n, next, net, f);
        return InProcess, w, next;
      }
      w, next := View(w.at, w.kind, CopyingData), 0;
    }
    if w.kind.DsonContainer? {
      r, w := Result.Ready, View(w.at, w.kind, State.Ready);  // a map without children
    } else {
      var size := 0 - 16;  // `buf_size_`, which is 0 for a view, less the header
      assert next >= size;
      r := Result.Error;
    }
  }

  lemma NothingOut(frame: seq<byte>, sent: nat, log: seq<byte>)
    requires sent <= |frame|
    ensures Advanced(frame, sent, log, log)
  {
  }

  lemma CopyingCases(s: seq<byte>, v: View, offset: nat, net: bool, f: seq<byte>)
    requires |f| >= 16 && Copying(s, v, offset, net, f)
    ensures v.state.Ready? || v.state.CopyingHeader? || v.state.CopyingData?
    ensures v.state.Ready? ==> KindFits(v, f) && LiesAt(s, v.at, f) && HeaderSent(v, offset) == 0
    ensures v.at + |f| <= |s|
    ensures !v.state.Ready? ==>
      && s[v.at..v.at + 16] == AfterWrite(f, net)[..16] && Patched(s, v.at, AfterWrite(f, net)) == s
      && (Hollow(v, f, net) <==> v.kind.DsonContainer?)
    ensures v.state.CopyingHeader? ==> HeaderSent(v, offset) == offset < 16
    ensures v.state.CopyingData? ==> HeaderSent(v, offset) == 16 && !Hollow(v, f, net)
  {
    hide AfterWrite, KindFits, ReadHeader;
    if !v.state.Ready? {
      var g := AfterWrite(f, net);
      LiesWhere(s, v.at, g);
      assert s[v.at..v.at + 16] == s[v.at..v.at + |g|][..16];
    }
  }

  /** The header is ready to go out. */
  lemma HeaderReady(s: seq<byte>, v: View, kind: Kind, net: bool, f: seq<byte>)
    requires |f| >= 16 && v.at + |f| <= |s| && (kind.DsonContainer? <==> Hollow(v, f, net))
    requires kind.DataBufNeedParse? ==> ReadHeader(f, 0).net == net
    ensures var w := View(v.at, kind, CopyingHeader);
            Copying(Patched(s, v.at, AfterWrite(f, net)), w, 0, net, f) && (Hollow(w, f, net) <==> Hollow(v, f, net))
  {
    hide AfterWrite, ReadHeader;
    var g := AfterWrite(f, net);
    var r := Patched(s, v.at, g);
    assert r[v.at..v.at + |g|] == g;
  }

  lemma CopyingFurther(s: seq<byte>, v: View, offset: nat, next: nat, net: bool, f: seq<byte>)
    requires |f| >= 16 && v.state.CopyingHeader? && Copying(s, v, offset, net, f) && next < 16
    ensures Copying(s, v, next, net, f) && HeaderSent(v, next) == next
  {
    hide AfterWrite, ReadHeader;
  }

  /** Through windows of any size but none: what goes out of a view, in the end, is its header,
      and unless it is an empty container the copy fails. */
  method SendView(a: array<byte>, v: View, net: bool, window: nat, ghost f: seq<byte>)
    returns (r: Result, got: seq<byte>)
    requires |f| >= 16 && IsChildFrame(f) && Writable(f, net) && window > 0
    requires v.state.Ready? && KindFits(v, f) && LiesAt(a[..], v.at, f)
    modifies a
    ensures got == AfterWrite(f, net)[..16] && r == if Hollow(v, f, net) then Result.Ready else Result.Error
  {
    hide *;
    ghost var header := AfterWrite(f, net)[..16];
    StartCopy(a[..], v, net, f);
    var w, offset := v, 0;
    r, got := InProcess, [];
    while r.InProcess?
      invariant r.InProcess? ==> Copying(a[..], w, offset, net, f) && HeaderSent(w, offset) == |got| < 16
      invariant r.InProcess? ==> Hollow(w, f, net) == Hollow(v, f, net) && got == header[..|got|]
      invariant !r.InProcess? ==> got == header && r == if Hollow(v, f, net) then Result.Ready else Result.Error
      decreases 16 - |got|, r.InProcess?
    {
      var mem := new byte[window];
      var out := new Sink.Window(mem, 0, window);
      ghost var sent := |got|;
      r, w, offset := CopyViewTo(a, w, offset, net, out, f);
      WindowParts(out);
      MoreHeader(header, sent, out.log);
      got := got + out.log;
    }
  }

  lemma StartCopy(s: seq<byte>, v: View, net: bool, f: seq<byte>)
    requires |f| >= 16 && v.state.Ready? && KindFits(v, f) && LiesAt(s, v.at, f)
    ensures Copying(s, v, 0, net, f) && HeaderSent(v, 0) == 0 && |AfterWrite(f, net)| >= 16
  {
  }

  lemma WindowParts(out: Sink)
    requires out.Valid() && !out.isFd
    ensures !out.broken && (out.full ==> |out.log| == out.size)
  {
  }

  lemma MoreHeader(header: seq<byte>, sent: nat, log: seq<byte>)
    requires Advanced(header, sent, [], log)
    ensures sent + |log| <= |header| && header[..sent] + log == header[..sent + |log|]
    ensures sent + |log| == |header| ==> header[..sent + |log|] == header
  {
  }
}
