/** A route: header and a four-word address in one 32-byte block, converted and copied
    as a whole. */
module DsonRouteObj {
  import opened Memory
  import opened Headers
  import opened Frames
  import opened Transport
  import opened DsonObj

  const ADDRESS_SIZE: int32 := 16

  class RouteObj {
    const buf: array<byte>
    var state: State
    var offset: nat

    ghost var node: Node   // what the object holds
    ghost var sent: nat    // how much of its frame the copy in progress has emitted
    ghost var order: bool  // the order of that copy

    ghost predicate Valid()
      reads this, buf
    {
      && node.Leaf?
      && buf[..] == Bytes(node)
      && Sized(node)
      && node.h.dataType == TYPE_VECTOR_UINT32 && |node.data| == 16
      && match state
         case Ready => sent == 0
         case CopyingHeader => sent == offset < 32 && node.h.net == order
         case _ => false
    }

    /** A route to nowhere: all four words of the address are zero. */
    constructor (key: int32)
      ensures Valid() && fresh(buf) && state == State.Ready
      ensures node == Leaf(Header(false, ADDRESS_SIZE, key, TYPE_VECTOR_UINT32), seq(16, _ => 0))
    {
      var n := Leaf(Header(false, ADDRESS_SIZE, key, TYPE_VECTOR_UINT32), seq(16, _ => 0));
      var s := Bytes(n);
      assert |s| == 16 + |n.data| == 32;
      buf := new byte[32](i requires 0 <= i < 32 => s[i]);
      state, offset := State.Ready, 0;
      node, sent, order := n, 0, false;
    }

    /** `key`. */
    function Key(): (key: int32)
      requires Valid()
      reads this, buf
      ensures key == node.h.key
    {
      FrameHeader(node);
      Field(buf[..], 0, 2)
    }

    /** `set_key`. */
    method SetKey(key: int32)
      requires Valid()
      modifies buf, `node
      ensures Valid() && node == Leaf(old(node).h.(key := key), old(node).data)
    {
      ghost var h, data := node.h, node.data;
      KeyInBlock(h, data, key);
      var w := Unsigned(key);
      var host := IsHostOrder(buf[..], 0);
      hide *;
      assert |WordBytes(w)| == |WordBytes(Swap32(w))| == 4;
      assert buf.Length == |buf[..]| == 32;
      Store(buf, 8, WordBytes(if host then w else Swap32(w)));
      node := Leaf(h.(key := key), data);
    }

    /** `copy_to_buf_*` and `copy_to_fd_*`. */
    method CopyTo(net: bool, out: Sink) returns (r: Result)
      requires Valid() && (state.Ready? || order == net)
      requires out.Valid() && !out.broken && out.mem != buf
      modifies this, buf, out, out.mem
      ensures out.Valid()
      ensures node == Prepare(old(node), net)
      ensures Advanced(Bytes(node), old(sent), old(out.log), out.log)
      ensures (r.Error? <==> out.broken) && (r.Error? ==> !state.Ready?)
      ensures r.Ready? ==> old(sent) + |out.log| - |old(out.log)| == |Bytes(node)| && Valid() && state.Ready?
      ensures r.InProcess? ==> sent == old(sent) + |out.log| - |old(out.log)| < |Bytes(node)|
      ensures r.InProcess? ==> Valid() && !state.Ready? && order == net
      ensures r.InProcess? ==> out.full
    {
      if state.Ready? {
        ToOrder(net);
        state, offset, order := CopyingHeader, 0, net;
      }
      hide *;
      r := CopyBlock(out);
    }

    /** `copy_to_stream_*`, which pays no regard to the state.  A resumed copy in progress
        goes on as before unless it is in the other order, whose block is now gone. */
    method CopyToStream(net: bool, out: OutStream)
      requires Valid()
      modifies buf, out, `node
      ensures node == Prepare(old(node), net) && out.bytes == old(out.bytes) + Bytes(node)
      ensures buf[..] == Bytes(node) && Sized(node)
      ensures state.Ready? || order == net ==> Valid()
    {
      ToOrder(net);
      out.bytes := out.bytes + buf[..];
    }

    method CopyBlock(out: Sink) returns (r: Result)
      requires Valid() && state.CopyingHeader?
      requires out.Valid() && !out.broken && out.mem != buf
      modifies this, out, out.mem
      ensures out.Valid() && node == old(node) && order == old(order)
      ensures Advanced(Bytes(node), old(sent), old(out.log), out.log)
      ensures (r.Error? <==> out.broken) && (r.Error? ==> !state.Ready?)
      ensures r.Ready? ==> old(sent) + |out.log| - |old(out.log)| == |Bytes(node)| && Valid() && state.Ready?
      ensures r.InProcess? ==> sent == old(sent) + |out.log| - |old(out.log)| < |Bytes(node)|
      ensures r.InProcess? ==> Valid() && !state.Ready? && out.full
    {
      hide *;
      InBlock();
      assert offset < 32;  // `offset_ >= header_size_address_size` cannot hold
      var n := WritePart(buf[..], offset, out, Bytes(node), 0);
      if n < 0 {
        return Result.Error;
      }
      var done := Move(n);
      return if done then Result.Ready else InProcess;
    }

    /** The block is the whole frame. */
    lemma InBlock()
      requires Valid() && state.CopyingHeader?
      ensures Bytes(node)[0..32] == buf[..] && |buf[..]| == buf.Length == |Bytes(node)| == 32 && sent == offset < 32
    {
    }

    method Move(n: nat) returns (done: bool)
      requires Valid() && state.CopyingHeader? && offset + n <= 32
      modifies `offset, `sent, `state
      ensures Valid() && (done <==> old(sent) + n == 32)
      ensures if done then state.Ready? else !state.Ready? && sent == old(sent) + n
    {
      offset, sent := offset + n, sent + n;
      done := offset == 32;
      if done {
        state, sent := State.Ready, 0;
      }
    }

    /** `to_host_order` and `to_network_order`. */
    method ToOrder(net: bool)
      requires Valid()
      modifies buf, `node
      ensures node == Prepare(old(node), net) && node.h.net == net
      ensures buf[..] == Bytes(node) && Sized(node)
      ensures state.Ready? || order == net ==> Valid()
    {
      hide Bytes, Prepare, Sized, HeaderBytes, Flip, IsNetworkOrder, Payload;
      BlockConversion(node.h, node.data, net);
      PreparedRoute(node.h, node.data, net);
      LeafBytes(node.h, node.data);
      PrepareKeepsShape(node, net);
      node := Prepare(node, net);
      if net != IsNetworkOrder(buf[..], 0) {
        assert buf[0..] == buf[..];
        SwapWordsInPlace(buf, 0, 8);
      }
    }
  }

  lemma {:induction false} FlipBoth(s: seq<byte>, t: seq<byte>, m: nat, n: nat)
    requires |s| == 4 * m && n * 4 <= |t|
    ensures Flip(s + t, m + n) == Flip(s, m) + Flip(t, n)
  {
    if m == 0 {
      assert s + t == t && Flip(s, 0) == [];
    } else {
      FlipUnfold(s, m);
      FlipUnfold(s + t, m + n);
      hide *;
      assert (s + t)[..4] == s[..4] && (s + t)[4..] == s[4..] + t;
      FlipBoth(s[4..], t, m - 1, n);
    }
  }

  lemma LeafBytes(h: Header, data: seq<byte>)
    ensures Bytes(Leaf(h, data)) == HeaderBytes(h) + data && |Bytes(Leaf(h, data))| == 16 + |data|
  {
  }

  lemma PreparedRoute(h: Header, data: seq<byte>, net: bool)
    requires |data| == 16 && h.dataType == TYPE_VECTOR_UINT32 && Sized(Leaf(h, data))
    ensures Prepare(Leaf(h, data), net) == Leaf(h.(net := net), if net == h.net then data else Flip(data, 4))
  {
    hide HeaderBytes, Flip, Bytes;
  }

  /** Swapping all eight words converts header and address together. */
  lemma BlockConversion(h: Header, data: seq<byte>, net: bool)
    requires |data| == 16 && h.dataType == TYPE_VECTOR_UINT32 && Sized(Leaf(h, data))
    ensures IsNetworkOrder(Bytes(Leaf(h, data)), 0) == h.net
    ensures Bytes(Prepare(Leaf(h, data), net))
         == if net == h.net then Bytes(Leaf(h, data)) else Flip(Bytes(Leaf(h, data)), 8)
  {
    ReadWritten(h);
    FlipHeader(h);
    PreparedRoute(h, data, net);
    LeafBytes(h, data);
    LeafBytes(h.(net := net), Flip(data, 4));
    hide *;
    HeaderOfPrefix(HeaderBytes(h), data);
    FlipBoth(HeaderBytes(h), data, 4, 4);
  }

  lemma KeyInBlock(h: Header, data: seq<byte>, key: int32)
    requires |data| == 16 && h.dataType == TYPE_VECTOR_UINT32 && Sized(Leaf(h, data))
    ensures var s := Bytes(Leaf(h, data));
            var w := Unsigned(key);
            Bytes(Leaf(h.(key := key), data))
            == s[..8] + WordBytes(if IsHostOrder(s, 0) then w else Swap32(w)) + s[12..]
  {
    var s := HeaderBytes(h);
    ReadWritten(h);
    SetFieldReads(s, 2, key);
    WrittenFromRead(SetField(s, 0, 2, key));
    SetFieldInPrefix(s, data, 2, key);
    LeafBytes(h, data);
    LeafBytes(h.(key := key), data);
  }
}
