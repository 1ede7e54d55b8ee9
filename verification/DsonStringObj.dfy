/** A string with its own header: only the header is ever converted. */
module DsonStringObj {
  import opened Memory
  import opened Headers
  import opened Frames
  import opened Transport
  import opened DsonObj

  class StringObj {
    const header: array<byte>
    const text: seq<byte>
    var state: State
    var offset: nat

    ghost var node: Node   // what the object holds
    ghost var sent: nat    // how much of its frame the copy in progress has emitted
    ghost var order: bool  // the order of that copy

    ghost predicate Valid()
      reads this, header
    {
      && header[..] == HeaderBytes(node.h)
      && node == Node.Text(node.h, text)
      && Sized(node)
      && match state
         case Ready => sent == 0
         case CopyingHeader => sent == offset < 16 && node.h.net == order
         case CopyingData =>
           sent == 16 + offset && (offset < |text| || (text == [] && offset == 0)) && node.h.net == order
         case _ => false
    }

    constructor (key: int32, text: seq<byte>)
      requires |text| <= MAX_DSON_RAM_SIZE
      ensures Valid() && fresh(header) && state == State.Ready
      ensures node == Node.Text(Header(false, |text|, key, TYPE_STRING), text)
    {
      var h := Header(false, |text|, key, TYPE_STRING);
      var s := HeaderBytes(h);
      header := new byte[16](i requires 0 <= i < 16 => s[i]);
      this.text := text;
      state, offset := State.Ready, 0;
      node, sent, order := Node.Text(h, text), 0, false;
    }

    /** `key`. */
    function Key(): (key: int32)
      requires Valid()
      reads this, header
      ensures key == node.h.key
    {
      ReadWritten(node.h);
      Field(header[..], 0, 2)
    }

    /** `set_key`. */
    method SetKey(key: int32)
      requires Valid()
      modifies header, `node
      ensures Valid() && node == Node.Text(old(node).h.(key := key), text)
    {
      SetHeaderField(header, 2, key, node.h);
      hide HeaderBytes;
      node := Node.Text(node.h.(key := key), text);
    }

    /** `copy_to_buf_*` and `copy_to_fd_*`, which differ only in how `out` takes bytes.  An
        empty string has no way past its header: the copy then ends in an error. */
    method CopyTo(net: bool, out: Sink) returns (r: Result)
      requires Valid() && (state.Ready? || order == net)
      requires out.Valid() && !out.broken && out.mem != header
      modifies this, header, out, out.mem
      ensures out.Valid()
      ensures node == Prepare(old(node), net)
      ensures Advanced(Bytes(node), old(sent), old(out.log), out.log)
      ensures r.Error? ==> !state.Ready? && (out.broken || (text == [] && old(sent) + |out.log| - |old(out.log)| == 16))
      ensures out.broken ==> r.Error?
      ensures r.Ready? ==> text != [] && Valid() && state.Ready?
      ensures r.Ready? ==> old(sent) + |out.log| - |old(out.log)| == |Bytes(node)|
      ensures r.InProcess? ==> sent == old(sent) + |out.log| - |old(out.log)| < |Bytes(node)|
      ensures r.InProcess? ==> Valid() && !state.Ready? && order == net
      ensures r.InProcess? ==> out.full
    {
      hide Advanced, Bytes, HeaderBytes, Sized, Prepare;
      if state.Ready? {
        PrepareHeader(net);
      } else {
        Unchanged();
      }
      if state.CopyingHeader? {
        ghost var start, log := sent, out.log;
        r := CopyHeader(out);
        if !r.Ready? {
          return;
        }
        ghost var mid := out.log;
        r := CopyData(out);
        AdvancedTwice(Bytes(node), start, log, mid, out.log);
      } else {
        r := CopyData(out);
      }
    }

    /** A header that is going out is in the order it goes out in. */
    lemma Unchanged()
      requires Valid() && !state.Ready?
      ensures node == Prepare(node, order)
    {
    }

    /** `copy_to_stream_*`, which pays no regard to the state.  A resumed copy in progress
        goes on as before unless it is in the other order, whose header is now gone. */
    method CopyToStream(net: bool, out: OutStream)
      requires Valid()
      modifies header, out, `node
      ensures node == Prepare(old(node), net) && out.bytes == old(out.bytes) + Bytes(node)
      ensures header[..] == HeaderBytes(node.h) && Sized(node)
      ensures state.Ready? || order == net ==> Valid()
    {
      ConvertHeader(header, net, node.h);
      node := Node.Text(node.h.(net := net), text);
      out.bytes := out.bytes + (header[..] + text);
    }

    method PrepareHeader(net: bool)
      requires Valid() && state.Ready?
      modifies this, header
      ensures Valid() && state.CopyingHeader? && sent == 0 && order == net
      ensures node == Prepare(old(node), net)
    {
      ConvertHeader(header, net, node.h);
      state, offset := CopyingHeader, 0;
      node := Node.Text(node.h.(net := net), text);
      order := net;
    }

    method CopyHeader(out: Sink) returns (r: Result)
      requires Valid() && state.CopyingHeader?
      requires out.Valid() && !out.broken && out.mem != header
      modifies this, out, out.mem
      ensures out.Valid() && node == old(node) && order == old(order)
      ensures Advanced(Bytes(node), old(sent), old(out.log), out.log)
      ensures (r.Error? <==> out.broken) && (r.Error? ==> !state.Ready?)
      ensures !r.Error? ==> Valid() && sent == old(sent) + |out.log| - |old(out.log)|
      ensures r.Ready? ==> state.CopyingData? && sent == 16
      ensures r.InProcess? ==> state.CopyingHeader? && sent < 16 && out.full
    {
      hide Advanced, Bytes, HeaderBytes, Sized;
      assert offset < 16;  // `offset_ >= header_size` cannot hold
      HeaderPart(node);
      var n := WritePart(header[..], offset, out, Bytes(node), 0);
      if n < 0 {
        return Result.Error;
      }
      offset, sent := offset + n, sent + n;
      if offset < 16 {
        return InProcess;
      }
      state, offset := CopyingData, 0;
      return Result.Ready;
    }

    method CopyData(out: Sink) returns (r: Result)
      requires Valid() && state.CopyingData?
      requires out.Valid() && !out.broken && out.mem != header
      modifies this, out, out.mem
      ensures out.Valid() && node == old(node) && order == old(order)
      ensures Advanced(Bytes(node), old(sent), old(out.log), out.log)
      ensures r.Error? ==> !state.Ready? && (out.broken || (text == [] && old(sent) == 16 && out.log == old(out.log)))
      ensures out.broken ==> r.Error?
      ensures r.Ready? ==> text != [] && Valid() && state.Ready?
      ensures r.Ready? ==> old(sent) + |out.log| - |old(out.log)| == |Bytes(node)|
      ensures r.InProcess? ==> sent == old(sent) + |out.log| - |old(out.log)| < |Bytes(node)|
      ensures r.InProcess? ==> Valid() && state.CopyingData? && out.full
    {
      hide Bytes, HeaderBytes, Sized;
      DataPart(node);
      if offset >= |text| {
        return Result.Error;
      }
      var n := WritePart(text, offset, out, Bytes(node), 16);
      if n < 0 {
        return Result.Error;
      }
      offset, sent := offset + n, sent + n;
      if offset < |text| {
        return InProcess;
      }
      state, sent := State.Ready, 0;
      return Result.Ready;
    }
  }
}
