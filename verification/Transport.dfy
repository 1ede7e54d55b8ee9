/** Where frames go: a window of memory or a file descriptor. */
module Transport {
  import opened Memory

  datatype Result = Error | Ready | InProcess

  /** One destination of `copy_to_buf_*` (a window, with its cursor and the room left in
      it) or of `copy_to_fd_*` (a descriptor, which takes as much as it likes).  `log`
      is every byte it has accepted. */
  class Sink {
    const isFd: bool
    const mem: array<byte>
    var pos: nat
    var room: nat
    var broken: bool
    ghost const before: seq<byte>
    ghost const start: nat
    ghost const size: nat
    ghost var full: bool  // the last write took less than it was offered
    var log: seq<byte>

    /** A window holds the accepted bytes from its start up to its cursor and is otherwise
        as it was. */
    ghost predicate Valid()
      reads this, mem
    {
      !isFd ==>
        && !broken
        && |before| == mem.Length && start + size <= mem.Length
        && pos == start + |log| && room == size - |log| && (full ==> room == 0)
        && mem[..] == before[..start] + log + before[pos..]
    }

    constructor Window(mem: array<byte>, at: nat, size: nat)
      requires at + size <= mem.Length
      ensures Valid() && !isFd && this.mem == mem && pos == at && room == size && log == []
      ensures before == mem[..] && start == at && this.size == size
    {
      isFd, broken := false, false;
      this.mem, pos, room := mem, at, size;
      before, start, this.size, full, log := mem[..], at, size, false, [];
    }

    constructor Descriptor()
      ensures Valid() && isFd && !broken && fresh(mem) && log == []
    {
      isFd, broken := true, false;
      mem, pos, room := new byte[0], 0, 0;
      before, start, size, full, log := [], 0, 0, false, [];
    }

    /** The bounded `memcpy` of the buffer writers, and `write_to_fd`, which answers with
        any count up to what was offered (0 when it would block) or with -1. */
    method Write(chunk: seq<byte>) returns (n: int)
      requires Valid() && (isFd ==> !broken)
      modifies this, mem
      ensures Valid()
      ensures -1 <= n <= |chunk|
      ensures n >= 0 ==> log == old(log) + chunk[..n] && broken == old(broken)
      ensures n < 0 ==> isFd && broken && log == old(log)
      ensures full <==> n < |chunk|
      ensures !isFd ==> n == if |chunk| <= old(room) then |chunk| else old(room)
      ensures !isFd ==> pos == old(pos) + n && room == old(room) - n
    {
      if isFd {
        n :| -1 <= n <= |chunk|;
        broken := n < 0;
      } else {
        n := if |chunk| <= room then |chunk| else room;
        Put(chunk[..n]);
      }
      if isFd && n >= 0 {
        log := log + chunk[..n];
      }
      full := n < |chunk|;
    }

    /** `memcpy` to the cursor, which moves on. */
    method Put(chunk: seq<byte>)
      requires Valid() && !isFd && |chunk| <= room
      modifies `pos, `room, `log, `full, mem
      ensures Valid() && !full && log == old(log) + chunk && pos == old(pos) + |chunk| && room == old(room) - |chunk|
    {
      ghost var s, end := mem[..], pos + |chunk|;
      Extended(before, start, log, chunk);
      assert mem[..pos] == s[..pos] && mem[end..] == s[end..];
      full := false;
      Store(mem, pos, chunk);
      pos, room := pos + |chunk|, room - |chunk|;
      log := log + chunk;
    }
  }

  /** A `std::ofstream`: it takes everything at once. */
  class OutStream {
    var bytes: seq<byte>

    constructor ()
      ensures bytes == []
    {
      bytes := [];
    }
  }

  /** Where bytes come from: a descriptor, `incoming` being what the other side has sent
      and nobody has read. */
  class Source {
    var incoming: seq<byte>
    var broken: bool
    ghost var short: bool  // the last read gave less than it was asked for

    constructor (stream: seq<byte>)
      ensures incoming == stream && !broken
    {
      incoming, broken, short := stream, false, false;
    }

    /** `read_from_fd`, which answers with any count up to what was asked for (0 when it
        would block) or with -1. */
    method Read(a: array<byte>, at: nat, want: nat) returns (n: int)
      requires at + want <= a.Length && !broken
      modifies this, a
      ensures -1 <= n <= want && (broken <==> n < 0) && (short <==> n < want)
      ensures n >= 0 ==> n <= |old(incoming)| && incoming == old(incoming)[n..]
      ensures n >= 0 ==> a[..] == old(a[..at]) + old(incoming)[..n] + old(a[at + n..])
      ensures n < 0 ==> incoming == old(incoming) && a[..] == old(a[..])
    {
      n :| -1 <= n <= want && n <= |incoming|;
      short := n < want;
      if n < 0 {
        broken := true;
        return;
      }
      Store(a, at, incoming[..n]);
      incoming := incoming[n..];
    }
  }

  /** Storing right behind the bytes already accepted. */
  lemma Extended(before: seq<byte>, at: nat, log: seq<byte>, chunk: seq<byte>)
    requires at + |log| + |chunk| <= |before|
    ensures var s := before[..at] + log + before[at + |log|..];
            var end := at + |log|;
            s[..end] + chunk + s[end + |chunk|..] == before[..at] + (log + chunk) + before[end + |chunk|..]
  {
  }
}
