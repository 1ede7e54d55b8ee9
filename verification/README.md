# dson: a verified model

`dson` is a self-describing binary container: a 16-byte header (mark, data size, key, data
type) followed by a payload, where a container's payload is the frames of its children in
ascending key order.  Objects are written out resumably (to a window of memory or to a
descriptor, byte by byte if need be), loaded resumably, looked into lazily, and converted
between host and network byte order in place and on demand.

This project models that behaviour in Dafny and proves it:

* **The writers.**  A tree of `Dson`, `StringObj` and `RouteObj` objects on the heap, with
  the state machine, offset and child position at every node, may be suspended after any
  byte at any depth.  Every call emits exactly the next bytes of one frame that is defined
  by recursion over the tree alone (`Frames.Bytes` of `Frames.Prepare`), stops only when its
  window is full, and answers Ready exactly on the last byte.  The one-shot stream writers
  emit the same frame.
* **The loaders.**  `load_from_buf` and `load_from_fd` come to what the bytes received so far
  amount to (`Loading.Outcome`), however they were cut up, and take nothing beyond their frame.
* **The protocols between them.**  A byte stream with a queue at one end and a loader at the
  other (`Fifo`, `WriteDeque`, `Connection`), and one window passed back and forth
  (`Handshake`): invariants over every interleaving, delivery, and progress.
* **Reading and rewriting.**  `parse_buf` accepts exactly the payloads that are nothing but
  frames; `get` converts a view in place, and exactly when the frame it is asked for is sound
  nobody can tell (`Tiling`, `Parsing`).  A parsed container written out again is one frame per
  key in ascending order, shows what it showed, and does not change a second time
  (`Canonical`, `Parsing`).
* **End to end.**  Whatever is inserted, in between sends in either order, is what `get` finds
  on the other side, byte for byte, under any chunking, with or without a relay in between that
  loads, converts and forwards (`RoundTrip`, `Session`).
* **The codecs.**  Word and double-word swaps, header conversion, and the 13-byte in-place
  codec for binary64 values, subnormals included (`Memory`, `Headers`, `DoubleCodec`,
  `Converters`).

The host is little-endian.  Network order is the transmission order of Appendix B of RFC 791;
binary64 is that of section 3.4 of IEEE 754-2008, and `frexp` and `ldexp` are those of
sections 7.12.6.4 and 7.12.6.6 of ISO C11, on an integer significand.

## How it is laid out

| file | what it holds |
|---|---|
| `Memory.dfy` | bytes, words, swaps, and the in-place swap loops |
| `Headers.dfy` | the header, its accessors and its conversion |
| `DoubleCodec.dfy`, `Converters.dfy` | payload converters |
| `Wire.dfy` | what goes out, told without reference to the swaps |
| `Frames.dfy` | the frame grammar: what an object tree is, what it makes on the wire, what a frame means |
| `Insertion.dfy`, `Prepared.dfy` | how a tree changes: by insertion, and underneath a copy |
| `Transport.dfy`, `DsonObj.dfy` | windows, descriptors, streams; states and results |
| `DsonStringObj.dfy`, `DsonRouteObj.dfy`, `Dson.dfy` | the three classes |
| `Loading.dfy`, `Forwarding.dfy` | what a loader makes of a stream; a loaded frame as an object |
| `Sending.dfy` | copies driven to completion |
| `Fifo.dfy`, `WriteDeque.dfy`, `Connection.dfy`, `Handshake.dfy` | the protocols |
| `Tiling.dfy` | a payload as a row of frames, and what a read does to it |
| `Canonical.dfy` | a parsed container written out again |
| `Parsing.dfy` | the parser, `get`, and the stream writer of a loaded frame |
| `ViewCopy.dfy` | a view copied to a window or a descriptor |
| `RoundTrip.dfy`, `Session.dfy` | from insertion to `get` |

The polymorphic children of a container are the datatype `DsonCore.Obj`.  A `std::map` is a
sequence sorted by key.  `copy_to_buf_*` and `copy_to_fd_*` differ only in how bytes are
taken, so that both are one method over a `Sink`, which is a window or a descriptor; a
descriptor answers any count from 0 to what was offered, or -1.  Two classes model `Dson`:
`DsonCore.Dson` builds, copies, streams, loads and reads what it owns, and `Parsing.LoadedDson`
takes over the buffers of a finished load, to be parsed, read and streamed.

Where a body starts with `hide *`, it is verified from the contracts of what it calls and
from nothing else.  The short lemmas beside it (`Parts`, `Whole`, `...Step`, `...Unfold`) only
say what a definition says; they are where that definition is opened.

## What the code does that its comments do not say

* `get` on a frame whose mark is neither of the two marks swaps a header that says it is
  something else afterwards, and on a frame whose payload is too short for its type it
  works on bytes behind it, which may be the next frame's or no longer the buffer's.
  `Tiling.GetNoticedIff` says exactly which frames a read stays inside the buffer for, leaves
  as they look and keeps to; `Tiling.UnmarkedExample`, `Tiling.ShortExample` and
  `Tiling.AtEndExample` give payloads that parse and for which a read does not.
* A container inside a parsed container finds no children in itself.  In the order it came in
  it is passed on as it is; in the other it is written empty, behind a header that has counted
  what it held.  `Canonical.RewrittenIsFrame` says exactly when what is written is still a
  frame, and `Canonical.NestedExample` gives a container for which it is not.
* A view of a parsed container has no size for its buffer.  Copied to a window or a descriptor
  it sends its header and then fails, unless it is an empty container by then
  (`ViewCopy.CopyViewTo`, `ViewCopy.SendView`).
* The double codec stores the sign with the class of the value, and decides it by `from < 0`:
  negative zero comes back as zero.  Of a NaN it stores the class alone, and every NaN comes
  back as one and the same.  All else comes back as it was (`DoubleCodec.Canonical`).

## Model

| member | source | states |
|---|---|---|
| `Memory.Swap32Reverses` | `include/dson/impl/dson_tools.h:74-83` | `htonl` and `ntohl` on a word are the reversal of its four bytes in memory |
| `Memory.Swap32Involutive` | `include/dson/impl/dson_tools.h:74-83` | Swapping a word twice restores it, so that the two conversions are each other's inverse |
| `Memory.Swap64Reverses` | `include/dson/impl/dson_tools.h:19-20` | The 64-bit macros, put together from two 32-bit swaps, reverse all eight bytes |
| `Memory.Swap64Involutive` | `include/dson/impl/dson_tools.h:63-72` | The 64-bit macros are their own inverse |
| `Memory.SwapWordsInPlace` | `include/dson/dson.h:961-964` | The loop over an array of words reverses each of them where it lies and leaves the rest alone |
| `Memory.FlipInvolutive` | `include/dson/dson.h:956-978` | Converting all words of a block twice restores the block |
| `Memory.TwosComplement` | `include/dson/dson.h:525-531` | Signed numbers are two's complement: the negative ones are the words with the top bit set |
| `Headers.ReadWritten` | `include/dson/impl/dson_obj.h:107-123` | Every header reads back from memory, in either order: mark, size, key and type |
| `Headers.WrittenFromRead` | `include/dson/dson.h:489-560` | A header with a valid mark holds nothing beyond what the accessors read |
| `Headers.ConvertedHeader` | `include/dson/dson.h:956-978` | Conversion changes the order of a header with a valid mark and no accessor's answer |
| `Headers.SetFieldReads` | `include/dson/dson.h:1027-1051` | Each setter changes its own field only, in either order, and commutes with conversion |
| `Headers.HeaderTo` | `include/dson/dson.h:956-978` | The in-place conversions: nothing if the mark already says so, all four words otherwise |
| `Headers.SetHeaderField` | `include/dson/dson.h:533-544` | The setters in place, in whichever order the header is |
| `DoubleCodec.MantissaExponent` | `include/dson/impl/dson_tools.h:150-160` | The integer significand of every finite value is 0, for zero alone, or lies in 2^52 up to 2^53, and the exponent fits a 32-bit integer |
| `DoubleCodec.MantissaExponentExact` | `include/dson/impl/dson_tools.h:150-160` | Significand and exponent stand for exactly the value that section 3.4 of IEEE 754-2008 gives the pattern, nothing rounded |
| `DoubleCodec.LdexpOfMantissaExponent` | `include/dson/impl/dson_tools.h:124-130` | `ldexp` of the stored significand and exponent is the absolute value stored, for every finite value, subnormals included |
| `DoubleCodec.PatternClasses` | `include/dson/impl/dson_tools.h:135-146` | Finite, infinite, NaN and negative, told by the eleven bits of exponent, the fifty-two of fraction and the one of sign |
| `DoubleCodec.CanonicalValues` | `include/dson/impl/dson_tools.h:104-161` | NaN stays NaN, infinities and all finite values but negative zero stay what they are, and negative zero becomes zero |
| `DoubleCodec.RoundShiftNearest` | `include/dson/impl/dson_tools.h:124-126` | Rounding goes to the nearest multiple, and to the even one of two that are as near |
| `DoubleCodec.ExcessBitsFit` | `include/dson/impl/dson_tools.h:124-126` | A 64-bit significand is cut to exactly 53 bits |
| `DoubleCodec.LdexpValue` | `include/dson/impl/dson_tools.h:124-126` | A significand from the wire is rounded to 53 bits, and what is scaled is the rounded one |
| `DoubleCodec.ScaledValue` | `include/dson/impl/dson_tools.h:124-126` | Scaling is exact in the normal range, rounds to a multiple of the smallest subnormal below it, and is infinite above it |
| `DoubleCodec.SpecialSlots` | `include/dson/impl/dson_tools.h:135-146` | NaN and infinities are sent as class 2, 3 and 4, with nothing else changed |
| `DoubleCodec.SpecialsReceived` | `include/dson/impl/dson_tools.h:104-130` | Class 2 is received as a quiet NaN, 3 and 4 as the infinities, 0 as a negative number, and anything else as one that is not negative |
| `DoubleCodec.NetworkThenHost` | `include/dson/impl/dson_tools.h:104-161` | Host order after network order restores every value in a 13-byte slot up to what `CanonicalValues` names |
| `DoubleCodec.ToNetworkInPlace` | `include/dson/impl/dson_tools.h:133-161` | The in-place encoder, which overwrites the value it reads, leaves what the encoding says and nothing else changed |
| `DoubleCodec.ToHostInPlace` | `include/dson/impl/dson_tools.h:104-131` | The in-place decoder, whose result overlaps its input |
| `DoubleCodec.OneAndTwo` | `include/dson/impl/dson_tools.h:104-131` | All 13 bytes of the slot count: there are two slots alike but for the last byte that decode to different values, in place of bytes that were neither |
| `Converters.ConvertersInvert` | `include/dson/dson.h:1478-1572` | Payload converters for integers and vectors of any length undo each other, byte for byte, in both directions |
| `Converters.Table` | `include/dson/dson.h:1473-1575` | The table of converters: types 3 to 8, and no others, with the bytes that each takes for granted |
| `Converters.ValueAsItStands` | `include/dson/dson.h:770-777` | A payload in host order is its value, byte for byte; of a double it is the first eight bytes |
| `Converters.ValueFromNetwork` | `include/dson/dson.h:734-745` | In network order it is what the converter of its type makes of it, if it has one |
| `Converters.ConvertedBack` | `include/dson/dson.h:734-758` | `to_host` after `to_network`, and the reverse, restores header and payload of a whole object |
| `Converters.ConversionKeepsValue` | `include/dson/dson.h:936-954` | No conversion changes the type or the value an object stands for, whatever its type, converter or none |
| `Converters.PayloadToNetwork` | `include/dson/dson.h:1488-1568` | Each `to_network` converter, in place, on exactly the bytes it works on, whether or not they are the payload's |
| `Converters.PayloadToHost` | `include/dson/dson.h:1483-1558` | Each `to_host` converter, in place, on exactly the bytes it works on, whether or not they are the payload's |
| `Converters.WithinReach` | `include/dson/dson.h:1478-1572` | A converter that does not go by the size in the header works on the first 4, 8 or 13 bytes and leaves the rest of the payload alone |
| `Converters.ObjectToOrder` | `include/dson/dson.h:734-758` | Both converters on an object with a buffer of its own, the payload converter finding its header in host order from either side |
| `Wire.HeaderOnTheWire` | `include/dson/impl/dson_obj.h:107-121` | A header in network order is four numbers with the most significant byte first: 1, size, key and type |
| `Wire.IntegerOnTheWire` | `include/dson/dson.h:1482-1526` | Integers in network order are the host's number, most significant byte first |
| `Wire.VectorOnTheWire` | `include/dson/dson.h:1545-1569` | Every element of a vector in network order is the host's number, most significant byte first, in its place |
| `Wire.IntegerOffTheWire` | `include/dson/dson.h:1482-1526` | Integers out of network order are the number on the wire |
| `Wire.DoubleOnTheWire` | `include/dson/impl/dson_tools.h:133-161` | A double travels as its class byte, 0 to 4, and, if finite, its significand and its exponent, most significant byte first |
| `Wire.MarkOnTheWire` | `include/dson/impl/dson_obj.h:101-123` | The first four bytes of every header say its order |
| `Wire.HeaderInHostOrder` | `include/dson/impl/dson_obj.h:107-121` | A header in host order is the four numbers 1, size, key and type, least significant byte first |
| `Wire.ObjectOnTheWire` | `include/dson/dson.h:747-758` | What goes out of a single object in network order, for each type: header and numbers most significant byte first; without a converter, header and payload as they were |
| `Wire.ObjectOffTheWire` | `include/dson/dson.h:734-745` | What an object that came in network order is in host order, for each type |
| `Wire.TextOnTheWire` | `include/dson/custom_dson_objs/dson_string_obj.h:78-132` | A string in network order: its header converted, its type 2, its characters as they are |
| `Wire.ContainerOnTheWire` | `include/dson/dson.h:1250-1274` | A container in network order: its header converted, with the size of what follows |
| `Frames.PrepareKeepsShape` | `include/dson/dson.h:1040-1051` | What a copy emits declares at every depth exactly the payload that follows, with child keys still strictly ascending |
| `Frames.PrepareKeepsMeaning` | `include/dson/dson.h:1066-1106` | Bringing a tree into one order changes nothing it means |
| `Frames.MeaningInHostOrder` | `include/dson/dson.h:770-777` | What an object means is its key, its type and its payload as it stands in host order |
| `Frames.MeaningOfContainer` | `include/dson/dson.h:499-523` | What a container means is its key and what its children mean, in their order |
| `Frames.PrepareIdempotent` | `include/dson/dson.h:1238-1278` | Preparing again in the same order changes nothing, so that a copy may prepare as it goes |
| `Frames.DecodeOfBytes` | `include/dson/impl/dson_obj.h:101-123` | The grammar reads the frame of any settled tree as that tree |
| `Frames.EmittedFrameDecodes` | `include/dson/dson.h:1231-1385` | What a copy emits, in either order, decodes to the tree it was made from |
| `Frames.ReemissionDecodes` | `include/dson/dson.h:1238-1278` | After any number of complete copies in any orders, a copy in either order still decodes to the original tree |
| `Frames.KidSlice` | `include/dson/dson.h:1361-1385` | A child's frame lies whole inside its container's, behind those of the children before it |
| `Prepared.KidReplaced` | `include/dson/dson.h:1361-1385` | Preparing one child under way changes neither sizes, nor order, nor the frame of the container |
| `Prepared.KidFrameAdvances` | `include/dson/dson.h:1361-1385` | Bytes that a child emits are the container's next bytes |
| `Prepared.FitsWhen` | `include/dson/dson.h:1231-1278` | Which trees may be copied, at any depth: every single object has something in it and room for what is to be converted |
| `Prepared.PreparedOrder` | `include/dson/dson.h:1253-1278` | A copy leaves every header in the order it was made in, but for types without a converter, and leaves alone what is in that order already |
| `Insertion.InsertAscending` | `include/dson/dson.h:891-915` | Insertion keeps keys strictly ascending |
| `Insertion.InsertAt` | `include/dson/dson.h:913` | The place found by key is where `insert_or_assign` puts the child, replacing one with the same key |
| `Insertion.InsertByKey` | `include/dson/dson.h:913` | After an insertion there is the new child under its key and under every other key what was there |
| `Insertion.AfterPutIs` | `include/dson/dson.h:891-915` | `emplace` marks the container as type 1, leaves key, size and order of its header alone, and puts the child under its key |
| `Insertion.WithKeyIs` | `include/dson/dson.h:533-544` | `set_key` changes the key in the header and nothing else |
| `Insertion.OrderOfKids` | `include/dson/dson.h:635-638` | A map is gone through in ascending order of its keys |
| `Transport.Sink.Write` | `include/dson/os/linux/linux_network.h:20-37` | A descriptor takes any count up to what was offered or fails; a window takes what fits, moves its cursor by that much and is otherwise as it was |
| `Transport.Source.Read` | `include/dson/os/linux/linux_network.h:39-56` | A read takes any count up to what was asked for from the front of what has arrived, or fails |
| `DsonObj.WritePart` | `include/dson/dson.h:1116-1128` | One write in the middle of a copy continues the frame where it stood; less than all of the part goes out only when the window or the descriptor took less than it was offered |
| `DsonObj.AdvancedTwice` | `include/dson/dson.h:1140-1157` | Two stretches of one frame that follow each other are one stretch |
| `DsonStringObj.StringObj.constructor` | `include/dson/custom_dson_objs/dson_string_obj.h:14-18` | A string with its own header, in host order |
| `DsonStringObj.StringObj.SetKey` | `include/dson/custom_dson_objs/dson_string_obj.h:57-68` | The key changes, in whichever order the header is, and nothing else |
| `DsonStringObj.StringObj.CopyTo` | `include/dson/custom_dson_objs/dson_string_obj.h:90-132` | Each call emits exactly the next bytes of header and text, Ready on the last; only the header is ever converted; an empty string ends in an error behind its header |
| `DsonStringObj.StringObj.CopyToStream` | `include/dson/custom_dson_objs/dson_string_obj.h:78-88` | The stream writer of a string emits in one go, in any state, the frame that a complete resumed copy emits, and leaves a copy under way alone unless that is in the other order |
| `DsonRouteObj.RouteObj.constructor` | `include/dson/custom_dson_objs/dson_route_obj.h:12-17` | A route to nowhere, in host order |
| `DsonRouteObj.RouteObj.SetKey` | `include/dson/custom_dson_objs/dson_route_obj.h:118-129` | The key changes, in whichever order the block is, and nothing else |
| `DsonRouteObj.RouteObj.CopyTo` | `include/dson/custom_dson_objs/dson_route_obj.h:148-191` | Each call emits exactly the next bytes of the 32-byte block |
| `DsonRouteObj.RouteObj.ToOrder` | `include/dson/custom_dson_objs/dson_route_obj.h:231-253` | All eight words are swapped together, which converts header and address as the general converters would |
| `DsonRouteObj.RouteObj.CopyToStream` | `include/dson/custom_dson_objs/dson_route_obj.h:136-146` | The stream writer of a route emits in one go, in any state, the block that a complete resumed copy emits, and leaves a copy under way alone unless that is in the other order |
| `DsonCore.Dson.constructor` | `include/dson/dson.h:22-25` | An empty container |
| `DsonCore.Dson.OneObject` | `include/dson/dson.h:79-91` | One object in host order, its key whatever the memory held |
| `DsonCore.Dson.SetKey` | `include/dson/dson.h:533-544` | `key` answers the new key, for containers too, and header and contents are otherwise as they were, in any state |
| `DsonCore.Obj.Key` | `include/dson/dson.h:525-531` | `key` answers the key of any object, in either order |
| `DsonCore.Dson.InNetworkOrder` | `include/dson/dson.h:494-497` | `is_network_order` answers the order the object is in |
| `DsonCore.Dson.Emplace` | `include/dson/dson.h:186-192` | The container holds under every key what it held, and under the object's key the object; it is marked as type 1, and its own key and order are as they were |
| `DsonCore.Dson.Clear` | `include/dson/dson.h:157-172` | Everything but the header is gone |
| `DsonCore.Dson.DataSize` | `include/dson/dson.h:499-523` | The size of a container is that of its children's frames, at any point of a copy |
| `DsonCore.Dson.Get` | `include/dson/dson.h:221-247` | `get` between sends: it answers exactly the keys that are there, brings the one child it answers into host order if it is a `Dson`, touches no other, and what the container means, and so what the next send stands for, is as before; nothing happens in the middle of a copy |
| `DsonCore.Dson.ToHost` | `include/dson/dson.h:734-745` | An owned object brought into host order; of a container that is typed as something else, the header alone |
| `Prepared.KidReadKeepsMeaning` | `include/dson/dson.h:917-934` | A child that is read means what it meant, and so does its container |
| `Prepared.ReadAsItStands` | `include/dson/dson.h:734-745` | A single object that was read is in host order, and its bytes as they stand are its value |
| `Prepared.ReadBoxHeader` | `include/dson/dson.h:734-745` | Of a container that is typed as something else, the header is in host order |
| `DsonCore.Dson.ConvertOwned` | `include/dson/dson.h:734-758` | The converters of one owned object bring it into the order asked for |
| `DsonCore.Dson.OrderBuffer` | `include/dson/dson.h:1238-1275` | At the start of a copy: an object or a loaded frame brought into the order asked for |
| `DsonCore.Dson.PrepareBox` | `include/dson/dson.h:1250-1274` | At the start of a copy: a container's header, with its size up to date, in the order asked for |
| `DsonCore.Dson.CopyTo` | `include/dson/dson.h:1231-1335` | Each call, on a tree of any depth, emits exactly the next bytes of the frame: Ready exactly on the last, InProcess only when the window or the descriptor took less than it was offered, Error only when the descriptor failed; the frame does not change under way; once Ready, the whole tree is Ready and in the order asked for |
| `DsonCore.Dson.CopyHeader` | `include/dson/dson.h:1281-1309` | The header, resumed at the offset; then on to the first child or to the buffer |
| `DsonCore.Dson.CopyBuf` | `include/dson/dson.h:1337-1359` | The payload of a single object, resumed at the offset |
| `DsonCore.Dson.CopyChildren` | `include/dson/dson.h:1361-1385` | The children from the position on, each to its end before the next |
| `DsonCore.CopyKids` | `include/dson/dson.h:1198-1222` | The loop over the children, with those before the position done and those behind it untouched |
| `DsonCore.CopyObj` | `include/dson/impl/dson_obj.h:68-73` | The contract every object's copy meets, whatever its class |
| `DsonCore.Dson.CopyToStream` | `include/dson/dson.h:562-644` | The one-shot writer emits byte for byte the frame that a complete resumed copy emits, and nothing while a copy is under way |
| `DsonCore.StreamKids` | `include/dson/dson.h:593-596` | The loop over the children, for a stream |
| `Loading.FeedMore` | `include/dson/dson.h:404-486` | More bytes for a loader that waits amount to the same as all of them at once |
| `Loading.ChunkIndependence` | `include/dson/dson.h:404-486` | What a loader comes to does not depend on how the stream is cut up |
| `Loading.FrameInChunks` | `include/dson/dson.h:404-486` | A frame in any chunks, empty ones included: waiting until its last byte, then exactly the frame, and nothing behind it |
| `Loading.WantedIsOwn` | `include/dson/dson.h:330-370` | A read of no more than is left of header or payload never reaches beyond the frame |
| `Loading.SizeLimits` | `include/dson/dson.h:341-362` | A header is refused if its size is negative or above 2^30, complete by itself if it is zero, and otherwise waited on |
| `DsonCore.Dson.LoadFromBuf` | `include/dson/dson.h:404-486` | Each call brings the loader to what all bytes received amount to: waiting, the whole frame, or refused for its size; and the object holds exactly those bytes |
| `DsonCore.Dson.LoadFromFd` | `include/dson/dson.h:304-387` | Each call, under any short reads, brings the loader to what all bytes received amount to, InProcess only when a read fell short; nothing beyond the frame is taken from the descriptor, and of a refused frame only its header |
| `DsonCore.Dson.HeldIsValid` | `include/dson/dson.h:345-381` | A loaded frame with a valid mark, whatever its payload, is as good as any object, and stands for exactly the bytes loaded |
| `DsonCore.ReadyThroughout` | `include/dson/dson.h:1361-1385` | Whenever an object is Ready, so is everything in it, at every depth |
| `Forwarding.SoundNode` | `include/dson/dson.h:345-381` | What a finished load leaves behind makes the loaded frame again |
| `Forwarding.ForwardedUnread` | `include/dson/dson.h:1238-1248` | Sent on in the order it came in, a loaded frame is reproduced byte for byte |
| `Forwarding.EmittedIsSound` | `include/dson/dson.h:341-346` | Every loader accepts what a copy emits |
| `Forwarding.ReceivedMeansSent` | `include/dson/dson.h:1231-1385` | From tree to frame to loaded object: still the tree that was sent |
| `Sending.FillWindow` | `include/dson/dson.h:1231-1359` | One call fills a window with min(window, what is left) bytes, leaves the rest of the window as it was, and is Ready exactly when nothing is left |
| `Sending.ToBufHostOrder` | `include/dson/impl/dson_obj.h:133-141` | One window of just the right size: the assertion in the code holds, and the vector is the frame |
| `Sending.CopyThrough` | `include/dson/dson.h:1231-1385` | Over any sequence of windows, empty ones included, the bytes put together are the frame's beginning, as much as there was room for; Ready exactly when there was room for all |
| `Sending.SendAll` | `tests/dson_tools/double/src/test_double.cpp:299-321` | A driver with a window of any positive size ends, with the whole frame sent |
| `Sending.SendRepeatedly` | `include/dson/dson.h:1238-1278` | The same object sent again and again in any orders: every frame decodes to what the object meant to begin with |
| `Sending.ForwardUnread` | `include/dson/dson.h:404-486` | Store and forward: for every chunking on the way in and every windowing on the way out, the same bytes |
| `Fifo.StepKeeps` | `examples/network/src/socket_server.h:54-77` | No enqueuing, partial write or partial read breaks conservation: what the receiver holds, what is in flight and what is unsent are exactly the messages not yet reported |
| `Fifo.EveryRunKeeps` | `examples/network/src/socket_server.h:54-108` | No run of enqueuing, partial writes and partial reads breaks conservation, in any interleaving |
| `Fifo.FifoDelivery` | `examples/network/src/socket_server.h:54-108` | What has been reported is always a prefix of what was enqueued; the loader never refuses a header; at rest everything has been delivered |
| `Fifo.ReadStep` | `include/dson/dson.h:304-387` | Frames delimit themselves: what a loader completes is the first message due |
| `Fifo.Taken` | `include/dson/dson.h:304-387` | One call of the loader is one step, and a message it reports is the next one due |
| `Fifo.Written` | `examples/network/src/socket_server.h:56-70` | One call of the writer is one step, and the message leaves the queue exactly when it is out |
| `Fifo.Progress` | `examples/network/src/socket_server.h:54-108` | Until everything is delivered, some transfer of a byte is possible |
| `Fifo.TransfersShrink` | `examples/network/src/socket_server.h:54-108` | Every transfer of at least one byte brings the end nearer |
| `WriteDeque.Outbox.Put` | `examples/network/src/socket_server.h:73-77` | A message joins the end of the queue, and those before it are as they were |
| `WriteDeque.Outbox.WriteFront` | `examples/network/src/socket_server.h:58-65` | The first message of the queue goes out from where it stood, and leaves the queue exactly when it is complete; those behind it are untouched |
| `WriteDeque.Outbox.SendFromDeque` | `examples/network/src/socket_server.h:54-71` | Draining: what is still due is what was due less what went out; it stops only with an empty queue, a descriptor that took less than it was offered, or an error |
| `Connection.Connection.constructor` | `examples/network/src/socket_server.h:50-52` | Both ends at rest |
| `Connection.Connection.Send` | `examples/network/src/socket_server.h:73-77` | A message sent is a message enqueued |
| `Connection.Connection.Write` | `examples/network/src/socket_server.h:54-71` | A turn of the real writer is one step of the stream machine, or none with an empty queue |
| `Connection.Connection.Poll` | `examples/network/src/socket_server.h:79-107` | A turn of the real loader is one step of the stream machine: a message it reports is, byte for byte, the next one sent, and it never answers Error unless the descriptor failed |
| `Connection.Connection.Serve` | `examples/network/src/socket_server.h:79-108` | Any schedule of turns is a run of the stream machine, one step to a turn while nothing fails and there is something to write; what was reported stays reported, and is a prefix of what was sent |
| `Connection.Connection.Reported` | `examples/network/src/socket_server.h:79-108` | With nothing queued and nothing in flight, all that was sent has been received |
| `Handshake.SharedWindow.SenderTurn` | `tests/dson_tools/double/src/test_double.cpp:299-321` | A sender that finds the window free fills it with the next stretch of its frame; one that finds it full leaves everything alone |
| `Handshake.SharedWindow.LoaderTurn` | `tests/dson_tools/double/src/test_double.cpp:276-297` | A loader that finds the window full takes what the sender covered, no more and no less |
| `Handshake.SharedWindow.InStep` | `tests/dson_tools/double/src/test_double.cpp:276-321` | Both report Ready in the same round |
| `Handshake.SharedWindow.Run` | `tests/dson_tools/double/src/test_double.cpp:268-341` | Over any schedule of turns the real window, sender and loader stand exactly where the rounds say, and stay in step |
| `Handshake.RoundsDone` | `tests/dson_tools/double/src/test_double.cpp:276-321` | After k rounds both ends have covered exactly min(k * W, n) bytes of a frame of n: it takes as many rounds as windows |
| `Handshake.SharedWindow.Transfer` | `tests/dson_tools/double/src/test_double.cpp:276-321` | The two alternating come to an end, with the loader holding exactly the frame that was sent |
| `Handshake.TransferAll` | `tests/dson_tools/double/src/test_double.cpp:323-341` | A row of messages through one window to one loader: every one arrives whole, in its turn, none affected by the left-overs of the one before |
| `Handshake.WindowFed` | `include/dson/dson.h:404-486` | Told the whole window, the loader reads the left-overs of the last one as no part of its frame |
| `Tiling.FramesTile` | `include/dson/dson.h:837-853` | Frames with keys and sizes that are not negative, put end to end, make a payload that is accepted |
| `Tiling.TilesAreFrames` | `include/dson/dson.h:837-859` | Every payload that is accepted is frames with keys and sizes that are not negative, put end to end |
| `Tiling.ViewOfKey` | `include/dson/dson.h:840-853` | The map sends each key to the last frame that bears it, and no other key to anything |
| `Tiling.FramesApart` | `include/dson/dson.h:840-853` | Views of different keys have no byte in common |
| `Tiling.ReplaceFrame` | `include/dson/dson.h:917-934` | A frame replaced by another of its key and size moves no view, leaves the payload one that parses, and changes what is under its key alone |
| `Tiling.CleanFrameKept` | `include/dson/dson.h:917-945` | A read of a view with a valid mark and room for its type keeps key, size, type and value, and leaves nothing to convert |
| `Tiling.GetNoticedIff` | `include/dson/dson.h:917-945` | For any payload and any key in it: `get` works inside the buffer, leaves every view showing what it showed and, whatever the payload between header and end of the frame asked for, neither changes nor depends on a byte behind it, if and only if that frame has nothing to convert, or a valid mark and room for its type |
| `Tiling.UnmarkedIsNoticed` | `include/dson/dson.h:734-745` | A read of a frame to convert that has no valid mark runs past the end of the buffer, or changes the type that its view shows |
| `Tiling.ShortIsNotPrivate` | `include/dson/dson.h:1478-1572` | However little the payload is short of what its type takes, there is a payload of that length for which the read changes a byte behind the frame, or depends on one |
| `Tiling.UnmarkedExample` | `include/dson/dson.h:489-497` | A payload that parses, and in which a read changes the type that is seen |
| `Tiling.ShortExample` | `include/dson/dson.h:1500-1526` | A payload that parses, and in which the read of one frame overwrites the mark of the next, so that the next shows another type |
| `Tiling.AtEndExample` | `include/dson/dson.h:1500-1526` | A payload that parses, and in which a read runs past the end of the buffer |
| `Tiling.GetIsInvisible` | `include/dson/dson.h:917-934` | After `get` of a key whose frame reads cleanly, whatever the other frames are like, every key shows the type and value it showed before; no view has moved; the payload still parses; and a second `get` writes nothing |
| `Tiling.GetsAreInvisible` | `include/dson/dson.h:221-247` | After any sequence of `get` calls every key shows what it showed before and no view has moved, with the condition on the keys asked for only |
| `Tiling.GetInPlace` | `include/dson/dson.h:917-934` | `get` writes only inside the frame of the key asked for, if that reads cleanly |
| `Tiling.ReadIsHost` | `include/dson/dson.h:917-934` | After `get` of a key whose frame reads cleanly, type and payload as they stand, whatever the mark says, are what was seen under the key |
| `Parsing.LoadedDson.ParseBuf` | `include/dson/dson.h:827-861` | A container is accepted if and only if its payload is nothing but frames with keys and sizes that are not negative, and ends in Error otherwise; anything else is a single object |
| `Parsing.LoadedDson.ScanFrames` | `include/dson/dson.h:837-859` | The loop: what it leaves unused is zero exactly for such a payload, the map then leads to the last frame of each key, no header is read outside the buffer, and no view is in Error |
| `Parsing.LoadedDson.constructor` | `include/dson/dson.h:345-381` | The loaded header and buffer themselves, to be parsed |
| `Parsing.LoadedDson.Get` | `include/dson/dson.h:221-247` | `get` parses when it must, answers exactly the keys that are there, and converts what it answers where it lies, byte for byte as the converter does, inside the frame or beyond; if the frame reads cleanly, every key shows what it showed before |
| `Parsing.LoadedDson.GetChild` | `include/dson/dson.h:917-934` | The child under a key after the converter has run on its place in the buffer, or nothing |
| `Parsing.LoadedDson.SelfToHost` | `include/dson/dson.h:734-745` | The converter on the object itself, whatever its mark and its size |
| `Parsing.ViewToHost` | `include/dson/dson.h:936-945` | Header first, then the payload by the size the header then declares, whatever the mark and the size |
| `Parsing.LoadedDson.CopyToStream` | `include/dson/dson.h:562-644` | A loaded frame written to a stream: as it is when it is in the order asked for; else converted as one object; or parsed and rewritten, the header with the views' sizes added up and the views in ascending order, each converted where it lies; refused if it does not parse |
| `Parsing.LoadedDson.StreamViews` | `include/dson/dson.h:593-596` | The loop over the views, those to come untouched by those before |
| `Parsing.PrepareView` | `include/dson/dson.h:562-644` | What every writer of a view does first: convert it, or, if it is a container in the other order, parse it and empty it; what it leaves in the buffer, byte for byte |
| `Parsing.StreamView` | `include/dson/dson.h:562-644` | The stream writer of one view: what it emits, what it leaves in the buffer, and that a nested container to be converted is left and emitted empty |
| `ViewCopy.CopyViewTo` | `include/dson/dson.h:1231-1359` | The resumable copy of a view: each call sends the next bytes of its header, and when that is out ends in Ready if the view is an empty container by then, and in an error otherwise |
| `ViewCopy.SendView` | `include/dson/dson.h:1167-1172` | Through windows of any size, what goes out of a view is its header alone, and the copy fails unless the view is an empty container by then |
| `Parsing.LoadedDson.SumSizes` | `include/dson/dson.h:511-520` | The size of a parsed container is that of its views' frames |
| `Canonical.ParsedHolds` | `include/dson/dson.h:840-853` | The map that `insert_or_assign` of each frame in turn builds holds under each key the last frame of that key, in ascending order, whatever the payload |
| `Canonical.ParsedInOrder` | `include/dson/dson.h:827-861` | Frames in ascending key order parse to just those objects, one each |
| `Canonical.RewrittenIsFrame` | `include/dson/dson.h:562-644` | What is written of a parsed container is a frame if and only if no nested container that holds anything is to change its order: one that is loses its children after their size has been declared |
| `Canonical.NestedExample` | `include/dson/dson.h:825-861` | A container with a container in it, in network order, that loads and parses, and is not written in host order as a frame |
| `Canonical.WrittenFrame` | `include/dson/dson.h:562-644` | A view that is written keeps key, size, type and value, whatever its mark, and is written the same way a second time |
| `Canonical.WrittenOrder` | `include/dson/dson.h:562-644` | A view that is written is in the order asked for, unless its type is never converted |
| `Canonical.EmptiedOutput` | `include/dson/dson.h:562-644` | An emptied view is written as a container with its key, size zero and no children |
| `Canonical.EmittedFrames` | `include/dson/dson.h:593-596` | What the views emit parses into one frame per key, each as it was written |
| `Canonical.TotalFits` | `include/dson/dson.h:511-520` | The sizes of the views add up to no more than the payload, and to the payload of the parsed objects |
| `Canonical.RewrittenWhole` | `include/dson/dson.h:562-644` | Where it is one, and all marks are valid, it is the frame that the same objects, put into a container one by one, would be sent as, and it parses into those objects again |
| `Canonical.RewrittenShows` | `include/dson/dson.h:604-644` | Where it is one, it loads, parses, and shows what the container showed, however that was ordered and whatever it repeated, and every key that could be read can be read |
| `Canonical.RewrittenTwice` | `include/dson/dson.h:562-644` | Where it is one, loading, parsing and writing out a second time changes not a byte |
| `Canonical.BroughtLeaves` | `include/dson/dson.h:593-596` | A view whose turn to be written has not come is as it was |
| `Canonical.BroughtShows` | `include/dson/dson.h:604-644` | The buffer underneath shows, at any point of the pass, what it showed before |
| `RoundTrip.InsertContents` | `include/dson/dson.h:913` | After an insertion the map holds what it held, with the new value under its key |
| `RoundTrip.PayloadFrames` | `include/dson/dson.h:1361-1385` | The payload of a container parses into the frames of its children |
| `RoundTrip.MessageShows` | `include/dson/dson.h:1231-1385` | A message sent in either order loads, parses, shows under each key exactly what the container held, and may be read under every key |
| `RoundTrip.StorableWhen` | `include/dson/dson.h:79-91` | What may be stored: any string or object of any other type but that of containers, with something in it and what its type takes |
| `RoundTrip.MessagesShowPromised` | `tests/dson_tools/double/src/test_double.cpp:243-264` | After any insertions in between any complete sends in either order, every message, however cut up, shows the last value put under each key before that send, and nothing else |
| `RoundTrip.MessageHeaders` | `tests/dson_tools/double/src/test_double.cpp:243-253` | There is one message for every send, in the order asked for, under the container's own key, with the size of what follows |
| `RoundTrip.PromisedIsLastPut` | `tests/dson_tools/double/src/test_double.cpp:243-264` | What is promised under a key is what the last object put there before the send means |
| `RoundTrip.ItemAsPut` | `include/dson/dson.h:770-777` | An object means to a reader its type and its payload as they were put in |
| `Session.Perform` | `tests/dson_tools/double/src/test_double.cpp:243-253` | The real containers, writers and windows send, over any such session, exactly the messages that the specification says |
| `Session.LoadPieces` | `tests/dson_tools/double/src/test_double.cpp:222-231` | A message that comes in pieces of any sizes is there, whole, once the last of it is |
| `Session.Fetch` | `tests/dson_tools/double/src/test_double.cpp:255-260` | Load, parse and `get` together: what is found under a key in host order, type and payload as they stand, is what the message shows there, and nothing is found under other keys |
| `Session.Relay` | `include/dson/dson.h:562-644` | Load, parse and write out together: a message that comes in pieces goes out as it is or rewritten, in the order asked for, under its key, and shows what it showed |
| `Session.Exchange` | `tests/dson_tools/double/src/test_double.cpp:243-260` | From `emplace` to `get`, in one program: message i of any session, cut up anyhow, gives under k, in host order, type and payload of the object last put under k before it was sent, byte for byte but for what the codec of doubles loses |
| `Session.ExchangeThroughRelay` | `tests/dson_tools/double/src/test_double.cpp:243-260` | Message i of any session gives under k, in host order, type and payload of the object last put there before it was sent, also with a relay in between that loads the message, converts it and sends it on, cut up anew |
| `Session.Deliver` | `tests/dson_tools/double/src/test_double.cpp:243-260` | The whole way from nothing: a new container, given a key, filled and sent over and over; message i, cut up anyhow, says that key and gives under k type and payload of the object last put there before it was sent, or nothing |
| `Session.LightIsPossible` | `include/dson/dson.h:341-346` | As long as all that is put in stays within the limit of 2^30 bytes, any insertions in between any sends are possible |

## Left out

- DsonCore.Dson.CopyTo: states one copy in one order, begun from Ready; a copy that changes order half way, `reset_state` in the middle of a copy, and going on after a descriptor failed are not modelled, because children and parents are not reset together there. A loaded container that was never parsed is copied in its own order only (`Prepared.Fits`).
- DsonCore.Dson.LoadFromBuf: the loader abandons whatever the object held; loading on top of an unfinished copy is allowed by the code and is modelled as starting afresh.
- DsonCore.Dson.Emplace: inserts into containers only; turning a single object into a container by insertion reads its header from the wrong place in the code, and is not modelled. Insertion while a copy is under way, which resets the copy, is not modelled either.
- DsonCore.Dson.OneObject: takes a payload that is not empty, because allocating nothing fails in the code; the same holds of strings.
- Parsing.LoadedDson.Get: requires that what the converter works on is memory of the buffer; beyond it nothing can be said.
- Parsing.LoadedDson.CopyToStream: requires of a container a valid mark, and of what is to be converted a valid mark and room for its type; for frames without them the converters do what `Tiling.GetNoticedIff` speaks of.
- Parsing.LoadedDson.ScanFrames: sizes are unbounded integers; the code adds 16 to a 32-bit size.
- Forwarding.SoundNode: asks for a valid mark; a frame without one says nothing about its own order.
- Connection.Connection.Write: stops at the first failure of a descriptor, for good.
- DsonStringObj.StringObj.CopyToStream: does not say what becomes of a resumed copy under way in the other order; the code converts the header then, part of which is already out.
- DsonRouteObj.RouteObj.CopyToStream: the same.
- Copying a parsed container as a whole to a window or a descriptor: only its views one by one are modelled (`ViewCopy`). Moving a view.
- Inserting into a parsed container, and `get` on a container inside a parsed one, which finds nothing there.
- `map()`, `one_object_buf_to_container`, moving objects, failing allocations, alignment, and 32-bit overflow of sizes.
- `load_from_stream`, which is one complete read.
- Numeric accessors (`include/dson/from_dson_converters.h`), the fixed-point pair `double_to_network` and `double_to_host`, user-defined types, and the address fields of a route beyond their conversion.
- Sockets, threads and the router; the system calls are any answer they may give.
