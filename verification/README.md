# Wire protocols and JSON codecs of the Metaverse node, modelled and proved in Dafny

The node talks to the outside through four contributed files: `mongoose.c` (WebSocket,
CoAP, chunked HTTP, URI paths, SHA-1, MD5, Base64), `jsoncpp.cpp` (reader, compact and
styled writers, value ordering, arrays) and minijson's reader and writer. Most of this
code works in place on a buffer and takes its input in pieces. Each part is modelled twice:
as functions of the text or bytes still to be read, about which the theorems are proved,
and as classes and loops in the form of the source, which are proved to compute those
functions.

| file | models |
|---|---|
| `Bytes.dfy`, `Mbuf.dfy` | bytes, byte order, the growable buffer |
| `WebSocket.dfy`, `WebSocketConnection.dfy` | framing, masking, reassembly inside the receive buffer |
| `Coap.dfy`, `CoapMessage.dfy` | compose and parse, the sorted linked option list |
| `Chunked.dfy`, `ChunkedBody.dfy` | chunked decoding, collapsed in place |
| `UriPath.dfy`, `UriNormalizer.dfy` | path normalisation, in place |
| `BlockHash.dfy`, `Sha1.dfy`, `Md5.dfy` | streaming hashes over an abstract compression function |
| `Base64.dfy` | streaming encoder, one-shot encoder, decoder |
| `JsonValue.dfy`, `JsonArray.dfy` | value trees, their order, arrays as index maps |
| `JsonNumber.dfy`, `JsonString.dfy` | integers and quoted strings, printed and read |
| `JsonReader.dfy`, `JsonReaderMachine.dfy` | the recursive-descent reader with its node stack and error recovery |
| `JsonGrammar.dfy` | the texts the reader accepts |
| `JsonLayout.dfy`, `JsonWriter.dfy`, `JsonStyledWriter.dfy` | text with white space, the compact writer, the styled writer |
| `MiniJson.dfy`, `MiniJsonEvents.dfy` | minijson's reader as functions: outcome and what the handler is given |
| `MiniJsonMachine.dfy`, `MiniJsonReader.dfy` | the reader's state machines, on a buffer it may overwrite |
| `MiniJsonText.dfy`, `MiniJsonWriter.dfy`, `MiniJsonRoundTrip.dfy`, `MiniJsonUtf8.dfy` | minijson's writer, the round trip, UTF-8 |

Main results:

- WebSocket: every list of messages, however fragmented, masked and cut into receive
  events, is delivered in order (`WebSocket.MessagesDelivered`), each as it was sent if and
  only if the payload bytes overwritten by the reassembly record are zero: none for masked
  fragments, up to three of an unmasked first fragment (`WebSocket.DeliveredAsSent`). For
  arbitrary bytes, what the handler sees does not depend on how they arrive, as long as
  every step of the run is defined and no first fragment is consumed from a buffer shorter
  than the record it makes (`WebSocket.ArrivalIndependent`). Such a step changes bytes that
  arrive with it exactly when they are not zero (`WebSocket.StableExactly`), and a message
  can be lost by it (`WebSocket.EarlyMatters`).
- CoAP: a composed message parses back to itself exactly when option numbers and lengths
  are below 2^16 (`Coap.ComposeParse`); a packet that parses recomposes to its own bytes
  exactly when nothing in it overflows the parser's 16-bit variables and it does not end in
  a bare payload marker (`Coap.ParseCompose`, with a packet that overflows in
  `Coap.OverflowRecomposes`).
- Chunked HTTP: every split into receive events, with any choice of deleting data on the
  way, decodes to the same data (`Chunked.ArrivalIndependent`, `Chunked.SentDelivered`).
- URI paths: in-place normalisation is remove_dot_segments of section 5.2.4 of RFC 3986,
  leaves no dot segment and is idempotent.
- jsoncpp: what either writer prints reads back as the canonical form of the value exactly
  when it is nested at most 1000 deep (`JsonWriter.WriteRead`, `JsonStyledWriter.StyledReadsAsFast`);
  the reader accepts exactly the documents that start with a text of an unambiguous grammar,
  not too deep, and returns what its tree means (`JsonGrammar.AcceptsGrammar`,
  `JsonGrammar.DerivedParses`, `JsonGrammar.OneTree`); `operator<` is a strict total order
  whose equality is `operator==`.
- minijson: parsing over the text itself and parsing into a second buffer give the same
  value or error, and the handler the same events up to it, for every input
  (`MiniJsonReader.ParseInPlace`, `MiniJsonReader.ParseSeparately`). On every input, failing
  ones included, at most 33 containers are active at any moment
  (`MiniJsonEvents.ActiveWithin`) and well-formed UTF-8 in gives well-formed UTF-8 to the
  handler (`MiniJsonUtf8.EventsValid`). A tree written through buffers of any size and
  parsed over the result comes back exactly when at most 33 containers are nested
  (`MiniJsonRoundTrip.WriteThenParse`).

Canonical form of a jsoncpp value: holes of an array become null, and an integer is `Int`
up to 2^31-1 and `UInt` above, whatever it was before.

Where code and comments differ the code is followed. `mg_deliver_websocket_data` delivers a
fragmented message with the flags of its last frame, so the opcode of the first frame does
not reach the handler; the theorems say so. The reassembly record takes five bytes; of a
first fragment with a shorter header, the bytes behind the header are moved up and the
first of them are zeroed by the size field (the source marks this as to be fixed), and the
model does the same. In jsoncpp's reader a comma before a closing brace is accepted behind
a member with an empty name, and a comment after a member's value may stand for the comma,
with the token behind it dropped; the grammar has both. In minijson a string escape may stand
between the two halves of a surrogate pair; the model keeps that. A NUL character before an
unquoted minijson value is skipped, since it cannot be told from "no first character".

## Model

| member | source | states |
|---|---|---|
| `Mbufs.Mbuf.Append` | contrib/mongoose/mongoose.c:1097-1131 | bytes are added at the end, or nothing changes when there is no room |
| `Mbufs.Mbuf.Remove` | contrib/mongoose/mongoose.c:1133-1138 | the first n bytes go, or nothing when there are fewer |
| `WebSocket.MaskedTwice` | contrib/mongoose/mongoose.c:8683-8687 | masking twice with one key restores the bytes |
| `WebSocket.HeaderOf` | contrib/mongoose/mongoose.c:8656-8670 | the header parser finds flags, mask and length of every well-formed frame, in any of the three length forms |
| `WebSocket.StepProgress` | contrib/mongoose/mongoose.c:8856-8864 | every step leaves fewer bytes to parse, so the delivery loop ends, on any bytes |
| `WebSocket.StepStable` | contrib/mongoose/mongoose.c:8639-8723 | a frame that is consumed is consumed in the same way when more bytes follow, unless it is a first fragment in a buffer shorter than five bytes |
| `WebSocket.EarlyStep` | contrib/mongoose/mongoose.c:8689-8701 | such a first fragment overwrites the bytes that follow it up to the fifth, and changes nothing else |
| `WebSocket.StableExactly` | contrib/mongoose/mongoose.c:8639-8723 | a step is the same with more bytes behind it if and only if it is not of that kind or the bytes it overwrites are zero |
| `WebSocket.DrainAppend` | contrib/mongoose/mongoose.c:8856-8864 | if every step on what has arrived is defined and none of that kind, delivering it and then the rest with more bytes is delivering everything at once |
| `WebSocket.ArrivalIndependent` | contrib/mongoose/mongoose.c:8639-8723 | for every run whose steps are defined and none of that kind: messages delivered and buffer left are those of one event with all bytes |
| `WebSocket.EarlyMatters` | contrib/mongoose/mongoose.c:8689-8696 | an empty unmasked first fragment that arrives alone is kept and its message delivered; with the last frame behind it, the message is lost |
| `WebSocket.FrameWaits` | contrib/mongoose/mongoose.c:8672-8675 | a frame that has not arrived whole changes nothing |
| `WebSocket.FrameArrives` | contrib/mongoose/mongoose.c:8675-8714 | a whole frame is consumed exactly: delivered unmasked, or added to the reassembly record at the front of the buffer, which overwrites up to three bytes of an unmasked first fragment |
| `WebSocket.DrainPrefix` | contrib/mongoose/mongoose.c:8639-8723 | for every prefix of a stream of well-formed frames, the buffer is the reassembly record, then the bytes of the begun frame, and exactly the completed messages have been delivered |
| `WebSocket.SentInOrder` | contrib/mongoose/mongoose.c:8689-8714 | whole and fragmented messages in any order complete one by one, each fragmented one as the concatenation of what is kept of its fragments with the flags of its last frame |
| `WebSocket.WellFormedRunDefined` | contrib/mongoose/mongoose.c:8645-8654 | no run over well-formed frames reaches a step the code leaves undefined or that depends on arrival |
| `WebSocket.MessagesDelivered` | contrib/mongoose/mongoose.c:8622-8723 | for every list of messages, fragmentation, masking and split into events, the handler sees exactly those messages in order, less the bytes of unmasked first fragments that the record overwrites, and the buffer ends empty |
| `WebSocket.DeliveredAsSent` | contrib/mongoose/mongoose.c:8622-8723 | all messages come as they were sent if and only if the overwritten bytes are zero in each of them |
| `WebSocketConnection.ApplyMask` | contrib/mongoose/mongoose.c:8795-8801 | exactly the given range of the buffer is masked |
| `WebSocketConnection.Connection.UnmaskPayload` | contrib/mongoose/mongoose.c:8683-8687 | the payload is unmasked in place with the key in front of it, the rest untouched |
| `WebSocketConnection.Connection.Reassemble` | contrib/mongoose/mongoose.c:8689-8701 | behind a header of five bytes or more, payload and everything behind it move up to the record, whose stored size grows by the payload |
| `WebSocketConnection.Connection.ReassembleShort` | contrib/mongoose/mongoose.c:8689-8701 | behind a shorter header, the bytes move up behind the record, the first of them zeroed by the size field |
| `WebSocketConnection.Connection.ConsumeFragment` | contrib/mongoose/mongoose.c:8689-8709 | a fragment of either kind goes to the record, and the last one delivers it |
| `WebSocketConnection.Connection.DeliverRecord` | contrib/mongoose/mongoose.c:8703-8709 | the record's payload is delivered and the record removed |
| `WebSocketConnection.Connection.ConsumeFrame` | contrib/mongoose/mongoose.c:8675-8714 | a complete frame whose step is defined changes buffer and deliveries as the step function says |
| `WebSocketConnection.Connection.DeliverData` | contrib/mongoose/mongoose.c:8639-8723 | one call on a buffer whose step is defined is that step and says whether a frame was consumed |
| `WebSocketConnection.Connection.OnReceive` | contrib/mongoose/mongoose.c:8856-8864 | if all steps are defined, the delivery loop ends and leaves what draining all the bytes gives |
| `WebSocketConnection.SendHeader` | contrib/mongoose/mongoose.c:8758-8793 | flags, shortest length form and masking key of the frame on the wire |
| `WebSocketConnection.Connection.SendFrame` | contrib/mongoose/mongoose.c:8803-8815 | the send buffer gains exactly the encoding of the frame, masked when sending as a client |
| `Coap.InsertStable` | contrib/mongoose/mongoose.c:10664-10697 | an option goes behind every one with the same or a smaller number and before every larger one |
| `Coap.InsertSorted` | contrib/mongoose/mongoose.c:10664-10697 | insertion keeps the options sorted |
| `Coap.InsertAdds` | contrib/mongoose/mongoose.c:10664-10697 | insertion adds that option and loses none |
| `Coap.ExtInverse` | contrib/mongoose/mongoose.c:10792-10820 | an extended field below 2^16 is read back from its base and extension bytes |
| `Coap.ExtUnique` | contrib/mongoose/mongoose.c:10954-10987 | the extension bytes read are the ones that would be written |
| `Coap.ParseComposedOptions` | contrib/mongoose/mongoose.c:10838-10920 | the bytes of sorted options parse back to them, in order, with what follows left over |
| `Coap.ParseRound` | contrib/mongoose/mongoose.c:10838-10920 | without overflow, one option is read with its number at least the previous one, and is written as exactly the bytes it was read from |
| `Coap.OptionsUnique` | contrib/mongoose/mongoose.c:10838-10920 | without overflow, options parsed from bytes are sorted and are written as exactly those bytes |
| `Coap.ComposeParse` | contrib/mongoose/mongoose.c:11072-11141 | a composed message parses back to itself if and only if every option number and length is below 2^16 |
| `Coap.ParseCompose` | contrib/mongoose/mongoose.c:10922-10947 | a packet that parses recomposes to its own bytes if and only if no delta, length or option number overflows 16 bits and it does not end in a bare payload marker |
| `Coap.RecomposeWithoutOverflow` | contrib/mongoose/mongoose.c:10922-10947 | without overflow, a packet that parses recomposes to its bytes, less a bare trailing payload marker |
| `Coap.OverflowRecomposes` | contrib/mongoose/mongoose.c:10792-10820 | a packet with a delta of 2^16 + 268 parses, and recomposes to other bytes |
| `CoapMessage.CoapMessage.Search` | contrib/mongoose/mongoose.c:10677-10686 | finds the first node with a larger number and the node before it |
| `CoapMessage.CoapMessage.LinkBefore` | contrib/mongoose/mongoose.c:10688-10695 | the list gains the node at its place and keeps its tail |
| `CoapMessage.CoapMessage.LinkLast` | contrib/mongoose/mongoose.c:10672-10674 | the list gains the node at the end, which is the new tail |
| `CoapMessage.CoapMessage.AddOption` | contrib/mongoose/mongoose.c:10654-10700 | the linked list holds the sorted, stable insertion, with a correct tail |
| `CoapMessage.CoapMessage.PacketSize` | contrib/mongoose/mongoose.c:11023-11070 | a message is rejected for the fields the standard limits, and otherwise the size is that of its packet |
| `CoapMessage.EmitOption` | contrib/mongoose/mongoose.c:11111-11128 | an option's header, extensions and value |
| `CoapMessage.CoapMessage.EmitOptions` | contrib/mongoose/mongoose.c:11108-11132 | the loop over the list writes the delta coding of all options |
| `CoapMessage.CoapMessage.Compose` | contrib/mongoose/mongoose.c:11072-11141 | the buffer gains exactly the packet, of exactly the computed size, or nothing on rejection |
| `CoapMessage.GetExtOpt` | contrib/mongoose/mongoose.c:10792-10820 | an extended field or the error for a missing byte or the reserved value |
| `CoapMessage.CoapMessage.GetOptions` | contrib/mongoose/mongoose.c:10838-10920 | options are read into the list as the parser function says, the error included |
| `CoapMessage.CoapMessage.Parse` | contrib/mongoose/mongoose.c:10922-10947 | the message and its flags are those of the parser function, for every packet |
| `Chunked.ParseAppend` | contrib/mongoose/mongoose.c:5360-5391 | a chunk found in the buffer is found unchanged when more bytes follow |
| `Chunked.DrainAppend` | contrib/mongoose/mongoose.c:5393-5446 | decoding what has arrived and then the rest with more bytes is decoding everything at once |
| `Chunked.ArrivalIndependent` | contrib/mongoose/mongoose.c:5393-5446 | for every byte stream, every split and every choice of deleting: deleted data, then the body, is the decoded data, and the bytes behind it are untouched |
| `Chunked.ParseSent` | contrib/mongoose/mongoose.c:6401-6409 | a sent chunk is taken apart into its data and what follows |
| `Chunked.DrainSent` | contrib/mongoose/mongoose.c:5403-5417 | every list of chunks ended by the zero chunk decodes to its data |
| `Chunked.SentDelivered` | contrib/mongoose/mongoose.c:5419-5443 | once the stream has arrived, in any pieces, exactly the sent data has been delivered or is in the buffer |
| `Chunked.PartWaits` | contrib/mongoose/mongoose.c:5360-5391 | no part of a chunk is taken for a chunk |
| `Chunked.DrainPart` | contrib/mongoose/mongoose.c:5403-5417 | of a part of the stream, the whole chunks are decoded and the begun one stays as it is |
| `ChunkedBody.ScanSize` | contrib/mongoose/mongoose.c:5366-5371 | the hexadecimal digits and where they end, in a 64-bit word |
| `ChunkedBody.ParseChunk` | contrib/mongoose/mongoose.c:5360-5391 | place, length and total size of the chunk, or none |
| `ChunkedBody.Body.CollapseChunks` | contrib/mongoose/mongoose.c:5399-5417 | data moves down behind the body while the bytes of chunks not parsed yet keep their place and value |
| `ChunkedBody.Body.Settle` | contrib/mongoose/mongoose.c:5419-5438 | the unparsed rest follows the body, which is removed when the handler asks for it |
| `ChunkedBody.Body.HandleChunked` | contrib/mongoose/mongoose.c:5393-5446 | one call changes the state as the step function says, keeps the header, and gives the message length at the zero chunk |
| `UriPath.Lockstep` | contrib/mongoose/mongoose.c:4906-4921 | component by component, the output is the standard's output with the slash that the standard still has in its input |
| `UriPath.NormalizeIsStandard` | contrib/mongoose/mongoose.c:4895-4927 | every path that starts with a slash becomes remove_dot_segments of it; any other is refused |
| `UriPath.NormalizedClean` | contrib/mongoose/mongoose.c:4895-4927 | a normalised path starts with a slash and has no "." or ".." segment |
| `UriPath.Idempotent` | contrib/mongoose/mongoose.c:4895-4927 | normalising twice changes nothing |
| `UriNormalizer.ParseComponent` | contrib/mongoose/mongoose.c:4767-4777 | the end of a component and the start of the next |
| `UriNormalizer.BacktrackFrom` | contrib/mongoose/mongoose.c:4913-4915 | the output is cut behind the slash before its last component |
| `UriNormalizer.MoveDown` | contrib/mongoose/mongoose.c:4917-4918 | the component is appended and unread input stays as it is, also when both buffers are one |
| `UriNormalizer.ResolveComponent` | contrib/mongoose/mongoose.c:4906-4921 | one component is resolved and unread input stays as it is |
| `UriNormalizer.NormalizeUriPath` | contrib/mongoose/mongoose.c:4895-4927 | input and output aliased or not, the output is the normalised path; the fallback for an empty result is never needed |
| `BlockHash.BlocksAppend` | contrib/mongoose/mongoose.c:1397-1415 | hashing can stop anywhere and go on from the state and the bytes left over |
| `BlockHash.CountWords` | contrib/mongoose/mongoose.c:1401-1403 | the two counter words hold eight times the byte count modulo 2^64 |
| `BlockHash.CountAdds` | contrib/mongoose/mongoose.c:1401-1403 | the addition with carry keeps them so |
| `BlockHash.Pending` | contrib/mongoose/mongoose.c:1404 | the low counter word gives the number of bytes waiting in the buffer |
| `BlockHash.CompressBlocks` | contrib/mongoose/mongoose.c:1408-1410 | the loop compresses all whole blocks and leaves the rest |
| `Sha1.PaddedWhole` | contrib/mongoose/mongoose.c:1417-1432 | a padded message is a whole number of blocks |
| `Sha1.FinalCount` | contrib/mongoose/mongoose.c:1421-1425 | the counter words by shifts are the bit count in eight bytes, most significant first |
| `Sha1.Context.Update` | contrib/mongoose/mongoose.c:1397-1415 | state, counters and buffer are those of one fold over everything fed |
| `Sha1.Context.FeedZeros` | contrib/mongoose/mongoose.c:1428-1431 | exactly the fewest zero bytes that leave room for the count |
| `Sha1.Context.Final` | contrib/mongoose/mongoose.c:1417-1439 | the digest is the hash of everything fed, with the standard's padding |
| `Md5.CountBytes` | contrib/mongoose/mongoose.c:1011-1013 | the counter words in memory are the bit count in eight bytes, least significant first |
| `Md5.PadOne` | contrib/mongoose/mongoose.c:1006-1015 | padding that fits ends the block that has been begun |
| `Md5.PadTwo` | contrib/mongoose/mongoose.c:999-1005 | padding that does not fit ends the block and fills one more |
| `Md5.Context.Update` | contrib/mongoose/mongoose.c:956-989 | state, counters and buffer are those of one fold over everything fed |
| `Md5.Context.Final` | contrib/mongoose/mongoose.c:991-1019 | the digest is the hash of everything fed, with the standard's padding |
| `Md5.HashAll` | contrib/mongoose/mongoose.c:1022-1037 | any list of pieces hashes as their concatenation |
| `Base64.GroupParts` | contrib/mongoose/mongoose.c:369-384 | the shifts and masks give the four 6-bit groups of the 24 bits |
| `Base64.Encoder.EmitChunk` | contrib/mongoose/mongoose.c:369-384 | the characters of a chunk of one, two or three bytes |
| `Base64.Encoder.Update` | contrib/mongoose/mongoose.c:393-403 | whole groups are out, the rest waits, for everything fed |
| `Base64.Encoder.Finish` | contrib/mongoose/mongoose.c:405-414 | the output is the standard encoding of everything fed |
| `Base64.EncodeStream` | contrib/mongoose/mongoose.c:386-414 | every split into updates gives the encoding of the whole |
| `Base64.EncodeAll` | contrib/mongoose/mongoose.c:416-453 | the one-shot encoder gives the same encoding and a NUL |
| `Base64.DecodeAll` | contrib/mongoose/mongoose.c:515-532 | bytes, NUL and number of characters consumed, for every text |
| `Base64.RoundTrip` | contrib/mongoose/mongoose.c:515-532 | decoding an encoding consumes all of it and restores the bytes |
| `JsonValue.KeyOrder` | contrib/jsoncpp/jsoncpp.cpp:2786-2810 | keys are totally ordered, byte by byte and by length, and equal only when the same |
| `JsonValue.EqualIsIdentity` | contrib/jsoncpp/jsoncpp.cpp:3095-3138 | operator== is equality of trees |
| `JsonValue.Irreflexive` | contrib/jsoncpp/jsoncpp.cpp:3042-3087 | no value is less than itself |
| `JsonValue.Trichotomy` | contrib/jsoncpp/jsoncpp.cpp:3042-3138 | of two values exactly one is less, or operator== holds |
| `JsonValue.Transitive` | contrib/jsoncpp/jsoncpp.cpp:3042-3087 | operator< is transitive, through nested containers |
| `JsonArray.ShrinkTakes` | contrib/jsoncpp/jsoncpp.cpp:3459-3475 | shrinking ends in the prefix, without holes, and the assertion on the size holds |
| `JsonArray.RemoveTakesOut` | contrib/jsoncpp/jsoncpp.cpp:3682-3703 | removing an index closes the gap; a missing index changes nothing |
| `JsonArray.RunMatches` | contrib/jsoncpp/jsoncpp.cpp:3411-3491 | every run of append, indexing up to the size, shrinking and removing keeps the map without holes and matches a plain sequence |
| `JsonArray.GrowLeavesHoles` | contrib/jsoncpp/jsoncpp.cpp:3467-3468 | growing gives the size asked for, and is without holes if and only if it is by one |
| `JsonArray.ArrayValue.Size` | contrib/jsoncpp/jsoncpp.cpp:3411-3432 | highest index plus one is the number of elements |
| `JsonArray.ArrayValue.At` | contrib/jsoncpp/jsoncpp.cpp:3477-3491 | the element, or a new null at the end |
| `JsonArray.ArrayValue.Set` | contrib/jsoncpp/jsoncpp.cpp:3477-3491 | the element is replaced, or added at the end |
| `JsonArray.ArrayValue.AppendValue` | contrib/jsoncpp/jsoncpp.cpp:3624 | one element more at the end |
| `JsonArray.ArrayValue.ShrinkTo` | contrib/jsoncpp/jsoncpp.cpp:3459-3475 | erasing upwards leaves the prefix |
| `JsonArray.ArrayValue.RemoveIndex` | contrib/jsoncpp/jsoncpp.cpp:3682-3703 | the element is handed out and the later ones move down |
| `JsonNumber.UIntToString` | contrib/jsoncpp/jsoncpp.cpp:167-173 | decimal digits are written backwards without running below the 25-byte buffer |
| `JsonNumber.ValueToString` | contrib/jsoncpp/jsoncpp.cpp:4254-4276 | the decimal text of every 64-bit integer, the smallest included |
| `JsonNumber.DecodeNumber` | contrib/jsoncpp/jsoncpp.cpp:783-823 | an integer exactly when the token is an optional minus and digits whose value fits, with no intermediate overflow; otherwise a double |
| `JsonNumber.PrintDecode` | contrib/jsoncpp/jsoncpp.cpp:783-823 | decoding undoes printing for every int64 and uint64, with the type chosen by size |
| `JsonString.ValueToQuotedString` | contrib/jsoncpp/jsoncpp.cpp:4408-4469 | the quoted, escaped string, on both the fast and the slow path |
| `JsonString.DecodeString` | contrib/jsoncpp/jsoncpp.cpp:858-909 | the loop decodes as the escape functions say, bad escapes included |
| `JsonString.ScanQuoted` | contrib/jsoncpp/jsoncpp.cpp:667-677 | the scan finds the closing quote behind any escaped string |
| `JsonString.DecodeEscapedAll` | contrib/jsoncpp/jsoncpp.cpp:858-967 | decoding undoes escaping for every byte string, NUL and control characters included |
| `JsonReader.ReadValue` | contrib/jsoncpp/jsoncpp.cpp:383-462 | a value is accepted exactly when no error is recorded, and no text is read twice |
| `JsonReader.Parse` | contrib/jsoncpp/jsoncpp.cpp:342-381 | total on every text: the stack limit, or a verdict that is true exactly without errors |
| `JsonReaderMachine.Reader.ReadToken` | contrib/jsoncpp/jsoncpp.cpp:474-543 | the token the lexer function gives, reads in bounds |
| `JsonReaderMachine.Reader.ReadNumber` | contrib/jsoncpp/jsoncpp.cpp:645-665 | the longest number |
| `JsonReaderMachine.Reader.ReadString` | contrib/jsoncpp/jsoncpp.cpp:667-677 | up to the closing quote, or the end of the text |
| `JsonReaderMachine.Reader.ReadComment` | contrib/jsoncpp/jsoncpp.cpp:566-587 | a block or line comment is passed over |
| `JsonReaderMachine.Reader.SkipCommentTokens` | contrib/jsoncpp/jsoncpp.cpp:464-472 | the first token that is no comment |
| `JsonReaderMachine.Reader.RecoverFromError` | contrib/jsoncpp/jsoncpp.cpp:979-990 | reading goes on behind the given token or at the end, with the errors found on the way dropped |
| `JsonReaderMachine.Reader.DecodeNumberToken` | contrib/jsoncpp/jsoncpp.cpp:783-823 | the value of a number token, integer or double, or none |
| `JsonReaderMachine.Reader.Store` | contrib/jsoncpp/jsoncpp.cpp:773-781 | a decoded scalar is stored on top of the node stack, or an error is recorded |
| `JsonReaderMachine.Reader.ReadValue` | contrib/jsoncpp/jsoncpp.cpp:383-462 | leaves the state the value function says: position, errors, and the top of the node stack alone changed |
| `JsonReaderMachine.Reader.ReadObject` | contrib/jsoncpp/jsoncpp.cpp:679-733 | the same for objects, through error recovery |
| `JsonReaderMachine.Reader.ReadMember` | contrib/jsoncpp/jsoncpp.cpp:685-731 | one round of the member loop |
| `JsonReaderMachine.Reader.ReadMemberValue` | contrib/jsoncpp/jsoncpp.cpp:711-729 | the value of a member and the separator after it |
| `JsonReaderMachine.Reader.ReadArray` | contrib/jsoncpp/jsoncpp.cpp:735-771 | the same for arrays, through error recovery |
| `JsonReaderMachine.Reader.ReadElement` | contrib/jsoncpp/jsoncpp.cpp:748-768 | one round of the element loop |
| `JsonReaderMachine.Reader.Parse` | contrib/jsoncpp/jsoncpp.cpp:342-381 | for every text: thrown for the stack limit, or all reads in bounds, the node stack back to the root, and true exactly without errors |
| `JsonGrammar.ValueDerived` | contrib/jsoncpp/jsoncpp.cpp:383-771 | whatever is read without error is derived by the grammar, with a tree that means the value and is within the stack limit |
| `JsonGrammar.DerivedReads` | contrib/jsoncpp/jsoncpp.cpp:383-771 | whatever the grammar derives is read without error as what its tree means, or throws if the tree is too deep |
| `JsonGrammar.OneTree` | contrib/jsoncpp/jsoncpp.cpp:383-771 | no text has two trees |
| `JsonGrammar.DerivedParses` | contrib/jsoncpp/jsoncpp.cpp:342-381 | the result for every document that starts with a text of the grammar, whatever follows, strict roots included |
| `JsonGrammar.AcceptsGrammar` | contrib/jsoncpp/jsoncpp.cpp:342-381 | a document is accepted if and only if it starts with such a text that is not too deep and, when strict, is an array or object; for comments and dropped nulls allowed or not |
| `JsonGrammar.LexSplits` | contrib/jsoncpp/jsoncpp.cpp:474-543 | white space, the token and the rest make up the text |
| `JsonGrammar.TrailingComma` | contrib/jsoncpp/jsoncpp.cpp:685-692 | a comma before the closing brace is accepted if and only if the member before it has an empty name |
| `JsonLayout.ReadLayout` | contrib/jsoncpp/jsoncpp.cpp:383-462 | any tree of text with white space between its tokens is read as its meaning |
| `JsonLayout.LayoutTooDeep` | contrib/jsoncpp/jsoncpp.cpp:384-387 | text nested deeper than the limit throws |
| `JsonLayout.ParseLayout` | contrib/jsoncpp/jsoncpp.cpp:342-462 | such a document is read as its meaning if its height is at most 1000, and throws otherwise |
| `JsonWriter.FastMeaning` | contrib/jsoncpp/jsoncpp.cpp:4496-4548 | what the compact writer lays out means the canonical form of the value |
| `JsonWriter.FastHeight` | contrib/jsoncpp/jsoncpp.cpp:4496-4548 | its height is the nesting of the value |
| `JsonWriter.WriteRead` | contrib/jsoncpp/jsoncpp.cpp:4488-4548 | compact text reads back as the canonical form exactly when nested at most 1000 deep |
| `JsonWriter.ReadWrite` | contrib/jsoncpp/jsoncpp.cpp:4488-4548 | writing what was read gives the identical text |
| `JsonWriter.FastWriter.Write` | contrib/jsoncpp/jsoncpp.cpp:4488-4494 | the document is the compact text and its line feed |
| `JsonWriter.FastWriter.WriteValue` | contrib/jsoncpp/jsoncpp.cpp:4496-4548 | the document gains exactly the text of the value |
| `JsonWriter.FastWriter.WriteArray` | contrib/jsoncpp/jsoncpp.cpp:4523-4532 | holes are written as null, elements separated by commas |
| `JsonWriter.FastWriter.WriteObject` | contrib/jsoncpp/jsoncpp.cpp:4533-4546 | members in key order, with the colon of the chosen style |
| `JsonStyledWriter.StyledReadsAsFast` | contrib/jsoncpp/jsoncpp.cpp:5050-5228 | for every value, blank indentation, comment style and colon symbol, styled text reads as compact text does |
| `JsonStyledWriter.StyledWriter.Write` | contrib/jsoncpp/jsoncpp.cpp:5050-5064 | the stream gains exactly the styled text |
| `JsonStyledWriter.StyledWriter.WriteValue` | contrib/jsoncpp/jsoncpp.cpp:5065-5122 | the text goes to the stream or, while children are collected, to the child strings and not to the stream |
| `JsonStyledWriter.StyledWriter.WriteArrayValue` | contrib/jsoncpp/jsoncpp.cpp:5124-5169 | an array on one line or on several |
| `JsonStyledWriter.StyledWriter.IsMultiLineArray` | contrib/jsoncpp/jsoncpp.cpp:5171-5196 | several lines exactly for large, nested or wide arrays; otherwise one child string per element |
| `JsonStyledWriter.StyledWriter.CollectChildren` | contrib/jsoncpp/jsoncpp.cpp:5180-5194 | collecting leaves the stream as it is and gives one child string per element |
| `JsonStyledWriter.StyledWriter.WriteInline` | contrib/jsoncpp/jsoncpp.cpp:5155-5167 | the collected strings on one line |
| `JsonStyledWriter.StyledWriter.WriteLines` | contrib/jsoncpp/jsoncpp.cpp:5130-5154 | one element a line, with the indentation restored |
| `JsonStyledWriter.StyledWriter.WriteObjectValue` | contrib/jsoncpp/jsoncpp.cpp:5095-5120 | members one a line in key order, with the indentation restored |
| `MiniJsonMachine.StepResumes` | contrib/json/minijson_reader.hpp:580-678 | in every state of the string machine, one character is one step of the string function |
| `MiniJsonMachine.AdvanceSpare` | contrib/json/minijson_reader.hpp:580-678 | no state writes more than has been read since the string began |
| `MiniJsonMachine.EndResumes` | contrib/json/minijson_reader.hpp:680-687 | text that ends inside a string is an error in every state |
| `MiniJsonMachine.HandedOutStays` | contrib/json/minijson_reader.hpp:152-170 | a string handed out stays as it is, whatever is written later |
| `MiniJsonMachine.FieldStep` | contrib/json/minijson_reader.hpp:978-981 | a field value moves the object machine on as the functions do |
| `MiniJsonMachine.FieldTrace` | contrib/json/minijson_reader.hpp:978-981 | and what the handler is given for it comes before the rest of the object |
| `MiniJsonMachine.ItemStep` | contrib/json/minijson_reader.hpp:1073-1076 | an element moves the array machine on as the functions do |
| `MiniJsonMachine.ItemTrace` | contrib/json/minijson_reader.hpp:1073-1076 | and what the handler is given for it comes before the rest of the array |
| `MiniJsonReader.Context.InPlace` | contrib/json/minijson_reader.hpp:175-183 | a context that writes over the text it reads |
| `MiniJsonReader.Context.Separate` | contrib/json/minijson_reader.hpp:185-198 | a context with a buffer of its own for writing |
| `MiniJsonReader.Context.Read` | contrib/json/minijson_reader.hpp:137-145 | the next character of the text as it was, NUL at the end |
| `MiniJsonReader.Context.Write` | contrib/json/minijson_reader.hpp:157-165 | what was written grows by a character; unread text is unchanged; the check that fails never fires |
| `MiniJsonReader.Context.ReadQuotedString` | contrib/json/minijson_reader.hpp:562-690 | outcome and unread text are those of the string function, whether or not the buffers are one |
| `MiniJsonReader.Context.ReadUnquotedValue` | contrib/json/minijson_reader.hpp:693-716 | the value up to its ending character, which is returned |
| `MiniJsonReader.Context.CurrentString` | contrib/json/minijson_reader.hpp:167-170 | the C string at the write position, as handlers see it |
| `MiniJsonReader.Context.ReadScalar` | contrib/json/minijson_reader.hpp:778-819 | true, false, null, a long or a double, or the error for anything else |
| `MiniJsonReader.Context.ReadLeaf` | contrib/json/minijson_reader.hpp:833-847 | a string or unquoted value, given to the handler once it has been read and not before |
| `MiniJsonReader.Context.ReadNested` | contrib/json/minijson_reader.hpp:868-880 | a container is given to the handler and parsed by it, one level deeper; level and status restored |
| `MiniJsonReader.Context.ReadValue` | contrib/json/minijson_reader.hpp:822-889 | a value of any kind, with the handler given its events, nesting level and status restored |
| `MiniJsonReader.Context.ObjectStep` | contrib/json/minijson_reader.hpp:940-1001 | one character of an object; the branches that should never be reached are not |
| `MiniJsonReader.Context.ObjectLoop` | contrib/json/minijson_reader.hpp:920-1007 | the loop ends for every text, in the outcome and with the events of the object machine |
| `MiniJsonReader.Context.ParseObject` | contrib/json/minijson_reader.hpp:894-1010 | ends for every text, in the outcome of the object functions and with exactly their events, an error included; nesting level restored |
| `MiniJsonReader.Context.ArrayStep` | contrib/json/minijson_reader.hpp:1055-1096 | one character of an array; the branches that should never be reached are not |
| `MiniJsonReader.Context.ArrayLoop` | contrib/json/minijson_reader.hpp:1035-1102 | the loop ends for every text, in the outcome and with the events of the array machine |
| `MiniJsonReader.Context.ParseArray` | contrib/json/minijson_reader.hpp:1013-1105 | ends for every text, in the outcome of the array functions and with exactly their events, an error included; nesting level restored |
| `MiniJsonReader.Context.ParseDocument` | contrib/json/minijson_reader.hpp:1173-1208 | a document read with a handler that parses every nested container: success or a parse error, with everything the handler was given before it; status and level restored on success |
| `MiniJsonReader.ParseInPlace` | contrib/json/minijson_reader.hpp:175-183 | over the text itself, value or error with its offset, and the events, are those of the functions, for every text |
| `MiniJsonReader.ParseSeparately` | contrib/json/minijson_reader.hpp:185-198 | with a second buffer, the same value or error with its offset and the same events, for every text |
| `MiniJsonEvents.EventsWalk` | contrib/json/minijson_reader.hpp:894-1105 | of an accepted document the handler is given exactly the tree, in order |
| `MiniJsonEvents.ActiveWithin` | contrib/json/minijson_reader.hpp:894-901 | whatever the text, after every event at most 33 containers are active, and none after success |
| `MiniJsonText.QuotedReads` | contrib/json/minijson_writer.hpp:331-385 | a written string reads back as itself |
| `MiniJsonText.LongReads` | contrib/json/minijson_reader.hpp:460-489 | the decimal text of every long is taken for that long |
| `MiniJsonText.WriteRead` | contrib/json/minijson_writer.hpp:449-591 | a written tree reads back as itself, for every pretty-printing setting and whatever follows, exactly when at most 33 containers are nested; otherwise the nesting limit is reported |
| `MiniJsonText.DocumentWithin` | contrib/json/minijson_reader.hpp:894-901 | whatever the text, no accepted document nests more than 33 containers |
| `MiniJsonUtf8.EncodesScalar` | contrib/json/minijson_reader.hpp:415-448 | a scalar value is encoded as the one well-formed sequence that stands for it |
| `MiniJsonUtf8.EscapeWritesScalar` | contrib/json/minijson_reader.hpp:379-453 | an escape or a surrogate pair writes one scalar value; a lone surrogate is never written |
| `MiniJsonUtf8.QuotedValid` | contrib/json/minijson_reader.hpp:562-690 | a string read from well-formed UTF-8 is well formed, and so is what follows it |
| `MiniJsonUtf8.DocumentValid` | contrib/json/minijson_reader.hpp:894-1105 | every field name and string of an accepted well-formed document is well-formed UTF-8 |
| `MiniJsonUtf8.EventsValid` | contrib/json/minijson_reader.hpp:894-1105 | whatever becomes of a well-formed text, every field name and string given to the handler is well-formed UTF-8 |
| `MiniJsonWriter.BufferedWriter.Put` | contrib/json/minijson_writer.hpp:288-298 | stream and buffer together gain one character, for every buffer size |
| `MiniJsonWriter.BufferedWriter.Flush` | contrib/json/minijson_writer.hpp:313-318 | everything written so far is in the stream |
| `MiniJsonWriter.WriteQuotedString` | contrib/json/minijson_writer.hpp:331-385 | the stream gains the quoted string up to its NUL, for every buffer size |
| `MiniJsonWriter.Writer.WriteBreak` | contrib/json/minijson_writer.hpp:449-478 | line break and indentation by tabs or spaces, or nothing |
| `MiniJsonWriter.Writer.NextField` | contrib/json/minijson_writer.hpp:508-522 | the opening bracket before the first element, a comma before any other |
| `MiniJsonWriter.Writer.WriteFieldName` | contrib/json/minijson_writer.hpp:524-531 | the quoted name and its colon |
| `MiniJsonWriter.Writer.Close` | contrib/json/minijson_writer.hpp:574-591 | both brackets of an empty container, the closing one of any other, nothing the second time |
| `MiniJsonWriter.WriteArray` | contrib/json/minijson_writer.hpp:825-839 | the stream gains exactly the text of the array |
| `MiniJsonWriter.WriteObject` | contrib/json/minijson_writer.hpp:676-712 | the stream gains exactly the text of the object |
| `MiniJsonWriter.WriteTree` | contrib/json/minijson_writer.hpp:714-789 | the stream gains exactly the text of the tree, for every size of the string and token buffers |
| `MiniJsonRoundTrip.WriteThenParse` | contrib/json/minijson_writer.hpp:714-789 | a tree written through buffers of any size and parsed in place comes back as itself with its walk as events if at most 33 containers are nested; otherwise the nesting limit is reported |

## Left out

- Mbufs.Mbuf.Append: capacity, growth and the check of the address are one input, whether there is room.
- WebSocketConnection.Connection.DeliverData: its precondition excludes sizes that wrap at 32 or 64 bits and a continuation without a record, where the code runs past its buffer; also left out are the automatic pong and the close flag.
- WebSocketConnection.Connection.ConsumeFrame: the same precondition.
- WebSocketConnection.Connection.Reassemble: a header shorter than five bytes is the case of `ReassembleShort`.
- WebSocketConnection.Connection.OnReceive: the same precondition as DeliverData, for every frame in the bytes that arrive.
- WebSocket.MessagesDelivered: an unmasked first fragment shorter than the bytes the record overwrites is left out; what it leaves depends on arrival, as `EarlyStep` and `EarlyMatters` say.
- WebSocket.ArrivalIndependent: the condition on early steps is exact for one step (`StableExactly`) and sufficient for a run.
- ChunkedBody.ParseChunk: a size that wraps when added to its offset is reported and not followed further.
- ChunkedBody.Body.HandleChunked: a chunk size that wraps when added to its offset is reported and not followed further; bytes behind the length of the buffer, which the code clears, are not part of the model.
- Sha1.Context.Update: one update is at most 2^32-64 bytes; beyond that the 32-bit index of the source wraps.
- Md5.Context.Update: one update is below 2^32 bytes, as the counters take only 32 bits of its length; big-endian hosts are not modelled.
- Md5.HashAll: each piece is below 2^32 bytes, as for one update.
- Base64.EncodeAll: lengths are not limited to a C int.
- MiniJsonReader.Context.ReadScalar: strtod and the test of its characters are a parameter; a number that is a double keeps no long value.
- MiniJsonReader.Context.ParseDocument: one handler is modelled, which parses every nested container as `ignore` does and records what it is given; a handler that leaves a container unparsed, dispatch and stream contexts are left out.
- MiniJsonWriter.WriteTree: floating-point values are left out, and writers are used in stack order.
- MiniJsonWriter.WriteArray: the same values.
- MiniJsonWriter.WriteObject: the same values.
- JsonValue.Trichotomy: reals are exact; a double that is not a number, which compares as neither less nor equal, has no place in the model, and containers have fewer than 2^31 entries.
- JsonValue.Transitive: the same values and containers.
- JsonArray.ArrayValue.At: an index above the size, which leaves holes, is left out; so it is in `Set`, and growing in `ShrinkTo`.
- JsonArray.ArrayValue.Set: as At.
- JsonArray.ArrayValue.ShrinkTo: growing is stated on its own, in `GrowLeavesHoles`.
- JsonReaderMachine.Reader.Parse: numeric object keys, comment collection, source offsets and the text of error messages are left out; conversion to double is a parameter.
- JsonGrammar.AcceptsGrammar: numeric object keys are left out here too; what is read from a rejected text is in `JsonReader.ReadValue` only.
- JsonWriter.WriteRead: values with reals are left out, as their text is library behaviour; so is the option that drops null placeholders.
- JsonWriter.ReadWrite: the same values.
- JsonWriter.FastWriter.Write: the same values, as for WriteValue, WriteArray and WriteObject.
- JsonWriter.FastWriter.WriteValue: the same values.
- JsonWriter.FastWriter.WriteArray: the same values.
- JsonWriter.FastWriter.WriteObject: the same values.
- JsonStyledWriter.StyledReadsAsFast: values with comments or reals are left out.
- JsonStyledWriter.StyledWriter.Write: the same values.
- JsonStyledWriter.StyledWriter.WriteValue: the same values.
- JsonStyledWriter.StyledWriter.WriteArrayValue: the same values.
- JsonStyledWriter.StyledWriter.IsMultiLineArray: the same values.
- JsonArray.RunMatches: growing by more than one is left out of runs, as it leaves holes; its effect is stated on its own.
- UriNormalizer.NormalizeUriPath: the path is a whole buffer, not a part of a larger one.
- The compression functions of SHA-1 and MD5 are parameters.
- Moving of memory on reallocation: buffers are sequences or arrays, and success of allocation is an input.
- Sockets, polling, TLS, file serving, DNS, MQTT, multipart forms, SNTP, HTTP header parsing, and the node's own sources: input and output, foreign calls, or easy members only.
- `OurReader`, `StyledWriter`, `StyledStreamWriter` and the settings builders of jsoncpp: near copies of what is modelled, or settings.
