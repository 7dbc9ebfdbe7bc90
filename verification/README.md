# The bmwire codec, verified

A model in Dafny of the Bitmessage wire protocol library `bmwire` (Go): messages framed on a byte
stream, the payload codecs under them, and the text form of hashes. The proofs say what reading
and writing guarantee together: what is written is read, what is read can be sent on, and a reader
stays in step with its stream whatever the frames hold.

## How it is modelled

* **Streams.** `Stream.Reader` is fixed data and a position; its `ReadFull` returns EOF when nothing
  is left, an unexpected EOF when too little is, and always succeeds on zero bytes. `Stream.Writer`
  holds what was written and an optional capacity; a full writer either refuses a write outright
  (like the repository's own fixed-size writer) or takes the part that fits. `Sink`, `Put` and `Pour`
  say what writes do to it.
* **Payloads.** `Grammar.NextOp` says, from the items read so far, what a payload must hold next: fixed
  fields, a varint, a counted string, everything left, the end, or a refusal. The three pubkey and two
  getpubkey layouts are branches of it. `Parse` and `Print` follow the grammar, and the laws every layout
  shares - round trip, normalisation, truncation, prefix-freeness - are proved about them once. Each
  message is a class whose `Decode` and `Encode` methods make the source's reads and writes in its order,
  and are proved to agree with `Parse` and with the encoding of the message's value. What a receiver holds
  after a decode that fails is stated too: `PubKeyAfter`, `GetPubKeyAfter` and `VersionAfter` give it from
  the bytes, partly filled keys and zeroed numbers included.
* **Frames.** `Framing.ReadFrame` and `FrameOf` specify one call of `ReadMessageN` and `WriteMessageN`;
  the methods of `MessageIO` implement them with the source's branches and loops. `FrameLaws.MessageFrame`
  is the declarative grammar of a frame, stated without either, and `Spellings.SpelledFrame` the same with
  no decoder in it: the payload is the encoding of the message with its varints spelled in any width.
* **Environment.** `Env` holds what the framing does not define: SHA-512 as any function with 64-byte
  results, the memory available, and the codec of object types 2 and 3, whose source is not part of this
  model. The messages of the other types are called modelled, those two foreign: `Target` says which of
  them a payload goes to. Buffers up to `MaxMessagePayload` bytes can always be allocated.
* **Runs that do not return.** Two allocations are made from an unchecked count (msgversion.go:113 and
  msgpubkey.go:82) and a nil key or tag is dereferenced by `Encode`. All of these give the outcome
  `Panic`. `PayloadFailures.PanicsExactly` says when a decoder has it, `Exits.ReadPanicsExactly` when a
  read has it, and `FailingFrames.FramesThatPanic` gives frames on which it does;
  `Refusals.WritePanicsExactly` says when a write has it, and `Refusals.MessageThatPanics` gives a message.
* **Values.** Go's integers are ranges of `int` with explicit wrap-around, strings are byte sequences, a
  time is its Unix second, and the optional pointers of a message are `Option`s.

## Where the code and its documentation differ

The model follows the code.

* The comments of `readElement` and `writeElement` (common.go:15, common.go:153) say little endian; both are
  big endian. The comment of `Sha512` (common.go:492) says sha256.
* A reader skips a bad payload to find the next header - except after a length above `MaxMessagePayload`,
  where it does not: `FrameLaws.InStepExactly` gives the exact condition, and `FrameLaws.OversizedFrame`
  the frames that break it, at every length.
* EOF from `ReadMessageN` does not mean that the stream has ended: a complete frame whose payload runs out
  between two reads of its decoder gives it too. `FailingFrames.EofInsideTheStream` is such a frame, and
  `Exits.EofExactly` the exact condition: what is left after the last complete item is empty where more is
  expected, or ends between two non-empty full reads of the next item.
* The payload limit of a version message (msgversion.go:180-189) leaves room for just two stream numbers
  of any size next to the longest user agent; with three of full size the message encodes but
  WriteMessageN refuses it (`Refusals.SendableVersions`, `Refusals.ThreeStreamsAreRefused`).
* `Encode` writes an object whatever its object type says, and the reader dispatches on what was written, so
  an object is read back exactly when it says it is of its own type (`Sessions.WrittenIsRead`). Otherwise
  `Mistyped.MistypedIsRead` says what becomes of it: the type check of `Decode` never fires. A pubkey
  that says it is a getpubkey is accepted as one, its tag or the front of its keys taken for the hash and the
  rest dropped; a getpubkey with a tag that says it is a pubkey is accepted as one with nothing encrypted;
  one with a ripe runs out; an unknown type is refused.
* The last layout of a pubkey runs to the end of its payload: cut short, it is accepted with less in it
  (`PubKeys.EncryptedPubKeyCut`).

## Model

| member | source | states |
|---|---|---|
| `Sessions.RunStaysInStep` | message.go:216-349 | on any concatenation of complete frames with lengths up to MaxMessagePayload - valid or not - k reads end exactly at the end of frame k, and the i-th result is what frame i alone gives |
| `FrameLaws.InStepExactly` | message.go:226-240 | a read ends at the end of a complete frame if and only if the declared length is at most MaxMessagePayload |
| `FrameLaws.OversizedFrame` | message.go:226-233 | for every length above MaxMessagePayload, a complete frame of which only the header is read, its payload left to be taken for the next header |
| `FrameLaws.FrameIsSelfContained` | message.go:216-349 | what follows a complete frame within the limit affects neither its result nor its count, and is left untouched |
| `Sessions.ReadCanBeSentOn` | message.go:129-349 | every modelled message that ReadMessageN accepts, WriteMessageN accepts on the same network, in a frame no longer than the one read, and reading that frame gives the same message |
| `Sessions.WrittenIsRead` | message.go:129-349 | a written message is read back as its receiver sees it, with equal counts, payload equal to its encoding and following bytes untouched, if and only if it says it is of its own object type |
| `Mistyped.MistypedIsRead` | message.go:264-286 | what every object that says it is of another type is read as, by that type and its version: the exact message of the other kind, an unexpected EOF, a refusal, or the foreign codec's result; its frame is consumed whichever it is |
| `Mistyped.PubKeyAsGetPubKey` | msggetpubkey.go:34-62 | the getpubkey decoder accepts every pubkey written with its type, as the getpubkey of the same tag or of the first 20 bytes after the start |
| `Mistyped.TaggedGetPubKeyAsPubKey` | msgpubkey.go:56-64 | the pubkey decoder takes a tagged getpubkey written with its type for a pubkey with nothing encrypted |
| `Mistyped.RipeGetPubKeyAsPubKey` | msgpubkey.go:65-89 | and runs out in the keys on one with a ripe |
| `Sessions.WrittenIsMessageFrame` | message.go:168-197 | what WriteMessageN writes for such a message is a frame of the declarative grammar |
| `Sessions.StreamRoundTrip` | message.go:129-349 | any list of messages that pass validation and say their own object type, written one after the other, is returned by as many reads, with equal counts and payloads, and the bytes after it left |
| `FrameLaws.ReadDecidesTheGrammar` | message.go:216-349 | a message and payload are returned exactly when the stream starts with a full header of matching magic, known command (or object type in payload bytes 16 to 19), length within both limits, matching checksum and decodable payload |
| `Spellings.ReadAcceptsSpellings` | message.go:216-349 | a modelled message is returned exactly when the stream starts with a frame for its kind whose payload is its encoding, with any spelling of the varints, then anything; no decoder is mentioned |
| `Spellings.DecodesExactly` | msgpubkey.go:34-90 | for every modelled kind, a payload decodes to a message exactly when it is such a spelling of that message's encoding followed by the bytes left unread |
| `Spellings.ParseAcceptsSpellings` | common.go:291-326 | the same for every layout, of its complete item lists |
| `FrameLaws.PeekIsBytes16To19` | message.go:264-272 | the object type is available exactly when the payload has 20 bytes, and is its bytes 16 to 19 |
| `FrameLaws.Conservation` | message.go:110-124 | on every exit the reader advances by the returned count plus the bytes discarded: as much of the declared length as there is, on exactly the four discarding exits |
| `Sessions.CutFrame` | message.go:216-349 | a stream ending anywhere inside a complete frame with a length up to MaxMessagePayload, valid or not: a cut in a discarded payload gives what the whole frame gives; any other fails with everything counted and consumed, with EOF exactly when the cut is before the header or before the payload |
| `Exits.ReadFailsExactly` | message.go:216-349 | every error of ReadMessageN and exactly when it is returned, on the header's fields and the payload's bytes: too large above 33554432 bytes, wrong network, malformed or unhandled command, over the limit of the command or object type, object too short or unknown, checksum, EOF, unexpected EOF, and what each decoder reports |
| `Exits.UnexpectedEofExactly` | message.go:216-349 | an unexpected EOF is returned if and only if the stream ends inside a header or a wanted payload, or a complete payload ends inside a read of its decoder |
| `Exits.AcceptedHeader` | message.go:226-348 | an accepted frame has this network's magic, a handled command, a length within its limit and a matching checksum, and its message is what the decoder its command or object type names makes of the payload |
| `Exits.AcceptedWithinLimit` | message.go:288-317 | an accepted payload has at most 0 bytes for verack and getaddr, 2102 for version, 30009 for addr, 1600009 for inv and getdata, and 262144 for getpubkey and pubkey |
| `Exits.OverLimitIsRefused` | message.go:288-317 | a payload over the limit of its command is refused with 24 counted and as much of it skipped as there is; one over that of its object type with all of it counted |
| `Exits.AcceptedChecksum` | message.go:330-337 | the last four header bytes of an accepted frame are the first four of its payload's SHA-512 |
| `Exits.OtherChecksumIsRefused` | message.go:330-337 | an accepted frame with any other checksum is refused for it, counted and consumed alike |
| `PayloadFailures.DecodeFailsExactly` | msgversion.go:72-122 | for every modelled kind, payload and error, decoding gives that error if and only if the complete items and the bytes left after them are as stated: text over 33554432 bytes, user agent over 2000, over 1000 or 50000 items, wrong object type, an allocation that fails, or bytes that end between two reads or inside one |
| `PayloadFailures.RunsOutExactly` | common.go:291-326 | decoding gives EOF if and only if an item is still expected after the last complete one and the bytes left end between two of its non-empty full reads, and an unexpected EOF if and only if they end inside one |
| `Exits.EofExactly` | message.go:216-349 | EOF is returned if and only if the stream is at its end before a header or before a wanted payload that is not empty, or a complete payload that passes the checks before its decoder runs out in that way |
| `FailingFrames.EofInsideTheStream` | message_test.go:211-217 | a concrete frame, with anything after it, that gives EOF and leaves what follows it |
| `PayloadFailures.PanicsExactly` | msgversion.go:109-119 | for every modelled kind, decoding does not return if and only if a version's stream count or a version 3 pubkey's signature length was read and cannot be allocated |
| `Exits.ReadPanicsExactly` | message.go:330-348 | ReadMessageN does not return if and only if a wanted and complete payload passes every check before its decoder and holds such a count |
| `FailingFrames.VersionFramePanics` | msgversion.go:109-113 | every version frame with a count of stream numbers that cannot be allocated is one, whatever its other fields |
| `FailingFrames.PubKeyFramePanics` | msgpubkey.go:79-82 | so is every version 3 pubkey frame with a signature length that cannot be allocated |
| `FailingFrames.FramesThatPanic` | msgpubkey.go:79-82 | such frames exist whatever the memory: 2^63 stream numbers, or a signature of 2^63 bytes |
| `Exits.AcceptedVersionStreams` | message.go:310-317 | any version message that ReadMessageN accepts has at most 2018 stream numbers, minimal varints or not |
| `Refusals.WrittenFrame` | message.go:129-184 | for every message, whoever implements it: a command over 12 bytes, Encode's own error, over 33554432 bytes and over the message's limit are refused in that order; otherwise the header is the magic, the command and zeros, the length, and the first four bytes of the payload's SHA-512 |
| `Refusals.WrittenCommand` | message.go:24-32 | the command of each message, in letters |
| `Refusals.EncodeFails` | msgversion.go:126-130 | the error each Encode returns of itself, by the message's fields |
| `Refusals.SendableVersions` | message.go:158-166 | WriteMessageN takes a version message if and only if its user agent has at most 2000 bytes and its encoded size is at most 2102; one that is only over the limit of its type is refused for that although it encodes |
| `Refusals.ThreeStreamsAreRefused` | msgversion.go:180-189 | next to the longest user agent any two stream numbers are sent and no three of full size are |
| `Refusals.WriteAcceptsExactly` | message.go:132-166 | for every modelled message, WriteMessageN accepts it if and only if the hash or keys its version needs are there and its lists, user agent and encoded size are within their limits, all stated of its fields |
| `Refusals.WritePanicsExactly` | msgpubkey.go:94-137 | for every modelled message, WriteMessageN does not return if and only if it is an object whose version needs a hash or a key that is nil |
| `Refusals.MessageThatPanics` | msgpubkey.go:108-111 | a version 4 pubkey without its tag is one |
| `Refusals.PubKeySize` | msgpubkey.go:94-137 | the encoded size of a pubkey, by the layout of its version |
| `Refusals.GetPubKeySize` | msggetpubkey.go:66-91 | the encoded size of a getpubkey, by the layout of its version |
| `Sessions.DispatchAndDecoderAgree` | message.go:264-286 | a decoder of objects accepts no payload whose peeked type is another's, and never refuses one of its own for its type |
| `Sessions.FrameIsDelivered` | message.go:182-198 | WriteMessageN on any writer delivers the whole frame if it fits, and a proper prefix with a short write exactly when it does not |
| `BoundedWriter.EncodingIsDelivered` | fixedIO_test.go:20-28 | any encoder on any writer delivers a prefix of its unbounded output, and fails to write exactly when that output does not fit |
| `BoundedWriter.BufferTakesAll` | message.go:142-148 | encoding to a buffer gives exactly the printed items and the encoder's own error |
| `MessageIO.WriteMessageN` | message.go:129-199 | nothing is written on a validation failure; otherwise header and payload are; the count is always what reached the writer |
| `MessageIO.ReadMessageN` | message.go:216-349 | the message, payload, error, count and position are those of ReadFrame |
| `MessageIO.ReadMessageHeader` | message.go:83-104 | reads 24 bytes or fails having counted what was there; a header's command loses its trailing zeros |
| `MessageIO.DiscardInput` | message.go:110-124 | across the 10240-byte loop and the remainder, advances by exactly min(n, remaining) |
| `MessageIO.ReadObjectPayload` | message.go:253-297 | the object branch: payload, peeked type, limit of that type |
| `MessageIO.ReadPlainPayload` | message.go:299-326 | the other branch: command, its limit, discarding or reading |
| `MessageIO.FinishMessage` | message.go:330-348 | checksum first, then the decoder's result |
| `MessageIO.EncodeMessage` | message.go:142-147 | every modelled message object writes the encoding of its value |
| `MessageIO.DecodeMessage` | message.go:339-348 | every modelled message object, new, decodes as DecodeKind says |
| `Framing.PartsOfHeader` | message.go:168-180 | the bytes of a written header are magic, command, length and checksum, and parse back to them |
| `Framing.HeaderParts` | message.go:96-101 | any 24 bytes are the header of what they parse to |
| `Framing.HeaderIsItsFields` | message.go:178-180 | the four header elements written one after the other are the header's bytes |
| `MessageIO.EncodeHeader` | message.go:168-180 | writes the four elements to a buffer and returns the header |
| `FrameLaws.SealedFrame` | message.go:330-348 | a frame with its own length and checksum, for a decoder whose limit it respects, is consumed and gives what the decoder makes of the payload |
| `Utf8.ValidExactly` | message.go:242-248 | a command is text if and only if it encodes some code points, none a surrogate |
| `Framing.TrimOfPadded` | message.go:100-101 | trimming a padded command gives it back |
| `Messages.CommandLetters` | message.go:24-32 | the seven command constants, in letters |
| `Messages.CarriedExactly` | netaddress.go:100-163 | what a receiver sees of each message, field by field: the fields of its version's layout, the others empty, times and IPs as they travel |
| `Layouts.VersionWire` | msgversion.go:126-170 | the bytes of a version message, field after field |
| `Layouts.AddrWire` | msgaddr.go:83-106 | the bytes of an addr message |
| `Layouts.InvWire` | msginv.go:71-92 | the bytes of an inv and of a getdata message |
| `Layouts.GetPubKeyWire` | msggetpubkey.go:66-91 | the bytes of a getpubkey, in both layouts |
| `Layouts.PubKeyWire` | msgpubkey.go:94-137 | the bytes of a pubkey, in all three layouts |
| `Messages.KindNormalises` | message.go:339-348 | for each message, an accepted payload re-encodes without error in no more bytes, which decode to the same message |
| `Messages.KindRoundTrip` | message.go:142-147 | for each message, what encodes decodes to what its receiver sees |
| `Messages.EncodingCut` | common.go:291-326 | decoding any proper prefix of an encoding (short of an encrypted tail) fails, with EOF exactly when it ends between two non-empty full reads |
| `Truncation.ParseCut` | common.go:390-411 | the same for every accepted payload, minimal or not, and every cut |
| `Truncation.PrefixFree` | msgversion.go:72-122 | no encoding of a self-delimiting layout is a proper prefix of another |
| `Truncation.CallsOfPrintFrom` | common.go:143-151 | the full reads a decoder makes of an encoding are those its items say |
| `PubKeys.EncryptedPubKeyCut` | msgpubkey.go:56-64 | a version 4 or later pubkey cut inside its encrypted part decodes with that part shortened; cut before it, it fails as the others do |
| `Grammar.ParseOfStarted` | msgversion.go:72-122 | expected items are read back from their bytes and the run goes on after them, complete message or not |
| `Grammar.ParseOfPrint` | msgpubkey.go:34-137 | every complete item list of every layout is read back from its bytes |
| `Grammar.ParseConforms` | msgpubkey.go:34-90 | what is accepted is complete, and prints into no more bytes than were read - into the same bytes if into as many |
| `Grammar.Normalise` | msgpubkey.go:34-137 | printing what was parsed and parsing it again gives the same items |
| `Wire.ReadVarIntOfBytes` | common.go:291-358 | every uint64 is read back from its written form, leaving what follows |
| `Wire.VarIntLayout` | common.go:331-358 | the bytes of a varint: one below 253, else 253, 254 or 255 and two, four or eight big-endian bytes |
| `Wire.VarIntIsShortest` | common.go:362-381 | no accepted encoding of v is shorter than VarIntSerializeSize(v), and the only one of that length is the written one |
| `Wire.VarIntPrefixFree` | common.go:331-358 | no varint encoding is a proper prefix of another |
| `Wire.VarIntBytes` | common.go:362-381 | the written length is VarIntSerializeSize |
| `Wire.ReadFieldsOfConcat` | common.go:143-151 | elements written one after the other are read back, leaving what follows |
| `Wire.FieldsAreConsumed` | common.go:143-151 | elements read are the bytes consumed, cut at the widths asked for |
| `Octets.FirstByteIsHighest` | common.go:32-57 | the first byte of a number is the most significant |
| `Octets.UnsignedFields` | common.go:32-57 | unsigned numbers survive being put in a field and read back, and fields being read and put |
| `Octets.SignedFields` | common.go:22-48 | the same for int32 and int64, through two's complement |
| `Stream.Reader.ReadFull` | common.go:293-296 | fills the buffer with what there is, leaves the rest, and returns EOF, an unexpected EOF or no error by how much that is |
| `Stream.ReadElements` | common.go:143-151 | one full read per element, up to the first that fails; those before it are read |
| `Stream.ReadArray` | common.go:96-115 | a read into a zeroed array fills in what there is, enough or not |
| `Wire.ThreeSlices` | common.go:143-151 | which of three elements are read, by the bytes there are, and that they are the consecutive slices |
| `Stream.ReadUvarint` | common.go:291-327 | the varint at the front of the stream, or the error of the read that fails |
| `Stream.ReadVarString` | common.go:390-411 | a length, refused above MaxMessagePayload before anything is read, and that many bytes |
| `Stream.ReadVarBytes` | common.go:434-457 | a length, refused above the limit given, and that many bytes |
| `Stream.Writer.Write` | fixedIO_test.go:20-28 | what fits is appended, and the count is what was appended |
| `Stream.WriteElements` | common.go:280-288 | one write per element, up to the first that fails |
| `Stream.WriteVarInt` | common.go:331-358 | the varint in a single write |
| `Stream.WriteVarString` | common.go:415-425 | the length, then the bytes, in two writes |
| `PubKeys.PubKeyRoundTrip` | msgpubkey.go:34-137 | for every uint64 version, exactly the fields of that version's layout survive encoding and decoding, the receiver keeping the others; another object type is refused right after the header |
| `PubKeys.PubKeyReencodes` | msgpubkey.go:94-137 | every complete payload is the encoding of the message it decodes to |
| `PubKeys.PubKeyNormalises` | msgpubkey.go:34-137 | an accepted payload re-encodes in no more bytes, which decode to the same message |
| `PubKeys.PubKeyShape` | msgpubkey.go:41-89 | the layouts a complete payload can have, by its version, and no others |
| `PubKeys.MsgPubKey.Decode` | msgpubkey.go:34-90 | on success the receiver holds the payload's message, its other fields kept; on failure it returns the error and holds the fields read before it, with new tags and keys as far as they were filled |
| `PubKeys.MsgPubKey.ReadKeys` | msgpubkey.go:66-72 | behavior and two new keys, each filled with what there is for it |
| `PubKeys.KeysFilled` | msgpubkey.go:66-72 | what the keys hold, by how much there was to read |
| `PubKeys.MsgPubKey.DecodeSignature` | msgpubkey.go:79-84 | the signature is allocated from its length before it is read, and filled with what there is |
| `PubKeys.MsgPubKey.Encode` | msgpubkey.go:94-137 | writes the layout of the receiver's version, up to the first write that fails or nil key |
| `GetPubKeys.GetPubKeyRoundTrip` | msggetpubkey.go:27-91 | ripe below version 4 and tag from it on survive encoding and decoding; another object type is refused |
| `GetPubKeys.GetPubKeyNormalises` | msggetpubkey.go:27-91 | an accepted payload re-encodes in no more bytes, which decode to the same message |
| `GetPubKeys.GetPubKeyRun` | msggetpubkey.go:27-62 | decoding is reading the start and then one hash, and if both succeed the receiver as the assignments leave it is the message decoded |
| `GetPubKeys.MsgGetPubKey.Decode` | msggetpubkey.go:27-62 | on success the receiver holds the payload's message; on failure it returns the error and holds the fields read before it, with a new hash as far as it was filled |
| `GetPubKeys.MsgGetPubKey.Encode` | msggetpubkey.go:66-91 | writes the layout of the receiver's version, up to the first write that fails or a nil hash |
| `Objects.ObjectStart` | msgpubkey.go:35-54 | every object payload begins with nonce, expiry, type, version and stream, and one of another type is refused after the first three |
| `Objects.ReadObjectStart` | msgpubkey.go:35-54 | assigns nonce and type before the type is checked, the expiry after it, and zero to a varint that cannot be read |
| `Objects.StartAfterSuccess` | msgpubkey.go:35-54 | on success those assignments leave nothing of the receiver's former start |
| `Versions.VersionRoundTrip` | msgversion.go:72-170 | a version message with a valid user agent is read back, but for the times of its addresses |
| `Versions.VersionNormalises` | msgversion.go:72-170 | an accepted payload re-encodes in no more bytes, which decode to the same message |
| `Versions.VersionLength` | msgversion.go:126-170 | the encoded size is 80 plus the sizes of the user agent and of the stream numbers, each with its count |
| `Versions.TwoStreamsFit` | msgversion.go:180-189 | with a valid user agent and at most two streams the message fits its payload limit |
| `Versions.LimitIsTight` | msgversion.go:180-189 | two streams can fill the limit exactly, three can pass it |
| `Versions.AtMost2018Streams` | msgversion.go:109-119 | a payload within the limit holds at most 2018 stream numbers, minimal varints or not |
| `Versions.TwoThousandEighteenReached` | msgversion.go:109-119 | and some such payload holds 2018 |
| `Versions.MsgVersion.Decode` | msgversion.go:72-122 | on success the receiver holds the payload's message; on failure it returns the error and holds the fields read before it, a stream number not read being zero |
| `Versions.MsgVersion.Encode` | msgversion.go:126-170 | writes nothing if the user agent is too long, otherwise the message up to the first write that fails |
| `Lists.CountedDecode` | msgaddr.go:56-79 | the count is refused above the limit; the items present are decoded in order, item i at offset i times the item size after the count; and decoding succeeds exactly when all are there |
| `Lists.CallsStayWithin` | msgaddr.go:27-52 | after any sequence of additions and clearings the list is within its limit |
| `Lists.BatchesJoin` | msgaddr.go:39-47 | adding in batches is adding all at once: nothing gets in after a batch that did not fit |
| `Addresses.AddrRoundTrip` | msgaddr.go:56-106 | a list within the limit is read back, times modulo 2^32 and IPs in 16-byte form, from 30 bytes each |
| `Addresses.AddrNormalises` | msgaddr.go:56-106 | an accepted payload re-encodes in no more bytes, which decode to the same list |
| `Addresses.AddrCallsEncode` | msgaddr.go:83-119 | whatever is added to or cleared from a new message, it encodes, within its payload limit |
| `Addresses.MsgAddr.AddAddress` | msgaddr.go:27-36 | appends, or fails without change when there are 1000 |
| `Addresses.MsgAddr.AddAddresses` | msgaddr.go:39-47 | appends exactly the longest prefix that fits, and fails unless that is everything |
| `Addresses.MsgAddr.Decode` | msgaddr.go:56-79 | on success the list is the payload's; on failure it is the decoded prefix, or unchanged if the count is missing or refused; the ignored result of adding is never a failure |
| `Addresses.MsgAddr.Encode` | msgaddr.go:83-106 | refuses more than 1000 addresses before writing, otherwise writes them up to the first write that fails |
| `Inventories.InvRoundTrip` | msginv.go:44-92 | a list within the limit is read back, from 32 bytes each |
| `Inventories.InvNormalises` | msggetdata.go:23-84 | an accepted inv or getdata payload re-encodes in no more bytes, which decode to the same list |
| `Inventories.InvCallsEncode` | msginv.go:71-105 | whatever is added to a new message, it encodes, within its payload limit |
| `Inventories.MsgInv.AddInvVect` | msginv.go:31-40 | appends, or fails without change when there are 50000 |
| `Inventories.MsgInv.Decode` | msginv.go:44-67 | on success the list is the payload's; on failure it is the decoded prefix, or unchanged if the count is missing or refused |
| `Inventories.MsgInv.Encode` | msginv.go:71-92 | refuses more than 50000 hashes before writing, otherwise writes them up to the first write that fails |
| `NetAddresses.AddressRoundTrip` | netaddress.go:100-163 | a time comes back modulo 2^32, exact if and only if it lies in [0, 2^32); a 4-byte IP in mapped form, a 16-byte IP unchanged, any other as zeros |
| `NetAddresses.AddressBytes` | netaddress.go:136-163 | the bytes of an address: time, services, sixteen of IP, port |
| `NetAddresses.FieldsOfAddress` | netaddress.go:136-163 | writing an address that was read gives the bytes it was read from |
| `NetAddresses.ReadNetAddress` | netaddress.go:100-131 | assigns all fields on success and none on failure |
| `NetAddresses.WriteNetAddress` | netaddress.go:136-163 | writes the fields of the address, up to the first write that fails |
| `HashText.AcceptedTexts` | shahash.go:72-87 | a text is accepted if and only if it has at most 2n characters, each in 0-9, a-f or A-F; otherwise it is too long, or its first other character is reported |
| `HashText.DigitValues` | shahash.go:84 | the sixteen digits in both cases, and the one printed for each value |
| `HashText.FirstDigitIsHighest` | shahash.go:84 | the first digit of a hexadecimal number is the most significant |
| `HashText.TextValue` | shahash.go:72-104 | for every text of at most 2n characters in 0-9, a-f or A-F, odd lengths included, the array read as a little-endian number is the text read as a hex number |
| `HashText.ParseOfText` | shahash.go:25-30 | parsing the text of a hash gives it back, for every hash of every size |
| `HashText.TextOfParse` | shahash.go:72-104 | printing a parsed text gives it in lower case, left-padded with zeros to 2n characters |
| `HashText.SameHashSameText` | shahash.go:72-104 | two accepted texts give the same hash if and only if they agree after padding and lower-casing |
| `HashText.ToText` | shahash.go:25-30 | the in-place swaps of the two halves print the reversed array, and leave the original as it was |
| `HashText.FromText` | ripehash.go:73-105 | the array or the error is the one the text means, for any size |
| `HashText.Unreverse` | pubkey.go:95-103 | writing two bytes at a time from both ends reverses the buffer, its middle byte included, into the front of a zeroed array |
| `HashText.SetBytes` | shahash.go:42-51 | copies an array of the right size, and changes nothing otherwise |

## Left out

- Versions.MsgVersion.Decode: the error for a reader that is not a buffer (msgversion.go:73-77) is not modelled, since ReadMessageN always passes one.
- Exits.EofExactly: for object types 2 and 3 the condition is that the codec, which is a parameter, gives EOF.
- Exits.ReadPanicsExactly: for object types 2 and 3 the condition is that the codec, which is a parameter, does not return.
- Sessions.ReadCanBeSentOn: is about the messages whose source is in the repository; the codec of object types 2 and 3 is a parameter about which nothing is known.
- Aliasing of the hashes, keys and inventory vectors a message points to: they are values here, and a nil entry in an address or inventory list is not representable. The addresses of an addr message are objects.
- Read errors other than the end of the stream, and write errors other than a short write.
- Failure to allocate at most MaxMessagePayload bytes.
- SHA-512 itself, and any claim about detecting corruption.
- The texts of errors and the `String` methods of messages, flags and networks: formatting only.
- WriteMessage and ReadMessage, which drop the count of their counterparts.
- The clock, random numbers and connections: RandomUint64, NewMsgVersion and its variant from a connection, NewNetAddress.
- Service-flag setters, AddUserAgent, capacity hints of slices, and the constructors that only fill fields: easy members.
- The bool cases of readElement and writeElement, which no message uses.
- MsgGetData has no class of its own: it is MsgInv with another command, and both are covered by one class.
- RipeHash and PubKey have no text methods of their own: the size is a parameter of the hash text.
