# PostgreSQL backend message parser, modelled in Dafny

This project models `lib/message_parser.js` of postgresql-node. That file
decodes the messages a PostgreSQL server sends to a client, following the
Frontend/Backend Protocol version 3.0 (sections 55.7 "Message Formats" and
55.8 "Error and Notice Message Fields" of the PostgreSQL 16 manual). It has
three parts:

- the **frame reassembler** `Parse`, which cuts a chunk of the byte stream
  into `[tag][Int32 length][payload]` frames and hands back an incomplete
  trailing frame as the leftover;
- the **tag dispatch** `parseMessage` and its `BackendMessageType` table,
  with the **authentication sub-dispatch** `authenticationMessage`;
- the **field decoders** for CommandComplete, CopyDone, DataRow,
  ErrorResponse, BackendKeyData, NoticeResponse, NoData, the authentication
  requests, ParameterStatus, RowDescription and ReadyForQuery.

Bytes are integers in 0..255 (`Bytes.byte`). Text fields stay as raw byte
sequences. The source's exceptions become `Err(Unsupported)` for a tag or
sub-type with no decoder and `Err(Malformed)` for a field that runs past the
payload. The modules are:

- `Results`: the `Result` and `Option` types.
- `Bytes`: signed big-endian reads and writes, and the NUL search.
- `Framing`: the reassembler, as the recursive reference `Reassemble` and the
  cursor walk `Parse`.
- `Messages`: the decoded message datatype.
- `Decoders`: the fixed-layout decoders and the authentication sub-dispatch.
- `KeyCoded`: the code/string block shared by ErrorResponse and
  NoticeResponse.
- `Rows`: DataRow and RowDescription.
- `Dispatch`: the tag table, and a whole-stream round trip.

Every decoder has an encoder beside it. The round-trip lemmas tie each
decoder to its encoder.

## Model

| member | source | states |
|---|---|---|
| Framing.Reassemble | lib/message_parser.js:14-48 | Every emitted frame declares a length of at least 4 that fits a signed 32-bit word, and carries exactly length − 4 payload bytes. The only failure is Malformed. |
| Framing.Parse | lib/message_parser.js:14-48 | The cursor walk returns exactly the frames and leftover of the recursive reference reassembly. |
| Framing.ReassembleLossless | lib/message_parser.js:28-44 | Re-encoding the emitted frames in order and appending the leftover gives back the input buffer. A leftover is always a tail too short for its header or its declared payload. |
| Framing.HeldBackAt | lib/message_parser.js:22-26 | When fewer than five bytes remain, or the declared payload is not all present, the walk stops and the leftover is the remaining bytes from the cursor on. |
| Framing.WalkHoldsBack | lib/message_parser.js:34-38 | When the header is present but the payload is short, the leftover starts at the tag byte, so the header is not consumed. The frames already emitted are kept. |
| Framing.WalkEnds | lib/message_parser.js:15-19 | A walk that consumes the buffer exactly leaves no leftover. |
| Framing.WalkFails | lib/message_parser.js:40-41 | A complete header whose length is below 4 fails as Malformed. |
| Framing.ThreeBytesHeldBack | lib/message_parser.js:22-26 | A three-byte buffer gives no frames, and the leftover is the whole buffer. |
| Framing.ReassembleRoundTrip | lib/message_parser.js:14-48 | The wire form of any valid frames, followed by an incomplete tail or nothing, reassembles into exactly those frames and that tail. |
| Framing.SplitPointInvariance | lib/message_parser.js:14-48 | Cut a stream of whole frames anywhere. Reassemble the first part, then reassemble its leftover followed by the second part. Together the two calls yield all the frames in order, with no final leftover. |
| Dispatch.DecodeByTag | lib/message_parser.js:500-523 | A tag outside C, c, D, E, K, N, n, R, S, T, Z fails as Unsupported. A decoded message always has the tag it was dispatched on. Apart from 'R', a supported tag fails only as Malformed. |
| Dispatch.ParseMessage | lib/message_parser.js:52-55 | A frame decodes only to a message of its own tag byte. Unknown tags fail and are never skipped. |
| Dispatch.AsciiDecode | lib/message_parser.js:28 | Reading the tag as a one-character ASCII string gives a 7-bit byte that agrees with the raw byte modulo 0x80. The high bit is cleared. |
| Dispatch.ParseMessageAsWritten | lib/message_parser.js:28 | The source reads the tag through an ASCII decoding that clears the high bit. A decoded message then has the tag of the cleared byte. |
| Dispatch.AsWrittenAgreesBelow0x80 | lib/message_parser.js:28 | For every 7-bit tag, the as-written dispatch and the raw-byte dispatch agree. |
| Dispatch.HighBitTagAliases | lib/message_parser.js:28 | Tag byte 0xC3 dispatches as 'C' as written, but fails as Unsupported when the raw byte is used. |
| Dispatch.HighBitTagsRejected | lib/message_parser.js:500-523 | With the raw byte, every tag at or above 0x80 fails as Unsupported. |
| Dispatch.MessageRoundTrip | lib/message_parser.js:500-523 | Every encodable message sent under its own tag decodes to itself. This includes ReadyForQuery, whose status is the payload verbatim, and CopyDone and NoData, which carry nothing. |
| Dispatch.KeyCodedRoundTrip | lib/message_parser.js:328-352 | ErrorResponse and NoticeResponse decode the same block to the same map. Each code holds the last value sent under it. |
| Dispatch.StreamRoundTrip | lib/message_parser.js:14-55 | A stream of whole encodable messages is cut into exactly their frames with no leftover, and each frame decodes back to its message. |
| Decoders.DecodeAuthentication | lib/message_parser.js:458-497 | The result is Ok exactly for sub-types 0, 3 and 5, read as the Int32 at offset 0, given a long enough payload. Every other sub-type fails as Unsupported. The MD5 salt is payload bytes 4 to 8. |
| Decoders.AuthenticationRoundTrip | lib/message_parser.js:78-107 | AuthenticationOk, AuthenticationCleartextPassword and AuthenticationMD5Password each decode from their payload. The four-byte salt comes back exactly, whatever follows it. |
| Decoders.UnimplementedAuthenticationFails | lib/message_parser.js:58-60 | Sub-types 2, 6, 7, 8 and 9 fail as Unsupported whatever the rest of the payload holds. |
| Decoders.DecodeBackendKeyData | lib/message_parser.js:138-143 | The result is Ok exactly when the payload has eight bytes. The process ID and secret key are signed 32-bit values whose big-endian forms are payload bytes 0 to 4 and 4 to 8. |
| Decoders.BackendKeyDataRoundTrip | lib/message_parser.js:138-143 | Any two signed 32-bit values, written big-endian, decode back. |
| Decoders.DecodeCommandComplete | lib/message_parser.js:163-167 | The decoder never fails. The command tag followed by the last payload byte is the payload. An empty payload gives an empty tag. |
| Decoders.CommandCompleteRoundTrip | lib/message_parser.js:163-167 | A NUL-terminated tag decodes to exactly the tag. |
| Decoders.DecodeParameterStatus | lib/message_parser.js:374-379 | The key is the NUL-free prefix before the first NUL. The value is absent exactly when the payload holds no NUL, and then the key is the whole payload. Otherwise the value is the NUL-free run after that NUL, ending at the next NUL or at the end of the payload. |
| Decoders.ParameterStatusRoundTrip | lib/message_parser.js:374-379 | A NUL-free key and value, each NUL-terminated, decode back exactly. |
| Decoders.DecodeReadyForQuery | lib/message_parser.js:395-398 | The decoder never fails, and the status is the payload verbatim. Nothing is validated. |
| Decoders.DecodeErrorResponse | lib/message_parser.js:277-301 | The decoder never fails. Every code in the map is a byte of the payload, and every value holds no NUL. |
| Decoders.DecodeNoticeResponse | lib/message_parser.js:328-352 | The decoder never fails. Every code in the map is a byte of the payload, and every value holds no NUL. |
| Decoders.ErrorAndNoticeAgree | lib/message_parser.js:328-352 | ErrorResponse and NoticeResponse read every payload into the same map. |
| KeyCoded.ScanFields | lib/message_parser.js:283-299 | The reference reading of a block only adds or overwrites entries: every code already in the map stays in it. What it records is pinned by KeyCoded.DecodeBlock, which proves the parser's loop equal to it, and by KeyCoded.BlockRoundTrip. |
| KeyCoded.ScanKeysFromBlock | lib/message_parser.js:283-299 | Every code the scan adds is a byte of the scanned block. |
| KeyCoded.DecodedFieldsFromBlock | lib/message_parser.js:283-299 | Every code of a decoded block is a byte of the block, and every value holds no NUL. |
| KeyCoded.DecodeBlock | lib/message_parser.js:277-301 | The two-state scanning loop of the source computes exactly the reference reading `DecodeFields` for every payload. |
| KeyCoded.ScanValuesNulFree | lib/message_parser.js:283-290 | Every value recorded by the scan is free of NUL bytes. |
| KeyCoded.BlockRoundTrip | lib/message_parser.js:277-301 | A block of (code, NUL-terminated string) pairs plus its closing NUL decodes to the map the pairs build in order. The closing NUL adds no entry, so a lone NUL gives the empty map. Any code byte and any empty value are kept. |
| KeyCoded.AssignKeys | lib/message_parser.js:287-289 | The decoded map's keys are exactly the codes sent. |
| KeyCoded.AssignLastWins | lib/message_parser.js:287-289 | A code holds the value of its last occurrence, so a later duplicate overwrites an earlier one. |
| KeyCoded.AssignUntouched | lib/message_parser.js:287-289 | An entry whose code is not sent again is left as it was. |
| Rows.DecodeColumn | lib/message_parser.js:232-241 | The length word, the value bytes and the rest make up the input. The value is null exactly when the length is negative. A non-null value has exactly the declared length. The column fails exactly when the length word or the value runs past the payload. |
| Rows.DecodeColumns | lib/message_parser.js:231-242 | A successful walk yields exactly the requested number of columns. Failures are Malformed only. |
| Rows.DecodeDataRow | lib/message_parser.js:224-245 | A payload shorter than two bytes is Malformed. A row has as many columns as the Int16 count at offset 0, or none when the count is negative. |
| Rows.DataRowRoundTrip | lib/message_parser.js:224-245 | An encoded row of values and nulls decodes back, in wire order, whatever bytes follow the last column. |
| Rows.NegativeLengthIsNull | lib/message_parser.js:238-240 | Any negative length, not only −1, gives null and consumes no value bytes. |
| Rows.DataRowExample | lib/message_parser.js:224-245 | The row ["a", null, "bcd"] encodes and decodes back exactly. |
| Rows.DecodeDescriptor | lib/message_parser.js:430-449 | The descriptor read has a NUL-free name and six numbers of signed widths 4, 2, 4, 2, 4 and 2. Its wire form is exactly the bytes consumed, |name| + 19 of them. A payload with no NUL is Malformed. |
| Rows.DescriptorRoundTrip | lib/message_parser.js:430-449 | An encoded descriptor decodes back, and the walk resumes right after it. |
| Rows.DecodeDescriptors | lib/message_parser.js:428-451 | A successful walk yields exactly the requested number of descriptors. Failures are Malformed only. |
| Rows.DecodeRowDescription | lib/message_parser.js:420-453 | A payload shorter than two bytes is Malformed. The description has as many descriptors as the Int16 count at offset 0, or none when the count is negative. |
| Rows.RowDescriptionRoundTrip | lib/message_parser.js:420-453 | Encoded descriptors decode back in order, with every name and number verbatim. |

## Left out

- Node `Buffer` mechanics (allocation, `copy`, `slice` aliasing) become sequence slicing.
- Decoding bytes to text with `Buffer.toString` is not modelled. Names, values and tags stay as byte sequences. As a result, ErrorResponse and NoticeResponse keys stay distinct bytes, where the source's UTF-8 decoding maps every code byte at or above 0x80 to the same replacement character.
- The `this.passwordData` context that `authenticationMessage` resets, and the commented-out salt and GSS captures, are not modelled.
- The `eventName` strings taken from JavaScript function names are not modelled. The `Message` variant plays their role.
- Exception types and messages are collapsed into `Unsupported` or `Malformed`. This covers `errRaise`, the thrown string for a non-'R' message, and the TypeError from a lookup of an unknown tag or sub-type.
- The stub decoders that only throw, and the commented-out table entries, are unreachable from the dispatch. They are represented only by the Unsupported case.
- Framing.Reassemble: a header whose length is below 4 is Malformed. The source passes a negative size to `new Buffer`, which throws in current Node and makes an empty buffer in old Node.
- Rows.DecodeColumn: a value longer than the rest of the payload is Malformed. The source's `toString` clamps it. When another column follows, the next length read throws. On the last column, the source returns the truncated value, which the model does not.
- Rows.DecodeDescriptor: a name with no NUL is Malformed. The source's scan never ends on such input.
- Decoders.DecodeAuthentication: an MD5 request shorter than eight bytes is Malformed. The source's `slice(4, 8)` would return a shorter salt.
- DataRow accepts every negative length as null, as the code does, although the protocol reserves −1 for null.
- ReadyForQuery keeps its payload verbatim. Like the code, it does not check the payload against the states I, T and E.
- The connection-level loop that feeds leftovers back into `Parse`, and the transport, are outside this file. Split-point invariance states the feeding contract that loop relies on.

## Findings

| source | as written | input that shows it | evidently intended | confidence | as-written member | corrected member |
|---|---|---|---|---|---|---|
| lib/message_parser.js:28 | The tag is read with `toString('ascii')`, which clears the high bit, so the tag byte 0xC3 is looked up as 'C'. | A frame with tag byte 0xC3, length 5 and payload [0] decodes as an empty CommandComplete. | Only the eleven supported tag bytes dispatch, and every other byte fails as unsupported. | medium (not executed; depends on Node's documented ASCII decoding) | Dispatch.ParseMessageAsWritten (shown by Dispatch.HighBitTagAliases) | Dispatch.ParseMessage (proved by Dispatch.HighBitTagsRejected) |
