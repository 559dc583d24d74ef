/** The tag dispatch: a reassembled frame is handed to the decoder its tag
    byte selects. Tags without a decoder fail as unsupported. */
module Dispatch {
  import opened Results
  import opened Bytes
  import opened KeyCoded
  import opened Messages
  import opened Framing
  import opened Decoders
  import opened Rows

  /** The decoder table, keyed by the tag byte. */
  function DecodeByTag(t: byte, d: bytes): (r: Result<Message>)
    ensures t !in SupportedTags ==> r == Err(Unsupported)
    ensures r.Ok? ==> TagOf(r.value) == t
    ensures t in SupportedTags && t != 'R' as byte ==> r.Err? ==> r.error == Malformed
  {
    if t == 'C' as byte then DecodeCommandComplete(d)
    else if t == 'c' as byte then Ok(CopyDone)
    else if t == 'D' as byte then DecodeDataRow(d)
    else if t == 'E' as byte then DecodeErrorResponse(d)
    else if t == 'K' as byte then DecodeBackendKeyData(d)
    else if t == 'N' as byte then DecodeNoticeResponse(d)
    else if t == 'n' as byte then Ok(NoData)
    else if t == 'R' as byte then DecodeAuthentication(d)
    else if t == 'S' as byte then DecodeParameterStatus(d)
    else if t == 'T' as byte then DecodeRowDescription(d)
    else if t == 'Z' as byte then DecodeReadyForQuery(d)
    else Err(Unsupported)
  }

  /** Decodes one reassembled frame by its tag byte. */
  function ParseMessage(f: Frame): (r: Result<Message>)
    ensures r.Ok? ==> TagOf(r.value) == f.tag
    ensures f.tag !in SupportedTags ==> r == Err(Unsupported)
  {
    DecodeByTag(f.tag, f.data)
  }

  /** A tag byte read as a one-character ASCII string: the high bit is
      cleared. */
  function AsciiDecode(b: byte): (c: byte)
    ensures c < 0x80 && c % 0x80 == b % 0x80
  {
    b % 0x80
  }

  /** The dispatch with the tag read through the ASCII decoding. */
  function ParseMessageAsWritten(f: Frame): (r: Result<Message>)
    ensures r.Ok? ==> TagOf(r.value) == AsciiDecode(f.tag)
  {
    DecodeByTag(AsciiDecode(f.tag), f.data)
  }

  /** The two dispatches agree on every 7-bit tag, and differ only on tags
      with the high bit set. */
  lemma AsWrittenAgreesBelow0x80(f: Frame)
    requires f.tag < 0x80
    ensures ParseMessageAsWritten(f) == ParseMessage(f)
  {
    assert AsciiDecode(f.tag) == f.tag;
  }

  /** Tag 0xC3 is not a backend message, but with its high bit cleared it
      reads as 'C' and the payload decodes as a CommandComplete. */
  lemma HighBitTagAliases()
    ensures ParseMessageAsWritten(Frame(0xC3, 5, [0])) == Ok(CommandComplete([]))
    ensures ParseMessage(Frame(0xC3, 5, [0])) == Err(Unsupported)
  {
    assert AsciiDecode(0xC3) == 'C' as byte;
  }

  /** With the tag read as a raw byte, a frame decodes only under the tag of
      the message it yields; a tag with the high bit set never decodes. */
  lemma HighBitTagsRejected(f: Frame)
    requires f.tag >= 0x80
    ensures ParseMessage(f) == Err(Unsupported)
  {
    assert f.tag !in SupportedTags;
  }

  // ------------------------------------------------------------ encoding

  /** A message whose fields fit their wire forms and whose text has no
      stray NUL. ErrorResponse and NoticeResponse hold a map, which has no
      wire order of its own; their round trip starts from a list of pairs. */
  predicate Encodable(m: Message) {
    match m
    case AuthenticationMD5Password(salt) => |salt| == 4
    case BackendKeyData(p, k) => IsInt32(p) && IsInt32(k)
    case DataRow(vs) => EncodableRow(vs)
    case ErrorResponse(_) => false
    case NoticeResponse(_) => false
    case ParameterStatus(k, v) => NulFree(k) && (v.Some? ==> NulFree(v.value))
    case RowDescription(fs) =>
      |fs| < TWO_15 && forall i :: 0 <= i < |fs| ==> WellFormedDescriptor(fs[i])
    case _ => true
  }

  /** The payload the server sends for a message. */
  function EncodeMessage(m: Message): bytes {
    match m
    case AuthenticationOk => EncodeAuthentication(m)
    case AuthenticationCleartextPassword => EncodeAuthentication(m)
    case AuthenticationMD5Password(_) => EncodeAuthentication(m)
    case BackendKeyData(p, k) => BE32(p) + BE32(k)
    case CommandComplete(tag) => tag + [0]
    case CopyDone => []
    case DataRow(vs) => EncodeDataRow(vs)
    case ErrorResponse(_) => [0]
    case NoData => []
    case NoticeResponse(_) => [0]
    case ParameterStatus(k, v) => if v.None? then k else k + [0] + v.value + [0]
    case ReadyForQuery(s) => s
    case RowDescription(fs) => EncodeRowDescription(fs)
  }

  /** Every encodable message, sent under its own tag, decodes back to
      itself. */
  lemma MessageRoundTrip(m: Message)
    requires Encodable(m)
    ensures DecodeByTag(TagOf(m), EncodeMessage(m)) == Ok(m)
  {
    var d := EncodeMessage(m);
    match m {
      case AuthenticationOk =>
        AuthenticationRoundTrip(m, []);
        assert d + [] == d;
      case AuthenticationCleartextPassword =>
        AuthenticationRoundTrip(m, []);
        assert d + [] == d;
      case AuthenticationMD5Password(_) =>
        AuthenticationRoundTrip(m, []);
        assert d + [] == d;
      case BackendKeyData(p, k) =>
        BackendKeyDataRoundTrip(p, k, []);
        assert d + [] == d;
      case CommandComplete(tag) =>
        CommandCompleteRoundTrip(tag);
      case CopyDone =>
      case DataRow(vs) =>
        DataRowRoundTrip(vs, []);
        assert d + [] == d;
      case NoData =>
      case ParameterStatus(k, v) =>
        match v {
          case None =>
          case Some(x) =>
            ParameterStatusRoundTrip(k, x, []);
            assert d + [] == d;
        }
      case ReadyForQuery(_) =>
      case RowDescription(fs) =>
        RowDescriptionRoundTrip(fs, []);
        assert d + [] == d;
    }
  }

  /** ErrorResponse and NoticeResponse decode the same block into the same
      map: each code holds the last value sent for it. */
  lemma KeyCodedRoundTrip(ps: seq<Pair>)
    requires WellFormedPairs(ps)
    ensures DecodeByTag('E' as byte, EncodeBlock(ps)) == Ok(ErrorResponse(Assign(ps, map[])))
    ensures DecodeByTag('N' as byte, EncodeBlock(ps)) == Ok(NoticeResponse(Assign(ps, map[])))
  {
    BlockRoundTrip(ps);
  }

  // --------------------------------------------------------- the stream

  /** The frame that carries a message. */
  function FrameOf(m: Message): (f: Frame)
    ensures f.tag == TagOf(m) && f.data == EncodeMessage(m)
  {
    Frame(TagOf(m), |EncodeMessage(m)| + 4, EncodeMessage(m))
  }

  /** A message whose frame length fits the signed 32-bit length word. */
  predicate Sendable(m: Message) {
    Encodable(m) && |EncodeMessage(m)| + 4 < TWO_31
  }

  function FramesOf(ms: seq<Message>): (fs: seq<Frame>)
    ensures |fs| == |ms|
    ensures forall i :: 0 <= i < |ms| ==> fs[i] == FrameOf(ms[i])
  {
    if |ms| == 0 then [] else [FrameOf(ms[0])] + FramesOf(ms[1..])
  }

  /** A stream of whole messages is cut into exactly their frames, with
      nothing held back, and each frame decodes to its message. */
  lemma StreamRoundTrip(ms: seq<Message>)
    requires forall i :: 0 <= i < |ms| ==> Sendable(ms[i])
    ensures Reassemble(EncodeFrames(FramesOf(ms))) == Ok(Chunked(FramesOf(ms), None))
    ensures forall i :: 0 <= i < |ms| ==> ParseMessage(FramesOf(ms)[i]) == Ok(ms[i])
  {
    var fs := FramesOf(ms);
    forall i | 0 <= i < |ms|
      ensures ValidFrame(fs[i]) && ParseMessage(fs[i]) == Ok(ms[i])
    {
      MessageRoundTrip(ms[i]);
    }
    ReassembleRoundTrip(fs, []);
    assert EncodeFrames(fs) + [] == EncodeFrames(fs);
  }
}
