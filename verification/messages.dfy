/** The decoded backend messages: one variant per message kind the parser
    supports. Text stays as raw bytes; the markers the parser sets on
    CommandComplete, CopyDone and NoData are the variants themselves. */
module Messages {
  import opened Results
  import opened Bytes
  import opened KeyCoded

  /** One column of a RowDescription. The six numbers are read as signed
      big-endian values of widths 4, 2, 4, 2, 4 and 2 bytes. */
  datatype FieldDescriptor = FieldDescriptor(
    fieldName: bytes,
    parentTableObjectId: int,
    attributeNumber: int,
    dataTypeObjectId: int,
    dataTypeSize: int,
    typeModifier: int,
    formatCode: int)

  datatype Message =
    | AuthenticationOk
    | AuthenticationCleartextPassword
    | AuthenticationMD5Password(salt: bytes)
    | BackendKeyData(processId: int, secretKey: int)
    | CommandComplete(commandTag: bytes)
    | CopyDone
    | DataRow(rowValue: seq<Option<bytes>>)
    | ErrorResponse(errorMessages: Fields)
    | NoData
    | NoticeResponse(noticeMessages: Fields)
    | ParameterStatus(parameterKey: bytes, parameterValue: Option<bytes>)
    | ReadyForQuery(transactionStatusIndicator: bytes)
    | RowDescription(rowDescription: seq<FieldDescriptor>)

  /** The tag byte that carries each kind of message on the wire. All the
      authentication requests share the tag 'R'. */
  function TagOf(m: Message): byte {
    match m
    case AuthenticationOk => 'R' as byte
    case AuthenticationCleartextPassword => 'R' as byte
    case AuthenticationMD5Password(_) => 'R' as byte
    case BackendKeyData(_, _) => 'K' as byte
    case CommandComplete(_) => 'C' as byte
    case CopyDone => 'c' as byte
    case DataRow(_) => 'D' as byte
    case ErrorResponse(_) => 'E' as byte
    case NoData => 'n' as byte
    case NoticeResponse(_) => 'N' as byte
    case ParameterStatus(_, _) => 'S' as byte
    case ReadyForQuery(_) => 'Z' as byte
    case RowDescription(_) => 'T' as byte
  }

  /** The tags the parser has a decoder for. */
  const SupportedTags: set<byte> :=
    {'C' as byte, 'c' as byte, 'D' as byte, 'E' as byte, 'K' as byte, 'N' as byte,
     'n' as byte, 'R' as byte, 'S' as byte, 'T' as byte, 'Z' as byte}
}
