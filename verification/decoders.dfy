/** The field decoders for the fixed-layout and text messages, and the
    authentication sub-dispatch. Each decoder works on a payload that the
    reassembler has already cut to the declared length; a field that runs
    past the end of the payload is Malformed. They follow the decoders of
    lib/message_parser.js. */
module Decoders {
  import opened Results
  import opened Bytes
  import opened KeyCoded
  import opened Messages

  /** Authentication sub-types, read from the first four payload bytes. */
  const AUTH_OK: int := 0
  const AUTH_KERBEROS_V5: int := 2
  const AUTH_CLEARTEXT_PASSWORD: int := 3
  const AUTH_MD5_PASSWORD: int := 5
  const AUTH_SCM_CREDENTIAL: int := 6
  const AUTH_GSS: int := 7
  const AUTH_GSS_CONTINUE: int := 8
  const AUTH_SSPI: int := 9

  /** The sub-types with a decoder. */
  predicate SupportedAuthentication(sub: int) {
    sub == AUTH_OK || sub == AUTH_CLEARTEXT_PASSWORD || sub == AUTH_MD5_PASSWORD
  }

  /** Authentication request ('R'): dispatch on the Int32 sub-type at offset
      0. Kerberos V5, SCM credential, GSS, GSS-continue and SSPI raise "not
      implemented"; any other sub-type has no entry and fails the same way.
      MD5 carries the four salt bytes that follow the sub-type. */
  function DecodeAuthentication(d: bytes): (r: Result<Message>)
    ensures r.Ok? <==> 4 <= |d| && SupportedAuthentication(Int32(d, 0)) && (Int32(d, 0) == AUTH_MD5_PASSWORD ==> 8 <= |d|)
    ensures 4 <= |d| && !SupportedAuthentication(Int32(d, 0)) ==> r == Err(Unsupported)
    ensures r.Ok? ==> TagOf(r.value) == 'R' as byte
    ensures r.Ok? && r.value.AuthenticationMD5Password? ==> |d| >= 8 && r.value.salt == d[4..8]
  {
    if |d| < 4 then Err(Malformed)
    else
      var sub := Int32(d, 0);
      if sub == AUTH_OK then Ok(AuthenticationOk)
      else if sub == AUTH_KERBEROS_V5 then Err(Unsupported)
      else if sub == AUTH_CLEARTEXT_PASSWORD then Ok(AuthenticationCleartextPassword)
      else if sub == AUTH_MD5_PASSWORD then
        if |d| < 8 then Err(Malformed) else Ok(AuthenticationMD5Password(d[4..8]))
      else if sub == AUTH_SCM_CREDENTIAL || sub == AUTH_GSS || sub == AUTH_SSPI || sub == AUTH_GSS_CONTINUE then
        Err(Unsupported)
      else Err(Unsupported)
  }

  /** The payload the server sends for each supported authentication
      request. */
  function EncodeAuthentication(m: Message): bytes
    requires m.AuthenticationOk? || m.AuthenticationCleartextPassword? || m.AuthenticationMD5Password?
  {
    match m
    case AuthenticationOk => BE32(AUTH_OK)
    case AuthenticationCleartextPassword => BE32(AUTH_CLEARTEXT_PASSWORD)
    case AuthenticationMD5Password(salt) => BE32(AUTH_MD5_PASSWORD) + salt
  }

  /** Every supported authentication request decodes from its payload, and
      the MD5 salt comes back exactly. */
  lemma AuthenticationRoundTrip(m: Message, rest: bytes)
    requires m.AuthenticationOk? || m.AuthenticationCleartextPassword? || m.AuthenticationMD5Password?
    requires m.AuthenticationMD5Password? ==> |m.salt| == 4
    ensures DecodeAuthentication(EncodeAuthentication(m) + rest) == Ok(m)
  {
    match m
    case AuthenticationOk => Int32OfBE32(AUTH_OK, rest);
    case AuthenticationCleartextPassword => Int32OfBE32(AUTH_CLEARTEXT_PASSWORD, rest);
    case AuthenticationMD5Password(salt) =>
      Int32OfBE32(AUTH_MD5_PASSWORD, salt + rest);
      assert EncodeAuthentication(m) + rest == BE32(AUTH_MD5_PASSWORD) + (salt + rest);
      assert (BE32(AUTH_MD5_PASSWORD) + (salt + rest))[4..8] == salt;
  }

  /** The sub-types the protocol defines but the parser does not implement
      (Kerberos V5, SCM credential, GSS, GSS-continue, SSPI) fail as
      unsupported, whatever the rest of the payload holds. */
  lemma UnimplementedAuthenticationFails(sub: int, rest: bytes)
    requires sub in {AUTH_KERBEROS_V5, AUTH_SCM_CREDENTIAL, AUTH_GSS, AUTH_GSS_CONTINUE, AUTH_SSPI}
    ensures DecodeAuthentication(BE32(sub) + rest) == Err(Unsupported)
  {
    Int32OfBE32(sub, rest);
  }

  /** BackendKeyData ('K'): the process ID is the Int32 at offset 0 and the
      secret key the Int32 at offset 4; written back big-endian they are the
      first eight payload bytes. */
  function DecodeBackendKeyData(d: bytes): (r: Result<Message>)
    ensures r.Ok? <==> 8 <= |d|
    ensures r.Ok? ==> r.value.BackendKeyData?
    ensures r.Ok? ==> BE32(r.value.processId) == d[0..4] && BE32(r.value.secretKey) == d[4..8]
    ensures r.Ok? ==> IsInt32(r.value.processId) && IsInt32(r.value.secretKey)
  {
    if |d| < 8 then Err(Malformed)
    else
      BE32OfInt32(d, 0);
      BE32OfInt32(d, 4);
      Ok(BackendKeyData(Int32(d, 0), Int32(d, 4)))
  }

  /** Any two signed 32-bit numbers written big-endian decode back. */
  lemma BackendKeyDataRoundTrip(processId: int, secretKey: int, rest: bytes)
    requires IsInt32(processId) && IsInt32(secretKey)
    ensures DecodeBackendKeyData(BE32(processId) + BE32(secretKey) + rest)
         == Ok(BackendKeyData(processId, secretKey))
  {
    Int32At([], processId, BE32(secretKey) + rest);
    Int32At(BE32(processId), secretKey, rest);
    assert [] + BE32(processId) + (BE32(secretKey) + rest) == BE32(processId) + BE32(secretKey) + rest;
  }

  /** CommandComplete ('C'): the command tag is the payload without its last
      byte, which the server always sends as the string's NUL; an empty
      payload gives an empty tag. */
  function DecodeCommandComplete(d: bytes): (r: Result<Message>)
    ensures r.Ok? && r.value.CommandComplete?
    ensures |d| == 0 ==> r.value.commandTag == []
    ensures |d| > 0 ==> r.value.commandTag + [d[|d| - 1]] == d
  {
    Ok(CommandComplete(if |d| == 0 then [] else d[..|d| - 1]))
  }

  /** A NUL-terminated command tag decodes to exactly the tag. */
  lemma CommandCompleteRoundTrip(tag: bytes)
    ensures DecodeCommandComplete(tag + [0]) == Ok(CommandComplete(tag))
  {
    assert (tag + [0])[..|tag|] == tag;
  }

  /** ParameterStatus ('S'): the payload split at its NUL bytes; the key is
      the first piece and the value the second. A payload without any NUL has
      no second piece, and the value is then absent. */
  function DecodeParameterStatus(d: bytes): (r: Result<Message>)
    ensures r.Ok? && r.value.ParameterStatus?
    ensures NulFree(r.value.parameterKey) && r.value.parameterKey <= d
    ensures r.value.parameterValue.None? <==> NulFree(d)
    ensures r.value.parameterValue.None? ==> r.value.parameterKey == d
    ensures r.value.parameterValue.Some? ==>
      var k := |r.value.parameterKey|;
      var v := r.value.parameterValue.value;
      && k + 1 + |v| <= |d|
      && d[k] == 0
      && d[k + 1 .. k + 1 + |v|] == v
      && NulFree(v)
      && (k + 1 + |v| == |d| || d[k + 1 + |v|] == 0)
  {
    FindNulSpec(d, 0);
    match FindNul(d, 0)
    case None => Ok(ParameterStatus(d, None))
    case Some(i) =>
      FindNulSpec(d, i + 1);
      var end := match FindNul(d, i + 1) case None => |d| case Some(j) => j;
      assert NulFree(d[..i]);
      assert NulFree(d[i + 1 .. end]);
      Ok(ParameterStatus(d[..i], Some(d[i + 1 .. end])))
  }

  /** A key and a value, each NUL-terminated, decode back exactly. */
  lemma ParameterStatusRoundTrip(key: bytes, value: bytes, rest: bytes)
    requires NulFree(key) && NulFree(value)
    ensures DecodeParameterStatus(key + [0] + value + [0] + rest) == Ok(ParameterStatus(key, Some(value)))
  {
    var d := key + [0] + value + [0] + rest;
    var n := |key|;
    var e := n + 1 + |value|;
    assert d[n] == 0 && d[e] == 0;
    assert forall k :: 0 <= k < n ==> d[k] == key[k];
    assert forall k :: n + 1 <= k < e ==> d[k] == value[k - (n + 1)];
    FindNulFirst(d, 0, n);
    FindNulFirst(d, n + 1, e);
    assert d[..n] == key;
    assert d[n + 1 .. e] == value;
  }

  /** ReadyForQuery ('Z'): the status is the payload as sent; it is not
      checked against the three states the server uses. */
  function DecodeReadyForQuery(d: bytes): (r: Result<Message>)
    ensures r.Ok? && r.value.ReadyForQuery?
    ensures r.value.transactionStatusIndicator == d
  {
    Ok(ReadyForQuery(d))
  }

  /** ErrorResponse ('E') and NoticeResponse ('N') share the key-coded block
      decoder. */
  function DecodeErrorResponse(d: bytes): (r: Result<Message>)
    ensures r.Ok? && r.value.ErrorResponse?
    ensures forall c :: c in r.value.errorMessages ==> c in d && NulFree(r.value.errorMessages[c])
  {
    DecodedFieldsFromBlock(d);
    Ok(ErrorResponse(DecodeFields(d)))
  }

  function DecodeNoticeResponse(d: bytes): (r: Result<Message>)
    ensures r.Ok? && r.value.NoticeResponse?
    ensures forall c :: c in r.value.noticeMessages ==> c in d && NulFree(r.value.noticeMessages[c])
  {
    DecodedFieldsFromBlock(d);
    Ok(NoticeResponse(DecodeFields(d)))
  }

  /** The two decoders read any payload into the same map. */
  lemma ErrorAndNoticeAgree(d: bytes)
    ensures DecodeErrorResponse(d).value.errorMessages == DecodeNoticeResponse(d).value.noticeMessages
  {
  }
}
