// The header section of a request, as http_auth and http_send_stream of
// src/here_tracking_http.c write it.

module Requests {
  import opened Bytes
  import opened Errors
  import opened HttpGrammar
  import opened Options
  import opened TlsWriters

  datatype ReqType = DataJson | DataProtobuf

  datatype RespType = WithData | StatusOnly | WithDataProtobuf

  const HOST: bytes := Ascii("Host")
  const X_REQUEST_ID: bytes := Ascii("x-request-id")
  const USER_AGENT: bytes := Ascii("User-Agent")
  const AUTHORIZATION: bytes := Ascii("Authorization")
  const CONTENT_TYPE: bytes := Ascii("Content-Type")
  const OCTET_STREAM: bytes := Ascii("application/octet-stream")

  function FieldText(key: bytes, val: bytes): bytes {
    key + [COLON] + val + CRLF
  }

  /** The constant parts of a header section: the request line, the fields between the host and
      the correlation id, and what goes in front of the credentials. */
  datatype Section = Section(line: bytes, fixed: bytes, scheme: bytes) {
    ghost predicate Writable() {
      0 < |line| < TWO_32 && 0 < |fixed| < TWO_32 && |scheme| < TWO_31
    }
  }

  function AuthHead(): (h: Section)
    ensures h.Writable()
  {
    Section(Ascii("POST /v2/token HTTP/1.1") + CRLF,
            FieldText(Ascii("Connection"), Ascii("close")) + FieldText(CONTENT_LENGTH, Ascii("0")), [])
  }

  function SendHead(req: ReqType, resp: RespType): (h: Section)
    ensures h.Writable()
  {
    Section(Ascii("POST /v2/") + (if resp == StatusOnly then Ascii("?async=true") else []) +
            Ascii(" HTTP/1.1") + CRLF,
            FieldText(Ascii("Connection"), Ascii("close")) +
            FieldText(Ascii("Transfer-Encoding"), Ascii("chunked")) +
            FieldText(CONTENT_TYPE, if req == DataProtobuf then OCTET_STREAM else Ascii("application/json")) +
            (if resp == WithDataProtobuf then FieldText(Ascii("Accept"), OCTET_STREAM) else []),
            Ascii("Bearer "))
  }

  function OptionalField(key: bytes, val: Option<bytes>): bytes {
    match val
    case None => []
    case Some(v) => FieldText(key, v)
  }

  /** A user agent is sent unless it is empty. */
  function Agent(agent: bytes): Option<bytes> {
    if agent == [] then None else Some(agent)
  }

  function Credentials(h: Section): bytes {
    AUTHORIZATION + [COLON] + h.scheme
  }

  /** The header section up to the credentials. */
  function HeadText(h: Section, host: bytes, id: Option<bytes>, agent: bytes): bytes {
    h.line + (FieldText(HOST, host) + (h.fixed + (OptionalField(X_REQUEST_ID, id) +
    (OptionalField(USER_AGENT, Agent(agent)) + Credentials(h)))))
  }

  /** The header macro: an empty value is refused. */
  method WriteField(w: TlsWriter, key: bytes, val: bytes) returns (err: Err)
    requires w.Valid() && !w.Full() && 0 < |key| < TWO_32 && |val| < TWO_32
    modifies w.tls`calls, w.tls`sent, w.data`size, w.data.buffer
    ensures w.Valid()
    ensures err == Ok ==> w.Accepted() == old(w.Accepted()) + FieldText(key, val) && !w.Full() && val != []
    ensures w.tls.behaviour.Reliable() ==> (err == Ok <==> val != [])
    ensures w.tls.sent <= old(w.Accepted()) + FieldText(key, val)
  {
    ghost var acc := w.Accepted();
    FieldParts(acc, key, val);
    err := w.WriteData(key);
    if err != Ok { return; }
    err := w.WriteChar(COLON);
    if err != Ok { return; }
    err := w.WriteData(val);
    if err != Ok { return; }
    err := w.WriteData(CRLF);
  }

  lemma FieldParts(acc: bytes, key: bytes, val: bytes)
    ensures var all := acc + FieldText(key, val);
      acc + key <= all && acc + key + [COLON] <= all && acc + key + [COLON] + val <= all &&
      acc + key + [COLON] + val + CRLF == all
  {
    Stages(acc, key, [COLON], val, CRLF);
  }

  /** Writes the field if there is one. */
  method WriteOptional(w: TlsWriter, key: bytes, val: Option<bytes>) returns (err: Err)
    requires w.Valid() && !w.Full() && 0 < |key| < TWO_32 && (val.Some? ==> |val.value| < TWO_32)
    modifies w.tls`calls, w.tls`sent, w.data`size, w.data.buffer
    ensures w.Valid()
    ensures err == Ok ==> w.Accepted() == old(w.Accepted()) + OptionalField(key, val) && !w.Full()
    ensures err == Ok ==> val != Some([])
    ensures w.tls.behaviour.Reliable() ==> (err == Ok <==> val != Some([]))
    ensures w.tls.sent <= old(w.Accepted()) + OptionalField(key, val)
  {
    err := Ok;
    if val.Some? {
      err := WriteField(w, key, val.value);
    } else {
      assert w.Accepted() + [] == w.Accepted();
      Grown(w.tls.sent, w.data.Contents());
    }
  }

  /** The next piece of a text: what is in front of it, it, and what follows. */
  lemma NextPiece(acc: bytes, piece: bytes, rest: bytes)
    ensures acc + (piece + rest) == (acc + piece) + rest && acc + piece <= acc + (piece + rest)
  {
    Assoc(acc, piece, rest);
    Grown(acc + piece, rest);
  }

  /** The whole section, up to the credentials. It can be written if and only if the host and the
      correlation id, if there is one, are not empty. */
  method WriteHead(w: TlsWriter, h: Section, host: bytes, id: Option<bytes>, agent: bytes) returns (err: Err)
    requires w.Valid() && !w.Full() && h.Writable()
    requires |host| < TWO_32 && |agent| < TWO_32 && (id.Some? ==> |id.value| < TWO_32)
    modifies w.tls`calls, w.tls`sent, w.data`size, w.data.buffer
    ensures w.Valid()
    ensures err == Ok ==> w.Accepted() == old(w.Accepted()) + HeadText(h, host, id, agent) && !w.Full()
    ensures err == Ok ==> host != [] && id != Some([])
    ensures w.tls.behaviour.Reliable() ==> (err == Ok <==> host != [] && id != Some([]))
    ensures w.tls.sent <= old(w.Accepted()) + HeadText(h, host, id, agent)
  {
    hide FieldText, OptionalField, Agent, Credentials;
    ghost var acc := w.Accepted();
    ghost var p2, p4, p5, p6 := FieldText(HOST, host), OptionalField(X_REQUEST_ID, id),
      OptionalField(USER_AGENT, Agent(agent)), Credentials(h);
    NextPiece(acc, h.line, p2 + (h.fixed + (p4 + (p5 + p6))));
    NextPiece(acc + h.line, p2, h.fixed + (p4 + (p5 + p6)));
    NextPiece(acc + h.line + p2, h.fixed, p4 + (p5 + p6));
    NextPiece(acc + h.line + p2 + h.fixed, p4, p5 + p6);
    NextPiece(acc + h.line + p2 + h.fixed + p4, p5, p6);
    AgentNotEmpty(agent);
    CredentialsSize(h);
    err := w.WriteData(h.line);
    if err != Ok { return; }
    err := WriteField(w, HOST, host);
    if err != Ok { return; }
    err := w.WriteData(h.fixed);
    if err != Ok { return; }
    err := WriteOptional(w, X_REQUEST_ID, id);
    if err != Ok { return; }
    err := WriteOptional(w, USER_AGENT, Agent(agent));
    if err != Ok { return; }
    err := w.WriteData(Credentials(h));
  }

  lemma AgentNotEmpty(agent: bytes)
    ensures Agent(agent) != Some([]) && (Agent(agent).Some? ==> |Agent(agent).value| == |agent|)
  {
  }

  lemma CredentialsSize(h: Section)
    requires h.Writable()
    ensures 0 < |Credentials(h)| < TWO_32
  {
  }

  /** The credentials, and the end of the header section. */
  method WriteCredentials(w: TlsWriter, value: bytes) returns (err: Err)
    requires w.Valid() && !w.Full() && |value| < TWO_32
    modifies w.tls`calls, w.tls`sent, w.data`size, w.data.buffer
    ensures w.Valid()
    ensures err == Ok ==> w.Accepted() == old(w.Accepted()) + value + CRLF + CRLF && !w.Full() && value != []
    ensures value == [] ==> err == InvalidInput && w.tls.sent <= old(w.Accepted())
    ensures w.tls.behaviour.Reliable() ==> (err == Ok <==> value != [])
  {
    err := w.WriteData(value);
    if err != Ok { return; }
    err := w.WriteData(CRLF);
    if err != Ok { return; }
    err := w.WriteData(CRLF);
  }

  /** The C string in front of the first NUL. */
  function Text(memory: bytes): bytes {
    memory[..IndexOf(memory, NUL)]
  }

  lemma TextEmpty(memory: bytes)
    requires memory != []
    ensures Text(memory) == [] <==> memory[0] == NUL
  {
  }
}
