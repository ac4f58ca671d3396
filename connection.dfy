/** handle_connection: one request read from the socket, parsed, answered and sent. The
    socket is reduced to what recv handed over and whether send succeeds. */
module Connection {
  import opened CStrings
  import opened Request
  import opened Response
  import opened ContentTypes

  /** RECV_BUFSIZE: the size of the receive buffer. */
  const RecvBufSize: nat := 4096

  /** What recv returned: -1, or the bytes received (none when the client closed). */
  datatype RecvResult = RecvFailed | Received(data: string)

  /** handle_connection's return value and the reply it hands to send, if any. */
  datatype ConnectionResult = ConnectionResult(rc: int, sent: Option<string>)

  /** The outcome of one connection: a failed or empty recv and a failed response end it
      with -1 before anything is sent; otherwise the reply is sent, and the result is 0
      exactly when send succeeds. The buffer is read as a C string, up to its first NUL. */
  function Serve(received: RecvResult, fs: FileSystem, sendOk: bool): ConnectionResult
    requires received.Received? ==> |received.data| < RecvBufSize
  {
    match received
    case RecvFailed => ConnectionResult(-1, None)
    case Received(data) =>
      if |data| == 0 then ConnectionResult(-1, None)
      else
        match Respond(Parse(CStr(data)), fs)
        case Fatal => ConnectionResult(-1, None)
        case Reply(bytes) => ConnectionResult(if sendOk then 0 else -1, Some(bytes))
  }

  /** handle_connection, calling the parser and the response builder. */
  method HandleConnection(received: RecvResult, fs: FileSystem, sendOk: bool) returns (rc: int, sent: Option<string>)
    requires received.Received? ==> |received.data| < RecvBufSize
    ensures ConnectionResult(rc, sent) == Serve(received, fs, sendOk)
  {
    if received.RecvFailed? {
      return -1, None;
    }
    if |received.data| == 0 {
      // the client closed the connection
      return -1, None;
    }
    var req := ParseRequest(CStr(received.data));
    var respRc, resp, respSize := HttpResponse(req, fs);
    if respRc == -1 {
      return -1, None;
    }
    assert resp[..respSize] == resp[..];
    sent := Some(resp[..respSize]);
    rc := if sendOk then 0 else -1;
  }

  /** Nothing is sent when recv fails or returns no bytes, or when httpresponse fails; and
      the connection ends with 0 exactly when a reply was sent successfully. */
  lemma NothingSentOnFailure(received: RecvResult, fs: FileSystem, sendOk: bool)
    requires received.Received? ==> |received.data| < RecvBufSize
    ensures Serve(received, fs, sendOk).sent.None? <==>
              received.RecvFailed? || |received.data| == 0
              || Respond(Parse(CStr(received.data)), fs).Fatal?
    ensures Serve(received, fs, sendOk).rc == 0 <==> Serve(received, fs, sendOk).sent.Some? && sendOk
    ensures Serve(received, fs, sendOk).rc in {0, -1}
  {
  }

  /** What is sent is the reply to the request in the received bytes, whatever follows a
      NUL in them being ignored. */
  lemma SentIsReply(received: RecvResult, fs: FileSystem, sendOk: bool)
    requires received.Received? ==> |received.data| < RecvBufSize
    requires Serve(received, fs, sendOk).sent.Some?
    ensures received.Received? && Respond(Parse(CStr(received.data)), fs).Reply?
    ensures Serve(received, fs, sendOk).sent.value == Respond(Parse(CStr(received.data)), fs).bytes
  {
  }

  /** A readable two-byte index.html is served as html: the head for two bytes, then the
      file. */
  lemma IndexDocumentReply(fs: FileSystem)
    requires fs == map["root/index.html" := FileInfo(Some(0x1a4), Some(2), true, true, true, "hi")]
    ensures Respond(Valid("GET", IndexDocument, "HTTP/1.0\r", []), fs)
              == Reply(SuccessHead("text/html", 2) + "hi")
  {
    var f := fs["root/index.html"];
    assert FilePath(IndexDocument) == "root/index.html";
    assert !IsFileForbidden(f) && GetFileSize(f) == 2 && ReadCount(f, 2) == 2 && f.data[..2] == "hi";
    assert !ContainsDotDot(IndexDocument) by {
      forall i | 0 <= i < |IndexDocument| - 1
        ensures !(IndexDocument[i] == '.' && IndexDocument[i + 1] == '.')
      {
      }
    }
    assert ContentTypeOf(IndexDocument) == "text/html" by {
      ExtensionOfSuffix(IndexDocument, ".html");
    }
  }

  /** The request line "GET / HTTP/1.0\r" with header lines parses to a GET of the index document. */
  lemma IndexRequestParse(headers: string)
    requires HeaderBlock(headers) && '\0' !in headers
    ensures Parse(CStr(Compose("GET", "/", "HTTP/1.0\r", headers, "", "")))
              == Valid("GET", IndexDocument, "HTTP/1.0\r", [])
  {
    var data := Compose("GET", "/", "HTTP/1.0\r", headers, "", "");
    assert '\0' !in data;
    CStrWhole(data);
    ParseCompose("GET", "/", "HTTP/1.0\r", headers, "", "");
  }

  /** A request for "/" is answered from root/index.html, with any header lines. */
  lemma ServesIndexDocument(headers: string, sendOk: bool)
    requires HeaderBlock(headers) && '\0' !in headers && |headers| < RecvBufSize - 18
    ensures var data := Compose("GET", "/", "HTTP/1.0\r", headers, "", "");
            var fs := map["root/index.html" := FileInfo(Some(0x1a4), Some(2), true, true, true, "hi")];
            Serve(Received(data), fs, sendOk)
              == ConnectionResult(if sendOk then 0 else -1, Some(SuccessHead("text/html", 2) + "hi"))
  {
    var fs := map["root/index.html" := FileInfo(Some(0x1a4), Some(2), true, true, true, "hi")];
    IndexRequestParse(headers);
    IndexDocumentReply(fs);
  }
}
