/** The response builder of handle_connection.c (httpresponse): a first-match decision
    list over the parsed request and the file it names, ending in a 200 reply whose head
    is assembled with strcat and copied, followed by the file's bytes, into one buffer.
    The filesystem is an input: a map from the paths open() can open to what fstat,
    lseek, malloc and read report for that file. */
module Response {
  import opened CStrings
  import opened Request
  import opened ContentTypes

  const RootDir: string := "root"
  const HttpVer: string := "1.0"

  /** The 400 and 404 replies: a status line, a JSON content type, a Content-Length and,
      after the blank line, the body. */
  function JsonErrorReply(status: string, contentLength: string, body: string): string {
    "HTTP 1.0 " + status + "\r\nContent-Type: application/json\r\nContent-Length: " + contentLength
    + "\r\n\r\n" + body
  }

  const BadRequestBody: string := "{'error':'Bad request','message':'Request body could not be read properly.',}"
  const NotFoundBody: string := "{'error':'Not Found','message':'Unable to find the file at the given path.',}"

  const BadRequestReply: string := JsonErrorReply("400 Bad Request", "77", BadRequestBody)
  const NotImplementedReply: string := "HTTP 1.0 " + "501 Not Implemented"
  const NotFoundReply: string := JsonErrorReply("404 Not Found", "77", NotFoundBody)
  const ForbiddenReply: string := "HTTP 1.0 " + "403 Forbidden"

  /** S_IRUSR: the owner-read permission bit of st_mode. */
  const OwnerRead: bv32 := 0x100

  /** What the system calls report for one file that open() succeeds on. */
  datatype FileInfo = FileInfo(
    mode: Option<bv32>,      // st_mode as fstat reports it; None when fstat fails
    endOffset: Option<nat>,  // lseek(fd, 0, SEEK_END); None when it fails
    rewindOk: bool,          // lseek(fd, 0, SEEK_SET) succeeds
    allocOk: bool,           // malloc of the file size returns a buffer
    readOk: bool,            // read does not fail
    data: string)            // the bytes read finds from the start of the file

  /** The files open(path, O_RDONLY) succeeds on, by path. */
  type FileSystem = map<string, FileInfo>

  /** ROOT_DIR followed by the target, as sprintf("%s%s") joins them. */
  function FilePath(target: string): string {
    RootDir + target
  }

  /** is_file_forbidden: fstat fails or the owner may not read the file. */
  predicate IsFileForbidden(f: FileInfo) {
    f.mode.None? || OwnerRead & f.mode.value == 0
  }

  /** get_file_size: the end offset, or -1 when rewinding to the start fails; a failed
      SEEK_END also comes out as -1. */
  function GetFileSize(f: FileInfo): (r: int)
    ensures r == -1 <==> !f.rewindOk || f.endOffset.None?
    ensures r != -1 ==> f.endOffset == Some(r)
  {
    if !f.rewindOk then -1
    else match f.endOffset
      case None => -1
      case Some(n) => n
  }

  /** What read(fd, buf, n) returns: -1 on failure, otherwise as many bytes as the file
      holds, up to n. */
  function ReadCount(f: FileInfo, n: nat): (r: int)
    ensures r == -1 <==> !f.readOk
    ensures r != -1 ==> 0 <= r <= n && r <= |f.data|
    ensures f.readOk && n <= |f.data| ==> r == n
  {
    if !f.readOk then -1
    else if n <= |f.data| then n
    else |f.data|
  }

  /** strstr(target, "..") != NULL. */
  predicate ContainsDotDot(target: string) {
    exists i :: 0 <= i < |target| - 1 && target[i] == '.' && target[i + 1] == '.'
  }

  /** The head of a 200 reply as the strcat calls assemble it: the literal prefix "HTTP: ",
      the version, the status, the content type and the size printed with "%d" after an
      (int) cast. */
  function SuccessHead(contentType: string, size: int): string {
    "HTTP: " + HttpVer + " 200 OK\r\n"
    + "Content-type: " + contentType + "\r\n"
    + "Content-length: " + FormatInt(ToInt32(size)) + "\r\n\r\n"
  }

  /** httpresponse's result: a reply (return value 0) or a failure (-1). */
  datatype Outcome = Reply(bytes: string) | Fatal

  predicate IsErrorReply(bytes: string) {
    bytes == BadRequestReply || bytes == NotImplementedReply || bytes == NotFoundReply
    || bytes == ForbiddenReply
  }

  /** The decision list of httpresponse, first match wins. */
  function Respond(req: HttpRequest, fs: FileSystem): Outcome {
    if req.Invalid? then Reply(BadRequestReply)
    else if req.verb != "GET" then Reply(NotImplementedReply)
    else if FilePath(req.target) !in fs then Reply(NotFoundReply)
    else
      var f := fs[FilePath(req.target)];
      if IsFileForbidden(f) || ContainsDotDot(req.target) then Reply(ForbiddenReply)
      else
        var size := GetFileSize(f);
        if size == -1 || !f.allocOk then Fatal
        else if ReadCount(f, size) != size then Fatal
        else Reply(SuccessHead(ContentTypeOf(req.target), size) + f.data[..size])
  }

  /** strdup of a constant reply. */
  method Strdup(s: string) returns (a: array<char>)
    ensures fresh(a) && a[..] == s
  {
    a := new char[|s|](i requires 0 <= i < |s| => s[i]);
  }

  /** read(fd, buf, buf.Length): fills the front of `buf` with the file's first bytes and
      returns how many, or -1. */
  method ReadInto(f: FileInfo, buf: array<char>) returns (count: int)
    modifies buf
    ensures count == ReadCount(f, buf.Length)
    ensures count != -1 ==> buf[..count] == f.data[..count]
    ensures count != -1 ==> buf[count..] == old(buf[count..])
    ensures count == -1 ==> buf[..] == old(buf[..])
  {
    count := ReadCount(f, buf.Length);
    if count == -1 {
      return;
    }
    for i := 0 to count
      invariant buf[..i] == f.data[..i]
      invariant buf[count..] == old(buf[count..])
    {
      buf[i] := f.data[i];
    }
  }

  /** The two memcpy calls: the head, then the first `n` bytes of the file buffer, into a
      buffer allocated for both. */
  method Assemble(head: string, fileBuf: array<char>, n: nat) returns (resp: array<char>)
    requires n <= fileBuf.Length
    ensures fresh(resp) && resp[..] == head + fileBuf[..n]
  {
    var headersLength := |head|;
    resp := new char[headersLength + n];
    for i := 0 to headersLength
      invariant resp[..i] == head[..i]
    {
      resp[i] := head[i];
    }
    for j := 0 to n
      invariant resp[..headersLength] == head
      invariant resp[headersLength..headersLength + j] == fileBuf[..j]
    {
      resp[headersLength + j] := fileBuf[j];
    }
    assert resp[..] == resp[..headersLength] + resp[headersLength..];
  }

  /** httpresponse: returns 0 with the reply in `resp` (of `respSize` bytes), or -1 on a
      failed size query, allocation or read, where the C code leaves `resp` unset. */
  method HttpResponse(req: HttpRequest, fs: FileSystem) returns (rc: int, resp: array<char>, respSize: nat)
    ensures rc == 0 || rc == -1
    ensures rc == -1 <==> Respond(req, fs).Fatal?
    ensures rc == 0 ==> resp[..] == Respond(req, fs).bytes && respSize == resp.Length
    ensures fresh(resp)
  {
    if req.Invalid? {
      resp := Strdup(BadRequestReply);
      return 0, resp, |BadRequestReply|;
    }
    if req.verb != "GET" {
      resp := Strdup(NotImplementedReply);
      return 0, resp, |NotImplementedReply|;
    }

    var head := "HTTP: ";
    var contentType := ContentTypeOf(req.target);
    var path := FilePath(req.target);
    if path !in fs {
      resp := Strdup(NotFoundReply);
      return 0, resp, |NotFoundReply|;
    }
    var f := fs[path];
    if IsFileForbidden(f) || ContainsDotDot(req.target) {
      resp := Strdup(ForbiddenReply);
      return 0, resp, |ForbiddenReply|;
    }

    var fileBytes := GetFileSize(f);
    resp := new char[0];
    if fileBytes == -1 {
      return -1, resp, 0;
    }
    var lengthField := FormatInt(ToInt32(fileBytes));
    if !f.allocOk {
      return -1, resp, 0;
    }
    var fileBuf := new char[fileBytes];
    var readBytes := ReadInto(f, fileBuf);
    if readBytes == -1 || fileBytes != readBytes {
      return -1, resp, 0;
    }

    head := head + HttpVer;
    head := head + " 200 OK\r\n";
    head := head + "Content-type: ";
    head := head + contentType;
    head := head + "\r\n";
    head := head + "Content-length: ";
    head := head + lengthField;
    head := head + "\r\n\r\n";
    assert head == SuccessHead(contentType, fileBytes);

    resp := Assemble(head, fileBuf, fileBytes);
    respSize := |head| + fileBytes;
    rc := 0;
  }

  /** The Content-Length of both JSON error replies is the length of their bodies. */
  lemma ErrorBodyLengths()
    ensures BadRequestReply == JsonErrorReply("400 Bad Request", Decimal(|BadRequestBody|), BadRequestBody)
    ensures NotFoundReply == JsonErrorReply("404 Not Found", Decimal(|NotFoundBody|), NotFoundBody)
  {
    assert |BadRequestBody| == 77 && |NotFoundBody| == 77;
    assert Decimal(77) == "77";
  }

  /** A 200 reply starts "HTTP:" and so is never one of the error replies, which start
      "HTTP 1.0" and differ in the last digit of their status. */
  lemma RepliesDistinct(contentType: string, size: int, data: string)
    ensures !IsErrorReply(SuccessHead(contentType, size) + data)
    ensures BadRequestReply != NotImplementedReply && BadRequestReply != NotFoundReply
    ensures BadRequestReply != ForbiddenReply && NotImplementedReply != NotFoundReply
    ensures NotImplementedReply != ForbiddenReply && NotFoundReply != ForbiddenReply
  {
    assert BadRequestReply[11] == '0' && NotImplementedReply[11] == '1';
    assert NotFoundReply[11] == '4' && ForbiddenReply[11] == '3';
    var b := SuccessHead(contentType, size) + data;
    assert b[4] == ':';
    assert BadRequestReply[4] == ' ' && NotImplementedReply[4] == ' ';
    assert NotFoundReply[4] == ' ' && ForbiddenReply[4] == ' ';
  }

  /** The error replies, each exactly when its step of the decision list is the first to
      match: 400 for an invalid request, then 501 for a verb other than GET, then 404 when
      the file does not open, then 403 for a file the owner may not read or a target
      with "..". */
  lemma ErrorReplies(req: HttpRequest, fs: FileSystem)
    ensures Respond(req, fs) == Reply(BadRequestReply) <==> req.Invalid?
    ensures Respond(req, fs) == Reply(NotImplementedReply) <==> req.Valid? && req.verb != "GET"
    ensures Respond(req, fs) == Reply(NotFoundReply) <==>
              req.Valid? && req.verb == "GET" && FilePath(req.target) !in fs
    ensures Respond(req, fs) == Reply(ForbiddenReply) <==>
              req.Valid? && req.verb == "GET" && FilePath(req.target) in fs
              && (IsFileForbidden(fs[FilePath(req.target)]) || ContainsDotDot(req.target))
  {
    if req.Valid? && FilePath(req.target) in fs {
      var f := fs[FilePath(req.target)];
      var size := GetFileSize(f);
      if size != -1 && ReadCount(f, size) == size {
        RepliesDistinct(ContentTypeOf(req.target), size, f.data[..size]);
      }
    }
    RepliesDistinct([], 0, []);
  }

  /** The ".." check comes after open: a target with ".." whose file does not open gets
      404, not 403. */
  lemma DotDotAfterOpen(req: HttpRequest, fs: FileSystem)
    requires req.Valid? && req.verb == "GET" && ContainsDotDot(req.target)
    ensures Respond(req, fs) == Reply(NotFoundReply) <==> FilePath(req.target) !in fs
    ensures FilePath(req.target) in fs ==> Respond(req, fs) == Reply(ForbiddenReply)
  {
    ErrorReplies(req, fs);
  }

  /** httpresponse fails exactly when a readable GET target opens but its size cannot be
      had, the buffer cannot be allocated, or read fails or comes up short. */
  lemma FatalPaths(req: HttpRequest, fs: FileSystem)
    ensures Respond(req, fs).Fatal? <==>
              req.Valid? && req.verb == "GET" && FilePath(req.target) in fs
              && !IsFileForbidden(fs[FilePath(req.target)]) && !ContainsDotDot(req.target)
              && var f := fs[FilePath(req.target)];
                 (GetFileSize(f) == -1 || !f.allocOk || !f.readOk || |f.data| < GetFileSize(f))
  {
  }

  /** The Content-length field states the body's length for every file under 2^31 bytes. */
  lemma LengthFieldRoundTrip(size: nat)
    requires size < TwoTo31
    ensures AllDigits(FormatInt(ToInt32(size)))
    ensures ParseDecimal(FormatInt(ToInt32(size))) == size
  {
  }

  /** A reply other than the four errors is a 200: the head for the target's content type
      and size, then exactly the file's first `size` bytes, `size` being what lseek
      reported; so its length is the head's length plus the file size. */
  lemma SuccessLayout(req: HttpRequest, fs: FileSystem)
    requires Respond(req, fs).Reply? && !IsErrorReply(Respond(req, fs).bytes)
    ensures req.Valid? && req.verb == "GET" && FilePath(req.target) in fs
    ensures var f := fs[FilePath(req.target)];
            var size := GetFileSize(f);
            var head := SuccessHead(ContentTypeOf(req.target), size);
            0 <= size <= |f.data| && f.endOffset == Some(size)
            && Respond(req, fs).bytes[..|head|] == head
            && Respond(req, fs).bytes[|head|..] == f.data[..size]
            && |Respond(req, fs).bytes| == |head| + size
  {
    ErrorReplies(req, fs);
  }
}
