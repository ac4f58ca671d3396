# httpserver-c: the request/response pipeline of one connection

This project models `src/handle_connection.c` of a small HTTP/1.0 static-file server and
proves properties of the model. A connection runs as follows:

1. It receives one buffer with `recv`.
2. `httprequest` cuts the buffer into a request with `strsep`: the verb, the target, the
   protocol version, the header lines up to the line `"\r"`, and then one body line.
3. `httpresponse` goes through a first-match decision list: 400, 501, 404, 403, a fatal
   -1, and finally 200.
4. The 200 reply is assembled from a head built with `strcat` followed by the file's
   bytes. `parse_content_type` supplies its content type.
5. The reply is sent.

The modules:

- `CStrings` (`cstrings.dfy`) models the C library behaviour that the pipeline relies on:
  - `strsep` over a cursor that is the suffix of the buffer the `char *` points at (None
    is NULL);
  - `strrchr`;
  - the NUL terminator of the received buffer;
  - `sprintf("%d", (int) n)`, modelled as a 32-bit wrap-around followed by decimal
    formatting.
- `Request` (`request.dfy`) models `httprequest`:
  - `Parse` is the specification;
  - `ParseRequest` is the imperative parser, with the header loop in `SkipHeaders`;
  - there are round-trip lemmas against `Compose`, which builds a request from its pieces.
- `ContentTypes` (`content_type.dfy`) models `parse_content_type`.
- `Response` (`response.dfy`) models `httpresponse`, `get_file_size` and
  `is_file_forbidden`. The filesystem is a map from the paths `open` succeeds on to what
  `fstat`, `lseek`, `malloc` and `read` report for that file:
  - `Respond` is the decision list;
  - `HttpResponse` builds the reply in an array with the two copies of the C code.
- `Connection` (`connection.dfy`) models `handle_connection`:
  - `Serve` is the outcome function;
  - `HandleConnection` runs the imperative parser and response builder.

Where this model deviates from the C code:

- **Undefined behaviour in the parser returns `Invalid`.** `httprequest` has undefined
  behaviour in two cases. Both are modelled as an invalid request, so the client gets
  the 400 reply:
  - No line is exactly `"\r"`. The loop at line 48 then passes NULL to `strcmp`.
  - The `"\r"` line is the last piece of the buffer. Line 52 then passes NULL to
    `strdup`.
- **A target without a '.' gets `text/plain`.** In C, `strrchr` returns NULL for such a
  target and that NULL reaches `strcmp` at line 84, which is undefined behaviour.
  `parse_content_type` runs at line 125, before the `open` at line 131. So for a dotless
  GET target, every later outcome (404, 403, -1 or 200) lies past that undefined
  behaviour. What `ErrorReplies`, `DotDotAfterOpen`, `FatalPaths` and `SuccessLayout` say
  about such targets describes the chosen semantics, not the C code.

Where the C code differs from a full HTTP/1.0 reading (the model follows the C code in
both):

- **The body is one line.** Line 52 takes a single `strsep` token after the `"\r"` line:
  the text up to the next `'\n'`, not the rest of the buffer.
- **A `'\n'` is not required for validity.** Lines 33-38 keep `is_valid` set as soon
  as the buffer holds two spaces (`RequestLineCutIffTwoSpaces`), because `strsep` with
  `"\n"` hands out the whole remainder when the buffer has no newline. Such a request
  still ends up invalid, because no `"\r"` line can follow.

The model follows the C literals:

- The 200 head begins `"HTTP: 1.0 200 OK"`.
- Its header names are `Content-type` and `Content-length`.
- The 501 and 403 replies are bare status lines.

## Model

| member | source | states |
|---|---|---|
| CStrings.Strsep | src/handle_connection.c:33-38 | strsep on one delimiter: a NULL cursor yields a NULL token; otherwise the cursor is the token, the delimiter and the new cursor, or the whole cursor is the token and the cursor becomes NULL |
| CStrings.StrsepTokenFree | src/handle_connection.c:33-45 | a token handed out by strsep never contains its delimiter |
| CStrings.LastIndexOf | src/handle_connection.c:81 | strrchr: None exactly when the character is absent; otherwise it points at the character and no later position holds it |
| CStrings.CStr | src/handle_connection.c:212-215 | the parser sees the received bytes up to the first NUL: a prefix of the buffer, NUL-free, and followed by a NUL when it is shorter |
| CStrings.Decimal | src/handle_connection.c:154 | "%d" of a non-negative value is a non-empty digit string that reads back as the value, with no leading zero unless it is the single digit "0" for zero |
| CStrings.ToInt32 | src/handle_connection.c:154 | the (int) cast lands in the 32-bit range, is congruent to its argument modulo 2^32, and leaves values already in range unchanged |
| Request.DefaultDocument | src/handle_connection.c:54-55 | the target "/" becomes "/index.html" and every other target is left unchanged |
| Request.DefaultDocumentIdempotent | src/handle_connection.c:54-55 | rewriting twice is rewriting once, and the result is never "/" |
| Request.SkipHeaders | src/handle_connection.c:47-50 | the header loop hands back a cursor exactly when a line that is exactly "\r" is found and followed by a '\n', and that cursor is the (possibly empty) text just past the first such line |
| Request.ParseRequest | src/handle_connection.c:28-56 | the imperative parser produces exactly the request Parse describes |
| Request.SkipHeaderBlock | src/handle_connection.c:47-50 | header lines (none of them "\r") followed by the "\r" line are skipped, and parsing resumes just after that line |
| Request.HeaderSplit | src/handle_connection.c:47-50 | whenever the loop finds a "\r" line, everything before it is a block of header lines none of which is "\r" |
| Request.ParseCompose | src/handle_connection.c:28-56 | a request composed from a space-free verb and target, a version line, header lines, "\r", a body line and any tail parses back to those fields, with the target rewritten by DefaultDocument |
| Request.ParseDecompose | src/handle_connection.c:33-45 | every valid parse comes from such pieces: the verb is the text before the first space, the target lies between the first two spaces, the version runs to the end of the line, and the body is the line after "\r" |
| Request.RequestLineCutIffTwoSpaces | src/handle_connection.c:31-41 | is_valid stays set exactly when the buffer holds at least two spaces, and every valid request passed that check |
| ContentTypes.Extension | src/handle_connection.c:81 | strrchr(target, '.'): absent exactly when the target has no '.'; otherwise a suffix of the target that starts with its only '.' |
| ContentTypes.ExtensionOfSuffix | src/handle_connection.c:81-91 | a target ends in a dot followed by dot-free text exactly when that text is its extension |
| ContentTypes.ContentTypeOfExtension | src/handle_connection.c:80-91 | each of the four non-default types is chosen exactly when strrchr returns its extension, and text/plain exactly when it returns none of the four (or NULL) |
| ContentTypes.ContentTypeByExtension | src/handle_connection.c:78-92 | each of text/html, image/png, image/jpg and image/ico results exactly when the target ends in .html, .png, .jpg or .ico respectively, and text/plain results exactly when it ends in none of them |
| ContentTypes.ExtensionsExclusive | src/handle_connection.c:84-91 | no target ends in two of the four extensions, so the order of the checks does not matter |
| Response.GetFileSize | src/handle_connection.c:66-76 | -1 exactly when the rewind or the end seek fails; otherwise the end offset |
| Response.ReadCount | src/handle_connection.c:163 | read returns -1 exactly when it fails; otherwise at most the requested count and at most the file's length, and the full count when the file holds enough |
| Response.ReadInto | src/handle_connection.c:163 | the buffer's front holds the file's first bytes, as many as read reports, and the rest of the buffer is left as it was (all of it when read fails) |
| Response.Strdup | src/handle_connection.c:110 | a fresh buffer holding a copy of the constant reply |
| Response.Assemble | src/handle_connection.c:183-189 | a fresh buffer of head length plus file size holding the head and then the file buffer's bytes |
| Response.HttpResponse | src/handle_connection.c:106-194 | returns 0 or -1; -1 exactly on the fatal outcome of Respond; on 0 a freshly allocated buffer holds exactly Respond's reply and resp_size is its length |
| Response.ErrorBodyLengths | src/handle_connection.c:15-17 | the Content-Length value in the 400 and 404 constants is the decimal length of their JSON bodies |
| Response.RepliesDistinct | src/handle_connection.c:15-18 | a 200 reply is never one of the four constant replies, and the four constants are pairwise different (six inequalities) |
| Response.ErrorReplies | src/handle_connection.c:108-146 | each constant reply comes exactly when its step is the first to match: 400 for an invalid request; 501 for a verb other than GET; 404 when open fails; 403 when the file lacks the owner-read bit or the target contains ".." |
| Response.DotDotAfterOpen | src/handle_connection.c:131-146 | a GET for a target with ".." gets 404 exactly when the file does not open, and otherwise gets 403 |
| Response.FatalPaths | src/handle_connection.c:148-168 | the result is -1 exactly when an openable, readable GET target's size query fails, the allocation fails, or read fails or comes up short |
| Response.LengthFieldRoundTrip | src/handle_connection.c:179-180 | for a file under 2^31 bytes, the Content-length field is a digit string that reads back as the file size |
| Response.SuccessLayout | src/handle_connection.c:170-189 | any other reply is a GET of an openable file: its first bytes are the head for the target's content type and size; the rest are exactly the file's first size bytes, where size is the lseek end offset; its length is the head length plus the size |
| Connection.HandleConnection | src/handle_connection.c:196-235 | running the imperative parser and response builder gives the return value and sent reply of Serve |
| Connection.NothingSentOnFailure | src/handle_connection.c:204-229 | nothing is sent exactly when recv fails, recv returns no bytes, or httpresponse fails; the result is 0 exactly when a reply was sent successfully, and -1 otherwise |
| Connection.SentIsReply | src/handle_connection.c:212-224 | what is sent is the reply to the request read from the received bytes up to their first NUL |
| Connection.IndexRequestParse | src/handle_connection.c:28-56 | "GET / HTTP/1.0\r" followed by header lines and the "\r" line parses to a GET of /index.html, with the version keeping its trailing '\r' |
| Connection.IndexDocumentReply | src/handle_connection.c:120-189 | a readable two-byte root/index.html is answered with the text/html head for two bytes, followed by the file |
| Connection.ServesIndexDocument | src/handle_connection.c:196-235 | a connection that sends such a request receives that reply, and its result is 0 exactly when send succeeds |

Some definitions carry no contract of their own. Their properties are stated by the lemmas and methods above. Line numbers refer to `src/handle_connection.c`.

- Specification functions:
  - `Request.Parse` for lines 28-56;
  - `ContentTypes.ContentTypeOf` for lines 78-92;
  - `Response.Respond` for lines 106-194;
  - `Connection.Serve` for lines 196-235.
- `Request.SkipLines` models the loop at lines 47-50 as a search for the first line that is exactly `"\r"`. `SkipHeaders`, `SkipHeaderBlock` and `HeaderSplit` characterise it.
- Predicates:
  - `Response.IsFileForbidden` for lines 94-104;
  - `Response.ContainsDotDot` for the `strstr` at line 141.
- `Response.FilePath` is the path `"root"` followed by the target, joined by the `sprintf` at lines 128-129.
- `Response.SuccessHead` is the `"HTTP: "` initialiser at line 120 followed by the `strcat` chain at lines 172-181. `HttpResponse` builds it that way, and `SuccessLayout` and `LengthFieldRoundTrip` state its layout.
- `CStrings.FormatInt` is the `"%d"` of line 154, with a `-` sign for a negative value. `Decimal` and `ToInt32` characterise it.
- The reply constants of lines 15-18:
  - `Response.BadRequestReply` and `Response.NotFoundReply` are built by `Response.JsonErrorReply` from a status, the length field `"77"` and a JSON body;
  - `Response.NotImplementedReply` and `Response.ForbiddenReply` are bare status lines.

  `ErrorBodyLengths` and `RepliesDistinct` state their properties.

## Left out

- `main.c`, `network.c`, `sigchld.c` and `network.h` are not part of this model. They hold socket setup, the fork-per-connection accept loop and signal handling.
- The system calls are inputs rather than calls:
  - `recv` is its result;
  - `open` is membership of the path in the filesystem map;
  - `fstat`, `lseek`, `malloc` and `read` are the fields of `FileInfo`;
  - `send` is a success flag.
- A partial `send` is not modelled. Neither is `read`'s kernel cap on one transfer.
- `printf` and `perror` logging is not modelled.
- `strdup`, `malloc`, `free` and `close` are not modelled as memory or descriptor management. This includes `free` of an unset `resp` in `handle_connection`.
- Characters stand for bytes, both in the request and in the file data.
- The write of `"/index.html"` into the 2-byte copy of the target (line 55) overflows that buffer. The model gives the rewritten target as a fresh string and does not model the overflow.
- The write of `buf[buf_size]` when `recv` fills all 4096 bytes (line 212) is out of bounds. `Serve` and `HandleConnection` require fewer than 4096 received bytes instead, and the overflow is not modelled.
- Request.Parse: both undefined-behaviour cases of `httprequest` give `Invalid`, because C defines no result for either. The cases are a missing `"\r"` line (line 48) and a `"\r"` line that is last (line 52).
- ContentTypes.ContentTypeOf: a target without a '.' gets `text/plain`, because the C comparison on a NULL extension has no defined result.
- Request.SkipHeaders: this helper method is split out of `httprequest` to hold the header loop. It is not a function of the C code.
- Response.HttpResponse: on the -1 paths it returns an empty array, where the C code leaves `*resp` unset.
- Response.LengthFieldRoundTrip: the round trip is proved only for files under 2^31 bytes. Beyond that, the `(int)` cast at line 154 wraps and the field no longer states the size.
