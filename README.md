# shellcrosshttp gateway core, modelled in Dafny

shellcrosshttp is a single-threaded HTTP gateway in C (`main.c`). It keeps
a linked list of connected clients, each with a 50 KiB request buffer. On
every readiness of a client's socket it receives more bytes, appends them
and hands the buffer to a GET or a POST handler. A GET request carries a
URL-encoded shell command. The command is decoded and run with `popen`,
and its output is sent back. A POST request carries a multipart upload,
which is written under `/tmp`. Each handled request gets a response, and
then the client's record is dropped.

The project models:

- `CStrings`: the C-string conventions the code relies on. A byte is a
  `char`, a C string runs up to the first NUL, and `strstr` is `Find`.
- `ContentTypes`: `get_content_type`.
- `Decoding`: `decodeHTML`, as a specification function `Decoded` and as
  the in-place method `DecodeHTML` proved against it.
- `Outcomes`: what a handled request leads to, and `serve_command`. Every
  access the C code makes outside the memory it owns (undefined behaviour)
  is a `Fault` outcome, at which the model stops.
- `GetRequests` and `PostRequests`: what `handleGET` and `handlePOST` do
  to a request buffer (`GetEffect`, `PostEffect`), and what that implies.
- `Clients`: the `client_info` record as a class. It holds the request
  buffer as an `array`, `Append` models `recv`, and `HandleGet` and
  `HandlePost` run on the buffer in place. Their loops are proved against
  the effect functions. `StepEffect` is one pass of the main loop over a
  ready client.
- `Connections`: the client list as a class holding a `seq` of records,
  head first. It has `get_client`, `drop_client`, the accept branch and
  the per-client step of `main`.

Where the code and its documented intent differ, the model follows the
code:

- An unsupported escape `%xy` decodes to a single `%`. The two characters
  after it are dropped, not passed through.
- Dispatch compares only the five bytes `"POST "` (`strncmp("POST /", …, 5)`).
  A request starting `"POST x"` is therefore handled as a POST.
- `handleGET` never checks for `command=`. The command is taken from byte
  14 on (`6 + strlen("command=")`), so the nine bytes after `"GET /"` are
  skipped unread. A request `GET /?command=ls` runs `ls`. The
  documented `GET /command=ls` runs `s`.
- The favicon test compares 14 bytes, `"GET /favicon.i"`.
- A POST request without a boundary marker is never answered 400 by
  `handlePOST`. It waits until the buffer is full and is then answered 400
  by the main loop, or is dropped silently if the peer disconnects first.
  A POST request whose `filename=` or
  `Content-Type:` is missing dereferences a NULL pointer.
- An uploaded file holds the `'\n'` that ends the part's `Content-Type`
  line. It also keeps the `'\r'` before the closing boundary line.
- `get_client` creates its record with socket 0, not with the socket it
  was asked for.

The environment enters as parameters:

- `recv` is a `chunk` parameter, empty when `recv` returns less than 1.
- Whether `popen` succeeds is a `spawns` parameter.
- The accepted socket is an `accepted` parameter.

## Model

| member | source | states |
|---|---|---|
| CStrings.StrAt | main.c:417 | the C string at `i` (what `strlen` measures) is the run of bytes from `i` that stops at the first NUL, or at the end of the buffer |
| CStrings.Find | main.c:357 | `strstr`: a result of Some(k) is an occurrence of the needle at k |
| CStrings.FindFirst | main.c:357 | the occurrence found is the first one, and None means the needle occurs nowhere |
| CStrings.FindIs | main.c:364 | an occurrence with none before it is the one `strstr` returns |
| ContentTypes.LastDot | main.c:43 | `strrchr(path, '.')`: the index of a '.' with no '.' after it, or None exactly when the path holds no '.' |
| ContentTypes.ContentType | main.c:42-76 | `get_content_type`: a path with no '.' gets `application/octet-stream` |
| ContentTypes.ContentTypeFromTable | main.c:42-76 | every type returned is the default or the listed type of the path's extension |
| ContentTypes.ContentTypeListed | main.c:44-74 | a path whose text from the last '.' is one of the fourteen listed suffixes gets that suffix's MIME type |
| ContentTypes.ContentTypeUnlisted | main.c:42-76 | a path with no '.', or with an unlisted extension, gets `application/octet-stream` |
| ContentTypes.ContentTypeOfExtensionOnly | main.c:43-45 | only the text from the last '.' decides the type: any prefix before it is ignored |
| ContentTypes.HtmlShellIsHtml | main.c:222 | the fixed path "/.html" used by the responses resolves to `text/html` |
| Decoding.Decoded | main.c:267-306 | the decoded text is never longer than the command, and at least a third of its length |
| Decoding.DecodedKeepsLengthIff | main.c:274-301 | decoding keeps the length exactly when no '%' stands before the last two positions |
| Decoding.DecodedHasNoPlus | main.c:271-272 | every '+' becomes a space: no '+' survives decoding |
| Decoding.DecodedHasNoNul | main.c:267-306 | decoding a C string yields no NUL |
| Decoding.DecodeEncode | main.c:274-300 | every '+'-free text is the decoding of its encoding (space as '+', "%2F", "%7E", "%25"), so the '+'-free texts are exactly the decoder's outputs |
| Decoding.DecodeHTML | main.c:267-306 | the loop writes `Decoded(cmd)` at the start of the buffer and leaves the rest of it untouched; it reports an overrun exactly when the decoded text is longer than the buffer |
| Outcomes.ServeOutcome | main.c:307-332 | `serve_command` ends in a fault, a 400, or a run; a command is run only when `popen` succeeds and what runs is the decoding of the request's command; a 400 without a run means `popen` failed |
| Outcomes.ServeCommand | main.c:307-332 | decoding into a zeroed 200-byte buffer, `popen`, then the length guard: the result is `ServeOutcome` |
| Outcomes.ServeRunsIff | main.c:318-331 | the decoded command is run and answered exactly when `popen` succeeds and the raw command is at most 100 bytes |
| Outcomes.LengthGuardAfterSpawn | main.c:315-329 | a command over 100 bytes whose decoding fits is still handed to `popen` before it is answered 400 |
| Outcomes.LongCommandFaults | main.c:311-315 | a '%'-free command of 200 bytes or more fills or overruns the 200-byte buffer |
| Outcomes.ServeIsTerminalOrFault | main.c:307-332 | `serve_command` never leaves the client waiting; it faults exactly when the decoded text needs 200 bytes or more |
| GetRequests.GetEffect | main.c:356-375 | the handler leaves a buffer of the same length; what it does is stated by the lemmas below |
| GetRequests.GetWaitsIff | main.c:357-358 | the client waits, with its buffer untouched, exactly when the request holds no "\r\n\r\n" |
| GetRequests.NonGetAnswered400 | main.c:362-373 | a complete request that does not start "GET /" is answered 400 |
| GetRequests.NoSpaceAnswered400 | main.c:359-366 | a complete request starting "GET /", other than the favicon, in which no space follows byte 14 once the header is cut at its terminator is answered 400 |
| GetRequests.FaviconAnswered200 | main.c:360-361 | a complete request starting "GET /favicon.i" gets the empty 200, whatever follows |
| GetRequests.TerminatorAfterLine | main.c:357 | a request line with no '\r' cannot hold the header terminator |
| GetRequests.SpaceAfterCommand | main.c:364 | the space found is the first one after the command |
| GetRequests.RequestLineCut | main.c:359-363 | cutting the header at the terminator leaves the request line's first 14 bytes and the command after them in place |
| GetRequests.GetRunsCommandAfterFixedSkip | main.c:362-369 | a complete "GET /" + any nine bytes + cmd + " " … serves exactly `cmd` |
| GetRequests.ShortGetTerminator | main.c:357 | in "GET /\r\n\r\nabcdels x" the header ends right after "GET /" |
| GetRequests.ShortGetPath | main.c:359-363 | with that header cut, byte 14 starts "ls x" |
| GetRequests.ShortGetRunsBytesAfterHeader | main.c:357-369 | the fixed skip reads past the header: "GET /\r\n\r\nabcdels x" runs "ls" |
| PostRequests.NameEnd | main.c:404-408 | the filename copy stops at a NUL or a '"' |
| PostRequests.NameEndSkips | main.c:404-408 | the copy passes no NUL and no '"' |
| PostRequests.NameEndIs | main.c:404-408 | the first NUL or '"' is where the copy stops |
| PostRequests.NewlineFrom | main.c:413-414 | the scan stops on a '\n' |
| PostRequests.NewlineFromSkips | main.c:413-414 | the scan passes no '\n', and None means there is no '\n' up to the end of the buffer |
| PostRequests.NewlineFromIs | main.c:413-414 | the first '\n' is where the scan stops |
| PostRequests.LastNewline | main.c:417-419 | the backward scan stays in [lo-1, hi] and stops on a '\n' when it stops at lo or above |
| PostRequests.LastNewlineSkips | main.c:417-419 | the backward scan passes no '\n' |
| PostRequests.LastNewlineIs | main.c:417-419 | the last '\n' in range is where the backward scan stops |
| PostRequests.Locate | main.c:392-403 | when the data is located, it starts at a '\n' inside the buffer |
| PostRequests.LocateData | main.c:404-414 | when the data is located, it starts at a '\n' inside the buffer |
| PostRequests.Cut | main.c:416-421 | the cut keeps the buffer's length |
| PostRequests.UploadEffect | main.c:416-427 | the located data is uploaded under the copied filename |
| PostRequests.PostEffect | main.c:390-429 | the handler leaves a buffer of the same length; what it does is stated by the lemmas below |
| PostRequests.PostWaitsIff | main.c:390-429 | the client waits, with its buffer untouched, exactly when the request holds no "------WebKitFormBoundary"; otherwise the handler uploads or faults and never answers 400 |
| PostRequests.MissingFileNameFaults | main.c:398-411 | a request holding the boundary marker but no "filename=" after its first occurrence reaches `strstr(NULL, …)`: a NULL dereference, never an answer |
| PostRequests.NoFileNameFaults | main.c:398-411 | in particular, a request with the boundary marker and no "filename=" anywhere faults |
| PostRequests.LongFileNameOverruns | main.c:404-407 | a filename of more than 50 bytes makes the copy write past `fileName[50]` |
| PostRequests.BoundaryAt | main.c:392 | when no occurrence of the boundary marker starts before it, the marker found is this one |
| PostRequests.FileNameKeyAt | main.c:398 | "filename=" is found where it stands when no occurrence of it starts between the boundary marker and it |
| PostRequests.FileNameStart | main.c:392-403 | the copy starts 10 bytes past "filename=", right after its opening quote |
| PostRequests.ContentTypeKeyAt | main.c:411 | "Content-Type:" is found where it stands when no ':' precedes it |
| PostRequests.StrAtDrop | main.c:403 | advancing past part of a C string leaves the rest of it |
| PostRequests.NameEndAt | main.c:404-408 | a quoted name is copied up to its closing quote |
| PostRequests.NewlineAfterKey | main.c:411-414 | the data starts at the '\n' that ends the Content-Type line |
| PostRequests.NameStage | main.c:404-411 | a quoted name followed by "Content-Type:" is copied and the key found after it |
| PostRequests.DataStage | main.c:411-421 | the data starts at the '\n' ending the Content-Type line and is cut before the closing line |
| PostRequests.CutAt | main.c:416-421 | the cut falls on the '\n' before the closing boundary line |
| PostRequests.BodyCut | main.c:416-423 | the written C string is the '\n' and the content up to that cut |
| PostRequests.DataFromName | main.c:404-423 | from the filename on, the data located and its cut contents |
| PostRequests.UploadFromKey | main.c:398-427 | from the "filename=" key on, the upload is the name and the cut data |
| PostRequests.UploadExtracted | main.c:390-427 | a single-file upload whose first boundary marker and first "filename=" after it are the part's own (browser headers such as `name="file"` or a `boundary=----WebKit…` parameter are allowed) writes the '\n' ending the Content-Type line plus everything before the '\n' that precedes the closing boundary line, under the quoted filename |
| Clients.AppendTwice | main.c:468-478 | appending two chunks one after the other leaves the buffer that appending them together does |
| Clients.StepEffect | main.c:462-488 | one pass over a ready client leaves a full-size buffer; what it does is stated by the lemmas below |
| Clients.WaitKeepsAppended | main.c:476-487 | a client left waiting had a non-empty chunk appended and nothing else done, and its buffer is NUL from the new count on |
| Clients.AppendedConsistent | main.c:476-477 | after `received += r` and the NUL, every byte from the new count on is NUL |
| Clients.GetKeepsConsistent | main.c:356-375 | `handleGET` writes only NULs, so the bytes past the count stay NUL |
| Clients.PostKeepsConsistent | main.c:390-429 | `handlePOST` writes only a NUL, so the bytes past the count stay NUL |
| Clients.StepKeepsConsistent | main.c:462-488 | whatever the outcome, a step leaves the buffer NUL past the count it leaves, so the next `recv` appends to a C string |
| Clients.SplitDelivery | main.c:462-488 | when a first piece of a request leaves the client waiting, the second piece has exactly the effect of receiving both at once |
| Clients.FullBufferAnswered400 | main.c:462-466 | a request that fills the buffer and still waits is answered 400 at the next readiness |
| Clients.PostNeverAnswered400 | main.c:481-484 | a request starting "POST " is never answered 400 by `handlePOST`: it waits, uploads or faults; one that waits until the buffer is full is answered 400 only by the main loop |
| Clients.UploadOnlyFromPost | main.c:481-487 | only a request starting "POST " uploads anything |
| Clients.Client.constructor | main.c:143-144 | `calloc`: socket 0, nothing received, a zeroed buffer of 51201 bytes |
| Clients.Client.Append | main.c:468-478 | `recv` and the NUL after the new bytes: the buffer becomes `Appended(…)`, the count grows by the chunk's length, the socket is kept, and the buffer stays NUL from the new count on |
| Clients.Client.HandleGet | main.c:356-375 | the in-place handler has `GetEffect`'s outcome and leaves its buffer |
| Clients.Client.CopyFileName | main.c:404-408 | the copy overruns exactly when more than 50 bytes precede the first NUL or '"'; otherwise it copies exactly those bytes |
| Clients.Client.SkipToNewline | main.c:413-414 | the forward scan finds the first '\n' from its start, or runs off the buffer when there is none |
| Clients.Client.LastNewlineBefore | main.c:417-419 | the backward scan from `head + strlen(head) - 2` stops where `LastNewline` says |
| Clients.Client.Locate | main.c:392-403 | the boundary and key searches give `Locate` |
| Clients.Client.LocateData | main.c:404-414 | the copy, key search and scan give `LocateData` |
| Clients.Client.HandlePost | main.c:390-429 | the in-place handler has `PostEffect`'s outcome and leaves its buffer |
| Connections.Remove | main.c:157-173 | unlinking removes one element when the record is present, none otherwise |
| Connections.RemoveMultiset | main.c:162-168 | exactly one occurrence of the record goes |
| Connections.RemoveAbsent | main.c:162-172 | a record not in the list leaves it unchanged |
| Connections.RemoveAt | main.c:162-168 | the first occurrence found by the walk is the one unlinked |
| Connections.RemoveDistinct | main.c:157-173 | in a list without repeats, the record goes, every other record stays, and no repeats appear |
| Connections.IndexOf | main.c:135-139 | the walk stops at a record with the socket, and finds none exactly when no record has it |
| Connections.IndexOfFirst | main.c:135-139 | the record found is the first with that socket |
| Connections.IndexOfIs | main.c:135-139 | the first record with the socket is the one found |
| Connections.Registry.constructor | main.c:130 | the list starts empty |
| Connections.Registry.GetClient | main.c:132-155 | returns the first record with the socket and leaves the list alone, or puts a fresh zeroed record (socket 0) at the head; the list stays free of repeats, every record's buffer NUL past its count, and no two records sharing a buffer |
| Connections.Registry.DropClient | main.c:157-173 | the list becomes `Remove(old list, record)`, the record is no longer in it, and the program-ending path is taken exactly when the record was not in the list |
| Connections.Registry.Accept | main.c:441-451 | the record from `get_client(-1)` holds the accepted socket; an invalid socket ends the program; every other listed record keeps its socket and count |
| Connections.Registry.Step | main.c:460-489 | buffer, count and outcome are `StepEffect`'s and the socket is kept; an answered or disconnected client is dropped from the list; every record left stays NUL past its count, and no two share a buffer |

## Left out

- Sockets, `select`, `bind`, `listen` and `getnameinfo` are left out, and so are the bytes `send_400`, `fake200` and `write_response` send. The model records which response is sent, not its text.
- `wait_on_clients` and the `while (1)` loop around the step are left out. Which clients are ready comes from `select`, and each ready client is handled by `Registry.Step`. The list walk keeps `next` before the step, so dropping the current client does not disturb the walk.
- The subprocess run by `popen` is left out, and so is the forwarding of its output by `write_response`. Only the last line of that output reaches the client, because the buffer is reused; this is not modelled.
- `writeToFile` is recorded as the `Upload(fileName, data)` outcome. The "/tmp/%s" path is cut at 100 bytes, which can never affect an upload: only names under 50 bytes reach `writeToFile`, so the path stays under 56 bytes. The `fclose(NULL)` when `fopen` fails is not modelled.
- Closing the socket in `drop_client` and freeing the record are left out. A dropped record is no longer referenced by the list.
- The `exit(1)` on an out-of-memory `calloc` is left out, because allocation cannot fail in the model.
- Logging with `printf`, `puts` and `perror` is left out.
- Socket numbers are not checked for uniqueness, because the model takes accepted sockets from the caller.
- Undefined behaviour is not modelled beyond the point where it happens. Each such case is a `Fault` outcome: a write past a buffer, a missing NUL, a NULL `strstr` result read through, or a scan off the end of the request buffer.
