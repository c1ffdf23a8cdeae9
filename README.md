# A verified model of a small HTTP/1.0 client and three servers

The system is four Python programs:

- `http_client.py` fetches one `http://` URL. It makes at most ten requests, so it follows at most nine 301/302 redirects in a row; a tenth redirect makes it fail with "Too many redirects". It prints the body of a 200 `text/html` response and exits 0, prints the body of a response with status 400 or above and exits 1, and exits 1 with a message on every other condition.
- `http_server1.py` serves `.html`/`.htm` files from its working directory. It handles one connection at a time: it reads the request up to the blank line, answers with 200, 403 or 404, sends file contents in 4096-byte pieces, and always closes the connection.
- `http_server2.py` serves files in the same way, but multiplexes with `select`. It keeps a registry of open connections, handles a client the first time it becomes readable, then closes and removes it. It also maps `/` to `index.html`, answers unreadable files with 404 and ignores failed sends.
- `http_server3.py` answers `GET /product?a=…&b=…` with a JSON body. A malformed query gets 400 and any other path gets 404.

The Dafny modules follow that structure:

| module | file | what it holds |
|---|---|---|
| `Text` | text.dfy | the Python `str` operations the programs rely on, with Python's meaning |
| `HttpClient` | http_client.dfy | `parse_url`, the request text, `parse_response`, and the redirect walk of `fetch_url` |
| `Framing` | framing.dfy | the connection object, the read-until-blank-line loop, and the 4096-byte send loop |
| `FileServing` | file_serving.dfy | what both file servers share: the status table, `build_response_header` and the directory |
| `FileServer1` | server1.dfy | the single-connection server |
| `FileServer2` | server2.dfy | the select-based server, with a `Registry` class for its list of connections |
| `JsonServer` | server3.dfy | the JSON product endpoint |
| `Exchange` | exchange.dfy | the client and the servers together: what a server writes parses back as it meant, and what the client then does |

A connection is a `Framing.Conn` object with four fields:

- `inbox`: the pieces the peer still sends, each one `recv` result;
- `outbox`: the payloads delivered by `sendall`;
- `sendsLeft`: how many more `sendall` calls succeed;
- `closes`: how often it was closed.

Each handler is proved against a function of the request text. `Respond` returns a `Reply`: the payloads sent, in order, and whether an exception escapes. A method's `ensures` ties the new `outbox` to that reply, cut at the first send that fails. The client's network is a parameter, a function from a request target to the whole response text or to None. The served directory is a map from names to entries.

Three behaviours of the code shape the model:

- A request line must split into exactly three words. The file servers close the connection without a reply when there are fewer, and raise `ValueError` while unpacking when there are more. The JSON server has no length check, so any count other than three raises there. `Respond` in each server reports the `ValueError` as `raises`.
- The select-based server reads one byte when a client first becomes readable, and `handle_connection` then reads the rest of the request at once. Each client is therefore served within the cycle that first reports it. `Registry.ServeReadable` follows this.
- Only `http_server2.py` swallows failed sends. In `http_server1.py` and `http_server3.py`, a failed `sendall` or a failed file read escapes `handle_connection` after the connection is closed, and ends the server. `HandleConnection` in `FileServer1` and `JsonServer` reports it as `raised`.

## Model

| member | source | states |
|---|---|---|
| Text.Find | http_client.py:9 | the index reported is an occurrence of `sep` and no earlier index is one; None only when `sep` occurs nowhere |
| Text.LastIndexOf | http_client.py:21 | the index holds `c` and no later index does; None only when `c` is absent |
| Text.Split | http_client.py:70 | joining the pieces with `sep` gives back the text, no piece contains `sep`, and when there are several pieces the first ends at the first occurrence of `sep` |
| Text.Word | http_client.py:74 | the longest whitespace-free prefix: it is a prefix, has no whitespace, and is followed by whitespace or the end |
| Text.Tokens | http_client.py:74 | every word of `split()` is non-empty and free of whitespace |
| Text.TokensOfUnwords | http_client.py:74 | `split()` of words joined by single spaces gives back those words |
| Text.TrimStart | http_client.py:83 | the result is a suffix, everything removed is whitespace, and it does not start with whitespace |
| Text.TrimEnd | http_client.py:83 | the result is a prefix, everything removed is whitespace, and it does not end with whitespace |
| Text.StripTrims | http_client.py:83 | `strip()` leaves no whitespace at either end, and leaves a string unchanged exactly when it has none there |
| Text.Lower | http_client.py:83 | same length, no upper-case letter left, upper-case letters shifted to lower case, strings without capitals unchanged |
| Text.NatToString | http_server1.py:16 | the decimal rendering is non-empty digits with no leading zero |
| Text.ParseNatToString | http_server1.py:16 | `int(str(n)) == n`: a Content-Length the servers write parses back to the length |
| Framing.Conn.constructor | http_server1.py:111 | a new connection holds the pieces to arrive, nothing sent, nothing closed |
| Framing.Conn.Recv | http_server1.py:27 | `recv(size)` returns "" only after the peer closed; otherwise it returns the next piece whole when it holds at most `size` bytes, or its first `size` bytes, leaving the rest of that piece to arrive first |
| Framing.Conn.SendAll | http_server1.py:48 | `sendall` delivers the payload exactly when sends remain, and otherwise raises |
| Framing.Conn.Close | http_server1.py:80-85 | a close is counted and nothing else changes |
| Framing.ConsumedIsFirst | http_server1.py:26-30 | the read loop stops at the first piece after which the text holds `\r\n\r\n`, and runs out of pieces only when none does |
| Framing.Received | http_server1.py:26-30 | the read loop reads nothing once the text holds the blank line or the peer has closed |
| Framing.ReceivedStep | http_server1.py:26-30 | while the text holds no blank line and the peer has not closed, one turn of the read loop appends the next piece and leaves the final text unchanged |
| Framing.ReceivedAll | http_server1.py:26-29 | without a blank line the loop reads everything the peer sends |
| Framing.ReceivedAfterByte | http_server2.py:22-28 | reading one byte with `recv(1)` and then running the read loop from it receives the same request text as the read loop alone |
| Framing.ReadRequest | http_server1.py:24-30 | the loop returns `Received(start, inbox)` and leaves exactly the unread pieces in the connection |
| Framing.Chunks | http_server1.py:74-78 | the send loop cuts a non-empty content into at least one piece, and each piece holds 1 to 4096 bytes |
| Framing.ChunksTile | http_server1.py:74-78 | the pieces reassemble to the content; each holds 1 to 4096 bytes, all but the last exactly 4096; their count is the content length divided by 4096, rounded up |
| Framing.SendChunks | http_server1.py:74-78 | the send loop delivers the pieces of `Chunks(content)` in order, up to the first failing send, and reports success exactly when all fit |
| FileServing.BuildResponseHeader | http_server1.py:12-19 | the header starts with the status line of its code and ends with the blank line; `Exchange.HtmlResponseParses` shows the client reads it back |
| FileServing.ErrorPage | http_server1.py:54-65 | an error page is the header that announces the body's length, followed by the body; `Exchange.ClientShowsErrorPage` shows the client reads back its code and body |
| Framing.RequestLine | http_server1.py:37-38 | `split('\r\n')[0]`: the request line is a prefix of the request, holds no CRLF, and is either the whole request or followed in it by a CRLF, so it runs exactly to the first CRLF |
| FileServing.SendPage | http_server1.py:71-78 | the 200 branch sends the header with the content length, then the content's pieces, stopping at the first failure |
| HttpClient.SplitPath | http_client.py:9-17 | the host-port text is the part before the first '/' and holds no '/'; the path always starts with '/' |
| HttpClient.SplitPort | http_client.py:20-25 | the host is a prefix of the host-port text |
| HttpClient.ParseUrl | http_client.py:4-27 | every parsed path starts with '/' and every parsed host is free of '/' |
| HttpClient.ParseUrlInverse | http_client.py:4-27 | a URL built from a host, an optional port and a path that does not end in '/' parses back to that host, port (80 by default) and path |
| HttpClient.ParseUrlDropsOneSlash | http_client.py:11-12 | exactly one trailing '/' is removed from the path |
| HttpClient.ParseUrlBare | http_client.py:15-25 | without a '/' after the host the path is `/`; without ':' the port is 80 |
| HttpClient.ParseUrlBadPort | http_client.py:20-22 | a port text that `int()` rejects makes parsing fail |
| HttpClient.ParseUrlExampleBare | http_client.py:4-27 | `http://a.com` gives host `a.com`, port 80, path `/` |
| HttpClient.ParseUrlExamplePort | http_client.py:4-27 | `http://a.com:8080/x/` gives port 8080 and path `/x` |
| HttpClient.ParseUrlExampleSlash | http_client.py:4-27 | `http://a.com/` gives path `/` |
| HttpClient.ParseUrlExampleSlashes | http_client.py:11-12 | `http://a.com//` also gives path `/` |
| HttpClient.BuildRequest | http_client.py:40 | the request starts with the `GET` line for the path and ends with the blank line that the servers' read loop waits for |
| HttpClient.FieldAt | http_client.py:82-83 | the key of a line split at a ':' has no capital letter and the value has no whitespace at either end |
| HttpClient.HeaderField | http_client.py:81-83 | a line yields a field exactly when it holds a ':', and the field is the line split at its first ':' (`FieldAt`): the stripped, lower-cased key before it and the stripped value after it |
| HttpClient.StatusOf | http_client.py:70-76 | a status line of fewer than two words has no status; otherwise the status is the second word read as an integer |
| HttpClient.HeaderMap | http_client.py:79-83 | every key of the header dictionary is lower case |
| HttpClient.HeaderMapAbsent | http_client.py:79-83 | a key is present only if some line carries it |
| HttpClient.HeaderMapConcat | http_client.py:79-83 | reading two runs of lines gives the first run's map overridden by the second's |
| HttpClient.HeaderMapLastWins | http_client.py:80-83 | for a repeated header the value comes from the last line that carries it |
| HttpClient.Frame | http_client.py:62-67 | the header block is everything before the first `\r\n\r\n` and the body everything after it; without one the header block is the whole text and the body "" |
| HttpClient.ResponseOf | http_client.py:56-85 | empty text, or a status line (the first line of the header block) without a second word or whose second word is not an integer, gives `(None, {}, "")`; otherwise the status is that integer, the headers are the map of the header block's later lines only, and the body is the text after the first blank line; keys are lower case |
| HttpClient.ParseResponse | http_client.py:56-85 | the parsing code computes `ResponseOf` |
| HttpClient.ReadHeaders | http_client.py:79-83 | the header loop computes `HeaderMap` of the lines after the status line |
| HttpClient.Start | http_client.py:93-100 | a URL is refused as not `http://` exactly when it lacks that prefix; it is accepted exactly when it also parses, and then as the target `parse_url` returns |
| HttpClient.React | http_client.py:103-147 | a transport failure exactly gives "failed to connect"; an unparsable status exactly gives "invalid response"; a missing or `https://` location comes only from a 301/302; an unexpected status only from a code that is not 200, 301 or 302 and is below 400; a wrong content type only from a 200; a reply never gives a URL failure; `ReactRedirect` and `ReactFinal` give each rule's forward direction |
| HttpClient.FetchUrl | http_client.py:87-127 | a fetch makes at most `10 - redirects` requests; with none made it fails; at hop 10 it fails with too many redirects, and a URL without `http://` fails before any request |
| HttpClient.Walk | http_client.py:87-127 | a run makes at most `10 - redirects` requests |
| HttpClient.ReactRedirect | http_client.py:116-127 | a 301/302 reply with no or an empty `location` fails with "redirect without location", one with an `https://` location fails as unsupported, and any other location is followed |
| HttpClient.ReactFinal | http_client.py:129-147 | any other parsed reply: status >= 400 shows the body as an error page, another status but 200 is unexpected, a 200 with a `text/html` content type shows the body as the page, and any other 200 fails for its content type |
| HttpClient.ReactPage | http_client.py:139-147 | exit status 0 comes only from a 200 reply whose content type starts with `text/html`, and prints its body |
| HttpClient.ReactErrorPage | http_client.py:130-133 | an error page comes only from a reply with status >= 400, with that reply's body |
| HttpClient.ReactFollow | http_client.py:116-127 | a reply is followed only when it is a 301/302 with a non-empty `location` that does not start with `https://` |
| HttpClient.HttpsLocationIsFatal | http_client.py:119-123 | a redirect to an `https://` location fails without requesting it |
| HttpClient.RequestsFollowLocations | http_client.py:116-124 | the first request is for the URL given, and each later request is the one the previous reply redirected to |
| HttpClient.EndsOnLastReply | http_client.py:87-147 | a run that does not end fatally ends on the decision about the reply to its last request |
| HttpClient.PageOnlyFor200Html | http_client.py:135-147 | exit status 0 only when the last response was a 200 `text/html` response, whose body is printed |
| HttpClient.ErrorPageOnlyFrom400 | http_client.py:130-133 | an error page is reported only for a last response with status >= 400, with its body |
| HttpClient.TooManyRedirectsUsesAllHops | http_client.py:89-91 | "too many redirects" is reported only after all `10 - redirects` allowed requests were made |
| HttpClient.SelfRedirectExhaustsHops | http_client.py:89-124 | a URL that redirects to itself is requested on every remaining hop, then the run fails with too many redirects |
| FileServer1.Serve | http_server1.py:55-78 | an exception escapes exactly for a readable-looking HTML file whose read fails, and then nothing is sent |
| FileServer1.Respond | http_server1.py:22-78 | when the handler raises it has sent nothing; `RequestLineRules` gives its rules |
| FileServer1.RequestLineRules | http_server1.py:32-52 | an empty request or a request line of fewer than three words gets no reply; more than three raise; a method other than GET gets the bare 403 header whatever the directory holds; a GET is served the file its path names without the first character |
| FileServer1.ServeFile | http_server1.py:55-78 | the sends are those of `Serve`, cut at the first failure, which raises |
| FileServer1.HandleRequest | http_server1.py:23-78 | reading, deciding and sending produce exactly the reply of `Respond` to the text the read loop received |
| FileServer1.HandleConnection | http_server1.py:22-85 | as HandleRequest, and the connection is closed exactly once whatever happened |
| FileServer2.ResourceName | http_server2.py:52-56 | one leading '/' is removed, and an empty name becomes `index.html` |
| FileServer2.Serve | http_server2.py:58-100 | the select-based server never raises while serving a file and always sends something |
| FileServer2.Respond | http_server2.py:22-49 | when the handler raises it has sent nothing; `RequestLineRules` gives its rules |
| FileServer2.RequestLineRules | http_server2.py:30-56 | an empty request or a request line of fewer than three words gets no reply; more than three raise; a method other than GET gets the bare 403 header whatever the directory holds; a GET is served the file `ResourceName` gives for its path |
| FileServer2.ServeFile | http_server2.py:58-100 | the sends are those of `Serve`, cut at the first failure, which is swallowed |
| FileServer2.HandleConnection | http_server2.py:22-100 | starting from the byte already read, the handler sends the reply of `Respond`, and raises only when `Respond` raises |
| FileServer2.AnswerReceived | http_server2.py:22-49 | answering while the read loop runs is answering the text the loop ends with: the reply of `Respond` to `Received` |
| FileServer2.ClientReplyResponds | http_server2.py:139-147 | the reply a readable client gets, from the byte read by `recv(1)` on, is `Respond` of the whole request its peer sends |
| FileServer2.Without | http_server2.py:143 | `list.remove` takes away one occurrence and leaves the rest |
| FileServer2.FirstIndex | http_server2.py:143 | the index `list.remove` removes at is the first occurrence of the element |
| FileServer2.WithoutKeepsOrder | http_server2.py:143 | `list.remove` cuts out the first occurrence and keeps the other connections in their order |
| FileServer2.WithoutDistinct | http_server2.py:153 | removing from a list without repeats keeps it without repeats and drops the element entirely |
| FileServer2.AfterEventsMembers | http_server2.py:133-153 | after a select cycle a connection is registered exactly when it was registered or accepted during the cycle and was not served; no connection is registered twice |
| FileServer2.Registry.constructor | http_server2.py:127 | the registry starts empty |
| FileServer2.Registry.PollSet | http_server2.py:130 | the read list is the listening socket followed by every registered connection, in order |
| FileServer2.Registry.Accept | http_server2.py:133-137 | a new connection is appended and the registry stays free of repeats |
| FileServer2.Registry.ServeReadable | http_server2.py:139-153 | a readable client is sent its `ClientReply`, which `ClientReplyResponds` shows is the reply of `Respond` to the whole request its peer sends, cut at the first failing send; it is closed and removed unless that reply raises, and the server crashes exactly when it raises; a client whose peer closed is closed and removed without a reply |
| FileServer2.Registry.Dispatch | http_server2.py:133-153 | one reported socket updates the registry as `AfterEvent` says; a readable client is sent the reply of `Respond` to its request, and the server crashes exactly when that reply raises |
| FileServer2.Registry.Cycle | http_server2.py:133-153 | a cycle without a crash leaves the registry `AfterEvents` says, closes every served client once and sends each the reply of `Respond` to its request; a crash happens only when some reported client's reply raises |
| JsonServer.BuildResponse | http_server3.py:13-19 | the response starts with the status line of its code and ends with the blank line followed by the body; `Exchange.JsonResponseParses` shows the client reads it back |
| JsonServer.SplitOnce | http_server3.py:101 | `s.split(sep, 1)`: the parts rejoin to `s`, and the first holds no `sep` |
| JsonServer.PathAndQuery | http_server3.py:100-104 | the route holds no '?', route and query rejoin to the target, and the query is "" without a '?' |
| JsonServer.QueryValues | http_server3.py:22-42 | an accepted query has at least one value |
| JsonServer.SegmentValuesAll | http_server3.py:26-39 | the segment walk succeeds exactly when every non-empty segment has a non-empty value after its first '=', and returns those values in order |
| JsonServer.QueryValuesAll | http_server3.py:22-42 | the query is accepted exactly when it is non-empty, has a non-empty segment, and every non-empty segment is a parameter |
| JsonServer.ProductQuery | http_server3.py:22-42 | the validation loop computes `QueryValues` |
| JsonServer.Respond | http_server3.py:79-121 | a raising handler sends nothing, and otherwise at most one response; an empty request gets no reply; the handler raises exactly when the request line does not have three words; any route but `/product` gets the 404 response, a rejected query the 400 response, and an accepted query the 200 product response, or 400 when the values do not convert |
| JsonServer.HandleRequest | http_server3.py:80-121 | the handler sends the reply of `Respond` to the received text, raising on a malformed line or a failed send |
| JsonServer.HandleConnection | http_server3.py:79-128 | as HandleRequest, and the connection is closed once |
| Exchange.StatusOfLine | http_client.py:74 | the status line a server writes yields its code to the client |
| Exchange.HeaderFieldOf | http_client.py:81-83 | a `Key: value` line parses to the lower-cased key and the value |
| Exchange.SplitJoinedLines | http_client.py:70 | header lines joined by CRLF split back into the same lines |
| Exchange.FrameOfBlock | http_client.py:62-67 | the client frames a header block, blank line and body at that blank line, even when the body contains one |
| Exchange.ResponseOfBlock | http_client.py:56-85 | status line, header lines, blank line and body parse to that status, the map of those lines, and exactly the body |
| Exchange.HtmlHeaderText | http_server1.py:12-19 | `build_response_header` writes the status line, the content type, the optional length and the connection line, each ending in CRLF, then the blank line |
| Exchange.JsonHeaderText | http_server3.py:13-19 | `build_response` writes the same lines with the body's length, then the body |
| Exchange.HtmlResponseParses | http_server1.py:12-19 | a file server response parses, in the client, to its code, the HTML content type, its Content-Length and exactly its body |
| Exchange.JsonResponseParses | http_server3.py:13-19 | a JSON server response parses to its code, the JSON content type, a Content-Length equal to the body's length, and the body |
| Exchange.GetLineNoReturn | http_client.py:40 | the GET line the client writes holds no carriage return when its path holds no whitespace |
| Exchange.GetRequestWords | http_client.py:40 | a request that starts with the GET line for a path has that line as its request line, which splits into GET, the path and HTTP/1.0 |
| Exchange.RequestParses | http_client.py:40 | the request line the client writes has exactly three words: GET, the path and HTTP/1.0 |
| Exchange.Server1Answers | http_server1.py:37-52 | the single-connection server answers the client's request for the path with its first character dropped |
| Exchange.Server2Answers | http_server2.py:34-56 | the select-based server answers the client's request for `ResourceName(path)` |
| Exchange.JsonServerAnswers | http_server3.py:100-110 | the JSON server answers a client request for any route but `/product` with its 404 |
| Exchange.ClientShowsErrorPage | http_client.py:130-133 | a file server's 403 or 404 page is shown by the client as an error page with the same code and body |
| Exchange.ClientShowsForbiddenMethod | http_server1.py:45-49 | the bare 403 header for a non-GET method reaches the client as an error page with an empty body |
| Exchange.PageShown | http_server1.py:71-78 | a 200 header sent with the content's pieces is shown by the client as exactly the content |
| Exchange.Server1Shown | http_server1.py:55-78 | whenever the single-connection server answers in full, the client shows the file for a readable HTML file, the 404 page for a missing one and the 403 page otherwise |
| Exchange.Server2Shown | http_server2.py:58-100 | the select-based server's answer is shown as the page, or as the 404 page (also for an unreadable file), or as the 403 page |
| Exchange.ClientRefusesJson | http_client.py:140-143 | the JSON server's 200 answer is refused by the client for its content type |
| Exchange.ClientShowsJsonNotFound | http_server3.py:106-110 | the JSON 404 answer is shown as an error page with the JSON body |
| Exchange.ClientShowsJsonBadRequest | http_server3.py:112-117 | the JSON 400 answer is shown as an error page with the JSON body |
| Exchange.JsonServerShown | http_server3.py:79-121 | the JSON server's reply to a client request is shown as a 404 page, a 400 page or a content-type refusal |
| Exchange.FetchFromServer1 | http_client.py:87-147 | fetching from the single-connection server makes one request and ends as its file policy says, or reports an invalid response when the server fails reading the file |
| Exchange.FetchFromServer2 | http_client.py:87-147 | fetching from the select-based server makes one request and ends as its file policy says |
| Exchange.FetchFromJsonServer | http_client.py:87-147 | fetching from the JSON server makes one request and never exits with status 0 |

## Left out

- Sockets, `select`, `bind`/`listen`, non-blocking mode and `BlockingIOError` are not modelled. A connection is a list of pieces that arrive in order. `select` is the list of events a cycle handles; `Fits` states what the operating system guarantees about that list. A `recv` on a non-blocking socket with nothing yet to read would raise; the model has it wait for the next piece instead.
- Bytes are characters, and `encode()`/`decode()` are the identity. Invalid UTF-8 is not modelled: the replacement characters of `http_server1.py` and the `UnicodeDecodeError` of the other two programs.
- The numeric half of `process_product_query` (http_server3.py:44-76) is not modelled. It covers `float()`, `math.isfinite`, the product in floating point, and `json.dumps` of the operands and the result. `JsonServer.Respond` takes it as a parameter: the JSON body for the validated values, or None when `float()` raises on one of them, which the code answers with 400. `float()` accepts `inf`, `nan` and values such as `1e999` that overflow to infinity; the code answers those with 200, and the parameter's body for them stands for that answer. The error bodies are the fixed strings `json.dumps` produces for them.
- `int()` is modelled on an optional sign followed by ASCII digits. Python also accepts surrounding whitespace, underscores between digits and non-ASCII digits; those ports and status codes are treated as unparsable.
- `str.lower()` is modelled on ASCII letters only. `str.isspace()` is modelled by its full list of whitespace code points.
- The command-line handling of the four programs is not modelled: argument counts, the port range check, the messages on standard error and `sys.exit`. The client's exits are the `Outcome` and `ExitStatus` values. The servers' accept loops are the `HandleConnection` methods and `Registry.Cycle`.
- `sendall` either delivers its whole payload or raises. A partial send before an error is not modelled.
- The file system is a map from names to entries, each a regular file (whose read can fail) or something else. Path resolution, permissions and files changing during a read are not modelled.
- Every peer is modelled as closing its end eventually: a connection's `inbox` is a finite list, so every read loop ends. A real peer can stay open without ever sending `\r\n\r\n`. The blocking read loops of `http_server1.py` (lines 26-30) and `http_server3.py` (lines 83-87) then wait forever, and the server serves no later client. The model does not capture that stall.
- FileServer2.Registry.Cycle: when a handler raises, the contract states only that some reported client's reply raises. It does not state what the clients handled earlier in the same cycle were sent, nor that the registry is left as it was.
- `shutdown` failures are swallowed in the source, so a close is one counted step.
- An exception that escapes a handler ends the server process, because nothing in the source catches it. The model reports it as `raises`/`crashed`. For the select-based server, a crash stops the cycle with the registry as it was.
- `send_http_request` (http_client.py:29-54) is the `Network` parameter of `FetchUrl`. It yields the complete response text, or None when connecting, sending or receiving raised. The client's own `recv` loop is therefore not modelled; its framing is the same as the servers' read loop without the blank-line stop.
- In the source, the `location` of a redirect is written to standard error before it is checked. Only the check is modelled.
