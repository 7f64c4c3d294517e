# SocketProgramming: origin server and forwarding proxy

This project models two small HTTP programs from the SocketProgramming
repository.

- **Origin server** (`http_server.py`). It answers `GET /<n> HTTP/1.x` with an
  HTML page that announces it is `n` bytes long. The page is padded with
  `a` and space characters up to that size, or to one character more when
  the filler count is odd or zero. A request line that does not
  start with `GET` gets `501 Not Implemented`. One that starts with `GET`
  but does not match `GET /<digits> HTTP/1.`, or whose size is outside
  `[100, 20000]`, gets `400 Bad Request`; so `GETX /5 HTTP/1.1` gets 400,
  not 501.
- **Proxy** (`proxy_server.py`). It accepts absolute-form requests
  `GET http://<host><path> HTTP/1.x`. It refuses a path whose number is above
  9999 with `414 Request-URL Too Long`. Otherwise it sends
  `GET <path> HTTP/1.0` to `localhost:8080`, whatever host and port the
  client named. It then relays the origin's response chunk by chunk until
  the origin closes the connection.

Neither http_server.py nor proxy_server.py contains a cache: the proxy
forwards every request it accepts, and the model does the same.

The proxy's 400 reply for a line that does not match its pattern is
commented out. Such a line then fails inside the handler
(`match.group(1)` on `None`). The handler only closes the connection, so
the model classifies the line as `Drop`. The same happens when the
stripped path is not an integer. The pattern's `.*` is greedy, so on a
line with a second ` HTTP/1.` after a space the group runs to the last
one; that group holds the letters of `HTTP`, so it is not an integer and
the line is dropped too.

Modules:

- `Text` (text.dfy): the first line of a request, Python's `str.strip`,
  `str(n)` and parsing of ASCII digit strings.
- `Utf8` (utf8.dfy): bytes and `str.encode()`.
- `Wrappers` (wrappers.dfy): the `Option` type.
- `Messages` (messages.dfy): the error and page responses, and readers
  for the status line and the Content-Length field that invert them.
- `OriginServer` (origin_server.dfy): `handle_client` and `generate_html`.
- `ProxyServer` (proxy_server.dfy): the proxy's pattern, `int()`, the
  decision in `handle_proxy_client`, and the method `RelayChunks`.
  `RelayChunks` is the relay loop of `forward_request_to_server`, kept as
  a `while` loop with invariants. The module also states what the origin
  does with a forwarded request.

## Model

| member | source | states |
|---|---|---|
| Text.FirstLine | http_server.py:14 | the first line is a prefix of the request, holds no line feed, and is followed by a line feed unless it is the whole request |
| Text.FirstLineOf | proxy_server.py:13 | the first line of `a + "\n" + b` is `a` when `a` has no line feed |
| Text.TrimStartDrops | proxy_server.py:21 | every character `lstrip` removes belongs to the strip set |
| Text.TrimEndDrops | proxy_server.py:21 | every character `rstrip` removes belongs to the strip set |
| Text.StripShape | http_server.py:75 | `strip` returns the infix left once leading and trailing strip-set characters are gone; only strip-set characters lie around it, and it neither starts nor ends with one |
| Text.StripKeeps | proxy_server.py:21 | a string whose ends are outside the strip set is unchanged by `strip` |
| Text.NatToString | http_server.py:63 | `str(n)` is a non-empty digit string without a leading zero |
| Text.ParseNatToString | http_server.py:27 | `int(str(n)) == n` on ASCII digits |
| Text.NatToStringParse | http_server.py:27 | formatting the value of a canonical digit string gives the string back |
| Text.NatToStringLength | http_server.py:67 | `str(n)` has at most `k` digits exactly when `n < 10^k` |
| Text.DigitRun | http_server.py:22 | the greedy `\d+` takes the longest digit prefix, and the next character is not a digit |
| Text.DigitRunStops | http_server.py:22 | the digit run of `d + t` is `d` when `t` does not start with a digit |
| Utf8.EncodeChar | http_server.py:79 | one character encodes to its shortest UTF-8 form: 1 byte below 0x80 (the code itself), 2 below 0x800 (lead in `[0xC2, 0xE0)`), 3 below 0x10000 (lead in `[0xE0, 0xF0)`), 4 otherwise (lead in `[0xF0, 0xF4]`), with continuation bytes in `[0x80, 0xC0)` |
| Utf8.DecodeEncodeChar | http_server.py:79 | decoding a character's bytes gives the character back |
| Utf8.EncodeAppend | http_server.py:91 | encoding distributes over concatenation |
| Utf8.EncodeAscii | http_server.py:79 | an ASCII string encodes to one byte per character, each equal to the character's code |
| Messages.StatusLineRoundTrip | http_server.py:96 | a client reads back the status line `HTTP/1.1 <code> <reason>` as that code and reason |
| Messages.ContentLengthRoundTrip | http_server.py:85 | a client reads back `Content-Length: <n>` as `n` |
| Messages.SendErrorFormat | http_server.py:93-102 | an error is exactly status line, `Content-Type: text/html`, `Content-Length: 0` and the empty line, ends in CRLF CRLF, and reads back as its code, reason and length 0 |
| Messages.ResponseTextFraming | http_server.py:77-88 | a 200 response is the header block with the page's UTF-8 byte count as Content-Length, followed by the page |
| Messages.SendResponseFraming | http_server.py:88-91 | the bytes sent are the encoded header block followed by the encoded page |
| Messages.EncodeHead | http_server.py:82-91 | the encoded header block is the encoded status line, the two fields and the empty line in order |
| Messages.SendResponseEndsWithPage | http_server.py:77-91 | the bytes sent are the status line, the two fields, the empty line and the page; that status line reads back as 200 OK, that Content-Length field as the page's byte count `n`, and the last `n` bytes are exactly the page's bytes |
| Messages.StatusDigitByte | http_server.py:96 | byte 9 of a response is the first digit of its status code |
| Messages.ErrorsDiffer | http_server.py:93-102 | two error responses whose codes start with different digits are different bytes |
| Messages.PageIsNotAnError | http_server.py:77-102 | a page response is never the bytes of an error whose code does not start with 2 |
| OriginServer.MatchRequestLine | http_server.py:22 | a match's group is a non-empty digit string, and the line starts with `GET /`, the group and ` HTTP/1.` |
| OriginServer.MatchRequestLineExact | http_server.py:22 | the pattern matches with group `d` exactly when the line starts with `GET /`, then non-empty digits `d`, then ` HTTP/1.` |
| OriginServer.Repeat | http_server.py:71 | `s * k` has `|s| * k` characters |
| OriginServer.Filler | http_server.py:71-73 | the unstripped filler has exactly `content_length` characters |
| OriginServer.ContentLengthValue | http_server.py:63-67 | the fixed parts take 75 characters plus the digits of `size` |
| OriginServer.RoomInRange | http_server.py:28-36 | every accepted size leaves at least 21 filler characters (exactly 21 at 100), so `generate_html` never returns `None` there |
| OriginServer.FillerAt | http_server.py:71-73 | the filler alternates `a` (even positions) and space (odd positions) |
| OriginServer.FillerPrefixChars | http_server.py:71-73 | every prefix of the filler holds only `a` and space |
| OriginServer.StrippedFiller | http_server.py:71-75 | `filler.strip()` drops the trailing space when the count is even and positive, drops nothing otherwise, and leaves only `a` and space |
| OriginServer.StrippedOddFiller | http_server.py:72-75 | an odd filler is unchanged by `strip` |
| OriginServer.StrippedEvenFiller | http_server.py:71-75 | an even, positive filler loses exactly its last character to `strip` |
| OriginServer.GenerateHtmlSpec | http_server.py:61-75 | `None` exactly when there is no room; otherwise the page starts with the title announcing `size` and a space, ends with a space and the closing tags, holds only `a` and space between them, and is `size` long exactly when the room is even and positive, `size + 1` otherwise |
| OriginServer.GenerateHtmlLayout | http_server.py:63-75 | the page's prefix, suffix and filler characters |
| OriginServer.GenerateHtmlLength | http_server.py:67-75 | the page's length is `size` or `size + 1`, depending on the parity of the room |
| OriginServer.Sandwich | http_server.py:75 | `a + " " + t + " " + z` has prefix `a + " "`, suffix `" " + z` and `t` in the middle |
| OriginServer.BaseHtmlAscii | http_server.py:63 | the title part is ASCII |
| OriginServer.StrippedFillerAscii | http_server.py:71-75 | the stripped filler is ASCII |
| OriginServer.GenerateHtmlAscii | http_server.py:61-75 | every generated page is ASCII, so its UTF-8 length is its character count |
| OriginServer.NotGetIs501 | http_server.py:13-38 | a client receives the bytes of 501 Not Implemented exactly when its request does not start with `GET` |
| OriginServer.FirstLineStartsWithGet | http_server.py:14-17 | the first line starts with `GET` exactly when the request does |
| OriginServer.GetIsNot501 | http_server.py:17-38 | a `GET` line is answered with a page or a 400, never with the bytes of a 501 |
| OriginServer.BadRequestIff | http_server.py:22-36 | the reply is 400 Bad Request exactly when the line starts with `GET` and either the pattern fails or the size is outside `[100, 20000]` |
| OriginServer.PageIff | http_server.py:22-38 | a page is sent exactly when the pattern matches and the size is in `[100, 20000]` |
| OriginServer.PageContents | http_server.py:27-38 | the page sent is `generate_html(size)`, `size` or `size + 1` characters long |
| OriginServer.SizeBoundary | http_server.py:27-30 | for `GET /<n> HTTP/1.` the group is `str(n)`, and a page is sent exactly when `100 <= n <= 20000` |
| OriginServer.PageResponse | http_server.py:33-38 | what `handle_client` writes for a page is the framed 200 response, and its Content-Length equals the page's character count |
| OriginServer.PostIs501 | http_server.py:17-19 | `POST /100 HTTP/1.1` gets 501 |
| OriginServer.GetXIs400 | http_server.py:22-25 | `GETX /5 HTTP/1.1` gets 400 |
| OriginServer.NonNumericTargetIs400 | http_server.py:22-25 | `GET /abc HTTP/1.1` gets 400 |
| OriginServer.EmptyTargetIs400 | http_server.py:22-25 | `GET / HTTP/1.1` gets 400 |
| OriginServer.Http2Is400 | http_server.py:22-25 | `GET /100 HTTP/2` gets 400 |
| OriginServer.OddRoomPage | http_server.py:67-75 | an odd filler count makes the page one character longer than the size it announces |
| OriginServer.RoomAt100 | http_server.py:63-67 | size 100 leaves 21 filler characters |
| OriginServer.RoomAt101 | http_server.py:63-67 | size 101 leaves 22 filler characters |
| OriginServer.SmallestPageIsOneLonger | http_server.py:67-75 | the page for 100 has 101 characters (21 filler characters, an odd count) |
| OriginServer.EvenRoomPageIsExact | http_server.py:67-75 | the page for 101 has exactly 101 characters (22 filler characters) |
| ProxyServer.NonSlashRun | proxy_server.py:15 | the greedy `[^/]+` takes the longest prefix without `/`, and a `/` follows it if anything does |
| ProxyServer.NonSlashRunStops | proxy_server.py:15 | the run of `h + t` is `h` when `h` has no `/` and `t` starts with `/` |
| ProxyServer.LastMarker | proxy_server.py:15 | the greedy `.*` backtracks to the last position in range where ` HTTP/1.` starts |
| ProxyServer.PathStart | proxy_server.py:15 | group 1 starts at the `/` right after the maximal non-empty host run |
| ProxyServer.PathEnd | proxy_server.py:15 | group 1 ends at the last marker on the first line, and no marker starts after it on that line |
| ProxyServer.MatchProxyLine | proxy_server.py:15-20 | a match's group starts with `/` and the line starts with `GET http://` |
| ProxyServer.MatchProxySound | proxy_server.py:15-20 | a match comes from a line of the shape `GET http://<host><path> HTTP/1.` with a non-empty host without `/` |
| ProxyServer.MatchProxyGreedy | proxy_server.py:15-20 | every line of that shape matches, and the group extends the given path |
| ProxyServer.MatchProxyExact | proxy_server.py:15-20 | when no marker starts after the given path, the group is that path |
| ProxyServer.ExactMatch | proxy_server.py:15-20 | with no space after the marker, the group of `GET http://<host><path> HTTP/1.<rest>` is `<path>` |
| ProxyServer.RemoveUnderscores | proxy_server.py:21 | removing digit-group underscores leaves only digits, no more characters than the input, and an underscore-free string unchanged |
| ProxyServer.UnderscoresVanish | proxy_server.py:21 | a run of underscores leaves nothing |
| ProxyServer.RemoveUnderscoresAppend | proxy_server.py:21 | underscores are removed piece by piece with the digits kept in order, so with the two rows above the result is the input's digits in order |
| ProxyServer.GroupedValue | proxy_server.py:21 | `int("<a>_<b>")` for digit strings `a`, `b` is the value of the digits `a + b` (so `int("1_000") == 1000`) |
| ProxyServer.SignedDigitGroupsOfDigits | proxy_server.py:21 | plain digits read as their value |
| ProxyServer.SignedDigitGroupsOfNegative | proxy_server.py:21 | a minus sign before digits negates their value |
| ProxyServer.SignedDigitGroupsRejects | proxy_server.py:21 | a character other than a digit, `_` or a sign makes `int()` fail |
| ProxyServer.PyIntOfDigits | proxy_server.py:21 | `int(d)` is the value of the digit string `d`, leading zeros included |
| ProxyServer.PyIntOfDecimal | proxy_server.py:21 | `int(str(n)) == n` |
| ProxyServer.PyIntOfNegativeDigits | proxy_server.py:21 | `int("-" + d) == -int(d)` |
| ProxyServer.PyIntRejects | proxy_server.py:21 | a stripped string holding a character other than a digit, `_` or a sign is not an integer |
| ProxyServer.SeparatorIsNotSkipped | proxy_server.py:21 | `int()` does not skip U+001C (which `str.strip()` would): `"\x1c"` followed by digits is not an integer |
| ProxyServer.LettersAreNotAnInteger | proxy_server.py:21 | a string of lowercase letters is not an integer |
| ProxyServer.StripSlash | proxy_server.py:21 | `("/" + d).strip('/')` is `d` when `d` neither starts nor ends with `/` |
| ProxyServer.ForwardedPath | proxy_server.py:15-26 | a forwarded path is the unstripped group, it starts with `/`, it comes from a line of the pattern's shape, and its number is at most 9999 |
| ProxyServer.NoShapeIsDropped | proxy_server.py:15-20 | a line without the shape `GET http://<host><path> HTTP/1.` for any host and path gets no reply and nothing is forwarded |
| ProxyServer.NumericPathBoundary | proxy_server.py:15-26 | for `GET http://<host>/<digits> HTTP/1.<rest>`, with a non-empty host without `/` and no space in `<rest>`, the group is `/<digits>`; 414 exactly when the value exceeds 9999, otherwise `/<digits>` is forwarded unchanged |
| ProxyServer.Forwards9999 | proxy_server.py:21-26 | `/9999` is forwarded for every non-empty host without `/`, when `<rest>` after ` HTTP/1.` has no space |
| ProxyServer.Refuses10000 | proxy_server.py:21-23 | `/10000` gets 414 for every non-empty host without `/`, when `<rest>` after ` HTTP/1.` has no space |
| ProxyServer.NonNumericPathDropped | proxy_server.py:20-21 | a path of letters such as `/abc` gets no reply and nothing is forwarded, for every non-empty host without `/`, when `<rest>` after ` HTTP/1.` has no space |
| ProxyServer.FirstEmpty | proxy_server.py:57-60 | the relay stops at the first empty read: every earlier read is non-empty |
| ProxyServer.RelayChunks | proxy_server.py:57-61 | the loop relays the in-order concatenation of the reads before the first empty one, and fails exactly when the reads run out and the stream ends with an error |
| ProxyServer.RelayToClient | proxy_server.py:57-64 | the client receives the relayed bytes, then a 404 when a `recv` raised |
| ProxyServer.ForwardRequestToServer | proxy_server.py:46-66 | the connection is always attempted to `localhost:8080`; once connected, the bytes sent are `GET <uri> HTTP/1.0`, the Host header and the empty line; the client receives the relayed bytes, then a 404 when the upstream failed |
| ProxyServer.HandleProxyClient | proxy_server.py:6-30 | a dropped line attempts no connection and writes nothing; a path above 9999 attempts no connection and writes the 414 error; a forwarded path makes the attempt above |
| ProxyServer.ConcatAppend | proxy_server.py:57-61 | relaying two runs of chunks gives the two relays one after the other |
| ProxyServer.ConcatSplit | proxy_server.py:57-61 | the relay of a run of chunks splits around any one chunk |
| ProxyServer.RelayIsPrefix | proxy_server.py:57-61 | the client receives a prefix of the upstream's stream |
| ProxyServer.RelayOrder | proxy_server.py:57-61 | chunk `i` reaches the client right after the chunks before it, and the chunks after it follow |
| ProxyServer.RelayWholeStream | proxy_server.py:57-61 | with non-empty reads and a clean close, the client receives the whole response |
| ProxyServer.FailureAppends404 | proxy_server.py:57-64 | a `recv` that raises appends a 404 after what was relayed |
| ProxyServer.EmptyReadEndsRelay | proxy_server.py:58-60 | reads after the first empty one never reach the client |
| ProxyServer.UpstreamRequestLine | proxy_server.py:53 | the origin reads the forwarded request's first line as `GET <uri> HTTP/1.0` and a carriage return |
| ProxyServer.UpstreamLineMatches | proxy_server.py:53 | the origin's pattern captures from the forwarded line the same digits the client sent |
| ProxyServer.OriginReplyToForward | proxy_server.py:53 | the origin answers the forwarded line for `/<d>` (at most 9999) with a page exactly when the value is at least 100, and with 400 otherwise |
| ProxyServer.ProxyThenOrigin | proxy_server.py:15-61 | on `GET http://<host>/<digits> HTTP/1.<rest>` with a non-empty host without `/` and no space in `<rest>`, a numeric path up to 9999 is forwarded; when the origin's reply to the forwarded request comes back in non-empty reads and a clean close, the client receives exactly that reply: the page response when the number is at least 100, the 400 response otherwise |

## Left out

- Sockets, `accept`, threads, `listen` and the command-line entry points
  are not modelled. `HandleClient` and `HandleProxyClient` take the request
  as already-decoded text. A request that is not valid UTF-8 raises in
  `decode()`, and the connection is closed with no reply; that case is not
  modelled.
- `recv(1024)` is not modelled. The model sees the whole request text, not
  its first 1024 bytes. On the relay side the upstream's reads are a
  parameter, so their sizes are whatever the parameter holds.
- The `print` calls, which only log, are not modelled.
- `close()` is not modelled; every path closes the client socket.
- `\d` in the origin's pattern (http_server.py:22) and `int()` in both
  servers also accept non-ASCII Unicode digits. The model accepts ASCII
  digits only.
- PyInt: `int()` is modelled for base 10 only: surrounding whitespace (ASCII
  space, `\t\n\v\f\r`, and the non-ASCII `str.isspace()` characters), an
  optional sign, and digit groups separated by single underscores. Python's
  limit on the number of digits in `int()` is not modelled. It cannot be
  reached by a path inside a 1024-byte request.
- ForwardRequestToServer: the model does not cover a `sendall` to the
  client that raises during the relay, nor a `send_error` that raises in
  turn. These only happen when the client has gone away. A failure to
  create the upstream socket is not modelled either.
- ProxyThenOrigin: the origin's side is taken as the text of the forwarded
  request (its bytes are ASCII, so decoding gives the text back); the
  origin's own `recv(1024)` is not modelled.
