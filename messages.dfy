/** The response texts both servers write: `send_error` (identical in
    http_server.py and proxy_server.py) and the origin's `send_response`.
    Beside them, readers for the status line and the Content-Length field
    (what a client takes out of the header block) that invert them. */
module Messages {
  import opened Text
  import opened Utf8
  import opened Wrappers

  const CRLF := "\r\n"

  /** What both request-line patterns require after the target:
      ` HTTP/1.` (the minor version is not looked at). */
  const VersionMarker := " HTTP/1."
  const ContentTypeField := "Content-Type: text/html\r\n"

  /** `HTTP/1.1 <code> <reason>` terminated by CRLF. */
  function StatusLine(code: nat, reason: string): string
  {
    "HTTP/1.1 " + NatToString(code) + " " + reason + CRLF
  }

  function ContentLengthField(n: nat): string
  {
    "Content-Length: " + NatToString(n) + CRLF
  }

  /** Status line, the two header fields, and the empty line that ends the
      header block. */
  function Head(code: nat, reason: string, length: nat): string
  {
    StatusLine(code, reason) + ContentTypeField + ContentLengthField(length) + CRLF
  }

  /** The text `send_error(sock, code, message)` builds. */
  function ErrorText(code: nat, reason: string): string
  {
    "HTTP/1.1 " + NatToString(code) + " " + reason + "\r\n"
    + "Content-Type: text/html\r\n"
    + "Content-Length: 0\r\n"
    + "\r\n"
  }

  /** The bytes `send_error` passes to `sendall`. */
  function SendError(code: nat, reason: string): seq<byte>
  {
    Encode(ErrorText(code, reason))
  }

  /** The text `send_response(sock, html)` builds: Content-Length is the byte
      length of the UTF-8 encoded page. */
  function ResponseText(html: string): string
  {
    "HTTP/1.1 200 OK\r\n"
    + "Content-Type: text/html\r\n"
    + "Content-Length: " + NatToString(|Encode(html)|) + "\r\n"
    + "\r\n"
    + html
  }

  /** The bytes `send_response` passes to `sendall`. */
  function SendResponse(html: string): seq<byte>
  {
    Encode(ResponseText(html))
  }

  /** A client's reading of a status line: the digits after `HTTP/1.1 `, then
      one space, then the reason phrase up to the final CRLF. */
  function ReadStatusLine(line: string): (r: Option<(nat, string)>)
    ensures r.Some? ==> "HTTP/1.1 " <= line && line[|line| - 2..] == CRLF
  {
    if |line| >= 11 && "HTTP/1.1 " <= line && line[|line| - 2..] == CRLF then
      var rest := line[9..|line| - 2];
      var d := DigitRun(rest);
      if d != [] && |d| < |rest| && rest[|d|] == ' ' then Some((ParseDecimal(d), rest[|d| + 1..]))
      else None
    else None
  }

  /** A client's reading of a `Content-Length` field: the decimal digits
      between the field name and the CRLF. */
  function ReadContentLength(field: string): (r: Option<nat>)
    ensures r.Some? ==> "Content-Length: " <= field
  {
    if |field| >= 18 && "Content-Length: " <= field && field[|field| - 2..] == CRLF then
      var v := field[16..|field| - 2];
      if v != [] && AllDigits(v) then Some(ParseDecimal(v)) else None
    else None
  }

  /** Every status line the servers write reads back as its code and reason. */
  lemma StatusLineRoundTrip(code: nat, reason: string)
    ensures ReadStatusLine(StatusLine(code, reason)) == Some((code, reason))
  {
    var line := StatusLine(code, reason);
    var digits := NatToString(code);
    StatusLineParts(code, reason);
    var rest := line[9..|line| - 2];
    DigitRunStops(digits, " " + reason);
    ParseNatToString(code);
    assert rest[|digits| + 1..] == reason;
  }

  /** A status line is the version, the text between, and the CRLF. */
  lemma StatusLineParts(code: nat, reason: string)
    ensures var line := StatusLine(code, reason);
      && |line| >= 11 && "HTTP/1.1 " <= line && line[|line| - 2..] == CRLF
      && line[9..|line| - 2] == NatToString(code) + (" " + reason)
  {
    var line := StatusLine(code, reason);
    assert line == "HTTP/1.1 " + (NatToString(code) + (" " + reason)) + CRLF;
  }

  /** Every Content-Length field the servers write reads back as its count. */
  lemma {:induction false} ContentLengthRoundTrip(n: nat)
    ensures ReadContentLength(ContentLengthField(n)) == Some(n)
  {
    var field := ContentLengthField(n);
    assert field[16..|field| - 2] == NatToString(n);
    ParseNatToString(n);
  }

  /** An error response is a header block announcing an empty body, and
      nothing follows the empty line: its status line reads back as
      `code` and `reason`, its Content-Length field as 0. */
  lemma SendErrorFormat(code: nat, reason: string)
    ensures ErrorText(code, reason) == Head(code, reason, 0)
    ensures ReadStatusLine(StatusLine(code, reason)) == Some((code, reason))
    ensures ReadContentLength(ContentLengthField(0)) == Some(0)
    ensures ErrorText(code, reason)[|ErrorText(code, reason)| - 4..] == CRLF + CRLF
    ensures SendError(code, reason) == Encode(Head(code, reason, 0))
  {
    assert NatToString(0) == "0";
    StatusLineRoundTrip(code, reason);
    ContentLengthRoundTrip(0);
  }

  /** A 200 response is its header block followed by the page, with the
      page's UTF-8 byte count as Content-Length. */
  lemma ResponseTextFraming(html: string)
    ensures ResponseText(html) == Head(200, "OK", |Encode(html)|) + html
  {
    assert NatToString(200) == "200" by {
      assert NatToString(20) == NatToString(2) + ['0'];
    }
  }

  /** On the wire, the response is the encoded header block followed by the
      encoded page. */
  lemma SendResponseFraming(html: string)
    ensures SendResponse(html) == Encode(Head(200, "OK", |Encode(html)|)) + Encode(html)
  {
    ResponseTextFraming(html);
    EncodeAppend(Head(200, "OK", |Encode(html)|), html);
  }

  /** The encoded header block is the encoded status line, the two fields
      and the empty line, one after another. */
  lemma EncodeHead(code: nat, reason: string, length: nat)
    ensures Encode(Head(code, reason, length)) ==
      Encode(StatusLine(code, reason)) + Encode(ContentTypeField) + Encode(ContentLengthField(length)) + Encode(CRLF)
  {
    var status, field := StatusLine(code, reason), ContentLengthField(length);
    EncodeAppend(status + ContentTypeField + field, CRLF);
    EncodeAppend(status + ContentTypeField, field);
    EncodeAppend(status, ContentTypeField);
  }

  /** The bytes of a 200 response are its status line, its two fields, the
      empty line and the page. A client reads the status line as 200 OK
      and the Content-Length field as the page's byte count `n`, and the
      last `n` bytes are exactly the page's bytes. */
  lemma SendResponseEndsWithPage(html: string)
    ensures var n := |Encode(html)|;
      var status, field := StatusLine(200, "OK"), ContentLengthField(n);
      && SendResponse(html) == Encode(status) + Encode(ContentTypeField) + Encode(field) + Encode(CRLF) + Encode(html)
      && ReadStatusLine(status) == Some((200, "OK"))
      && ReadContentLength(field) == Some(n)
      && |SendResponse(html)| >= n
      && SendResponse(html)[|SendResponse(html)| - n..] == Encode(html)
  {
    SendResponseFraming(html);
    EncodeHead(200, "OK", |Encode(html)|);
    StatusLineRoundTrip(200, "OK");
    ContentLengthRoundTrip(|Encode(html)|);
  }

  /** Byte 9 of a message that starts `HTTP/1.1 <d>` is the status code's
      first digit `d`. */
  lemma StatusDigitByte(t: string, d: char)
    requires IsDigit(d) && "HTTP/1.1 " + [d] <= t
    ensures |Encode(t)| > 9 && Encode(t)[9] as int == d as int
  {
    var p := t[..10];
    assert p == "HTTP/1.1 " + [d];
    assert t == p + t[10..];
    EncodeAppend(p, t[10..]);
    EncodeAscii(p);
  }

  /** Two error responses whose codes start with different digits differ
      on the wire. */
  lemma ErrorsDiffer(code1: nat, reason1: string, code2: nat, reason2: string)
    requires NatToString(code1)[0] != NatToString(code2)[0]
    ensures SendError(code1, reason1) != SendError(code2, reason2)
  {
    StatusDigitByte(ErrorText(code1, reason1), NatToString(code1)[0]);
    StatusDigitByte(ErrorText(code2, reason2), NatToString(code2)[0]);
  }

  /** A page response differs on the wire from every error response whose
      code does not start with 2. */
  lemma PageIsNotAnError(html: string, code: nat, reason: string)
    requires NatToString(code)[0] != '2'
    ensures SendResponse(html) != SendError(code, reason)
  {
    StatusDigitByte(ResponseText(html), '2');
    StatusDigitByte(ErrorText(code, reason), NatToString(code)[0]);
  }
}
