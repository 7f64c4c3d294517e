/** The origin server of http_server.py: how `handle_client` turns the first
    line of a request into a reply, and how `generate_html` builds a page
    that announces its own size. */
module OriginServer {
  import opened Text
  import opened Utf8
  import opened Messages
  import opened Wrappers

  const MinSize: nat := 100
  const MaxSize: nat := 20000

  const RequestPrefix := "GET /"

  /** `re.match(r"GET /(\d+) HTTP/1\.", line)` and its group 1. The group is
      the maximal run of digits after `GET /`: backtracking to a shorter run
      cannot help, because the next character would be a digit, not a space. */
  function MatchRequestLine(line: string): (m: Option<string>)
    ensures m.Some? ==> m.value != [] && AllDigits(m.value) && RequestPrefix + m.value + VersionMarker <= line
  {
    if RequestPrefix <= line then
      var digits := DigitRun(line[|RequestPrefix|..]);
      if digits != [] && VersionMarker <= line[|RequestPrefix| + |digits|..] then Some(digits) else None
    else None
  }

  /** The pattern matches with group `d` exactly when the line starts with
      `GET /`, then the non-empty digit string `d`, then ` HTTP/1.`. */
  lemma MatchRequestLineExact(line: string, d: string)
    ensures MatchRequestLine(line) == Some(d) <==>
            d != [] && AllDigits(d) && RequestPrefix + d + VersionMarker <= line
  {
    if d != [] && AllDigits(d) && RequestPrefix + d + VersionMarker <= line {
      var tail := line[5 + |d|..];
      assert line[5..] == d + tail;
      assert VersionMarker <= tail;
      DigitRunStops(d, tail);
    }
  }

  function BaseHtml(size: nat): string
  {
    "<HTML> <HEAD> <TITLE>I am " + NatToString(size) + " bytes long</TITLE> </HEAD> <BODY>"
  }

  const ClosingHtml := "</BODY> </HTML>"

  /** `content_length` in `generate_html`: what is left of `size` once the
      fixed parts and one separating space are accounted for. */
  function ContentLength(size: nat): int
  {
    size - |BaseHtml(size)| - |ClosingHtml| - 1
  }

  /** Python's `s * k` on strings. */
  function Repeat(s: string, k: nat): (r: string)
    ensures |r| == |s| * k
  {
    if k == 0 then [] else s + Repeat(s, k - 1)
  }

  /** `"a " * (c // 2)` followed by one more `"a"` when `c` is odd. */
  function Filler(c: nat): (f: string)
    ensures |f| == c
  {
    Repeat("a ", c / 2) + (if c % 2 == 1 then "a" else "")
  }

  /** `generate_html(size)`; `None` when the fixed parts leave no room. */
  function GenerateHtml(size: nat): Option<string>
  {
    var c := ContentLength(size);
    if c < 0 then None
    else Some(BaseHtml(size) + " " + Strip(Filler(c), PyWhitespace) + " " + ClosingHtml)
  }

  /** The fixed parts take 75 characters plus the digits of `size`. */
  lemma ContentLengthValue(size: nat)
    ensures |BaseHtml(size)| == 60 + |NatToString(size)|
    ensures ContentLength(size) == size - 76 - |NatToString(size)|
  {
  }

  /** Every size the handler accepts leaves room for at least 21 filler
      characters, so the `None` result never reaches the handler; the
      least room, 21, is at size 100. */
  lemma {:induction false} RoomInRange(size: nat)
    requires MinSize <= size <= MaxSize
    ensures ContentLength(size) >= 21
    ensures size == MinSize ==> ContentLength(size) == 21
    ensures GenerateHtml(size).Some?
  {
    ContentLengthValue(size);
    if size < 1000 {
      assert Pow10(3) == 1000;
      NatToStringLength(size, 3);
    } else {
      assert Pow10(5) == 100000 by {
        assert Pow10(3) == 1000;
      }
      NatToStringLength(size, 5);
    }
    if size == MinSize {
      NatToStringLength(size, 2);
      assert Pow10(2) == 100;
    }
  }

  lemma {:induction false} RepeatPairAt(k: nat, i: nat)
    requires i < 2 * k
    ensures Repeat("a ", k)[i] == if i % 2 == 0 then 'a' else ' '
  {
    if i >= 2 {
      RepeatPairAt(k - 1, i - 2);
    }
  }

  /** The filler has `c` characters, alternating `a` (even positions) and
      space (odd positions). */
  lemma FillerAt(c: nat, i: nat)
    requires i < c
    ensures |Filler(c)| == c
    ensures Filler(c)[i] == if i % 2 == 0 then 'a' else ' '
  {
    if i < 2 * (c / 2) {
      RepeatPairAt(c / 2, i);
    }
  }

  predicate FillerChars(s: string) { forall i :: 0 <= i < |s| ==> s[i] == 'a' || s[i] == ' ' }

  lemma WhitespaceMembers()
    ensures ' ' in PyWhitespace && 'a' !in PyWhitespace
  {
  }

  /** Any prefix of a filler holds only `a` and space. */
  lemma FillerPrefixChars(c: nat, t: string)
    requires t <= Filler(c)
    ensures FillerChars(t)
  {
    forall i | 0 <= i < |t| ensures t[i] == 'a' || t[i] == ' ' {
      FillerAt(c, i);
    }
  }

  /** `filler.strip()` removes the one trailing space an even, positive
      count leaves; it removes nothing otherwise. */
  lemma StrippedFiller(c: nat)
    ensures var f := Filler(c);
      var t := Strip(f, PyWhitespace);
      && |f| == c
      && t == (if c > 0 && c % 2 == 0 then f[..c - 1] else f)
      && |t| == (if c > 0 && c % 2 == 0 then c - 1 else c)
      && FillerChars(t)
  {
    var f := Filler(c);
    if c == 0 {
      assert f == [];
    } else if c % 2 == 0 {
      StrippedEvenFiller(c);
    } else {
      StrippedOddFiller(c);
    }
    FillerPrefixChars(c, Strip(f, PyWhitespace));
  }

  lemma StrippedOddFiller(c: nat)
    requires c % 2 == 1
    ensures Strip(Filler(c), PyWhitespace) == Filler(c)
  {
    WhitespaceMembers();
    FillerAt(c, 0);
    FillerAt(c, c - 1);
    StripKeeps(Filler(c), PyWhitespace);
  }

  lemma StrippedEvenFiller(c: nat)
    requires c > 0 && c % 2 == 0
    ensures |Filler(c)| == c && Strip(Filler(c), PyWhitespace) == Filler(c)[..c - 1]
  {
    var f := Filler(c);
    WhitespaceMembers();
    FillerAt(c, 0);
    FillerAt(c, c - 1);
    FillerAt(c, c - 2);
    assert TrimStart(f, PyWhitespace) == f;
    var g := f[..c - 1];
    assert TrimEnd(f, PyWhitespace) == TrimEnd(g, PyWhitespace);
    assert TrimEnd(g, PyWhitespace) == g by {
      assert g[|g| - 1] == 'a';
    }
  }

  /** What `generate_html` promises, and where it falls short: the page
      starts with the title that announces `size`, ends with the closing
      tags, holds only `a` and space between them, and is `size` long only
      when the filler count is even and positive; otherwise it is one
      character longer than it claims. */
  lemma GenerateHtmlSpec(size: nat)
    ensures GenerateHtml(size).Some? <==> ContentLength(size) >= 0
    ensures GenerateHtml(size).Some? ==>
      var doc := GenerateHtml(size).value;
      var c := ContentLength(size);
      && BaseHtml(size) + " " <= doc
      && doc[|doc| - |ClosingHtml| - 1..] == " " + ClosingHtml
      && FillerChars(doc[|BaseHtml(size)| + 1..|doc| - |ClosingHtml| - 1])
      && |doc| == (if c > 0 && c % 2 == 0 then size else size + 1)
      && (|doc| == size <==> c > 0 && c % 2 == 0)
  {
    if ContentLength(size) >= 0 {
      GenerateHtmlLayout(size);
      GenerateHtmlLength(size);
    }
  }

  lemma GenerateHtmlLayout(size: nat)
    requires ContentLength(size) >= 0
    ensures var doc := GenerateHtml(size).value;
      && BaseHtml(size) + " " <= doc
      && doc[|doc| - |ClosingHtml| - 1..] == " " + ClosingHtml
      && FillerChars(doc[|BaseHtml(size)| + 1..|doc| - |ClosingHtml| - 1])
  {
    var c := ContentLength(size);
    var t := Strip(Filler(c), PyWhitespace);
    StrippedFiller(c);
    Sandwich(BaseHtml(size), t, ClosingHtml);
  }

  /** `a + " " + t + " " + z` starts with `a + " "`, ends with `" " + z`, and
      holds `t` between them. */
  lemma Sandwich(a: string, t: string, z: string)
    ensures var doc := a + " " + t + " " + z;
      && a + " " <= doc
      && doc[|doc| - |z| - 1..] == " " + z
      && doc[|a| + 1..|doc| - |z| - 1] == t
  {
    var doc := a + " " + t + " " + z;
    assert doc == (a + " ") + t + (" " + z);
  }

  lemma GenerateHtmlLength(size: nat)
    requires ContentLength(size) >= 0
    ensures var c := ContentLength(size);
      |GenerateHtml(size).value| == (if c > 0 && c % 2 == 0 then size else size + 1)
  {
    ContentLengthValue(size);
    StrippedFiller(ContentLength(size));
  }

  lemma BaseHtmlAscii(size: nat)
    ensures IsAscii(BaseHtml(size))
  {
    var digits := NatToString(size);
    assert IsAscii(digits) by {
      forall i | 0 <= i < |digits| ensures digits[i] as int < 0x80 {
        assert IsDigit(digits[i]);
      }
    }
    var head := "<HTML> <HEAD> <TITLE>I am ";
    var tail := " bytes long</TITLE> </HEAD> <BODY>";
    AsciiAppend(head, digits);
    AsciiAppend(head + digits, tail);
    assert BaseHtml(size) == head + digits + tail;
  }

  lemma StrippedFillerAscii(c: nat)
    ensures IsAscii(Strip(Filler(c), PyWhitespace))
  {
    var t := Strip(Filler(c), PyWhitespace);
    StrippedFiller(c);
    forall i | 0 <= i < |t| ensures t[i] as int < 0x80 {
      assert t[i] == 'a' || t[i] == ' ';
    }
  }

  lemma PageAscii(base: string, t: string)
    requires IsAscii(base) && IsAscii(t)
    ensures IsAscii(base + " " + t + " " + ClosingHtml)
  {
    AsciiAppend(base, " ");
    AsciiAppend(base + " ", t);
    AsciiAppend(base + " " + t, " ");
    AsciiAppend(base + " " + t + " ", ClosingHtml);
  }

  /** Every generated page is ASCII text. */
  lemma GenerateHtmlAscii(size: nat)
    requires GenerateHtml(size).Some?
    ensures IsAscii(GenerateHtml(size).value)
  {
    var c := ContentLength(size);
    BaseHtmlAscii(size);
    StrippedFillerAscii(c);
    PageAscii(BaseHtml(size), Strip(Filler(c), PyWhitespace));
  }

  /** The reply `handle_client` decides on: an error status or a page. */
  datatype Reply = Error(status: nat, reason: string) | Page(html: string)

  /** The decision chain of `handle_client` for the request's first line. */
  function HandleRequestLine(line: string): Reply
  {
    if !("GET" <= line) then Error(501, "Not Implemented")
    else match MatchRequestLine(line)
      case None => Error(400, "Bad Request")
      case Some(digits) =>
        var size := ParseDecimal(digits);
        if size < MinSize || size > MaxSize then Error(400, "Bad Request")
        else match GenerateHtml(size)
          case None => Error(400, "Bad Request")
          case Some(html) => Page(html)
  }

  /** The bytes written for a reply: `send_error` or `send_response`. */
  function Render(reply: Reply): seq<byte>
  {
    match reply
    case Error(status, reason) => SendError(status, reason)
    case Page(html) => SendResponse(html)
  }

  /** Everything `handle_client` writes for a request (decoded to text). */
  function HandleClient(request: string): seq<byte>
  {
    Render(HandleRequestLine(FirstLine(request)))
  }

  /** A client receives 501 Not Implemented exactly when its request does
      not start with `GET`; every other reply is a different byte string. */
  lemma NotGetIs501(request: string)
    ensures HandleClient(request) == SendError(501, "Not Implemented") <==> !("GET" <= request)
  {
    FirstLineStartsWithGet(request);
    if "GET" <= FirstLine(request) {
      GetIsNot501(FirstLine(request));
    }
  }

  /** A `GET` line is answered with a page or a 400, never with the bytes
      of a 501. */
  lemma GetIsNot501(line: string)
    requires "GET" <= line
    ensures Render(HandleRequestLine(line)) != SendError(501, "Not Implemented")
  {
    StatusDigits();
    match HandleRequestLine(line)
    case Page(html) =>
      PageIsNotAnError(html, 501, "Not Implemented");
    case Error(code, reason) =>
      ErrorsDiffer(400, "Bad Request", 501, "Not Implemented");
  }

  lemma StatusDigits()
    ensures NatToString(501)[0] == '5' && NatToString(400)[0] == '4'
  {
    assert NatToString(501) == NatToString(50) + ['1'];
    assert NatToString(50) == NatToString(5) + ['0'];
    assert NatToString(400) == NatToString(40) + ['0'];
    assert NatToString(40) == NatToString(4) + ['0'];
  }

  /** The first line starts with `GET` exactly when the request does. */
  lemma FirstLineStartsWithGet(request: string)
    ensures "GET" <= FirstLine(request) <==> "GET" <= request
  {
    var line := FirstLine(request);
    if "GET" <= request {
      assert |line| >= 3 by {
        assert request[0] != '\n' && request[1] != '\n' && request[2] != '\n';
      }
      assert line[..3] == request[..3];
    }
  }

  /** 400 Bad Request exactly for `GET` lines that do not match the pattern
      or name a size outside [100, 20000]. */
  lemma BadRequestIff(line: string)
    ensures HandleRequestLine(line) == Error(400, "Bad Request") <==>
      && "GET" <= line
      && (|| MatchRequestLine(line).None?
          || ParseDecimal(MatchRequestLine(line).value) < MinSize
          || ParseDecimal(MatchRequestLine(line).value) > MaxSize)
  {
    var m := MatchRequestLine(line);
    if "GET" <= line && m.Some? && MinSize <= ParseDecimal(m.value) <= MaxSize {
      RoomInRange(ParseDecimal(m.value));
    }
  }

  /** A page is sent exactly for a matching line with a size in range. */
  lemma PageIff(line: string)
    ensures HandleRequestLine(line).Page? <==>
      MatchRequestLine(line).Some? && MinSize <= ParseDecimal(MatchRequestLine(line).value) <= MaxSize
  {
    var m := MatchRequestLine(line);
    if m.Some? && MinSize <= ParseDecimal(m.value) <= MaxSize {
      assert "GET" <= line by {
        assert line[..3] == RequestPrefix[..3];
      }
      RoomInRange(ParseDecimal(m.value));
    }
  }

  /** The page sent is `generate_html(size)`, `size` or `size + 1`
      characters long. */
  lemma PageContents(line: string)
    requires HandleRequestLine(line).Page?
    ensures MatchRequestLine(line).Some?
    ensures var size := ParseDecimal(MatchRequestLine(line).value);
      var html := HandleRequestLine(line).html;
      && Some(html) == GenerateHtml(size)
      && (|html| == size || |html| == size + 1)
  {
    GenerateHtmlSpec(ParseDecimal(MatchRequestLine(line).value));
  }

  /** For `GET /<n> HTTP/1.` the boundaries are exactly 100 and 20000. */
  lemma SizeBoundary(n: nat, rest: string)
    ensures var line := RequestPrefix + NatToString(n) + VersionMarker + rest;
      && MatchRequestLine(line) == Some(NatToString(n))
      && (HandleRequestLine(line).Page? <==> MinSize <= n <= MaxSize)
  {
    var line := RequestPrefix + NatToString(n) + VersionMarker + rest;
    MatchRequestLineExact(line, NatToString(n));
    ParseNatToString(n);
    PageIff(line);
  }

  /** A page goes out with Content-Length equal to its character count. */
  lemma PageResponse(request: string)
    requires HandleRequestLine(FirstLine(request)).Page?
    ensures var html := HandleRequestLine(FirstLine(request)).html;
      && HandleClient(request) == SendResponse(html)
      && HandleClient(request) == Encode(Head(200, "OK", |html|)) + Encode(html)
      && ReadContentLength(ContentLengthField(|html|)) == Some(|html|)
  {
    var line := FirstLine(request);
    PageIff(line);
    var html := HandleRequestLine(line).html;
    GenerateHtmlAscii(ParseDecimal(MatchRequestLine(line).value));
    EncodeAscii(html);
    SendResponseFraming(html);
    ContentLengthRoundTrip(|html|);
  }

  /** A method other than GET gets 501. */
  lemma PostIs501()
    ensures HandleRequestLine("POST /100 HTTP/1.1") == Error(501, "Not Implemented")
  {
    assert "POST /100 HTTP/1.1"[0] != 'G';
  }

  /** A line that starts with `GET` but not with `GET /` gets 400. */
  lemma GetXIs400()
    ensures HandleRequestLine("GETX /5 HTTP/1.1") == Error(400, "Bad Request")
  {
    assert "GETX /5 HTTP/1.1"[3] != ' ';
  }

  /** A target without digits gets 400. */
  lemma NonNumericTargetIs400()
    ensures HandleRequestLine("GET /abc HTTP/1.1") == Error(400, "Bad Request")
  {
    assert MatchRequestLine("GET /abc HTTP/1.1") == None by {
      assert "GET /abc HTTP/1.1"[5..] == "abc HTTP/1.1";
    }
  }

  /** An empty target gets 400. */
  lemma EmptyTargetIs400()
    ensures HandleRequestLine("GET / HTTP/1.1") == Error(400, "Bad Request")
  {
    assert MatchRequestLine("GET / HTTP/1.1") == None by {
      assert "GET / HTTP/1.1"[5..] == " HTTP/1.1";
    }
  }

  /** Version 2 does not match the pattern. */
  lemma Http2Is400()
    ensures HandleRequestLine("GET /100 HTTP/2") == Error(400, "Bad Request")
  {
    var line := "GET /100 HTTP/2";
    assert line[5..] == "100" + " HTTP/2";
    DigitRunStops("100", " HTTP/2");
    assert !(VersionMarker <= line[8..]);
  }

  /** The smallest page: `/100` leaves 21 filler characters, an odd count,
      so the page claims 100 bytes and has 101. */
  lemma SmallestPageIsOneLonger()
    ensures GenerateHtml(100).Some? && |GenerateHtml(100).value| == 101
  {
    RoomAt100();
    OddRoomPage(100);
  }

  /** `str(100)` has three digits, which leaves 21 filler characters. */
  lemma RoomAt100()
    ensures ContentLength(100) == 21
  {
    NatToStringLength(100, 3);
    NatToStringLength(100, 2);
    assert Pow10(3) == 1000 && Pow10(2) == 100;
    ContentLengthValue(100);
  }

  /** An odd room makes the page one character longer than announced. */
  lemma OddRoomPage(size: nat)
    requires ContentLength(size) >= 0 && ContentLength(size) % 2 == 1
    ensures GenerateHtml(size).Some? && |GenerateHtml(size).value| == size + 1
  {
    GenerateHtmlSpec(size);
  }

  /** `/101` leaves 22 filler characters, an even count, so the page has
      the 101 bytes it claims. */
  lemma EvenRoomPageIsExact()
    ensures GenerateHtml(101).Some? && |GenerateHtml(101).value| == 101
  {
    RoomAt101();
    GenerateHtmlSpec(101);
  }

  /** `str(101)` has three digits, which leaves 22 filler characters. */
  lemma RoomAt101()
    ensures ContentLength(101) == 22
  {
    NatToStringLength(101, 3);
    NatToStringLength(101, 2);
    assert Pow10(3) == 1000 && Pow10(2) == 100;
    ContentLengthValue(101);
  }
}
