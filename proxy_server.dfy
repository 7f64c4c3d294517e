/** The forwarding proxy of proxy_server.py: how `handle_proxy_client`
    classifies an absolute-form request line, the request
    `forward_request_to_server` sends upstream, and the loop that relays the
    upstream's chunks to the client. */
module ProxyServer {
  import opened Text
  import opened Utf8
  import opened Messages
  import opened Wrappers
  import OriginServer

  const ProxyPrefix := "GET http://"

  /** The largest numeric path the proxy forwards; above it the reply is 414. */
  const MaxPathNumber := 9999

  /** The destination is fixed, whatever host and port the request named. */
  const UpstreamHost := "localhost"
  const UpstreamPort: nat := 8080

  // ---------------------------------------------------------------------
  // re.match(r"GET http://[^/]+(/.*) HTTP/1\.", line)
  // ---------------------------------------------------------------------

  /** ` HTTP/1.` starts at position `k` of `line`. */
  predicate MarkerAt(line: string, k: int)
  {
    0 <= k <= |line| && VersionMarker <= line[k..]
  }

  /** The maximal run of characters other than `/` (what a greedy `[^/]+`
      consumes; it includes line feeds). */
  function NonSlashRun(s: string): (h: string)
    ensures h <= s && '/' !in h
    ensures |h| < |s| ==> s[|h|] == '/'
  {
    if s != [] && s[0] != '/' then [s[0]] + NonSlashRun(s[1..]) else []
  }

  lemma {:induction false} NonSlashRunStops(h: string, t: string)
    requires '/' !in h
    requires t != [] && t[0] == '/'
    ensures NonSlashRun(h + t) == h
  {
    if h != [] {
      assert (h + t)[1..] == h[1..] + t;
      NonSlashRunStops(h[1..], t);
    } else {
      assert h + t == t;
    }
  }

  /** The largest `k` in `[lo, hi]` at which the marker starts: where the
      greedy `.*` stops after backtracking from `hi`. */
  function LastMarker(line: string, lo: nat, hi: nat): (k: Option<nat>)
    requires lo <= hi <= |line|
    ensures k.Some? ==> lo <= k.value <= hi && MarkerAt(line, k.value)
    ensures k.Some? ==> forall j :: k.value < j <= hi ==> !MarkerAt(line, j)
    ensures k.None? ==> forall j :: lo <= j <= hi ==> !MarkerAt(line, j)
    decreases hi - lo
  {
    if MarkerAt(line, hi) then Some(hi)
    else if hi == lo then None
    else LastMarker(line, lo, hi - 1)
  }

  /** Where group 1 starts: `[^/]+` can only take the maximal run of
      non-`/` characters after `GET http://`, since a `/` must follow it. */
  function PathStart(line: string): (p: Option<nat>)
    ensures p.Some? ==>
      && ProxyPrefix <= line
      && |ProxyPrefix| < p.value < |line| && line[p.value] == '/'
      && line[|ProxyPrefix|..p.value] == NonSlashRun(line[|ProxyPrefix|..])
  {
    if !(ProxyPrefix <= line) then None
    else
      var host := NonSlashRun(line[|ProxyPrefix|..]);
      if host == [] || |ProxyPrefix| + |host| == |line| then None
      else Some(|ProxyPrefix| + |host|)
  }

  /** Where group 1 ends, given that it starts at `p`: `.*` runs to the
      first line feed and backtracks to the last marker before it. */
  function PathEnd(line: string, p: nat): (k: Option<nat>)
    requires p < |line|
    ensures k.Some? ==> p < k.value && MarkerAt(line, k.value) && '\n' !in line[p + 1..k.value]
    ensures k.Some? ==> forall j :: k.value < j <= p + 1 + |FirstLine(line[p + 1..])| ==> !MarkerAt(line, j)
    ensures k.None? ==> forall j :: p < j <= p + 1 + |FirstLine(line[p + 1..])| ==> !MarkerAt(line, j)
  {
    var fl := FirstLine(line[p + 1..]);
    var k := LastMarker(line, p + 1, p + 1 + |fl|);
    assert k.Some? ==> line[p + 1..k.value] <= fl;
    k
  }

  /** Group 1 of the proxy's pattern, `None` when the pattern fails. */
  function MatchProxyLine(line: string): (m: Option<string>)
    ensures m.Some? ==> ProxyPrefix <= line && m.value != [] && m.value[0] == '/'
  {
    match PathStart(line)
    case None => None
    case Some(p) =>
      match PathEnd(line, p)
      case None => None
      case Some(k) => Some(line[p..k])
  }

  /** `line` is `GET http://<host><path> HTTP/1.…` with a non-empty host
      free of `/` and a path that starts with `/` and holds no line feed. */
  ghost predicate ProxyShape(line: string, host: string, path: string)
  {
    && host != [] && '/' !in host
    && path != [] && path[0] == '/' && '\n' !in path
    && ProxyPrefix + host + path + VersionMarker <= line
  }

  /** Assembles `ProxyShape` from the positions of its four parts. */
  lemma ShapeFromParts(line: string, host: string, path: string)
    requires host != [] && '/' !in host
    requires path != [] && path[0] == '/' && '\n' !in path
    requires var p := |ProxyPrefix| + |host|; var q := p + |path|;
      && q + |VersionMarker| <= |line|
      && line[..|ProxyPrefix|] == ProxyPrefix
      && line[|ProxyPrefix|..p] == host
      && line[p..q] == path
      && line[q..q + |VersionMarker|] == VersionMarker
    ensures ProxyShape(line, host, path)
  {
    var p := |ProxyPrefix| + |host|;
    var q := p + |path|;
    assert line[..q + |VersionMarker|] == ProxyPrefix + host + path + VersionMarker;
  }

  /** What the pattern returns has the shape the pattern describes. */
  lemma MatchProxySound(line: string)
    requires MatchProxyLine(line).Some?
    ensures ProxyShape(line, NonSlashRun(line[|ProxyPrefix|..]), MatchProxyLine(line).value)
  {
    var p := PathStart(line).value;
    var k := PathEnd(line, p).value;
    var path := line[p..k];
    assert '\n' !in path by {
      assert path == [line[p]] + line[p + 1..k];
    }
    ShapeFromParts(line, NonSlashRun(line[|ProxyPrefix|..]), path);
  }

  /** Whenever a line has the shape, the pattern matches, and greedily: the
      group extends the given path (to the last marker on the line). */
  lemma MatchProxyGreedy(line: string, host: string, path: string)
    requires ProxyShape(line, host, path)
    ensures MatchProxyLine(line).Some?
    ensures path <= MatchProxyLine(line).value
  {
    var p := |ProxyPrefix| + |host|;
    var q := p + |path|;
    ShapeStart(line, host, path);
    ShapeMarker(line, host, path);
    PathEndReaches(line, p, q);
    var k := PathEnd(line, p).value;
    MatchAt(line, p, k);
    SliceIsPrefix(line, p, q, k);
  }

  /** When no marker starts after the given path, the group is that path. */
  lemma MatchProxyExact(line: string, host: string, path: string)
    requires ProxyShape(line, host, path)
    requires forall j :: |ProxyPrefix| + |host| + |path| < j <= |line| ==> !MarkerAt(line, j)
    ensures MatchProxyLine(line) == Some(path)
  {
    var p := |ProxyPrefix| + |host|;
    var q := p + |path|;
    ShapeStart(line, host, path);
    ShapeMarker(line, host, path);
    PathEndReaches(line, p, q);
    var k := PathEnd(line, p).value;
    MatchAt(line, p, k);
    assert k == q;
  }

  /** A marker on the first line after `p` bounds where group 1 ends from
      below. */
  lemma PathEndReaches(line: string, p: nat, q: nat)
    requires p < q && p < |line| && MarkerAt(line, q)
    requires q <= p + 1 + |FirstLine(line[p + 1..])|
    ensures PathEnd(line, p).Some? && q <= PathEnd(line, p).value
  {
  }

  lemma MatchAt(line: string, p: nat, k: nat)
    requires PathStart(line) == Some(p)
    requires p < |line| && PathEnd(line, p) == Some(k)
    ensures k <= |line| && MatchProxyLine(line) == Some(line[p..k])
  {
  }

  lemma SliceIsPrefix(s: string, p: nat, q: nat, k: nat)
    requires p <= q <= k <= |s|
    ensures s[p..q] <= s[p..k]
  {
    assert forall i :: 0 <= i < q - p ==> s[p..q][i] == s[p..k][i];
  }

  /** On a line of the shape, group 1 starts right after the host. */
  lemma ShapeStart(line: string, host: string, path: string)
    requires ProxyShape(line, host, path)
    ensures PathStart(line) == Some(|ProxyPrefix| + |host|)
    ensures |ProxyPrefix| + |host| + |path| <= |line|
    ensures line[|ProxyPrefix| + |host|..|ProxyPrefix| + |host| + |path|] == path
  {
    var p := |ProxyPrefix| + |host|;
    assert line[p..p + |path|] == path by {
      assert forall i :: 0 <= i < |path| ==> line[p + i] == path[i];
    }
    assert line[|ProxyPrefix|..] == host + line[p..];
    NonSlashRunStops(host, line[p..]);
  }

  /** On a line of the shape, the marker after the path starts on the first
      line, so the greedy `.*` can stop there. */
  lemma ShapeMarker(line: string, host: string, path: string)
    requires ProxyShape(line, host, path)
    ensures var p := |ProxyPrefix| + |host|; var q := p + |path|;
      && MarkerAt(line, q)
      && q <= p + 1 + |FirstLine(line[p + 1..])|
  {
    var p := |ProxyPrefix| + |host|;
    var q := p + |path|;
    assert line[q..q + |VersionMarker|] == VersionMarker;
    var rest := line[p + 1..];
    assert forall i :: 0 <= i < q - p - 1 ==> rest[i] == path[1 + i];
  }

  // ---------------------------------------------------------------------
  // int(...) on a string
  // ---------------------------------------------------------------------

  /** Digits with single underscores between them, as `int()` accepts. */
  predicate IsDigitGroups(s: string)
  {
    && s != [] && IsDigit(s[0]) && IsDigit(s[|s| - 1])
    && (forall i :: 0 <= i < |s| ==> IsDigit(s[i]) || s[i] == '_')
    && (forall i :: 0 <= i < |s| - 1 ==> s[i] == '_' ==> s[i + 1] != '_')
  }

  /** The digits of `s` in order, without its underscores. The last clause,
      `UnderscoresVanish` and `RemoveUnderscoresAppend` fix the result for
      every string: a run of digits is kept, a run of underscores vanishes,
      and the pieces stay in order. */
  function RemoveUnderscores(s: string): (r: string)
    requires forall i :: 0 <= i < |s| ==> IsDigit(s[i]) || s[i] == '_'
    ensures AllDigits(r) && |r| <= |s|
    ensures (forall i :: 0 <= i < |s| ==> s[i] != '_') ==> r == s
  {
    if s == [] then []
    else (if s[0] == '_' then [] else [s[0]]) + RemoveUnderscores(s[1..])
  }

  /** The characters `int()` skips around a number: ASCII space and
      `\t\n\v\f\r`, and the non-ASCII characters for which `str.isspace()`
      holds (`int()` turns those into spaces first). The ASCII separators
      U+001C to U+001F are whitespace to `str.strip()` but not to `int()`. */
  const IntWhitespace: set<char> := PyWhitespace - {'\U{1C}', '\U{1D}', '\U{1E}', '\U{1F}'}

  /** `int(s)` in base 10: surrounding whitespace, one optional sign, then
      digit groups; `None` where Python raises `ValueError`. */
  function PyInt(s: string): Option<int>
  {
    SignedDigitGroups(Strip(s, IntWhitespace))
  }

  /** `int()` on an already stripped string: one optional sign, then digit
      groups. */
  function SignedDigitGroups(t: string): Option<int>
  {
    var signed := t != [] && (t[0] == '-' || t[0] == '+');
    var body := if signed then t[1..] else t;
    if IsDigitGroups(body) then
      var v: int := ParseDecimal(RemoveUnderscores(body));
      Some(if signed && t[0] == '-' then -v else v)
    else None
  }

  /** A run of underscores leaves nothing. */
  lemma {:induction false} UnderscoresVanish(s: string)
    requires forall i :: 0 <= i < |s| ==> s[i] == '_'
    ensures RemoveUnderscores(s) == []
  {
    if s != [] {
      assert forall i :: 0 <= i < |s| - 1 ==> s[1..][i] == s[i + 1];
      UnderscoresVanish(s[1..]);
    }
  }

  /** Removing underscores works piece by piece, keeping the order. */
  lemma {:induction false} RemoveUnderscoresAppend(a: string, b: string)
    requires forall i :: 0 <= i < |a| ==> IsDigit(a[i]) || a[i] == '_'
    requires forall i :: 0 <= i < |b| ==> IsDigit(b[i]) || b[i] == '_'
    ensures RemoveUnderscores(a + b) == RemoveUnderscores(a) + RemoveUnderscores(b)
  {
    if a == [] {
      assert a + b == b;
    } else {
      assert (a + b)[1..] == a[1..] + b;
      RemoveUnderscoresAppend(a[1..], b);
    }
  }

  /** `int("<a>_<b>")` for digit strings `a` and `b` is the value of the
      digits `a + b`: one underscore between digit groups is ignored. */
  lemma GroupedValue(a: string, b: string)
    requires a != [] && AllDigits(a) && b != [] && AllDigits(b)
    ensures PyInt(a + "_" + b) == Some(ParseDecimal(a + b) as int)
  {
    var t := a + "_" + b;
    GroupedShape(a, b);
    DigitsAreNotWhitespace(t[0]);
    DigitsAreNotWhitespace(t[|t| - 1]);
    StripKeeps(t, IntWhitespace);
    GroupedDigits(a, b);
  }

  /** `a + "_" + b` is a valid run of digit groups that starts and ends
      with a digit. */
  lemma GroupedShape(a: string, b: string)
    requires a != [] && AllDigits(a) && b != [] && AllDigits(b)
    ensures var t := a + "_" + b;
      && IsDigitGroups(t) && IsDigit(t[0]) && IsDigit(t[|t| - 1])
  {
    var t := a + "_" + b;
    assert forall i :: 0 <= i < |a| ==> t[i] == a[i];
    assert forall i :: |a| < i < |t| ==> t[i] == b[i - |a| - 1];
  }

  lemma GroupedDigits(a: string, b: string)
    requires a != [] && AllDigits(a) && b != [] && AllDigits(b)
    ensures SignedDigitGroups(a + "_" + b) == Some(ParseDecimal(a + b) as int)
  {
    GroupedShape(a, b);
    RemoveGrouped(a, b);
    UnsignedGroups(a + "_" + b);
  }

  /** Removing the underscore from `a + "_" + b` leaves `a + b`. */
  lemma RemoveGrouped(a: string, b: string)
    requires a != [] && AllDigits(a) && b != [] && AllDigits(b)
    ensures forall i :: 0 <= i < |a + "_" + b| ==> IsDigit((a + "_" + b)[i]) || (a + "_" + b)[i] == '_'
    ensures RemoveUnderscores(a + "_" + b) == a + b
  {
    var u := a + "_";
    DigitsThenUnderscore(a);
    RemoveUnderscoresAppend(a, "_");
    DigitsAreGroups(a);
    assert RemoveUnderscores("_") == [];
    assert RemoveUnderscores(u) == a;
    DigitsAreGroups(b);
    JoinedGroups(u, b);
    RemoveUnderscoresAppend(u, b);
  }

  lemma DigitsThenUnderscore(a: string)
    requires AllDigits(a)
    ensures forall i :: 0 <= i < |a + "_"| ==> IsDigit((a + "_")[i]) || (a + "_")[i] == '_'
  {
    assert forall i :: 0 <= i < |a| ==> (a + "_")[i] == a[i];
  }

  lemma JoinedGroups(u: string, b: string)
    requires forall i :: 0 <= i < |u| ==> IsDigit(u[i]) || u[i] == '_'
    requires AllDigits(b)
    ensures forall i :: 0 <= i < |u + b| ==> IsDigit((u + b)[i]) || (u + b)[i] == '_'
  {
    assert forall i :: |u| <= i < |u + b| ==> (u + b)[i] == b[i - |u|];
  }

  lemma DigitsAreNotWhitespace(c: char)
    requires IsDigit(c)
    ensures c !in IntWhitespace
  {
  }

  /** Plain digits read as their value. */
  lemma SignedDigitGroupsOfDigits(d: string)
    requires d != [] && AllDigits(d)
    ensures SignedDigitGroups(d) == Some(ParseDecimal(d) as int)
  {
    DigitsAreGroups(d);
    UnsignedGroups(d);
  }

  /** Digit groups without a sign read as the value of their digits. */
  lemma UnsignedGroups(t: string)
    requires IsDigitGroups(t)
    ensures SignedDigitGroups(t) == Some(ParseDecimal(RemoveUnderscores(t)) as int)
  {
    assert t[0] != '-' && t[0] != '+';
  }

  /** A minus sign before digit groups negates their value. */
  lemma NegativeGroups(b: string)
    requires IsDigitGroups(b)
    ensures SignedDigitGroups("-" + b) == Some(-(ParseDecimal(RemoveUnderscores(b)) as int))
  {
    var t := "-" + b;
    assert t[0] == '-' && t[1..] == b;
  }

  /** A minus sign before plain digits negates their value. */
  lemma SignedDigitGroupsOfNegative(d: string)
    requires d != [] && AllDigits(d)
    ensures SignedDigitGroups("-" + d) == Some(-(ParseDecimal(d) as int))
  {
    DigitsAreGroups(d);
    NegativeGroups(d);
    var r := RemoveUnderscores(d);
    assert r == d;
    assert ParseDecimal(r) == ParseDecimal(d);
  }

  lemma DigitsAreGroups(d: string)
    requires d != [] && AllDigits(d)
    ensures IsDigitGroups(d) && RemoveUnderscores(d) == d
  {
    assert forall i :: 0 <= i < |d| ==> d[i] != '_';
  }

  /** `int(d)` is the value of a plain digit string `d` (leading zeros
      included). */
  lemma PyIntOfDigits(d: string)
    requires d != [] && AllDigits(d)
    ensures PyInt(d) == Some(ParseDecimal(d) as int)
  {
    DigitsAreNotWhitespace(d[0]);
    DigitsAreNotWhitespace(d[|d| - 1]);
    StripKeeps(d, IntWhitespace);
    SignedDigitGroupsOfDigits(d);
  }

  /** `int(str(n)) == n`. */
  lemma PyIntOfDecimal(n: nat)
    ensures PyInt(NatToString(n)) == Some(n)
  {
    PyIntOfDigits(NatToString(n));
    ParseNatToString(n);
  }

  /** `int("-" + d) == -int(d)` for a string of digits. */
  lemma PyIntOfNegativeDigits(d: string)
    requires d != [] && AllDigits(d)
    ensures PyInt("-" + d) == Some(-(ParseDecimal(d) as int))
  {
    var m := "-" + d;
    assert m[|m| - 1] == d[|d| - 1];
    DigitsAreNotWhitespace(d[|d| - 1]);
    StripKeeps(m, IntWhitespace);
    SignedDigitGroupsOfNegative(d);
  }

  /** A string that, once stripped, holds a character that is neither a
      digit, `_` nor a sign is not an integer. */
  lemma PyIntRejects(s: string, i: nat)
    requires var t := Strip(s, IntWhitespace);
      i < |t| && !IsDigit(t[i]) && t[i] !in {'_', '+', '-'}
    ensures PyInt(s) == None
  {
    SignedDigitGroupsRejects(Strip(s, IntWhitespace), i);
  }

  /** `int()` does not skip the file separator U+001C, though
      `str.strip()` would: `int("\x1c5")` raises. */
  lemma SeparatorIsNotSkipped(d: string)
    requires d != [] && AllDigits(d)
    ensures PyInt("\U{1C}" + d) == None
  {
    var t := "\U{1C}" + d;
    SeparatorKept(d);
    SeparatorRejected(t);
  }

  lemma SeparatorIsNotIntWhitespace()
    ensures '\U{1C}' !in IntWhitespace
  {
  }

  /** Stripping leaves `"\x1c" + d` as it is, so `int()` reads it whole. */
  lemma SeparatorKept(d: string)
    requires d != [] && AllDigits(d)
    ensures PyInt("\U{1C}" + d) == SignedDigitGroups("\U{1C}" + d)
  {
    var t := "\U{1C}" + d;
    assert t[|t| - 1] == d[|d| - 1];
    DigitsAreNotWhitespace(d[|d| - 1]);
    SeparatorIsNotIntWhitespace();
    StripKeeps(t, IntWhitespace);
  }

  lemma SeparatorRejected(t: string)
    requires t != [] && t[0] == '\U{1C}'
    ensures SignedDigitGroups(t) == None
  {
    SignedDigitGroupsRejects(t, 0);
  }

  lemma SignedDigitGroupsRejects(t: string, i: nat)
    requires i < |t| && !IsDigit(t[i]) && t[i] !in {'_', '+', '-'}
    ensures SignedDigitGroups(t) == None
  {
    if t[0] == '-' || t[0] == '+' {
      assert t[1..][i - 1] == t[i];
    }
  }

  // ---------------------------------------------------------------------
  // handle_proxy_client's decision
  // ---------------------------------------------------------------------

  /** What the proxy does with a request line: close without a reply (a
      failed match or a non-integer path raise, and the handler only closes
      the connection), reply 414, or forward the captured path. */
  datatype Action = Drop | TooLong | Forward(uri: string)

  /** The decision at proxy_server.py lines 13 to 26. The 400 reply for an
      unmatched line is commented out there, so that line is dropped. */
  function ClassifyRequestLine(line: string): Action
  {
    match MatchProxyLine(line)
    case None => Drop
    case Some(url) =>
      match PyInt(Strip(url, {'/'}))
      case None => Drop
      case Some(v) => if v > MaxPathNumber then TooLong else Forward(url)
  }

  /** A forwarded path is the unstripped group: it starts with `/`, it comes
      from a line of the pattern's shape, and its number is at most 9999. */
  lemma ForwardedPath(line: string)
    requires ClassifyRequestLine(line).Forward?
    ensures var uri := ClassifyRequestLine(line).uri;
      && Some(uri) == MatchProxyLine(line)
      && ProxyShape(line, NonSlashRun(line[|ProxyPrefix|..]), uri)
      && PyInt(Strip(uri, {'/'})).Some?
      && PyInt(Strip(uri, {'/'})).value <= MaxPathNumber
  {
    MatchProxySound(line);
  }

  /** A line without the pattern's shape gets no reply and nothing is
      forwarded (the 400 for it is commented out in the source). */
  lemma NoShapeIsDropped(line: string)
    requires forall host, path :: !ProxyShape(line, host, path)
    ensures ClassifyRequestLine(line) == Drop
  {
    if MatchProxyLine(line).Some? {
      MatchProxySound(line);
    }
  }

  /** On `GET http://<host>/<d> HTTP/1.<rest>`, with `d` a digit string and
      no space after the marker, the group is `/<d>`, and the reply is 414
      exactly when the value of `d` exceeds 9999; otherwise `/<d>` itself,
      leading zeros and all, is forwarded. */
  lemma NumericPathBoundary(host: string, d: string, rest: string)
    requires host != [] && '/' !in host && ' ' !in rest
    requires d != [] && AllDigits(d)
    ensures var line := ProxyPrefix + host + "/" + d + VersionMarker + rest;
      && MatchProxyLine(line) == Some("/" + d)
      && ClassifyRequestLine(line) == (if ParseDecimal(d) > MaxPathNumber then TooLong else Forward("/" + d))
  {
    var path := "/" + d;
    var line := ProxyPrefix + host + path + VersionMarker + rest;
    assert line == ProxyPrefix + host + "/" + d + VersionMarker + rest;
    ExactMatch(host, path, rest);
    StripSlash(d);
    PyIntOfDigits(d);
    ClassifyMatched(line, path, ParseDecimal(d));
  }

  /** Stripping `/` from `/` followed by a string that neither starts nor
      ends with `/` leaves that string. */
  lemma StripSlash(d: string)
    requires d != [] && d[0] != '/' && d[|d| - 1] != '/'
    ensures Strip("/" + d, {'/'}) == d
  {
    assert TrimStart("/" + d, {'/'}) == TrimStart(d, {'/'}) by {
      assert ("/" + d)[1..] == d;
    }
    StripKeeps(d, {'/'});
  }

  /** Once the group and its number are known, the decision is the 414
      comparison. */
  lemma ClassifyMatched(line: string, url: string, v: int)
    requires MatchProxyLine(line) == Some(url)
    requires PyInt(Strip(url, {'/'})) == Some(v)
    ensures ClassifyRequestLine(line) == if v > MaxPathNumber then TooLong else Forward(url)
  {
  }

  /** The pattern's group is exactly `path` when no space follows the
      marker: any later marker would have to start with a space. */
  lemma ExactMatch(host: string, path: string, rest: string)
    requires host != [] && '/' !in host
    requires path != [] && path[0] == '/' && '\n' !in path
    requires ' ' !in rest
    ensures MatchProxyLine(ProxyPrefix + host + path + VersionMarker + rest) == Some(path)
  {
    var line := ProxyPrefix + host + path + VersionMarker + rest;
    var q := |ProxyPrefix + host + path|;
    assert ProxyShape(line, host, path);
    forall j | q < j <= |line| ensures !MarkerAt(line, j) {
      if j < |line| {
        assert line[j] != ' ' by {
          if j < q + |VersionMarker| {
            assert line[j] == VersionMarker[j - q];
          } else {
            assert line[j] == rest[j - q - |VersionMarker|];
          }
        }
      }
    }
    MatchProxyExact(line, host, path);
  }

  /** `/9999` is forwarded as it is. */
  lemma Forwards9999(host: string, rest: string)
    requires host != [] && '/' !in host && ' ' !in rest
    ensures ClassifyRequestLine(ProxyPrefix + host + "/" + "9999" + VersionMarker + rest) == Forward("/" + "9999")
  {
    assert ParseDecimal("9999") == 9999 by {
      assert ParseDecimal("9") == 9;
      assert ParseDecimal("99") == 99 by { assert "99"[..1] == "9"; }
      assert ParseDecimal("999") == 999 by { assert "999"[..2] == "99"; }
      assert "9999"[..3] == "999";
    }
    NumericPathBoundary(host, "9999", rest);
  }

  /** `/10000` is refused with 414. */
  lemma Refuses10000(host: string, rest: string)
    requires host != [] && '/' !in host && ' ' !in rest
    ensures ClassifyRequestLine(ProxyPrefix + host + "/" + "10000" + VersionMarker + rest) == TooLong
  {
    assert ParseDecimal("10000") == 10000 by {
      assert ParseDecimal("1") == 1;
      assert ParseDecimal("10") == 10 by { assert "10"[..1] == "1"; }
      assert ParseDecimal("100") == 100 by { assert "100"[..2] == "10"; }
      assert ParseDecimal("1000") == 1000 by { assert "1000"[..3] == "100"; }
      assert "10000"[..4] == "1000";
    }
    NumericPathBoundary(host, "10000", rest);
  }

  /** A path of letters (`/abc`) is not a number: the line gets no reply
      and nothing is forwarded. */
  lemma NonNumericPathDropped(host: string, w: string, rest: string)
    requires host != [] && '/' !in host && ' ' !in rest
    requires w != [] && forall i :: 0 <= i < |w| ==> 'a' <= w[i] <= 'z'
    ensures ClassifyRequestLine(ProxyPrefix + host + "/" + w + VersionMarker + rest) == Drop
  {
    var path := "/" + w;
    var line := ProxyPrefix + host + path + VersionMarker + rest;
    assert line == ProxyPrefix + host + "/" + w + VersionMarker + rest;
    assert '\n' !in path by {
      assert forall i :: 0 < i < |path| ==> path[i] == w[i - 1];
    }
    ExactMatch(host, path, rest);
    StripSlash(w);
    LettersAreNotAnInteger(w);
    DropUnparsed(line, path);
  }

  /** Letters with no surrounding whitespace are not an integer. */
  lemma LettersAreNotAnInteger(s: string)
    requires s != [] && forall i :: 0 <= i < |s| ==> 'a' <= s[i] <= 'z'
    ensures PyInt(s) == None
  {
    assert s[0] !in IntWhitespace && s[|s| - 1] !in IntWhitespace;
    StripKeeps(s, IntWhitespace);
    PyIntRejects(s, 0);
  }

  /** A matched line whose stripped group is not an integer is dropped. */
  lemma DropUnparsed(line: string, url: string)
    requires MatchProxyLine(line) == Some(url)
    requires PyInt(Strip(url, {'/'})) == None
    ensures ClassifyRequestLine(line) == Drop
  {
  }

  // ---------------------------------------------------------------------
  // forward_request_to_server
  // ---------------------------------------------------------------------

  /** The request line and Host header sent upstream, with the path as the
      client gave it (not stripped). */
  function UpstreamRequest(uri: string): string
  {
    "GET " + uri + " HTTP/1.0\r\nHost: localhost\r\n\r\n"
  }

  /** The connection the proxy attempts, and the bytes it passes to
      `sendall` on it (`None` when the connection is refused, so that
      nothing is sent). */
  datatype UpstreamCall = UpstreamCall(host: string, port: nat, request: Option<seq<byte>>)

  /** How the upstream stream ends once the listed reads are used up: the
      next `recv` returns `b""`, or it raises. */
  datatype Ending = ClosedCleanly | Reset

  /** The origin as the proxy sees it: `connect` raises, the `sendall` of
      the request raises, or `recv` returns `received` one after another
      and then ends as `ending`. */
  datatype Upstream = Refused | SendFailed | Connected(received: seq<seq<byte>>, ending: Ending)

  /** Where the relay loop stops: the first empty read, or the end of the
      listed reads. */
  function FirstEmpty(received: seq<seq<byte>>): (n: nat)
    ensures n <= |received|
    ensures forall i :: 0 <= i < n ==> received[i] != []
    ensures n < |received| ==> received[n] == []
  {
    if received == [] || received[0] == [] then 0 else 1 + FirstEmpty(received[1..])
  }

  /** The chunks joined in order. */
  function Concat(chunks: seq<seq<byte>>): seq<byte>
  {
    if chunks == [] then [] else Concat(chunks[..|chunks| - 1]) + chunks[|chunks| - 1]
  }

  /** The loop at proxy_server.py lines 57 to 61: read, stop on an empty
      read, otherwise pass the chunk on. `failed` is a `recv` that raised. */
  method RelayChunks(received: seq<seq<byte>>, ending: Ending) returns (relayed: seq<byte>, failed: bool)
    ensures relayed == Concat(received[..FirstEmpty(received)])
    ensures failed <==> FirstEmpty(received) == |received| && ending == Reset
  {
    relayed := [];
    var i := 0;
    while true
      invariant 0 <= i <= FirstEmpty(received)
      invariant relayed == Concat(received[..i])
      decreases |received| - i
    {
      if i == |received| {
        failed := ending == Reset;
        break;
      }
      var chunk := received[i];
      if chunk == [] {
        failed := false;
        break;
      }
      assert received[..i + 1][..i] == received[..i];
      relayed := relayed + chunk;
      i := i + 1;
    }
  }

  /** Everything the client receives from a forward: the relayed chunks,
      then a 404 when the upstream failed. */
  function ForwardedBytes(upstream: Upstream): seq<byte>
  {
    match upstream
    case Refused => SendError(404, "Not Found")
    case SendFailed => SendError(404, "Not Found")
    case Connected(received, ending) =>
      var n := FirstEmpty(received);
      Concat(received[..n]) + (if n == |received| && ending == Reset then SendError(404, "Not Found") else [])
  }

  /** `forward_request_to_server(client, uri)`: the connection it always
      attempts to localhost:8080, the request it sends once connected, and
      what it writes to the client. */
  method ForwardRequestToServer(uri: string, upstream: Upstream) returns (call: UpstreamCall, toClient: seq<byte>)
    ensures call == UpstreamCall(UpstreamHost, UpstreamPort,
                                 if upstream.Refused? then None else Some(Encode(UpstreamRequest(uri))))
    ensures toClient == ForwardedBytes(upstream)
  {
    match upstream
    case Refused =>
      call := UpstreamCall(UpstreamHost, UpstreamPort, None);
      toClient := SendError(404, "Not Found");
    case SendFailed =>
      call := UpstreamCall(UpstreamHost, UpstreamPort, Some(Encode(UpstreamRequest(uri))));
      toClient := SendError(404, "Not Found");
    case Connected(received, ending) =>
      call := UpstreamCall(UpstreamHost, UpstreamPort, Some(Encode(UpstreamRequest(uri))));
      toClient := RelayToClient(received, ending);
  }

  /** The relay loop and its `except` branch: the relayed bytes, then a 404
      when a `recv` raised. */
  method RelayToClient(received: seq<seq<byte>>, ending: Ending) returns (toClient: seq<byte>)
    ensures toClient == ForwardedBytes(Connected(received, ending))
  {
    var relayed, failed := RelayChunks(received, ending);
    toClient := relayed;
    if failed {
      toClient := toClient + SendError(404, "Not Found");
    }
  }

  /** `handle_proxy_client`: no upstream connection unless the path is
      forwarded; nothing written for a dropped line, a 414 for a path above
      9999. */
  method HandleProxyClient(request: string, upstream: Upstream) returns (call: Option<UpstreamCall>, toClient: seq<byte>)
    ensures match ClassifyRequestLine(FirstLine(request))
      case Drop => call == None && toClient == []
      case TooLong => call == None && toClient == SendError(414, "Request-URL Too Long")
      case Forward(uri) =>
        && call == Some(UpstreamCall(UpstreamHost, UpstreamPort,
                                     if upstream.Refused? then None else Some(Encode(UpstreamRequest(uri)))))
        && toClient == ForwardedBytes(upstream)
  {
    var action := ClassifyRequestLine(FirstLine(request));
    match action
    case Drop =>
      call, toClient := None, [];
    case TooLong =>
      call, toClient := None, SendError(414, "Request-URL Too Long");
    case Forward(uri) =>
      var attempt;
      attempt, toClient := ForwardRequestToServer(uri, upstream);
      call := Some(attempt);
  }

  // ---------------------------------------------------------------------
  // Properties of the relay
  // ---------------------------------------------------------------------

  lemma {:induction false} ConcatAppend(a: seq<seq<byte>>, b: seq<seq<byte>>)
    ensures Concat(a + b) == Concat(a) + Concat(b)
    decreases |b|
  {
    if b == [] {
      assert a + b == a;
    } else {
      var c := a + b;
      assert c[..|c| - 1] == a + b[..|b| - 1];
      ConcatAppend(a, b[..|b| - 1]);
    }
  }

  /** The client receives a prefix of the upstream's stream. */
  lemma RelayIsPrefix(received: seq<seq<byte>>)
    ensures Concat(received[..FirstEmpty(received)]) <= Concat(received)
  {
    var n := FirstEmpty(received);
    assert received == received[..n] + received[n..];
    ConcatAppend(received[..n], received[n..]);
  }

  /** Chunk `i` reaches the client at the offset where the chunks before it
      end, and the chunks after it follow. */
  lemma RelayOrder(received: seq<seq<byte>>, i: nat)
    requires i < FirstEmpty(received)
    ensures var n := FirstEmpty(received);
      Concat(received[..n]) == Concat(received[..i]) + received[i] + Concat(received[i + 1..n])
  {
    var n := FirstEmpty(received);
    var s := received[..n];
    ConcatSplit(s, i);
    assert s[..i] == received[..i] && s[i + 1..] == received[i + 1..n];
  }

  /** Joining splits around any one chunk. */
  lemma ConcatSplit(s: seq<seq<byte>>, i: nat)
    requires i < |s|
    ensures Concat(s) == Concat(s[..i]) + s[i] + Concat(s[i + 1..])
  {
    var before, after := s[..i + 1], s[i + 1..];
    SplitAfter(s, i);
    ConcatAppend(before, after);
    ConcatLast(before);
  }

  lemma SplitAfter(s: seq<seq<byte>>, i: nat)
    requires i < |s|
    ensures s == s[..i + 1] + s[i + 1..]
    ensures s[..i + 1][..i] == s[..i] && s[..i + 1][i] == s[i]
  {
  }

  lemma ConcatLast(s: seq<seq<byte>>)
    requires s != []
    ensures Concat(s) == Concat(s[..|s| - 1]) + s[|s| - 1]
  {
  }

  /** However the upstream splits its response into non-empty reads, a
      clean close gives the client exactly the whole response. */
  lemma RelayWholeStream(received: seq<seq<byte>>)
    requires forall i :: 0 <= i < |received| ==> received[i] != []
    ensures ForwardedBytes(Connected(received, ClosedCleanly)) == Concat(received)
  {
    assert received[..|received|] == received;
  }

  /** An upstream failure appends a 404 after whatever was already relayed. */
  lemma FailureAppends404(received: seq<seq<byte>>)
    requires forall i :: 0 <= i < |received| ==> received[i] != []
    ensures ForwardedBytes(Connected(received, Reset)) == Concat(received) + SendError(404, "Not Found")
  {
    assert received[..|received|] == received;
  }

  /** Reads after the first empty one never reach the client. */
  lemma EmptyReadEndsRelay(before: seq<seq<byte>>, after: seq<seq<byte>>, ending: Ending)
    requires forall i :: 0 <= i < |before| ==> before[i] != []
    ensures ForwardedBytes(Connected(before + [[]] + after, ending)) == Concat(before)
  {
    FirstEmptyAfter(before, after);
  }

  lemma FirstEmptyAfter(before: seq<seq<byte>>, after: seq<seq<byte>>)
    requires forall i :: 0 <= i < |before| ==> before[i] != []
    ensures var received := before + [[]] + after;
      FirstEmpty(received) == |before| && received[..|before|] == before
  {
    var received := before + [[]] + after;
    assert received[|before|] == [];
    assert forall i :: 0 <= i < |before| ==> received[i] == before[i];
  }

  // ---------------------------------------------------------------------
  // The proxy in front of the origin server
  // ---------------------------------------------------------------------

  /** The origin reads the forwarded request's first line as
      `GET <uri> HTTP/1.0` followed by a carriage return. */
  lemma UpstreamRequestLine(uri: string)
    requires '\n' !in uri
    ensures FirstLine(UpstreamRequest(uri)) == "GET " + uri + " HTTP/1.0\r"
  {
    assert UpstreamRequest(uri) == ("GET " + uri + " HTTP/1.0\r") + "\n" + "Host: localhost\r\n\r\n";
    FirstLineOf("GET " + uri + " HTTP/1.0\r", "Host: localhost\r\n\r\n");
  }

  /** The origin matches the forwarded line with the same digits the client
      sent. */
  lemma UpstreamLineMatches(d: string)
    requires d != [] && AllDigits(d)
    ensures OriginServer.MatchRequestLine(FirstLine(UpstreamRequest("/" + d))) == Some(d)
  {
    var path := "/" + d;
    assert '\n' !in path by {
      assert forall i :: 0 < i < |path| ==> path[i] == d[i - 1];
    }
    UpstreamRequestLine(path);
    UpstreamLineShape(d);
    OriginServer.MatchRequestLineExact("GET " + path + " HTTP/1.0\r", d);
  }

  /** The forwarded request line is the origin's pattern followed by the
      minor version `0` and a carriage return. */
  lemma UpstreamLineShape(d: string)
    ensures var line := "GET " + ("/" + d) + " HTTP/1.0\r";
      && line == OriginServer.RequestPrefix + d + VersionMarker + "0\r"
      && OriginServer.RequestPrefix + d + VersionMarker <= line
  {
  }

  /** A numeric path up to 9999 is forwarded, and when the origin's reply
      to the forwarded request comes back in non-empty reads followed by a
      clean close, the client receives exactly that reply: a page when the
      number is at least 100, a 400 otherwise. */
  lemma ProxyThenOrigin(host: string, d: string, rest: string, received: seq<seq<byte>>)
    requires host != [] && '/' !in host && ' ' !in rest
    requires d != [] && AllDigits(d) && ParseDecimal(d) <= MaxPathNumber
    requires forall i :: 0 <= i < |received| ==> received[i] != []
    requires Concat(received) == OriginServer.HandleClient(UpstreamRequest("/" + d))
    ensures ClassifyRequestLine(ProxyPrefix + host + "/" + d + VersionMarker + rest) == Forward("/" + d)
    ensures var reply := OriginServer.HandleRequestLine(FirstLine(UpstreamRequest("/" + d)));
      var toClient := ForwardedBytes(Connected(received, ClosedCleanly));
      && (reply.Page? <==> OriginServer.MinSize <= ParseDecimal(d))
      && (reply.Page? ==> toClient == SendResponse(reply.html))
      && (!reply.Page? ==> toClient == SendError(400, "Bad Request"))
  {
    NumericPathBoundary(host, d, rest);
    OriginReplyToForward(d);
    RelayWholeStream(received);
  }

  /** How the origin answers the request the proxy sends for `/<d>`. */
  lemma OriginReplyToForward(d: string)
    requires d != [] && AllDigits(d) && ParseDecimal(d) <= MaxPathNumber
    ensures var reply := OriginServer.HandleRequestLine(FirstLine(UpstreamRequest("/" + d)));
      && (reply.Page? <==> OriginServer.MinSize <= ParseDecimal(d))
      && (!reply.Page? ==> reply == OriginServer.Error(400, "Bad Request"))
  {
    var line := FirstLine(UpstreamRequest("/" + d));
    UpstreamLineMatches(d);
    assert "GET" <= line by {
      assert line[..3] == OriginServer.RequestPrefix[..3];
    }
    OriginServer.PageIff(line);
    OriginServer.BadRequestIff(line);
  }
}
