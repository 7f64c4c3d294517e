/** Text helpers shared by both servers: the first line of a request,
    Python's `str.strip`, decimal formatting (`str(n)`) and parsing of
    ASCII digit strings. */
module Text {

  predicate IsDigit(c: char) { '0' <= c <= '9' }

  predicate AllDigits(s: string) { forall i :: 0 <= i < |s| ==> IsDigit(s[i]) }

  function DigitChar(d: nat): (c: char)
    requires d < 10
    ensures IsDigit(c)
  {
    (('0' as int) + d) as char
  }

  function DigitValue(c: char): (d: nat)
    requires IsDigit(c)
    ensures d < 10 && DigitChar(d) == c
  {
    (c as int) - ('0' as int)
  }

  /** `request.split("\n")[0]`: everything before the first line feed. */
  function FirstLine(request: string): (line: string)
    ensures line <= request
    ensures '\n' !in line
    ensures |line| < |request| ==> request[|line|] == '\n'
  {
    if request == [] || request[0] == '\n' then []
    else [request[0]] + FirstLine(request[1..])
  }

  /** The first line of `a + "\n" + b` is `a` when `a` holds no line feed. */
  lemma FirstLineOf(a: string, b: string)
    requires '\n' !in a
    ensures FirstLine(a + "\n" + b) == a
  {
    var s := a + "\n" + b;
    assert s[|a|] == '\n';
    assert forall i :: 0 <= i < |a| ==> s[i] == a[i];
  }

  /** The characters for which Python's `str.isspace()` holds; `str.strip()`
      with no argument removes these. */
  const PyWhitespace: set<char> :=
    {'\U{9}', '\U{A}', '\U{B}', '\U{C}', '\U{D}', '\U{1C}', '\U{1D}', '\U{1E}',
     '\U{1F}', '\U{20}', '\U{85}', '\U{A0}', '\U{1680}', '\U{2000}', '\U{2001}', '\U{2002}',
     '\U{2003}', '\U{2004}', '\U{2005}', '\U{2006}', '\U{2007}', '\U{2008}', '\U{2009}', '\U{200A}',
     '\U{2028}', '\U{2029}', '\U{202F}', '\U{205F}', '\U{3000}'}

  /** Drops the leading characters that belong to `chars`. */
  function TrimStart(s: string, chars: set<char>): (r: string)
    ensures |r| <= |s| && r == s[|s| - |r|..]
    ensures r == [] || r[0] !in chars
  {
    if s != [] && s[0] in chars then TrimStart(s[1..], chars) else s
  }

  /** Drops the trailing characters that belong to `chars`. */
  function TrimEnd(s: string, chars: set<char>): (r: string)
    ensures r <= s
    ensures r == [] || r[|r| - 1] !in chars
  {
    if s != [] && s[|s| - 1] in chars then TrimEnd(s[..|s| - 1], chars) else s
  }

  /** Everything `TrimStart` drops is in `chars`. */
  lemma {:induction false} TrimStartDrops(s: string, chars: set<char>)
    ensures forall i :: 0 <= i < |s| - |TrimStart(s, chars)| ==> s[i] in chars
  {
    if s != [] && s[0] in chars {
      TrimStartDrops(s[1..], chars);
      forall i | 1 <= i < |s| - |TrimStart(s, chars)| ensures s[i] in chars {
        assert s[i] == s[1..][i - 1];
      }
    }
  }

  /** Everything `TrimEnd` drops is in `chars`. */
  lemma {:induction false} TrimEndDrops(s: string, chars: set<char>)
    ensures forall i :: |TrimEnd(s, chars)| <= i < |s| ==> s[i] in chars
  {
    if s != [] && s[|s| - 1] in chars {
      TrimEndDrops(s[..|s| - 1], chars);
    }
  }

  /** Python's `s.strip(chars)`: what is left once every leading and
      trailing character from `chars` is removed. */
  function Strip(s: string, chars: set<char>): string
  {
    TrimEnd(TrimStart(s, chars), chars)
  }

  /** The stripped string is an infix of `s` with only characters from
      `chars` around it, and it neither starts nor ends with one of them. */
  lemma StripShape(s: string, chars: set<char>)
    ensures StrippedAt(s, chars, |s| - |TrimStart(s, chars)|, Strip(s, chars))
  {
    TrimStartDrops(s, chars);
    StripInfix(s, chars);
    StripTrailing(s, chars);
  }

  lemma StripInfix(s: string, chars: set<char>)
    ensures var i := |s| - |TrimStart(s, chars)|;
      i + |Strip(s, chars)| <= |s| && Strip(s, chars) == s[i..i + |Strip(s, chars)|]
  {
    var t := TrimStart(s, chars);
    var i := |s| - |t|;
    var r := TrimEnd(t, chars);
    PrefixOfSuffix(s, i, t, r);
  }

  /** A prefix of the suffix from `i` is the infix from `i`. */
  lemma PrefixOfSuffix(s: string, i: nat, t: string, r: string)
    requires i <= |s| && t == s[i..] && r <= t
    ensures i + |r| <= |s| && r == s[i..i + |r|]
  {
    assert forall k :: 0 <= k < |r| ==> r[k] == s[i + k];
  }

  lemma StripTrailing(s: string, chars: set<char>)
    ensures var i := |s| - |TrimStart(s, chars)|;
      forall k :: i + |Strip(s, chars)| <= k < |s| ==> s[k] in chars
  {
    var t := TrimStart(s, chars);
    var i := |s| - |t|;
    var r := TrimEnd(t, chars);
    TrimEndDrops(t, chars);
    forall k | i + |r| <= k < |s|
      ensures s[k] in chars
    {
      assert s[k] == t[k - i];
    }
  }

  /** `r` is `s[i..i+|r|]`, everything around it is in `chars`, and `r`
      neither starts nor ends with a character from `chars`. */
  ghost predicate StrippedAt(s: string, chars: set<char>, i: int, r: string)
  {
    && 0 <= i && i + |r| <= |s|
    && r == s[i..i + |r|]
    && (forall k :: 0 <= k < i ==> s[k] in chars)
    && (forall k :: i + |r| <= k < |s| ==> s[k] in chars)
    && (r == [] || (r[0] !in chars && r[|r| - 1] !in chars))
  }

  /** A string whose first and last characters are outside `chars` is left
      unchanged by `Strip`. */
  lemma StripKeeps(s: string, chars: set<char>)
    requires s == [] || (s[0] !in chars && s[|s| - 1] !in chars)
    ensures Strip(s, chars) == s
  {
  }

  /** `str(n)` for a non-negative integer: its decimal digits, no leading zero. */
  function NatToString(n: nat): (s: string)
    ensures |s| >= 1 && AllDigits(s)
    ensures |s| > 1 ==> s[0] != '0'
  {
    if n < 10 then [DigitChar(n)] else NatToString(n / 10) + [DigitChar(n % 10)]
  }

  /** The value of a string of ASCII decimal digits (`int()` on such a string). */
  function ParseDecimal(s: string): nat
    requires AllDigits(s)
  {
    if s == [] then 0 else 10 * ParseDecimal(s[..|s| - 1]) + DigitValue(s[|s| - 1])
  }

  /** Reading back a formatted number gives the number. */
  lemma {:induction false} ParseNatToString(n: nat)
    ensures ParseDecimal(NatToString(n)) == n
  {
    var s := NatToString(n);
    if n >= 10 {
      ParseNatToString(n / 10);
      assert s[..|s| - 1] == NatToString(n / 10);
    }
  }

  lemma {:induction false} ParseDecimalZero(s: string)
    requires AllDigits(s) && ParseDecimal(s) == 0
    ensures forall i :: 0 <= i < |s| ==> s[i] == '0'
  {
    if s != [] {
      var p := s[..|s| - 1];
      ParseDecimalZero(p);
      assert DigitValue(s[|s| - 1]) == 0;
      forall i | 0 <= i < |s| ensures s[i] == '0' {
        if i < |s| - 1 { assert s[i] == p[i]; }
      }
    }
  }

  /** Formatting the value of a canonical digit string (no leading zero)
      gives that string back, so `NatToString` is the only canonical form. */
  lemma {:induction false} NatToStringParse(s: string)
    requires |s| >= 1 && AllDigits(s) && (|s| > 1 ==> s[0] != '0')
    ensures NatToString(ParseDecimal(s)) == s
  {
    var p := s[..|s| - 1];
    var d := DigitValue(s[|s| - 1]);
    if |s| > 1 {
      assert p[0] == s[0];
      if ParseDecimal(p) == 0 {
        ParseDecimalZero(p);
        assert false;
      }
      NatToStringParse(p);
      var n := ParseDecimal(s);
      assert n / 10 == ParseDecimal(p) && n % 10 == d;
      assert s == p + [s[|s| - 1]];
    }
  }

  function Pow10(k: nat): (p: nat)
    ensures p >= 1
  {
    if k == 0 then 1 else 10 * Pow10(k - 1)
  }

  /** `str(n)` has at most `k` digits exactly when `n < 10^k`. */
  lemma {:induction false} NatToStringLength(n: nat, k: nat)
    requires k >= 1
    ensures |NatToString(n)| <= k <==> n < Pow10(k)
  {
    if n >= 10 {
      if k == 1 {
        assert |NatToString(n)| >= 2 by { assert NatToString(n) == NatToString(n / 10) + [DigitChar(n % 10)]; }
      } else {
        NatToStringLength(n / 10, k - 1);
      }
    } else {
      assert Pow10(k) >= 10 by {
        if k > 1 { assert Pow10(k - 1) >= 1; }
      }
    }
  }

  /** The maximal run of ASCII digits at the start of `s` (what a greedy `\d+`
      consumes). */
  function DigitRun(s: string): (d: string)
    ensures d <= s && AllDigits(d)
    ensures |d| < |s| ==> !IsDigit(s[|d|])
  {
    if s != [] && IsDigit(s[0]) then [s[0]] + DigitRun(s[1..]) else []
  }

  /** The digit run of `d + t` is `d` when `t` does not start with a digit. */
  lemma {:induction false} DigitRunStops(d: string, t: string)
    requires AllDigits(d)
    requires t == [] || !IsDigit(t[0])
    ensures DigitRun(d + t) == d
  {
    if d != [] {
      assert (d + t)[1..] == d[1..] + t;
      DigitRunStops(d[1..], t);
    } else {
      assert d + t == t;
    }
  }
}
