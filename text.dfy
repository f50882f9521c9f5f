/**
 * The C library string routines the tools rely on, stated as functions:
 * `strchr`, `strtok`, `strcasecmp`/`strncasecmp`, `sscanf("%u")` and
 * `inet_pton(AF_INET, ...)`. Each comes with an independent partner
 * (a formatter or a joiner) and the round trip between the two.
 */
module Text {
  import opened Glab

  predicate IsDigit(c: char)
  {
    '0' <= c <= '9'
  }

  predicate AllDigits(s: string)
  {
    forall k :: 0 <= k < |s| ==> IsDigit(s[k])
  }

  /** `strchr(s, c)`: the position of the first `c` in `s`, if any. */
  function IndexOf(s: string, c: char): (r: Option<nat>)
    ensures r.Some? ==> r.value < |s| && s[r.value] == c && c !in s[..r.value]
    ensures r.None? ==> c !in s
  {
    if |s| == 0 then None
    else if s[0] == c then Some(0)
    else match IndexOf(s[1..], c)
      case None => assert s == [s[0]] + s[1..]; None
      case Some(i) => assert s[..i + 1] == [s[0]] + s[1..][..i]; Some(i + 1)
  }

  /** Number of leading characters of `s` before the first `delim`. */
  function RunWithout(s: string, delim: char): (n: nat)
    ensures n <= |s|
    ensures delim !in s[..n]
    ensures n < |s| ==> s[n] == delim
  {
    match IndexOf(s, delim)
    case None => |s|
    case Some(i) => i
  }

  /**
   * The tokens `strtok` returns for `s` and the single delimiter `delim`:
   * maximal non-empty runs without the delimiter, in order.
   */
  function Tokens(s: string, delim: char): (toks: seq<string>)
    ensures forall k :: 0 <= k < |toks| ==> |toks[k]| > 0 && delim !in toks[k]
    decreases |s|
  {
    if |s| == 0 then []
    else if s[0] == delim then Tokens(s[1..], delim)
    else
      var n := RunWithout(s, delim);
      [s[..n]] + Tokens(s[n..], delim)
  }

  /** A character absent from `s` is absent from each of its tokens. */
  lemma {:induction false} TokensExclude(s: string, delim: char, c: char)
    requires c !in s
    ensures forall k :: 0 <= k < |Tokens(s, delim)| ==> c !in Tokens(s, delim)[k]
    decreases |s|
  {
    if |s| > 0 {
      if s[0] == delim {
        TokensExclude(s[1..], delim, c);
      } else {
        var n := RunWithout(s, delim);
        assert c !in s[..n] && c !in s[n..] by {
          assert s == s[..n] + s[n..];
        }
        TokensExclude(s[n..], delim, c);
      }
    }
  }

  /** The inverse direction of `Tokens`: the words separated by one delimiter each. */
  function Join(words: seq<string>, delim: char): string
  {
    if |words| == 0 then ""
    else if |words| == 1 then words[0]
    else words[0] + [delim] + Join(words[1..], delim)
  }

  /** `IndexOf` finds the first occurrence and no other. */
  lemma IndexOfAt(s: string, c: char, i: nat)
    requires i < |s| && s[i] == c && c !in s[..i]
    ensures IndexOf(s, c) == Some(i)
  {
  }

  lemma {:induction false} TokensOfJoin(words: seq<string>, delim: char)
    requires forall k :: 0 <= k < |words| ==> |words[k]| > 0 && delim !in words[k]
    ensures Tokens(Join(words, delim), delim) == words
    decreases |words|
  {
    if |words| == 0 {
    } else if |words| == 1 {
      var w := words[0];
      assert w[0] in w;
      assert w[..|w|] == w;
      assert w[|w|..] == "";
    } else {
      var w, rest := words[0], Join(words[1..], delim);
      var s := w + [delim] + rest;
      assert w[0] in w && s[0] == w[0];
      assert s[..|w|] == w;
      IndexOfAt(s, delim, |w|);
      assert s[|w|..] == [delim] + rest;
      assert s[|w|..][1..] == rest;
      TokensOfJoin(words[1..], delim);
    }
  }

  /** ASCII lower-casing, as `strcasecmp` compares. */
  function ToLower(c: char): char
  {
    if 'A' <= c <= 'Z' then (c as int + 32) as char else c
  }

  /** `strcasecmp(a, b) == 0`. */
  predicate EqualIgnoreCase(a: string, b: string)
  {
    |a| == |b| && forall k :: 0 <= k < |a| ==> ToLower(a[k]) == ToLower(b[k])
  }

  /** `strncasecmp(s, p, strlen(p)) == 0`. */
  predicate HasPrefixIgnoreCase(s: string, p: string)
  {
    |p| <= |s| && EqualIgnoreCase(s[..|p|], p)
  }

  /** The C string a buffer holds: everything before the first NUL. */
  function CString(s: string): (r: string)
    ensures r <= s && '\0' !in r
  {
    match IndexOf(s, '\0')
    case None => s
    case Some(i) => s[..i]
  }

  function DigitValue(c: char): nat
    requires IsDigit(c)
  {
    c as int - '0' as int
  }

  /** Value of a string of decimal digits, most significant first. */
  function DecimalValue(s: string): nat
    requires AllDigits(s)
  {
    if |s| == 0 then 0
    else DecimalValue(s[..|s| - 1]) * 10 + DigitValue(s[|s| - 1])
  }

  /** Number of leading decimal digits of `s`. */
  function DigitRun(s: string): (n: nat)
    ensures n <= |s| && AllDigits(s[..n])
    ensures n < |s| ==> !IsDigit(s[n])
  {
    if |s| == 0 || !IsDigit(s[0]) then 0
    else
      var n := DigitRun(s[1..]);
      assert s[..n + 1] == [s[0]] + s[1..][..n];
      n + 1
  }

  /**
   * `sscanf(s, "%u", &x) == 1`: a leading run of decimal digits, read as an
   * unbounded natural number (see README for what this leaves out).
   */
  function ScanUnsigned(s: string): (r: Option<nat>)
    ensures r.Some? <==> |s| > 0 && IsDigit(s[0])
  {
    var n := DigitRun(s);
    if n == 0 then None else Some(DecimalValue(s[..n]))
  }

  function DigitChar(d: nat): char
    requires d < 10
  {
    ('0' as int + d) as char
  }

  /** Decimal rendering of `n` without leading zeros (`%u`). */
  function Decimal(n: nat): (s: string)
    ensures |s| > 0 && AllDigits(s)
  {
    if n < 10 then [DigitChar(n)] else Decimal(n / 10) + [DigitChar(n % 10)]
  }

  lemma {:induction false} DecimalValueOfDecimal(n: nat)
    ensures DecimalValue(Decimal(n)) == n
  {
    if n >= 10 {
      var s := Decimal(n);
      assert s[..|s| - 1] == Decimal(n / 10);
      DecimalValueOfDecimal(n / 10);
    }
  }

  lemma {:induction false} DecimalLeadingDigit(n: nat)
    ensures Decimal(n)[0] == '0' <==> n == 0
  {
    if n >= 10 {
      DecimalLeadingDigit(n / 10);
    }
  }

  lemma {:induction false} DecimalLength(n: nat)
    ensures n < 10 ==> |Decimal(n)| == 1
    ensures 10 <= n < 100 ==> |Decimal(n)| == 2
    ensures 100 <= n < 1000 ==> |Decimal(n)| == 3
  {
    if n >= 10 {
      DecimalLength(n / 10);
    }
  }

  /** `sscanf("%u")` reads back what `%u` printed, up to the first non-digit. */
  lemma ScanUnsignedOfDecimal(n: nat, rest: string)
    requires |rest| > 0 ==> !IsDigit(rest[0])
    ensures ScanUnsigned(Decimal(n) + rest) == Some(n)
  {
    var d := Decimal(n);
    var s := d + rest;
    assert s[..|d|] == d;
    assert DigitRun(s) == |d| by {
      DigitRunOfDigits(d, rest);
    }
    DecimalValueOfDecimal(n);
  }

  lemma {:induction false} DigitRunOfDigits(d: string, rest: string)
    requires AllDigits(d)
    requires |rest| > 0 ==> !IsDigit(rest[0])
    ensures DigitRun(d + rest) == |d|
    decreases |d|
  {
    if |d| > 0 {
      assert (d + rest)[1..] == d[1..] + rest;
      DigitRunOfDigits(d[1..], rest);
    }
  }

  /** The parts of `s` between single `delim` characters, empty parts kept. */
  function Split(s: string, delim: char): (parts: seq<string>)
    ensures |parts| > 0
    ensures forall k :: 0 <= k < |parts| ==> delim !in parts[k]
    ensures Join(parts, delim) == s
    decreases |s|
  {
    match IndexOf(s, delim)
    case None => [s]
    case Some(i) =>
      var rest := Split(s[i + 1..], delim);
      var parts := [s[..i]] + rest;
      assert parts[1..] == rest;
      assert s == s[..i] + [delim] + s[i + 1..];
      parts
  }

  /**
   * One component of a dotted quad as glibc's `inet_pton` accepts it:
   * decimal digits, no leading zero, value at most 255.
   */
  predicate IsOctet(p: string)
    ensures IsOctet(p) ==> AllDigits(p) && DecimalValue(p) <= 255 && Decimal(DecimalValue(p)) == p
  {
    if 0 < |p| <= 3 && AllDigits(p) && (|p| == 1 || p[0] != '0') then
      DecimalOfValue(p);
      DecimalValue(p) <= 255
    else false
  }

  /** Digits with a non-zero leading digit have a positive value. */
  lemma {:induction false} LeadingDigitPositive(p: string)
    requires |p| > 0 && AllDigits(p) && p[0] != '0'
    ensures DecimalValue(p) > 0
    decreases |p|
  {
    if |p| > 1 {
      LeadingDigitPositive(p[..|p| - 1]);
    }
  }

  /** Digits without a leading zero are the decimal form of their value. */
  lemma {:induction false} DecimalOfValue(p: string)
    requires |p| > 0 && AllDigits(p) && (|p| == 1 || p[0] != '0')
    ensures Decimal(DecimalValue(p)) == p
    decreases |p|
  {
    var d := DigitValue(p[|p| - 1]);
    if |p| == 1 {
      assert p == [DigitChar(d)];
    } else {
      var q := p[..|p| - 1];
      LeadingDigitPositive(q);
      DecimalOfValue(q);
      var n := DecimalValue(p);
      assert n == DecimalValue(q) * 10 + d;
      assert n / 10 == DecimalValue(q) && n % 10 == d;
      assert p == q + [DigitChar(d)];
    }
  }

  /** `inet_pton(AF_INET, s, &a) == 1`: exactly four octets separated by dots. */
  function ParseIPv4(s: string): (r: Option<Ip>)
    ensures r.Some? ==> |Split(s, '.')| == 4
  {
    var parts := Split(s, '.');
    if |parts| == 4 && IsOctet(parts[0]) && IsOctet(parts[1]) && IsOctet(parts[2]) && IsOctet(parts[3])
    then Some([DecimalValue(parts[0]), DecimalValue(parts[1]), DecimalValue(parts[2]), DecimalValue(parts[3])])
    else None
  }

  /** `inet_ntop(AF_INET, ...)`: the dotted-decimal form of an address. */
  function FormatIPv4(a: Ip): string
  {
    Join([Decimal(a[0]), Decimal(a[1]), Decimal(a[2]), Decimal(a[3])], '.')
  }

  lemma OctetOfDecimal(b: Byte)
    ensures IsOctet(Decimal(b)) && DecimalValue(Decimal(b)) == b && '.' !in Decimal(b)
  {
    DecimalLength(b);
    DecimalLeadingDigit(b);
    DecimalValueOfDecimal(b);
    var d := Decimal(b);
    forall k | 0 <= k < |d| ensures d[k] != '.' {
      assert IsDigit(d[k]);
    }
  }

  /** `Split` undoes `Join` when no part holds the delimiter. */
  lemma {:induction false} SplitOfJoin(words: seq<string>, delim: char)
    requires |words| > 0
    requires forall k :: 0 <= k < |words| ==> delim !in words[k]
    ensures Split(Join(words, delim), delim) == words
    decreases |words|
  {
    if |words| == 1 {
      assert IndexOf(words[0], delim) == None;
    } else {
      var w, rest := words[0], Join(words[1..], delim);
      var s := w + [delim] + rest;
      assert s[..|w|] == w;
      IndexOfAt(s, delim, |w|);
      assert s[|w| + 1..] == rest;
      SplitOfJoin(words[1..], delim);
    }
  }

  /** Parsing a formatted address gives the address back. */
  lemma ParseFormatIPv4(a: Ip)
    ensures ParseIPv4(FormatIPv4(a)) == Some(a)
  {
    var ds := [Decimal(a[0]), Decimal(a[1]), Decimal(a[2]), Decimal(a[3])];
    OctetOfDecimal(a[0]);
    OctetOfDecimal(a[1]);
    OctetOfDecimal(a[2]);
    OctetOfDecimal(a[3]);
    SplitOfJoin(ds, '.');
    assert a == [a[0], a[1], a[2], a[3]];
  }

  /** An accepted address text is exactly the dotted-quad form of the address read from it. */
  lemma FormatParseIPv4(s: string)
    requires ParseIPv4(s).Some?
    ensures FormatIPv4(ParseIPv4(s).value) == s
  {
    var parts := Split(s, '.');
    var a := ParseIPv4(s).value;
    assert [Decimal(a[0]), Decimal(a[1]), Decimal(a[2]), Decimal(a[3])] == parts;
  }

  /** Joining words that lack `c` with a delimiter other than `c` yields no `c`. */
  lemma {:induction false} JoinExcludes(words: seq<string>, delim: char, c: char)
    requires delim != c
    requires forall k :: 0 <= k < |words| ==> c !in words[k]
    ensures c !in Join(words, delim)
    decreases |words|
  {
    if |words| > 1 {
      JoinExcludes(words[1..], delim, c);
    }
  }

  /** A string of decimal digits holds no character that is not a digit. */
  lemma DigitsExclude(s: string, c: char)
    requires AllDigits(s) && !IsDigit(c)
    ensures c !in s
  {
    forall k | 0 <= k < |s| ensures s[k] != c {
      assert IsDigit(s[k]);
    }
  }

  /** Joining decimal numbers with a separator other than `c` yields no `c`. */
  lemma {:induction false} JoinOfDigits(ds: seq<string>, sep: char, c: char)
    requires sep != c && !IsDigit(c)
    requires forall k :: 0 <= k < |ds| ==> AllDigits(ds[k])
    ensures c !in Join(ds, sep)
    decreases |ds|
  {
    if |ds| == 1 {
      DigitsExclude(ds[0], c);
    } else if |ds| > 1 {
      DigitsExclude(ds[0], c);
      JoinOfDigits(ds[1..], sep, c);
    }
  }
}
