/** String helpers with Python's semantics: `str.endswith`, `str.rfind`,
    `os.path.basename`, `os.path.splitext`, ASCII `upper`/`lower`, and decimal
    rendering of counts as f-strings print them. */
module Text {
  import opened Common

  predicate EndsWith(s: string, suffix: string) {
    |suffix| <= |s| && s[|s| - |suffix|..] == suffix
  }

  /** `s.endswith(suffixes)` with a tuple of suffixes: true when any one matches. */
  predicate EndsWithAny(s: string, suffixes: seq<string>) {
    exists k :: 0 <= k < |suffixes| && EndsWith(s, suffixes[k])
  }

  /** `s.rfind(c)`: the position of the last occurrence of `c`, if any. */
  function LastIndexOf(s: string, c: char): (r: Option<nat>)
    ensures r.None? <==> c !in s
    ensures r.Some? ==> r.value < |s| && s[r.value] == c && c !in s[r.value + 1..]
  {
    var r := LastIndexBelow(s, c, |s|);
    if r.Some? then
      assert forall i :: r.value < i < |s| ==> s[i] == s[r.value + 1..][i - r.value - 1];
      r
    else r
  }

  /** The last occurrence of `c` among the first `n` characters of `s`. */
  function LastIndexBelow(s: string, c: char, n: nat): (r: Option<nat>)
    requires n <= |s|
    ensures r.None? <==> forall i :: 0 <= i < n ==> s[i] != c
    ensures r.Some? ==> r.value < n && s[r.value] == c && forall i :: r.value < i < n ==> s[i] != c
  {
    if n == 0 then None
    else if s[n - 1] == c then Some(n - 1)
    else LastIndexBelow(s, c, n - 1)
  }

  /** Position where the final path component starts (just after the last '/'). */
  function BaseStart(p: string): (b: nat)
    ensures b <= |p|
    ensures '/' !in p[b..]
    ensures b > 0 ==> p[b - 1] == '/'
  {
    match LastIndexOf(p, '/')
    case None => 0
    case Some(k) => k + 1
  }

  /** `os.path.basename` on POSIX paths. */
  function Basename(p: string): (r: string)
    ensures '/' !in r
    ensures EndsWith(p, r)
    ensures |r| < |p| ==> p[|p| - |r| - 1] == '/'
  {
    p[BaseStart(p)..]
  }

  predicate HasNonDot(s: string) {
    exists k :: 0 <= k < |s| && s[k] != '.'
  }

  /** `os.path.splitext`: the extension starts at the last dot of the final path
      component, unless every character of that component before the dot is
      itself a dot (so ".bashrc" has no extension). */
  function SplitExt(p: string): (r: (string, string))
    ensures r.0 + r.1 == p
    ensures r.1 != [] ==> r.1[0] == '.' && '.' !in r.1[1..] && '/' !in r.1
                          && BaseStart(p) <= |r.0| && HasNonDot(p[BaseStart(p)..|r.0|])
    ensures r.1 == [] ==>
              forall d :: BaseStart(p) <= d < |p| && p[d] == '.' && '.' !in p[d + 1..] ==>
                !HasNonDot(p[BaseStart(p)..d])
  {
    var b := BaseStart(p);
    match LastIndexOf(p, '.')
    case None => (p, [])
    case Some(d) =>
      if b <= d && HasNonDot(p[b..d]) then
        ExtensionAtLastDot(p, d);
        (p[..d], p[d..])
      else
        OnlyLastDotCounts(p, d);
        (p, [])
  }

  /** The text from the last dot on is an extension: one dot, then no dot and no
      path separator. */
  lemma ExtensionAtLastDot(p: string, d: nat)
    requires LastIndexOf(p, '.') == Some(d) && BaseStart(p) <= d
    ensures p[..d] + p[d..] == p
    ensures p[d..][0] == '.' && '.' !in p[d..][1..] && '/' !in p[d..]
  {
    assert p[d..][1..] == p[d + 1..];
    assert p[d..] == p[BaseStart(p)..][d - BaseStart(p)..];
  }

  /** Only the last dot can start an extension. */
  lemma OnlyLastDotCounts(p: string, d: nat)
    requires LastIndexOf(p, '.') == Some(d)
    ensures forall d' :: 0 <= d' < |p| && p[d'] == '.' && '.' !in p[d' + 1..] ==> d' == d
  {
    forall d' | 0 <= d' < |p| && p[d'] == '.' && '.' !in p[d' + 1..] ensures d' == d {
      if d' != d {
        assert false;
      }
    }
  }

  /** Position k holds the last dot of the final path component, and some
      character of that component before it is not a dot. */
  predicate ExtensionDot(p: string, k: int) {
    BaseStart(p) <= k < |p| && p[k] == '.' && '.' !in p[k + 1..] && HasNonDot(p[BaseStart(p)..k])
  }

  /** Conversely, a dot as `ExtensionDot` describes is where the extension starts. */
  lemma SplitExtAtExtension(p: string, k: nat)
    requires ExtensionDot(p, k)
    ensures SplitExt(p) == (p[..k], p[k..])
  {
    var r := SplitExt(p);
    assert r.1 != [];
    var d := |r.0|;
    assert p[d] == r.1[0] == '.';
    assert p[d + 1..] == r.1[1..];
    OnlyLastDotCounts(p, LastIndexOf(p, '.').value);
    assert d == k;
    assert r.0 == p[..k] && r.1 == p[k..];
  }

  /** `os.path.splitext(name)[0]`: the name without its extension. */
  function Stem(name: string): string {
    SplitExt(name).0
  }

  function UpperChar(c: char): char {
    if 'a' <= c <= 'z' then (c as int - 'a' as int + 'A' as int) as char else c
  }

  function LowerChar(c: char): char {
    if 'A' <= c <= 'Z' then (c as int - 'A' as int + 'a' as int) as char else c
  }

  /** `str.upper()` restricted to ASCII letters. */
  function Upper(s: string): (r: string)
    ensures |r| == |s|
  {
    seq(|s|, i requires 0 <= i < |s| => UpperChar(s[i]))
  }

  /** `str.lower()` restricted to ASCII letters. */
  function Lower(s: string): (r: string)
    ensures |r| == |s|
  {
    seq(|s|, i requires 0 <= i < |s| => LowerChar(s[i]))
  }

  /** Upper-casing loses nothing that a case-insensitive comparison looks at. */
  lemma LowerOfUpper(s: string)
    ensures Lower(Upper(s)) == Lower(s)
  {
    assert forall i :: 0 <= i < |s| ==> LowerChar(UpperChar(s[i])) == LowerChar(s[i]);
  }

  predicate IsDigit(c: char) {
    '0' <= c <= '9'
  }

  predicate AllDigits(s: string) {
    forall i :: 0 <= i < |s| ==> IsDigit(s[i])
  }

  function DigitChar(d: nat): (c: char)
    requires d < 10
    ensures IsDigit(c)
  {
    ('0' as int + d) as char
  }

  function DigitValue(c: char): (d: nat)
    requires IsDigit(c)
    ensures d < 10 && DigitChar(d) == c
  {
    c as int - '0' as int
  }

  /** The decimal text an f-string prints for a non-negative integer. */
  function NatToString(n: nat): (r: string)
    ensures |r| > 0 && AllDigits(r)
    ensures r[0] == '0' ==> n == 0 && |r| == 1
    decreases n
  {
    if n < 10 then [DigitChar(n)]
    else NatToString(n / 10) + [DigitChar(n % 10)]
  }

  /** The value of a string of decimal digits. */
  function DigitsValue(s: string): nat
    requires AllDigits(s)
    decreases |s|
  {
    if |s| == 0 then 0 else 10 * DigitsValue(s[..|s| - 1]) + DigitValue(s[|s| - 1])
  }

  /** Reading back the printed count gives the count. */
  lemma {:induction false} NatToStringRoundTrip(n: nat)
    ensures DigitsValue(NatToString(n)) == n
    decreases n
  {
    if n >= 10 {
      var p := NatToString(n / 10);
      var s := p + [DigitChar(n % 10)];
      assert s[..|s| - 1] == p;
      NatToStringRoundTrip(n / 10);
    }
  }

  /** Length of the longest all-digit prefix of `s`. */
  function LeadingDigitCount(s: string): (k: nat)
    ensures k <= |s| && AllDigits(s[..k])
    ensures k < |s| ==> !IsDigit(s[k])
    decreases |s|
  {
    if |s| == 0 || !IsDigit(s[0]) then 0
    else
      var k := 1 + LeadingDigitCount(s[1..]);
      assert s[..k] == [s[0]] + s[1..][..k - 1];
      k
  }

  /** A printed count followed by a non-digit is read back as exactly that count. */
  lemma {:induction false} LeadingDigitsOfCount(n: nat, t: string)
    requires t == [] || !IsDigit(t[0])
    ensures LeadingDigitCount(NatToString(n) + t) == |NatToString(n)|
  {
    LeadingDigitsOfDigits(NatToString(n), t);
  }

  lemma {:induction false} LeadingDigitsOfDigits(d: string, t: string)
    requires AllDigits(d)
    requires t == [] || !IsDigit(t[0])
    ensures LeadingDigitCount(d + t) == |d|
    decreases |d|
  {
    if |d| > 0 {
      assert (d + t)[1..] == d[1..] + t;
      LeadingDigitsOfDigits(d[1..], t);
    } else {
      assert d + t == t;
    }
  }
}
