/**
 * The PHP string built-ins the application relies on, over byte strings.
 *
 * A PHP string is a sequence of bytes; here a `string` holds one `char` per
 * byte, so `|s|` is PHP's `strlen($s)` and `s[..n]` cuts at a byte offset.
 */
module PhpStrings {
  import opened Wrappers

  predicate IsDigit(c: char) {
    '0' <= c <= '9'
  }

  predicate IsHexDigit(c: char) {
    IsDigit(c) || 'a' <= c <= 'f' || 'A' <= c <= 'F'
  }

  predicate AllDigits(s: string) {
    forall i :: 0 <= i < |s| ==> IsDigit(s[i])
  }

  predicate StartsWith(s: string, prefix: string) {
    |prefix| <= |s| && s[..|prefix|] == prefix
  }

  predicate EndsWith(s: string, suffix: string) {
    |suffix| <= |s| && s[|s| - |suffix|..] == suffix
  }

  lemma StartsWithAppend(a: string, b: string, c: string)
    ensures StartsWith(a + b, a)
    ensures StartsWith(a + b + c, a)
  {
    assert (a + b)[..|a|] == a;
    assert (a + b + c)[..|a|] == a;
  }

  lemma AppendAssociative(a: string, b: string, c: string)
    ensures a + b + c == a + (b + c)
  {
  }

  /** `needle` occurs in `s` starting at byte offset `i`. */
  predicate OccursAt(s: string, needle: string, i: int) {
    0 <= i && i + |needle| <= |s| && s[i..i + |needle|] == needle
  }

  // ---------------------------------------------------------------------------
  // strpos
  // ---------------------------------------------------------------------------

  /** `strpos($s, $needle)`: the offset of the first occurrence; None is PHP's `false`. */
  function Find(s: string, needle: string): (r: Option<nat>)
    ensures r.Some? ==> OccursAt(s, needle, r.value)
    ensures forall j :: 0 <= j && (r.None? || j < r.value) ==> !OccursAt(s, needle, j)
  {
    FindFrom(s, needle, 0)
  }

  function FindFrom(s: string, needle: string, from: nat): (r: Option<nat>)
    requires from <= |s|
    ensures r.Some? ==> from <= r.value && OccursAt(s, needle, r.value)
    ensures forall j :: from <= j && (r.None? || j < r.value) ==> !OccursAt(s, needle, j)
    decreases |s| - from
  {
    if from + |needle| > |s| then None
    else if s[from..from + |needle|] == needle then Some(from)
    else FindFrom(s, needle, from + 1)
  }

  // ---------------------------------------------------------------------------
  // trim, ltrim, substr, strtok
  // ---------------------------------------------------------------------------

  /** The bytes PHP's `trim` strips by default: space, \t, \n, \r, \0 and \x0B. */
  predicate IsTrimByte(c: char) {
    c == ' ' || c == '\t' || c == '\n' || c == '\r' || c == '\0' || c as int == 11
  }

  /** `ltrim($s, $chars)`: drops the longest prefix made of stripped bytes. */
  function TrimLeft(s: string, strip: char -> bool): (r: string)
    ensures |r| <= |s| && r == s[|s| - |r|..]
    ensures forall i :: 0 <= i < |s| - |r| ==> strip(s[i])
    ensures |r| > 0 ==> !strip(r[0])
    decreases |s|
  {
    if |s| > 0 && strip(s[0]) then
      var r := TrimLeft(s[1..], strip);
      TrimLeftStep(s, r, strip);
      r
    else s
  }

  lemma TrimLeftStep(s: string, r: string, strip: char -> bool)
    requires |s| > 0 && strip(s[0])
    requires |r| <= |s| - 1 && r == s[1..][|s| - 1 - |r|..]
    requires forall i :: 0 <= i < |s| - 1 - |r| ==> strip(s[1..][i])
    ensures r == s[|s| - |r|..]
    ensures forall i :: 0 <= i < |s| - |r| ==> strip(s[i])
  {
    forall i | 1 <= i < |s| - |r| ensures strip(s[i]) {
      assert s[i] == s[1..][i - 1];
    }
  }

  /** `rtrim($s, $chars)`: drops the longest suffix made of stripped bytes. */
  function TrimRight(s: string, strip: char -> bool): (r: string)
    ensures |r| <= |s| && r == s[..|r|]
    ensures forall i :: |r| <= i < |s| ==> strip(s[i])
    ensures |r| > 0 ==> !strip(r[|r| - 1])
    decreases |s|
  {
    if |s| > 0 && strip(s[|s| - 1]) then
      var r := TrimRight(s[..|s| - 1], strip);
      TrimRightStep(s, s[..|s| - 1], r, strip);
      r
    else s
  }

  lemma TrimRightStep(s: string, t: string, r: string, strip: char -> bool)
    requires |s| > 0 && strip(s[|s| - 1]) && t == s[..|s| - 1]
    requires |r| <= |t| && r == t[..|r|]
    requires forall i :: |r| <= i < |t| ==> strip(t[i])
    ensures r == s[..|r|]
    ensures forall i :: |r| <= i < |s| ==> strip(s[i])
  {
    forall i | |r| <= i < |t| ensures strip(s[i]) {
      assert s[i] == t[i];
    }
  }

  /** `r` is `s[a..b]`, and every byte of `s` outside `a..b` is one `trim` strips. */
  predicate TrimmedSlice(s: string, r: string, a: int, b: int) {
    && 0 <= a <= b <= |s| && r == s[a..b]
    && (forall k :: 0 <= k < a ==> IsTrimByte(s[k]))
    && (forall k :: b <= k < |s| ==> IsTrimByte(s[k]))
  }

  /** `trim($s)` with PHP's default byte set. */
  function Trim(s: string): (r: string)
    ensures |r| <= |s|
    ensures |r| > 0 ==> !IsTrimByte(r[0]) && !IsTrimByte(r[|r| - 1])
  {
    var left := TrimLeft(s, IsTrimByte);
    TrimRight(left, IsTrimByte)
  }

  /**
   * `trim` keeps one contiguous run of `s` and strips only trim bytes
   * around it; with the ensures of `Trim`, the run is the longest one.
   */
  lemma TrimIsSlice(s: string)
    ensures exists a, b :: TrimmedSlice(s, Trim(s), a, b)
  {
    var left := TrimLeft(s, IsTrimByte);
    var r := TrimRight(left, IsTrimByte);
    var a := |s| - |left|;
    TrimParts(s, left, r, a);
    assert TrimmedSlice(s, Trim(s), a, a + |r|);
  }

  lemma TrimParts(s: string, left: string, r: string, a: int)
    requires 0 <= a <= |s| && left == s[a..] && (forall k :: 0 <= k < a ==> IsTrimByte(s[k]))
    requires |r| <= |left| && r == left[..|r|] && (forall i :: |r| <= i < |left| ==> IsTrimByte(left[i]))
    ensures TrimmedSlice(s, r, a, a + |r|)
  {
    assert r == s[a..a + |r|];
    forall k | a + |r| <= k < |s| ensures IsTrimByte(s[k]) {
      assert s[k] == left[k - a];
    }
  }

  /** `substr($s, 0, $length)`: a negative length leaves off that many bytes at the end. */
  function Prefix(s: string, length: int): (r: string)
    ensures |r| <= |s| && r == s[..|r|]
    ensures length >= 0 ==> |r| == if length < |s| then length else |s|
    ensures length < 0 ==> |r| == if |s| + length > 0 then |s| + length else 0
  {
    if length >= 0 then
      if length < |s| then s[..length] else s
    else if |s| + length > 0 then s[..|s| + length]
    else ""
  }

  /** The bytes of `s` before the first `stop` (all of `s` when there is none). */
  function TakeUntil(s: string, stop: char): (r: string)
    ensures |r| <= |s| && r == s[..|r|]
    ensures stop !in r
    ensures |r| < |s| ==> s[|r|] == stop
    decreases |s|
  {
    if |s| == 0 || s[0] == stop then "" else [s[0]] + TakeUntil(s[1..], stop)
  }

  /** Bytes before any `stop` pass through TakeUntil unchanged. */
  lemma {:induction false} TakeUntilAppend(s: string, t: string, stop: char)
    requires stop !in s
    ensures TakeUntil(s + t, stop) == s + TakeUntil(t, stop)
    decreases |s|
  {
    if |s| > 0 {
      assert (s + t)[1..] == s[1..] + t;
      TakeUntilAppend(s[1..], t, stop);
      assert s == [s[0]] + s[1..];
    } else {
      assert s + t == t;
    }
  }

  /**
   * The first `strtok($s, $delim)` call: leading delimiters are skipped and
   * the token runs to the next delimiter; None is PHP's `false`, returned
   * when `s` holds nothing but delimiters.
   */
  function Strtok(s: string, delim: char): (r: Option<string>)
    ensures r.Some? ==> |r.value| > 0 && delim !in r.value
    ensures r.None? <==> forall i :: 0 <= i < |s| ==> s[i] == delim
  {
    var rest := TrimLeft(s, c => c == delim);
    var token := TakeUntil(rest, delim);
    if |token| == 0 then None else Some(token)
  }

  /** A string that does not start with the delimiter yields its first token as is. */
  lemma StrtokAtToken(s: string, delim: char)
    requires |s| > 0 && s[0] != delim
    ensures Strtok(s, delim) == Some(TakeUntil(s, delim))
  {
    assert TrimLeft(s, c => c == delim) == s;
  }

  /** A leading delimiter is skipped. */
  lemma StrtokSkip(s: string, delim: char)
    requires |s| > 0 && s[0] == delim
    ensures Strtok(s, delim) == Strtok(s[1..], delim)
  {
    assert TrimLeft(s, c => c == delim) == TrimLeft(s[1..], c => c == delim);
  }

  // ---------------------------------------------------------------------------
  // str_replace
  // ---------------------------------------------------------------------------

  /**
   * `str_replace($pattern, $replacement, $s)` for one pattern: a single
   * left-to-right pass replacing non-overlapping occurrences; the text a
   * replacement produces is not scanned again.
   */
  function ReplaceAll(s: string, pattern: string, replacement: string): (r: string)
    requires |pattern| > 0
    ensures (forall j :: !OccursAt(s, pattern, j)) ==> r == s
    decreases |s|
  {
    if |s| < |pattern| then s
    else if s[..|pattern|] == pattern then
      assert OccursAt(s, pattern, 0);
      replacement + ReplaceAll(s[|pattern|..], pattern, replacement)
    else
      assert forall j :: OccursAt(s[1..], pattern, j) ==> OccursAt(s, pattern, j + 1);
      [s[0]] + ReplaceAll(s[1..], pattern, replacement)
  }

  // ---------------------------------------------------------------------------
  // Decimal conversion (string interpolation of ints, `(int)` of digit strings)
  // ---------------------------------------------------------------------------

  function DigitChar(d: nat): (c: char)
    requires d < 10
    ensures IsDigit(c)
  {
    ['0', '1', '2', '3', '4', '5', '6', '7', '8', '9'][d]
  }

  function DigitValue(c: char): (d: nat)
    requires IsDigit(c)
    ensures d < 10
  {
    c as int - '0' as int
  }

  /** The decimal text PHP interpolates for a non-negative int. */
  function NatToDecimal(n: nat): (r: string)
    ensures |r| > 0 && AllDigits(r)
    ensures r[0] == '0' ==> n == 0
  {
    if n < 10 then [DigitChar(n)] else NatToDecimal(n / 10) + [DigitChar(n % 10)]
  }

  /** The decimal text PHP interpolates for an int: a '-' then the digits of its magnitude. */
  function IntToDecimal(n: int): (r: string)
    ensures |r| > 0
    ensures forall i :: 0 <= i < |r| ==> IsDigit(r[i]) || r[i] == '-'
  {
    if n < 0 then "-" + NatToDecimal(-n) else NatToDecimal(n)
  }

  /** The value of a string of decimal digits. */
  function DecimalValue(s: string): nat
    requires AllDigits(s)
    decreases |s|
  {
    if |s| == 0 then 0 else DecimalValue(s[..|s| - 1]) * 10 + DigitValue(s[|s| - 1])
  }

  /** Reading back the decimal text of a number gives the number. */
  lemma {:induction false} DecimalRoundTrip(n: nat)
    ensures DecimalValue(NatToDecimal(n)) == n
  {
    if n >= 10 {
      var t := NatToDecimal(n / 10);
      var s := t + [DigitChar(n % 10)];
      assert s[..|s| - 1] == t;
      DecimalRoundTrip(n / 10);
    }
  }

  // ---------------------------------------------------------------------------
  // Paths: basename, dirname, pathinfo
  // ---------------------------------------------------------------------------

  /** The offset of the last `c` in `s`. */
  function LastIndexOf(s: string, c: char): (r: Option<nat>)
    ensures r.Some? ==> r.value < |s| && s[r.value] == c && c !in s[r.value + 1..]
    ensures r.None? ==> c !in s
    decreases |s|
  {
    if |s| == 0 then None
    else if s[|s| - 1] == c then Some(|s| - 1)
    else
      var r := LastIndexOf(s[..|s| - 1], c);
      assert s == s[..|s| - 1] + [s[|s| - 1]];
      r
  }

  /** The last path component: the bytes after the last '/'. */
  function Basename(path: string): (r: string)
    ensures '/' !in r
    ensures EndsWith(path, r)
    ensures '/' !in path ==> r == path
    ensures '/' in path ==> |r| < |path| && path[|path| - |r| - 1] == '/'
  {
    match LastIndexOf(path, '/')
    case Some(i) => path[i + 1..]
    case None => path
  }

  /** What follows the last '.' of a file name, or "" when it has none. */
  function NameExtension(name: string): (r: string)
    ensures '.' !in r
    ensures |r| <= |name| && r == name[|name| - |r|..]
  {
    match LastIndexOf(name, '.')
    case Some(i) => name[i + 1..]
    case None => ""
  }

  /** A file name without its last extension. */
  function NameStem(name: string): (r: string)
    ensures |r| <= |name| && r == name[..|r|]
  {
    match LastIndexOf(name, '.')
    case Some(i) => name[..i]
    case None => name
  }

  /** `pathinfo($path, PATHINFO_EXTENSION)`: the extension of the basename. */
  function Extension(path: string): (r: string)
    ensures '/' !in r && '.' !in r
  {
    var base := Basename(path);
    var r := NameExtension(base);
    assert '/' !in r by { SuffixLacks(base, |base| - |r|, '/'); }
    r
  }

  lemma SuffixLacks(s: string, k: int, c: char)
    requires 0 <= k <= |s| && c !in s
    ensures c !in s[k..]
  {
    forall i | 0 <= i < |s| - k ensures s[k..][i] != c {
      assert s[k..][i] == s[k + i];
    }
  }

  /** `pathinfo($path, PATHINFO_FILENAME)`: the basename without its last extension. */
  function Filename(path: string): (r: string)
    ensures '/' !in r
  {
    var base := Basename(path);
    var r := NameStem(base);
    assert forall i :: 0 <= i < |r| ==> r[i] == base[i];
    r
  }

  /** `dirname($path)` for paths without repeated or trailing slashes. */
  function Dirname(path: string): (r: string)
    ensures |r| > 0
    ensures '/' !in path ==> r == "."
    ensures '/' in path && r != "/" ==> path == r + "/" + Basename(path)
    ensures r == "/" ==> |Basename(path)| < |path|
                         && forall k :: 0 <= k < |path| - |Basename(path)| ==> path[k] == '/'
  {
    match LastIndexOf(path, '/')
    case Some(i) => if i == 0 then "/" else path[..i]
    case None => "."
  }

  /** A top-level name has directory "/", also under a doubled leading slash. */
  lemma DirnameTopLevel(name: string)
    requires '/' !in name
    ensures Dirname("/" + name) == "/"
    ensures Dirname("//" + name) == "/"
  {
    var p, q := "/" + name, "//" + name;
    assert p[1..] == name && q[2..] == name;
    assert p[0] == '/' && q[1] == '/';
    assert LastIndexOf(p, '/') == Some(0);
    assert LastIndexOf(q, '/') == Some(1);
    assert q[..1] == "/";
  }

  /** Splitting a directory and a slash-free name back apart. */
  lemma PathParts(dir: string, name: string)
    requires |dir| > 0 && '/' !in name
    ensures Dirname(dir + "/" + name) == dir
    ensures Basename(dir + "/" + name) == name
  {
    var p := dir + "/" + name;
    assert p[|dir|] == '/';
    assert p[|dir| + 1..] == name;
    assert p[..|dir|] == dir;
  }

  /** The stem and extension of a file name `stem.ext` whose extension has no '.'. */
  lemma NameParts(stem: string, ext: string)
    requires '.' !in ext
    ensures NameStem(stem + "." + ext) == stem
    ensures NameExtension(stem + "." + ext) == ext
  {
    var b := stem + "." + ext;
    assert b[|stem|] == '.';
    assert b[|stem| + 1..] == ext;
    assert b[..|stem|] == stem;
  }

  /** A slash-free `stem.ext` is its own basename, so `pathinfo` splits it the same way. */
  lemma FileNameParts(stem: string, ext: string)
    requires '/' !in stem && '/' !in ext && '.' !in ext
    ensures Filename(stem + "." + ext) == stem
    ensures Extension(stem + "." + ext) == ext
  {
    var b := stem + "." + ext;
    assert '/' !in b by {
      forall i | 0 <= i < |b| ensures b[i] != '/' {
        if i < |stem| { assert b[i] == stem[i]; }
        else if i > |stem| { assert b[i] == ext[i - |stem| - 1]; }
      }
    }
    assert Basename(b) == b;
    NameParts(stem, ext);
  }

  // ---------------------------------------------------------------------------
  // PCRE end anchor
  // ---------------------------------------------------------------------------

  /**
   * `s` without one final "\n". A PCRE `$` without the D modifier matches at
   * the very end and also just before a final newline, so `^P$` accepts `s`
   * exactly when P accepts `s` or `Chomp(s)`.
   */
  function Chomp(s: string): (r: string)
    ensures r == s || (|s| > 0 && s[|s| - 1] == '\n' && r == s[..|s| - 1])
  {
    if |s| > 0 && s[|s| - 1] == '\n' then s[..|s| - 1] else s
  }

  /** PHP's `empty()` on a string: true for "" and for "0". */
  predicate IsEmptyString(s: string) {
    s == "" || s == "0"
  }
}
