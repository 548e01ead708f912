/**
 * Input validation and sanitising from app/bootstrap.php: `validateHex` and
 * `sanitizeInput` (trim, byte truncation, `htmlspecialchars` with ENT_QUOTES
 * in UTF-8).
 */
module Input {
  import opened PhpStrings

  // ---------------------------------------------------------------------------
  // validateHex
  // ---------------------------------------------------------------------------

  /** `#` followed by exactly six hexadecimal digits of either case. */
  predicate IsHexColour(s: string) {
    |s| == 7 && s[0] == '#' && forall i :: 1 <= i < 7 ==> IsHexDigit(s[i])
  }

  /**
   * `validateHex`: the pattern `^#[0-9A-Fa-f]{6}$`. Its `$` has no D
   * modifier, so a colour followed by one "\n" is accepted as well.
   */
  function ValidateHex(s: string): (r: bool)
    ensures r <==> (|s| == 7 || (|s| == 8 && s[7] == '\n'))
                   && s[0] == '#' && forall i :: 1 <= i < 7 ==> IsHexDigit(s[i])
  {
    IsHexColour(s) || IsHexColour(Chomp(s))
  }

  /** Concrete cases: both letter cases, the trailing newline, and near misses. */
  lemma ValidateHexExamples()
    ensures ValidateHex("#A1b2C3")
    ensures ValidateHex("#A1b2C3\n")
    ensures !ValidateHex("#A1b2C3\n\n")
    ensures !ValidateHex("#abc")
    ensures !ValidateHex("#abcdeg")
    ensures !ValidateHex("abcdef0")
  {
    assert "#abcdeg"[6] == 'g';
  }

  // ---------------------------------------------------------------------------
  // htmlspecialchars($s, ENT_QUOTES, 'UTF-8')
  // ---------------------------------------------------------------------------

  /** The bytes `htmlspecialchars` with ENT_QUOTES replaces by an entity. */
  predicate IsSpecial(c: char) {
    c == '&' || c == '<' || c == '>' || c == '"' || c == '\''
  }

  /** The entity for one byte, or the byte itself. */
  function EscapeChar(c: char): (r: string)
    ensures |r| > 0
    ensures forall i :: 0 <= i < |r| ==> r[i] != '<' && r[i] != '>' && r[i] != '"' && r[i] != '\''
    ensures !IsSpecial(c) ==> r == [c]
  {
    if c == '&' then "&amp;"
    else if c == '<' then "&lt;"
    else if c == '>' then "&gt;"
    else if c == '"' then "&quot;"
    else if c == '\'' then "&#039;"
    else [c]
  }

  /** Entity-encoding of a valid UTF-8 string, byte by byte. */
  function Escape(s: string): (r: string)
    ensures |r| >= |s|
    ensures forall i :: 0 <= i < |r| ==> r[i] != '<' && r[i] != '>' && r[i] != '"' && r[i] != '\''
    decreases |s|
  {
    if |s| == 0 then "" else EscapeChar(s[0]) + Escape(s[1..])
  }

  /** Reading the five entities back; the partner of Escape. */
  function Unescape(s: string): string
    decreases |s|
  {
    if |s| == 0 then ""
    else if StartsWith(s, "&amp;") then "&" + Unescape(s[5..])
    else if StartsWith(s, "&lt;") then "<" + Unescape(s[4..])
    else if StartsWith(s, "&gt;") then ">" + Unescape(s[4..])
    else if StartsWith(s, "&quot;") then "\"" + Unescape(s[6..])
    else if StartsWith(s, "&#039;") then "'" + Unescape(s[6..])
    else [s[0]] + Unescape(s[1..])
  }

  /** Escaping loses nothing: the entities read back to the original bytes. */
  lemma {:induction false} UnescapeEscape(s: string)
    ensures Unescape(Escape(s)) == s
    decreases |s|
  {
    if |s| > 0 {
      assert Escape(s) == EscapeChar(s[0]) + Escape(s[1..]);
      UnescapeAfterEntity(s[0], Escape(s[1..]));
      UnescapeEscape(s[1..]);
      assert s == [s[0]] + s[1..];
    }
  }

  /** The encoding of one byte reads back to that byte, whatever follows it. */
  lemma UnescapeAfterEntity(c: char, rest: string)
    ensures Unescape(EscapeChar(c) + rest) == [c] + Unescape(rest)
  {
    if c == '&' {
      UnescapeAmp(rest);
    } else if c == '<' {
      UnescapeLt(rest);
    } else if c == '>' {
      UnescapeGt(rest);
    } else if c == '"' {
      UnescapeQuot(rest);
    } else if c == '\'' {
      UnescapeApos(rest);
    } else {
      var t := [c] + rest;
      assert t[0] == c && t[1..] == rest;
      UnescapePlainByte(t);
    }
  }

  lemma UnescapeAmp(rest: string)
    ensures Unescape("&amp;" + rest) == "&" + Unescape(rest)
  {
    var t := "&amp;" + rest;
    assert t[..5] == "&amp;" && t[5..] == rest;
  }

  lemma UnescapeLt(rest: string)
    ensures Unescape("&lt;" + rest) == "<" + Unescape(rest)
  {
    var t := "&lt;" + rest;
    assert t[1] == 'l';
    assert !StartsWith(t, "&amp;");
    assert t[..4] == "&lt;" && t[4..] == rest;
  }

  lemma UnescapeGt(rest: string)
    ensures Unescape("&gt;" + rest) == ">" + Unescape(rest)
  {
    var t := "&gt;" + rest;
    assert t[1] == 'g';
    assert !StartsWith(t, "&amp;") && !StartsWith(t, "&lt;");
    assert t[..4] == "&gt;" && t[4..] == rest;
  }

  lemma UnescapeQuot(rest: string)
    ensures Unescape("&quot;" + rest) == "\"" + Unescape(rest)
  {
    var t := "&quot;" + rest;
    assert t[1] == 'q';
    assert !StartsWith(t, "&amp;") && !StartsWith(t, "&lt;") && !StartsWith(t, "&gt;");
    assert t[..6] == "&quot;" && t[6..] == rest;
  }

  lemma UnescapeApos(rest: string)
    ensures Unescape("&#039;" + rest) == "'" + Unescape(rest)
  {
    var t := "&#039;" + rest;
    assert t[1] == '#';
    assert !StartsWith(t, "&amp;") && !StartsWith(t, "&lt;") && !StartsWith(t, "&gt;");
    assert !StartsWith(t, "&quot;");
    assert t[..6] == "&#039;" && t[6..] == rest;
  }

  /** A byte other than '&' never starts an entity. */
  lemma UnescapePlainByte(t: string)
    requires |t| > 0 && t[0] != '&'
    ensures Unescape(t) == [t[0]] + Unescape(t[1..])
  {
    assert !StartsWith(t, "&amp;") && !StartsWith(t, "&lt;") && !StartsWith(t, "&gt;") by {
      if |t| >= 4 { assert t[..4][0] == t[0]; }
    }
    assert !StartsWith(t, "&quot;") && !StartsWith(t, "&#039;") by {
      if |t| >= 6 { assert t[..6][0] == t[0]; }
    }
  }

  /** `t` starts with one of the five entities. */
  predicate StartsWithEntity(t: string) {
    StartsWith(t, "&amp;") || StartsWith(t, "&lt;") || StartsWith(t, "&gt;")
    || StartsWith(t, "&quot;") || StartsWith(t, "&#039;")
  }

  /** An entity starts at offset `i` of `r`. */
  predicate EntityAt(r: string, i: int)
    requires 0 <= i <= |r|
  {
    StartsWithEntity(r[i..])
  }

  /** Every '&' of `r` begins an entity: no raw ampersand is left. */
  predicate AmpersandsAreEntities(r: string) {
    forall i {:trigger EntityAt(r, i)} :: 0 <= i < |r| && r[i] == '&' ==> EntityAt(r, i)
  }

  /** Escaping leaves no raw ampersand: each one it emits opens an entity. */
  lemma {:induction false} EscapeAmpersands(s: string)
    ensures AmpersandsAreEntities(Escape(s))
    decreases |s|
  {
    if |s| > 0 {
      EscapeAmpersands(s[1..]);
      var a, b := EscapeChar(s[0]), Escape(s[1..]);
      var r := a + b;
      assert Escape(s) == r;
      forall i | 0 <= i < |r| && r[i] == '&' ensures EntityAt(r, i) {
        if i < |a| {
          EntityAmpersand(s[0], b, i);
        } else {
          assert r[i..] == b[i - |a|..];
          assert EntityAt(b, i - |a|);
        }
      }
    }
  }

  /** Within the encoding of one byte, an '&' can only be the opening of its entity. */
  lemma EntityAmpersand(c: char, rest: string, i: int)
    requires 0 <= i < |EscapeChar(c)| && EscapeChar(c)[i] == '&'
    ensures StartsWithEntity((EscapeChar(c) + rest)[i..])
  {
    var a := EscapeChar(c);
    assert i == 0;
    assert (a + rest)[0..] == a + rest;
    assert (a + rest)[..|a|] == a;
  }

  /** Text with no special bytes is left as it is. */
  lemma {:induction false} EscapePlain(s: string)
    requires forall i :: 0 <= i < |s| ==> !IsSpecial(s[i])
    ensures Escape(s) == s
    decreases |s|
  {
    if |s| > 0 {
      EscapePlain(s[1..]);
      assert s == [s[0]] + s[1..];
    }
  }

  // ---------------------------------------------------------------------------
  // UTF-8 well-formedness (what htmlspecialchars checks for charset UTF-8)
  // ---------------------------------------------------------------------------

  predicate InByteRange(c: char, lo: int, hi: int) {
    lo <= c as int <= hi
  }

  predicate IsContinuation(c: char) {
    InByteRange(c, 0x80, 0xBF)
  }

  /**
   * The length of the well-formed UTF-8 character at the start of `s`, or 0
   * when `s` does not start with one: overlong forms, UTF-16 surrogates and
   * code points above U+10FFFF are refused, following the Unicode table of
   * well-formed byte sequences.
   */
  function LeadingCharLength(s: string): (n: nat)
    requires |s| > 0
    ensures n <= |s| && n <= 4
  {
    var b := s[0] as int;
    if b < 0x80 then 1
    else if 0xC2 <= b <= 0xDF then
      if |s| >= 2 && IsContinuation(s[1]) then 2 else 0
    else if 0xE0 <= b <= 0xEF then
      var lo := if b == 0xE0 then 0xA0 else 0x80;
      var hi := if b == 0xED then 0x9F else 0xBF;
      if |s| >= 3 && InByteRange(s[1], lo, hi) && IsContinuation(s[2]) then 3 else 0
    else if 0xF0 <= b <= 0xF4 then
      var lo := if b == 0xF0 then 0x90 else 0x80;
      var hi := if b == 0xF4 then 0x8F else 0xBF;
      if |s| >= 4 && InByteRange(s[1], lo, hi) && IsContinuation(s[2]) && IsContinuation(s[3]) then 4
      else 0
    else 0
  }

  /** `s` is a sequence of well-formed UTF-8 characters. */
  predicate ValidUtf8(s: string)
    decreases |s|
  {
    |s| == 0 || (LeadingCharLength(s) > 0 && ValidUtf8(s[LeadingCharLength(s)..]))
  }

  predicate IsAscii(s: string) {
    forall i :: 0 <= i < |s| ==> s[i] as int < 0x80
  }

  /** Plain ASCII is well-formed UTF-8. */
  lemma {:induction false} AsciiIsUtf8(s: string)
    requires IsAscii(s)
    ensures ValidUtf8(s)
    decreases |s|
  {
    if |s| > 0 {
      assert LeadingCharLength(s) == 1;
      AsciiIsUtf8(s[1..]);
    }
  }

  // ---------------------------------------------------------------------------
  // sanitizeInput
  // ---------------------------------------------------------------------------

  /**
   * `sanitizeInput($input, $maxLength)`: trim, keep the first `maxLength`
   * bytes, then entity-encode. `htmlspecialchars` without ENT_SUBSTITUTE
   * returns "" for input that is not well-formed UTF-8, which the byte cut
   * produces whenever it falls inside a multi-byte character.
   */
  function SanitizeInput(input: string, maxLength: int): (r: string)
    ensures forall i :: 0 <= i < |r| ==> r[i] != '<' && r[i] != '>' && r[i] != '"' && r[i] != '\''
    ensures ValidUtf8(Prefix(Trim(input), maxLength)) ==> Unescape(r) == Prefix(Trim(input), maxLength)
    ensures !ValidUtf8(Prefix(Trim(input), maxLength)) ==> r == ""
    ensures maxLength >= 0 ==> |Unescape(r)| <= maxLength
    ensures AmpersandsAreEntities(r)
  {
    var kept := Prefix(Trim(input), maxLength);
    UnescapeEscape(kept);
    EscapeAmpersands(kept);
    if ValidUtf8(kept) then Escape(kept) else ""
  }

  /** Short plain ASCII text without surrounding blanks passes through unchanged. */
  lemma SanitizePlain(s: string, maxLength: int)
    requires IsAscii(s) && |s| <= maxLength
    requires forall i :: 0 <= i < |s| ==> !IsSpecial(s[i])
    requires |s| == 0 || (!IsTrimByte(s[0]) && !IsTrimByte(s[|s| - 1]))
    ensures SanitizeInput(s, maxLength) == s
  {
    PlainIsFixed(s, maxLength);
    SanitizeFixed(s, maxLength);
  }

  lemma PlainIsFixed(s: string, maxLength: int)
    requires IsAscii(s) && |s| <= maxLength
    requires forall i :: 0 <= i < |s| ==> !IsSpecial(s[i])
    requires |s| == 0 || (!IsTrimByte(s[0]) && !IsTrimByte(s[|s| - 1]))
    ensures Prefix(Trim(s), maxLength) == s && ValidUtf8(s) && Escape(s) == s
  {
    TrimClean(s);
    AsciiIsUtf8(s);
    EscapePlain(s);
  }

  lemma SanitizeFixed(s: string, maxLength: int)
    requires Prefix(Trim(s), maxLength) == s && ValidUtf8(s) && Escape(s) == s
    ensures SanitizeInput(s, maxLength) == s
  {
    SanitizeKept(s, maxLength, s);
  }

  /** Trimming leaves a string alone that neither starts nor ends with a blank. */
  lemma TrimClean(s: string)
    requires |s| == 0 || (!IsTrimByte(s[0]) && !IsTrimByte(s[|s| - 1]))
    ensures Trim(s) == s
  {
    assert TrimLeft(s, IsTrimByte) == s;
    assert TrimRight(s, IsTrimByte) == s;
  }

  /**
   * A cut inside a two-byte character empties the whole field: "aé" is the
   * bytes 61 C3 A9, and keeping two of them leaves an incomplete character.
   */
  lemma SanitizeCutInsideCharacter(s: string)
    requires s == ['a', 0xC3 as char, 0xA9 as char]
    ensures SanitizeInput(s, 2) == ""
  {
    TrimClean(s);
    var kept := Prefix(s, 2);
    assert kept == ['a', 0xC3 as char];
    assert LeadingCharLength(kept) == 1;
    assert LeadingCharLength(kept[1..]) == 0;
    assert !ValidUtf8(kept);
  }

  /** Sanitising is not idempotent: an ampersand is encoded again on each pass. */
  lemma SanitizeEncodesTwice()
    ensures SanitizeInput("&", 100) == "&amp;"
    ensures SanitizeInput("&amp;", 100) == "&amp;amp;"
  {
    assert "&" + "" == "&" && "&amp;" + "" == "&amp;";
    SanitizeAmpersand("");
    assert "&" + "amp;" == "&amp;" && "&amp;" + "amp;" == "&amp;amp;";
    assert !IsTrimByte("amp;"[3]);
    SanitizeAmpersand("amp;");
  }

  lemma SanitizeAmpersand(tail: string)
    requires IsAscii(tail) && |tail| < 100 && (forall i :: 0 <= i < |tail| ==> !IsSpecial(tail[i]))
    requires |tail| == 0 || !IsTrimByte(tail[|tail| - 1])
    ensures SanitizeInput("&" + tail, 100) == "&amp;" + tail
  {
    var s := "&" + tail;
    assert Prefix(Trim(s), 100) == s && ValidUtf8(s) by { AmpersandKept(tail, s); }
    assert Escape(s) == "&amp;" + tail by { EscapeAmpersandFirst(tail); }
    SanitizeKept(s, 100, s);
  }

  /** When the trimmed and cut text is valid UTF-8, sanitizing is its escape. */
  lemma SanitizeKept(input: string, maxLength: int, kept: string)
    requires Prefix(Trim(input), maxLength) == kept && ValidUtf8(kept)
    ensures SanitizeInput(input, maxLength) == Escape(kept)
  {
  }

  /** Trimming and the cut keep `s`, an ampersand before `tail`, whole; and it is valid UTF-8. */
  lemma AmpersandKept(tail: string, s: string)
    requires IsAscii(tail) && |tail| < 100 && s == "&" + tail
    requires |tail| == 0 || !IsTrimByte(tail[|tail| - 1])
    ensures Prefix(Trim(s), 100) == s && ValidUtf8(s)
  {
    assert s[|s| - 1] != ' ' by {
      if |tail| > 0 { assert s[|s| - 1] == tail[|tail| - 1]; }
    }
    TrimClean(s);
    assert Prefix(s, 100) == s;
    assert IsAscii(s) by {
      forall i | 0 <= i < |s| ensures s[i] as int < 0x80 {
        if i > 0 { assert s[i] == tail[i - 1]; }
      }
    }
    AsciiIsUtf8(s);
  }

  lemma EscapeAmpersandFirst(tail: string)
    requires forall i :: 0 <= i < |tail| ==> !IsSpecial(tail[i])
    ensures Escape("&" + tail) == "&amp;" + tail
  {
    var s := "&" + tail;
    EscapePlain(tail);
    assert s[1..] == tail;
  }
}
