/**
  `cleanText`, the text sanitiser of the PDF export (assets/patients.js):
  strip tags, decode character references, strip control characters,
  collapse doubled ampersands and trim.
*/
module Sanitize {
  import opened Wrappers
  import opened JsText

  /** The values `cleanText` is given: a missing field, a number or a string. */
  datatype JsValue = Undefined | Null | Num(n: nat) | Str(s: string)

  /** `!text`: the values JavaScript treats as false. */
  predicate Falsy(v: JsValue) {
    v.Undefined? || v.Null? || v == Num(0) || v == Str([])
  }

  /** `String(text)`. */
  function ToJsString(v: JsValue): string {
    match v
    case Undefined => "undefined"
    case Null => "null"
    case Num(n) => NatToString(n)
    case Str(s) => s
  }

  // ---------------------------------------------------------------------------
  // Character classes and runs

  predicate IsDecimalDigit(c: char) { '0' <= c <= '9' }

  /** `[a-f\d]` under the `i` flag. */
  predicate IsHexDigit(c: char) { IsDecimalDigit(c) || 'a' <= c <= 'f' || 'A' <= c <= 'F' }

  /** `[#\w]`: `#`, an ASCII letter or digit, or `_`. */
  predicate IsReferenceChar(c: char) {
    c == '#' || c == '_' || IsDecimalDigit(c) || 'a' <= c <= 'z' || 'A' <= c <= 'Z'
  }

  /** The control characters removed by `/[\x00-\x08\x0B-\x0C\x0E-\x1F\x7F-\x9F]/g`. */
  predicate IsControl(c: char) {
    || c <= '\U{0008}'
    || ('\U{000B}' <= c <= '\U{000C}')
    || ('\U{000E}' <= c <= '\U{001F}')
    || ('\U{007F}' <= c <= '\U{009F}')
  }

  /** The length of the longest prefix of `s` whose characters satisfy `p`: what a greedy `p+` or `p*` consumes. */
  function Run(s: string, p: char -> bool): (n: nat)
    ensures n <= |s|
    ensures forall k :: 0 <= k < n ==> p(s[k])
    ensures n < |s| ==> !p(s[n])
  {
    if s != [] && p(s[0]) then 1 + Run(s[1..], p) else 0
  }

  /** The first position of `c` in `s`. */
  function IndexOfChar(s: string, c: char): (k: nat)
    requires c in s
    ensures k < |s| && s[k] == c && c !in s[..k]
  {
    if s[0] == c then 0
    else
      var k := 1 + IndexOfChar(s[1..], c);
      assert s[..k] == [s[0]] + s[1..][..k - 1];
      k
  }

  // ---------------------------------------------------------------------------
  // The tests that decide whether decoding runs

  /** `/&[#\w]+;/` matches at position `i`. */
  predicate EntityAt(s: string, i: nat) {
    && i < |s| && s[i] == '&'
    && var n := Run(s[i + 1..], IsReferenceChar);
       n >= 1 && i + 1 + n < |s| && s[i + 1 + n] == ';'
  }

  /** `/&[#\w]+;/.test(s)`. */
  predicate HasEntity(s: string) {
    exists i :: 0 <= i < |s| && EntityAt(s, i)
  }

  /** `/<[^>]*>/.test(s)`: some `<` is followed, later, by a `>`. */
  predicate HasTag(s: string) {
    exists i, j :: 0 <= i < j < |s| && s[i] == '<' && s[j] == '>'
  }

  lemma HasTagTail(s: string)
    requires s != [] && HasTag(s[1..])
    ensures HasTag(s)
  {
    var i, j :| 0 <= i < j < |s[1..]| && s[1..][i] == '<' && s[1..][j] == '>';
    assert s[i + 1] == '<' && s[j + 1] == '>';
  }

  /** `s.replace(/<[^>]*>/g, '')`: from each `<` that has a `>` after it, up
      to the first such `>`, is removed; no tag is left afterwards. */
  function StripTags(s: string): (r: string)
    ensures |r| <= |s|
    ensures forall c :: c in r ==> c in s
    ensures !HasTag(r)
    ensures !HasTag(s) ==> r == s
  {
    if s == [] then []
    else if s[0] == '<' && '>' in s then
      var k := IndexOfChar(s, '>');
      StripTags(s[k + 1..])
    else
      var rest := StripTags(s[1..]);
      StripTagsStep(s, rest);
      [s[0]] + rest
  }

  /** The step of `StripTags` that keeps the first character. */
  lemma StripTagsStep(s: string, rest: string)
    requires s != [] && !(s[0] == '<' && '>' in s)
    requires forall c :: c in rest ==> c in s[1..]
    requires !HasTag(rest)
    requires !HasTag(s[1..]) ==> rest == s[1..]
    ensures !HasTag([s[0]] + rest)
    ensures !HasTag(s) ==> [s[0]] + rest == s
  {
    var r := [s[0]] + rest;
    forall i, j | 0 <= i < j < |r| && r[i] == '<'
      ensures r[j] != '>'
    {
      if i == 0 {
        assert r[j] in rest;
      } else {
        assert rest[i - 1] == '<' && r[j] == rest[j - 1];
      }
    }
    if !HasTag(s) && HasTag(s[1..]) {
      HasTagTail(s);
    }
  }

  // ---------------------------------------------------------------------------
  // Literal replacement

  /** `s.replace(/pat/g, rep)` for a pattern without metacharacters: matches
      are found left to right and replaced without overlapping. */
  function ReplaceAll(s: string, pat: string, rep: string): string
    requires pat != []
  {
    if |s| < |pat| then s
    else if s[..|pat|] == pat then rep + ReplaceAll(s[|pat|..], pat, rep)
    else [s[0]] + ReplaceAll(s[1..], pat, rep)
  }

  /** A pattern using a character that `s` lacks is never replaced. */
  lemma {:induction false} ReplaceAllAbsent(s: string, pat: string, rep: string, c: char)
    requires pat != [] && c in pat && c !in s
    ensures ReplaceAll(s, pat, rep) == s
  {
    if |s| >= |pat| {
      var k :| 0 <= k < |pat| && pat[k] == c;
      assert s[..|pat|][k] == s[k] != c;
      assert s == [s[0]] + s[1..];
      ReplaceAllAbsent(s[1..], pat, rep, c);
    }
  }

  /** A position that cannot start a match is copied. */
  lemma ReplaceAllSkip(s: string, pat: string, rep: string)
    requires pat != [] && s != [] && s[0] != pat[0]
    ensures ReplaceAll(s, pat, rep) == [s[0]] + ReplaceAll(s[1..], pat, rep)
  {
    if |s| >= |pat| {
      assert s[..|pat|][0] != pat[0];
    }
  }

  /** A match at the front is replaced. */
  lemma ReplaceAllMatch(pat: string, rep: string, y: string)
    requires pat != []
    ensures ReplaceAll(pat + y, pat, rep) == rep + ReplaceAll(y, pat, rep)
  {
    assert (pat + y)[..|pat|] == pat;
    assert (pat + y)[|pat|..] == y;
  }

  /** The first match is at the first occurrence of the pattern's first character. */
  lemma {:induction false} ReplaceAllFirstMatch(x: string, pat: string, rep: string, y: string)
    requires pat != [] && pat[0] !in x
    ensures ReplaceAll(x + pat + y, pat, rep) == x + rep + ReplaceAll(y, pat, rep)
  {
    if x == [] {
      assert x + pat + y == pat + y;
      ReplaceAllMatch(pat, rep, y);
    } else {
      var s := x + pat + y;
      assert s[0] == x[0] && s[1..] == x[1..] + pat + y;
      ReplaceAllSkip(s, pat, rep);
      ReplaceAllFirstMatch(x[1..], pat, rep, y);
      assert x == [x[0]] + x[1..];
    }
  }

  // ---------------------------------------------------------------------------
  // Character references

  /** `String.fromCharCode(n)`: the code unit `n` modulo 2^16; a lone
      surrogate, which a Dafny string cannot hold, becomes U+FFFD. */
  function FromCharCode(n: nat): (c: char)
    ensures (n % 0x1_0000 < 0xD800 || 0xE000 <= n % 0x1_0000) ==> c as int == n % 0x1_0000
  {
    var u := n % 0x1_0000;
    if 0xD800 <= u < 0xE000 then '\U{FFFD}' else u as char
  }

  /** The value of a hexadecimal digit. */
  function HexDigitValue(c: char): (v: nat)
    requires IsHexDigit(c)
    ensures v < 16
  {
    if IsDecimalDigit(c) then c as int - '0' as int
    else if 'a' <= c <= 'f' then c as int - 'a' as int + 10
    else c as int - 'A' as int + 10
  }

  /** `parseInt(hex, 16)` of a string of hexadecimal digits. */
  function HexValue(s: string): nat
    requires forall k :: 0 <= k < |s| ==> IsHexDigit(s[k])
  {
    if s == [] then 0 else HexValue(s[..|s| - 1]) * 16 + HexDigitValue(s[|s| - 1])
  }

  /** The number of digits of a `&#digits;` reference at the start of `s`, or 0 when none starts there. */
  function DecimalRefDigits(s: string): (n: nat)
    ensures n > 0 ==> 3 + n <= |s| && s[0] == '&' && s[2 + n] == ';' && AllDigits(s[2..2 + n])
  {
    if |s| >= 2 && s[0] == '&' && s[1] == '#' then
      var n := Run(s[2..], IsDecimalDigit);
      if n >= 1 && 2 + n < |s| && s[2 + n] == ';' then n else 0
    else 0
  }

  /** The number of digits of a `&#xhex;` (or `&#Xhex;`) reference at the start of `s`, or 0 when none starts there. */
  function HexRefDigits(s: string): (n: nat)
    ensures n > 0 ==> 4 + n <= |s| && s[0] == '&' && s[3 + n] == ';'
    ensures n > 0 ==> forall k :: 3 <= k < 3 + n ==> IsHexDigit(s[k])
  {
    if |s| >= 3 && s[0] == '&' && s[1] == '#' && (s[2] == 'x' || s[2] == 'X') then
      var n := Run(s[3..], IsHexDigit);
      if n >= 1 && 3 + n < |s| && s[3 + n] == ';' then n else 0
    else 0
  }

  /** `s.replace(/&#(\d+);/g, ...)`: each decimal reference becomes `String.fromCharCode` of its value. */
  function DecodeDecimal(s: string): (r: string)
    ensures '&' !in s ==> r == s
    ensures ';' !in s ==> r == s
  {
    if s == [] then []
    else
      var n := DecimalRefDigits(s);
      if n > 0 then
        assert s[2 + n] in s;
        [FromCharCode(DecimalValue(s[2..2 + n]))] + DecodeDecimal(s[3 + n..])
      else
        assert s == [s[0]] + s[1..];
        [s[0]] + DecodeDecimal(s[1..])
  }

  /** `s.replace(/&#x([a-f\d]+);/gi, ...)`: each hexadecimal reference becomes `String.fromCharCode` of its value. */
  function DecodeHex(s: string): (r: string)
    ensures '&' !in s ==> r == s
    ensures ';' !in s ==> r == s
  {
    if s == [] then []
    else
      var n := HexRefDigits(s);
      if n > 0 then
        assert s[3 + n] in s;
        [FromCharCode(HexValue(s[3..3 + n]))] + DecodeHex(s[4 + n..])
      else
        assert s == [s[0]] + s[1..];
        [s[0]] + DecodeHex(s[1..])
  }

  /** A decimal reference at the front is replaced by the character of its value. */
  lemma DecimalReferenceFront(d: string, y: string)
    requires d != [] && AllDigits(d)
    ensures DecodeDecimal("&#" + d + ";" + y) == [FromCharCode(DecimalValue(d))] + DecodeDecimal(y)
  {
    var s := "&#" + d + ";" + y;
    assert s[2..] == d + (";" + y);
    RunPrefix(d, ";" + y, IsDecimalDigit);
    assert DecimalRefDigits(s) == |d|;
    assert s[2..2 + |d|] == d && s[3 + |d|..] == y;
  }

  /** A character other than `&` starts no reference and is copied. */
  lemma DecodeDecimalStep(s: string)
    requires s != [] && s[0] != '&'
    ensures DecodeDecimal(s) == [s[0]] + DecodeDecimal(s[1..])
  {
    assert DecimalRefDigits(s) == 0;
  }

  /** Text without `&` holds no decimal reference, so it is copied. */
  lemma {:induction false} DecodeDecimalCopies(x: string, z: string)
    requires '&' !in x
    ensures DecodeDecimal(x + z) == x + DecodeDecimal(z)
  {
    if x != [] {
      var s := x + z;
      assert x[0] in x;
      assert s[0] == x[0] && s[1..] == x[1..] + z;
      DecodeDecimalStep(s);
      DecodeDecimalCopies(x[1..], z);
      assert DecodeDecimal(s) == [x[0]] + (x[1..] + DecodeDecimal(z));
      assert x == [x[0]] + x[1..];
    } else {
      assert x + z == z;
    }
  }

  /** Text without `&` before a decimal reference is copied, and the reference
      becomes the character `String.fromCharCode` gives for its value. */
  lemma {:induction false} DecimalReference(x: string, d: string, y: string)
    requires '&' !in x && d != [] && AllDigits(d)
    ensures DecodeDecimal(x + "&#" + d + ";" + y) == x + [FromCharCode(DecimalValue(d))] + DecodeDecimal(y)
  {
    var z := "&#" + d + ";" + y;
    assert x + "&#" + d + ";" + y == x + z;
    DecodeDecimalCopies(x, z);
    DecimalReferenceFront(d, y);
  }

  /** A hexadecimal reference at the front is replaced by the character of its value. */
  lemma HexReferenceFront(marker: char, h: string, y: string)
    requires marker == 'x' || marker == 'X'
    requires h != [] && forall k :: 0 <= k < |h| ==> IsHexDigit(h[k])
    ensures DecodeHex("&#" + [marker] + h + ";" + y) == [FromCharCode(HexValue(h))] + DecodeHex(y)
  {
    var s := "&#" + [marker] + h + ";" + y;
    assert s[3..] == h + (";" + y);
    RunPrefix(h, ";" + y, IsHexDigit);
    assert HexRefDigits(s) == |h|;
    assert s[3..3 + |h|] == h && s[4 + |h|..] == y;
  }

  /** A character other than `&` starts no reference and is copied. */
  lemma DecodeHexStep(s: string)
    requires s != [] && s[0] != '&'
    ensures DecodeHex(s) == [s[0]] + DecodeHex(s[1..])
  {
    assert HexRefDigits(s) == 0;
  }

  /** Text without `&` holds no hexadecimal reference, so it is copied. */
  lemma {:induction false} DecodeHexCopies(x: string, z: string)
    requires '&' !in x
    ensures DecodeHex(x + z) == x + DecodeHex(z)
  {
    if x != [] {
      var s := x + z;
      assert x[0] in x;
      assert s[0] == x[0] && s[1..] == x[1..] + z;
      DecodeHexStep(s);
      DecodeHexCopies(x[1..], z);
      assert DecodeHex(s) == [x[0]] + (x[1..] + DecodeHex(z));
      assert x == [x[0]] + x[1..];
    } else {
      assert x + z == z;
    }
  }

  /** Text without `&` before a hexadecimal reference is copied, and the
      reference, with `x` in either case, becomes the character of its value. */
  lemma {:induction false} HexReference(x: string, marker: char, h: string, y: string)
    requires '&' !in x && (marker == 'x' || marker == 'X')
    requires h != [] && forall k :: 0 <= k < |h| ==> IsHexDigit(h[k])
    ensures DecodeHex(x + "&#" + [marker] + h + ";" + y) == x + [FromCharCode(HexValue(h))] + DecodeHex(y)
  {
    var z := "&#" + [marker] + h + ";" + y;
    assert x + "&#" + [marker] + h + ";" + y == x + z;
    HexReferenceFront(marker, h, y);
    HexDecodedAfter(x, z, FromCharCode(HexValue(h)), y);
  }

  /** Decoding text without `&` followed by a decoded reference. */
  lemma HexDecodedAfter(x: string, z: string, c: char, y: string)
    requires '&' !in x && DecodeHex(z) == [c] + DecodeHex(y)
    ensures DecodeHex(x + z) == x + [c] + DecodeHex(y)
  {
    DecodeHexCopies(x, z);
  }

  /** The seven literal replacements, in the order the source applies them. */
  function DecodeNamedChain(s: string): string {
    var s1 := ReplaceAll(s, "&amp;", "&");
    var s2 := ReplaceAll(s1, "&lt;", "<");
    var s3 := ReplaceAll(s2, "&gt;", ">");
    var s4 := ReplaceAll(s3, "&quot;", "\"");
    var s5 := ReplaceAll(s4, "&#39;", "'");
    var s6 := ReplaceAll(s5, "&nbsp;", " ");
    ReplaceAll(s6, "&#160;", " ")
  }

  /** Without a `;` no replacement of the chain applies. */
  lemma DecodeNamedChainNoSemicolon(s: string)
    requires ';' !in s
    ensures DecodeNamedChain(s) == s
  {
    ReplaceAllAbsent(s, "&amp;", "&", ';');
    ReplaceAllAbsent(s, "&lt;", "<", ';');
    ReplaceAllAbsent(s, "&gt;", ">", ';');
    ReplaceAllAbsent(s, "&quot;", "\"", ';');
    ReplaceAllAbsent(s, "&#39;", "'", ';');
    ReplaceAllAbsent(s, "&nbsp;", " ", ';');
    ReplaceAllAbsent(s, "&#160;", " ", ';');
  }

  /** The decoding stage as written: tags, then the literal chain, then decimal, then hexadecimal references. */
  function DecodeAsWritten(s: string): string {
    DecodeHex(DecodeDecimal(DecodeNamedChain(StripTags(s))))
  }

  // ---------------------------------------------------------------------------
  // The decoding stage with each reference decoded once, a reference decoder
  // to compare the literal chain with (neither has the innerHTML fallback)

  /** `s` begins with `p`. */
  predicate StartsWith(s: string, p: string) {
    |p| <= |s| && s[..|p|] == p
  }

  /** The reference of the literal chain that `s` starts with, as its length
      and the character it stands for, trying them in the chain's order. */
  function NamedReference(s: string): (r: Option<(nat, char)>)
    ensures r.Some? ==> 0 < r.value.0 <= |s| && s[0] == '&'
  {
    if StartsWith(s, "&amp;") then Some((5, '&'))
    else if StartsWith(s, "&lt;") then Some((4, '<'))
    else if StartsWith(s, "&gt;") then Some((4, '>'))
    else if StartsWith(s, "&quot;") then Some((6, '"'))
    else if StartsWith(s, "&#39;") then Some((5, '\''))
    else if StartsWith(s, "&nbsp;") then Some((6, ' '))
    else if StartsWith(s, "&#160;") then Some((6, ' '))
    else None
  }

  /** One step of the one-pass decoder at the start of a non-empty `s`: the
      character it produces and how much of `s` it consumes. A reference of
      the literal chain comes first, then a decimal, then a hexadecimal one;
      any other character is copied. */
  function DecodeStep(s: string): (r: (char, nat))
    requires s != []
    ensures 0 < r.1 <= |s|
    ensures s[0] != '&' ==> r == (s[0], 1)
  {
    match NamedReference(s)
    case Some(named) => (named.1, named.0)
    case None =>
      var n := DecimalRefDigits(s);
      if n > 0 then (FromCharCode(DecimalValue(s[2..2 + n])), 3 + n)
      else
        var h := HexRefDigits(s);
        if h > 0 then (FromCharCode(HexValue(s[3..3 + h])), 4 + h)
        else (s[0], 1)
  }

  /** Decodes every reference exactly once, scanning left to right: the text
      a reference decodes to is never decoded again. */
  function DecodeOnce(s: string): (r: string)
    ensures '&' !in s ==> r == s
  {
    if s == [] then []
    else
      var step := DecodeStep(s);
      assert s[0] != '&' ==> s == [s[0]] + s[1..];
      [step.0] + DecodeOnce(s[step.1..])
  }

  /** HTML escaping of one character, with the references `DecodeOnce` knows. */
  function EscapeChar(c: char): string {
    if c == '&' then "&amp;"
    else if c == '<' then "&lt;"
    else if c == '>' then "&gt;"
    else if c == '"' then "&quot;"
    else if c == '\'' then "&#39;"
    else [c]
  }

  /** HTML escaping of a text: how text with markup characters reaches the page. */
  function Escape(s: string): (r: string)
    ensures '<' !in r
    ensures |r| >= |s|
  {
    if s == [] then [] else EscapeChar(s[0]) + Escape(s[1..])
  }

  /** The escape of `c` is read back as `c`, and nothing after it is consumed. */
  lemma NamedReferenceOfEscape(c: char, rest: string)
    requires IsMarkupChar(c)
    ensures NamedReference(EscapeChar(c) + rest) == Some((|EscapeChar(c)|, c))
    ensures DecodeStep(EscapeChar(c) + rest) == (c, |EscapeChar(c)|)
  {
    var e := EscapeChar(c) + rest;
    assert e[..|EscapeChar(c)|] == EscapeChar(c);
    if c == '<' {
      assert e[1] == 'l';
    } else if c == '>' {
      assert e[1] == 'g';
    } else if c == '"' {
      assert e[1] == 'q';
    } else if c == '\'' {
      assert e[1] == '#' && e[2] == '3';
    }
  }

  /** Decoding escaped text once gives the text back. */
  lemma {:induction false} DecodeOnceEscape(s: string)
    ensures DecodeOnce(Escape(s)) == s
  {
    if s != [] {
      var c := s[0];
      var rest := Escape(s[1..]);
      var e := Escape(s);
      assert e == EscapeChar(c) + rest;
      DecodeOnceEscape(s[1..]);
      if IsMarkupChar(c) {
        NamedReferenceOfEscape(c, rest);
        assert e[|EscapeChar(c)|..] == rest;
      } else {
        assert e == [c] + rest && e[0] == c;
        assert e[1..] == rest;
      }
    }
  }

  /** The decoding stage with the double decoding removed. */
  function Decode(s: string): string {
    DecodeOnce(StripTags(s))
  }

  // ---------------------------------------------------------------------------
  // Control characters, doubled ampersands

  /** No character of `s` is a control character. */
  predicate NoControl(s: string) {
    forall i :: 0 <= i < |s| ==> !IsControl(s[i])
  }

  /** `s.replace(/[\x00-\x08\x0B-\x0C\x0E-\x1F\x7F-\x9F]/g, '')`. */
  function StripControls(s: string): (r: string)
    ensures |r| <= |s|
    ensures NoControl(r)
    ensures NoControl(s) ==> r == s
  {
    if s == [] then []
    else if IsControl(s[0]) then StripControls(s[1..])
    else [s[0]] + StripControls(s[1..])
  }

  /** The length of a `\s*&\s*&` match at the start of `s`, or 0 when none starts there. */
  function DoubleAmpLength(s: string): (m: nat)
    ensures m <= |s|
    ensures m > 0 ==> s[m - 1] == '&' && '&' in s[..m - 1]
  {
    var a := Run(s, IsSpace);
    if a < |s| && s[a] == '&' then
      var b := a + 1 + Run(s[a + 1..], IsSpace);
      if b < |s| && s[b] == '&' then
        assert s[..b][a] == '&';
        b + 1
      else 0
    else 0
  }

  /** `s.replace(/\s*&\s*&/g, '&')`. */
  function CollapseAmp(s: string): (r: string)
    ensures |r| <= |s|
    ensures '&' !in s ==> r == s
  {
    if s == [] then []
    else
      var m := DoubleAmpLength(s);
      if m > 0 then "&" + CollapseAmp(s[m..])
      else [s[0]] + CollapseAmp(s[1..])
  }

  /** A suffix of text without control characters has none either. */
  lemma NoControlSuffix(s: string, m: nat)
    requires NoControl(s) && m <= |s|
    ensures NoControl(s[m..])
  {
    forall i | 0 <= i < |s[m..]| ensures !IsControl(s[m..][i]) {
      assert s[m..][i] == s[m + i];
    }
  }

  /** Two ampersands with only white space before and between them collapse to one. */
  lemma CollapseDoubleAmp(w1: string, w2: string, y: string)
    requires forall k :: 0 <= k < |w1| ==> IsSpace(w1[k])
    requires forall k :: 0 <= k < |w2| ==> IsSpace(w2[k])
    ensures CollapseAmp(w1 + "&" + w2 + "&" + y) == "&" + CollapseAmp(y)
  {
    var s := w1 + "&" + w2 + "&" + y;
    assert s == w1 + ("&" + w2 + "&" + y);
    RunPrefix(w1, "&" + w2 + "&" + y, IsSpace);
    var a := |w1|;
    assert s[a] == '&';
    assert s[a + 1..] == w2 + ("&" + y);
    RunPrefix(w2, "&" + y, IsSpace);
    var b := a + 1 + |w2|;
    assert s[b] == '&';
    assert DoubleAmpLength(s) == b + 1;
    assert s[b + 1..] == y;
  }

  /** Collapsing only removes characters or writes `&`, so it adds no control character. */
  lemma {:induction false} CollapseAmpNoControl(s: string)
    requires NoControl(s)
    ensures NoControl(CollapseAmp(s))
  {
    if s != [] {
      var m := DoubleAmpLength(s);
      var n := if m > 0 then m else 1;
      NoControlSuffix(s, n);
      CollapseAmpNoControl(s[n..]);
      var r := CollapseAmp(s);
      var head := if m > 0 then "&" else [s[0]];
      assert r == head + CollapseAmp(s[n..]);
      assert !IsControl(head[0]);
      forall i | 0 <= i < |r| ensures !IsControl(r[i]) {
        if i > 0 { assert r[i] == CollapseAmp(s[n..])[i - 1]; }
      }
    }
  }

  /** Trimming keeps a slice of the string, so it adds no control character. */
  lemma TrimNoControl(s: string)
    requires NoControl(s)
    ensures NoControl(Trim(s))
  {
    var r := Trim(s);
    forall k | 0 <= k < |r| ensures !IsControl(r[k]) {
      assert r[k] in r;
      var j :| 0 <= j < |s| && s[j] == r[k];
    }
  }

  /** A greedy run over `w + rest` stops at the end of `w` when `rest` does not continue it. */
  lemma {:induction false} RunPrefix(w: string, rest: string, p: char -> bool)
    requires forall k :: 0 <= k < |w| ==> p(w[k])
    requires rest != [] ==> !p(rest[0])
    ensures Run(w + rest, p) == |w|
  {
    if w != [] {
      assert (w + rest)[1..] == w[1..] + rest;
      RunPrefix(w[1..], rest, p);
    } else {
      assert w + rest == rest;
    }
  }

  /** With at most one `&`, there is no doubled ampersand to collapse. */
  lemma SingleAmpNoDouble(s: string, p: nat)
    requires forall k :: 0 <= k < |s| && k != p ==> s[k] != '&'
    ensures DoubleAmpLength(s) == 0
  {
    DoubleAmpEarlier(s);
  }

  /** A doubled ampersand has an earlier `&` before its last one. */
  lemma DoubleAmpEarlier(s: string)
    ensures DoubleAmpLength(s) > 0 ==> exists k :: 0 <= k < DoubleAmpLength(s) - 1 && s[k] == '&'
  {
    var m := DoubleAmpLength(s);
    if m > 0 {
      var k :| 0 <= k < m - 1 && s[..m - 1][k] == '&';
      assert s[k] == '&';
    }
  }

  /** A single ampersand is never collapsed. */
  lemma {:induction false} CollapseSingleAmp(x: string, y: string)
    requires '&' !in x && '&' !in y
    ensures CollapseAmp(x + "&" + y) == x + "&" + y
  {
    var s := x + "&" + y;
    OnlyAmpAt(x, y);
    SingleAmpNoDouble(s, |x|);
    assert CollapseAmp(s) == [s[0]] + CollapseAmp(s[1..]);
    if x == [] {
      assert s[1..] == y;
    } else {
      assert s[1..] == x[1..] + "&" + y;
      CollapseSingleAmp(x[1..], y);
    }
  }

  /** In `x + "&" + y` with no `&` in `x` or `y`, the only `&` is the one between them. */
  lemma OnlyAmpAt(x: string, y: string)
    requires '&' !in x && '&' !in y
    ensures forall k :: 0 <= k < |x + "&" + y| && k != |x| ==> (x + "&" + y)[k] != '&'
  {
    var s := x + "&" + y;
    forall k | 0 <= k < |s| && k != |x| ensures s[k] != '&' {
      if k < |x| { assert s[k] == x[k]; } else { assert s[k] == y[k - |x| - 1]; }
    }
  }

  // ---------------------------------------------------------------------------
  // The pipeline

  /** No control character, and no white space at either end. */
  predicate Printable(r: string) {
    NoControl(r) && (r != [] ==> !IsSpace(r[0]) && !IsSpace(r[|r| - 1]))
  }

  /** The common tail of the pipeline: strip control characters, collapse doubled ampersands, trim. */
  function Finish(decoded: string): (r: string)
    ensures Printable(r)
  {
    var t := StripControls(decoded);
    CollapseAmpNoControl(t);
    TrimNoControl(CollapseAmp(t));
    Trim(CollapseAmp(t))
  }

  /** Text that is already printable and has no ampersand goes through the tail unchanged. */
  lemma FinishUnchanged(s: string)
    requires '&' !in s && Printable(s)
    ensures Finish(s) == s
  {
    assert StripControls(s) == s;
    assert CollapseAmp(s) == s;
    TrimUnchanged(s);
  }

  /** `cleanText` as written, up to the `innerHTML` fallback: the literal replacement chain decodes `&amp;` first. */
  function CleanTextAsWritten(v: JsValue): (r: string)
    ensures Falsy(v) ==> r == []
    ensures Printable(r)
  {
    if Falsy(v) then []
    else
      var s := ToJsString(v);
      Finish(if HasEntity(s) || HasTag(s) then DecodeAsWritten(s) else s)
  }

  /** `cleanText` with each character reference decoded once, also without the `innerHTML` fallback. */
  function CleanText(v: JsValue): (r: string)
    ensures Falsy(v) ==> r == []
    ensures Printable(r)
  {
    if Falsy(v) then []
    else
      var s := ToJsString(v);
      Finish(if HasEntity(s) || HasTag(s) then Decode(s) else s)
  }

  /** A string holding a character reference goes through the decoding stage in both versions. */
  lemma CleanTextOfEntity(s: string)
    requires HasEntity(s)
    ensures CleanText(Str(s)) == Finish(Decode(s))
    ensures CleanTextAsWritten(Str(s)) == Finish(DecodeAsWritten(s))
  {
    assert s != [];
    assert ToJsString(Str(s)) == s;
  }

  /** A string whose ends are not white space is its own trim. */
  lemma TrimUnchanged(s: string)
    requires s != [] ==> !IsSpace(s[0]) && !IsSpace(s[|s| - 1])
    ensures Trim(s) == s
  {
  }

  /** Text with no reference and no tag only has its control characters
      stripped, its doubled ampersands collapsed and its ends trimmed; text
      that has no ampersand, no control character and no white space at
      either end comes back unchanged. */
  lemma CleanTextPlain(s: string)
    requires s != [] && !HasEntity(s) && !HasTag(s)
    ensures CleanText(Str(s)) == CleanTextAsWritten(Str(s)) == Trim(CollapseAmp(StripControls(s)))
    ensures '&' !in s && Printable(s) ==> CleanText(Str(s)) == s
  {
    assert ToJsString(Str(s)) == s;
    assert CleanText(Str(s)) == Finish(s);
    assert CleanTextAsWritten(Str(s)) == Finish(s);
    if '&' !in s && Printable(s) {
      FinishUnchanged(s);
    }
  }

  /** Text without `&` or `<` holds neither a character reference nor a tag. */
  lemma NoMarkup(s: string)
    requires '&' !in s && '<' !in s
    ensures !HasEntity(s) && !HasTag(s)
  {
    forall i | 0 <= i < |s| ensures !EntityAt(s, i) {
      assert s[i] != '&';
    }
  }

  /** Printable text without `&` or `<` is cleaned to itself. */
  lemma CleanTextIdentity(s: string)
    requires s != [] && '&' !in s && '<' !in s && Printable(s)
    ensures CleanText(Str(s)) == s
    ensures CleanTextAsWritten(Str(s)) == s
  {
    NoMarkup(s);
    CleanTextPlain(s);
  }

  /** The markup-free text around the ampersand of `CleanTextAmpersand`. */
  predicate Bare(x: string) {
    '&' !in x && '<' !in x && ';' !in x && NoControl(x)
  }

  /** `&amp;` decodes to `&` in text that has no other markup. */
  lemma CleanTextAmpersand(x: string, y: string)
    requires Bare(x) && Bare(y)
    ensures CleanText(Str(x + "&amp;" + y)) == Trim(x + "&" + y)
    ensures CleanTextAsWritten(Str(x + "&amp;" + y)) == Trim(x + "&" + y)
  {
    var s := x + "&amp;" + y;
    assert |s| > 0 && ToJsString(Str(s)) == s;
    AmpersandIsEntity(x, y);
    assert CleanText(Str(s)) == Finish(Decode(s));
    assert CleanTextAsWritten(Str(s)) == Finish(DecodeAsWritten(s));
    AmpersandDecodedAsWritten(x, y);
    AmpersandDecodedOnce(x, y);
    AmpersandFinish(x, y);
  }

  /** The one-pass decoding stage turns the single `&amp;` of such text into `&`. */
  lemma AmpersandDecodedOnce(x: string, y: string)
    requires Bare(x) && Bare(y)
    ensures Decode(x + "&amp;" + y) == x + "&" + y
  {
    assert '<' !in x + "&amp;" + y;
    DecodeOnceAmpersand(x, y);
  }

  /** The tail of the pipeline leaves the decoded text alone, up to trimming. */
  lemma AmpersandFinish(x: string, y: string)
    requires Bare(x) && Bare(y)
    ensures Finish(x + "&" + y) == Trim(x + "&" + y)
  {
    var d := x + "&" + y;
    assert NoControl(d) by {
      forall i | 0 <= i < |d| ensures !IsControl(d[i]) {
        if i < |x| { assert d[i] == x[i]; } else if i > |x| { assert d[i] == y[i - |x| - 1]; }
      }
    }
    CollapseSingleAmp(x, y);
  }

  /** The `&amp;` of such text is a reference. */
  lemma AmpersandIsEntity(x: string, y: string)
    requires Bare(x) && Bare(y)
    ensures HasEntity(x + "&amp;" + y)
  {
    var s := x + "&amp;" + y;
    assert s[|x| + 1..] == "amp" + (";" + y);
    RunPrefix("amp", ";" + y, IsReferenceChar);
    assert EntityAt(s, |x|);
  }

  /** The literal chain turns the single `&amp;` of such text into `&` and changes nothing else. */
  lemma AmpersandDecodedAsWritten(x: string, y: string)
    requires Bare(x) && Bare(y)
    ensures DecodeAsWritten(x + "&amp;" + y) == x + "&" + y
  {
    var s := x + "&amp;" + y;
    var d := x + "&" + y;
    assert '<' !in s;
    assert StripTags(s) == s;
    ReplaceAllFirstMatch(x, "&amp;", "&", y);
    ReplaceAllAbsent(y, "&amp;", "&", ';');
    assert ReplaceAll(s, "&amp;", "&") == d;
    assert ';' !in d;
    ReplaceAllAbsent(d, "&lt;", "<", ';');
    ReplaceAllAbsent(d, "&gt;", ">", ';');
    ReplaceAllAbsent(d, "&quot;", "\"", ';');
    ReplaceAllAbsent(d, "&#39;", "'", ';');
    ReplaceAllAbsent(d, "&nbsp;", " ", ';');
    ReplaceAllAbsent(d, "&#160;", " ", ';');
    assert DecodeNamedChain(s) == d;
  }

  /** A character other than `&` is copied by the one-pass decoder. */
  lemma DecodeOnceSkip(s: string)
    requires s != [] && s[0] != '&'
    ensures DecodeOnce(s) == [s[0]] + DecodeOnce(s[1..])
  {
    assert DecodeStep(s) == (s[0], 1);
  }

  /** `&amp;` at the front is decoded by the one-pass decoder. */
  lemma DecodeOnceAmpFront(y: string)
    ensures DecodeOnce("&amp;" + y) == "&" + DecodeOnce(y)
  {
    var s := "&amp;" + y;
    assert s[..5] == "&amp;";
    assert DecodeStep(s) == ('&', 5);
    assert s[5..] == y;
  }

  /** Text before the first `&` is copied by the one-pass decoder. */
  lemma {:induction false} DecodeOnceCopiesPlain(x: string, z: string)
    requires '&' !in x
    ensures DecodeOnce(x + z) == x + DecodeOnce(z)
  {
    if x != [] {
      var s := x + z;
      DecodeOnceSkip(s);
      assert s[1..] == x[1..] + z;
      DecodeOnceCopiesPlain(x[1..], z);
      assert x == [x[0]] + x[1..];
    } else {
      assert x + z == z;
    }
  }

  /** The one-pass decoder turns the single `&amp;` of such text into `&`. */
  lemma DecodeOnceAmpersand(x: string, y: string)
    requires '&' !in x && '&' !in y
    ensures DecodeOnce(x + "&amp;" + y) == x + "&" + y
  {
    assert x + "&amp;" + y == x + ("&amp;" + y);
    DecodeOnceCopiesPlain(x, "&amp;" + y);
    DecodeOnceAmpFront(y);
  }

  /** The characters HTML escaping rewrites. */
  predicate IsMarkupChar(c: char) {
    c == '&' || c == '<' || c == '>' || c == '"' || c == '\''
  }

  /** Escaped text comes back from the one-pass pipeline as the text itself,
      up to control characters, doubled ampersands and white space at the ends. */
  lemma CleanTextEscaped(s: string)
    requires s != []
    ensures CleanText(Str(Escape(s))) == Finish(s)
  {
    var e := Escape(s);
    DecodeOnceEscape(s);
    assert StripTags(e) == e;
    if exists i :: 0 <= i < |s| && IsMarkupChar(s[i]) {
      EscapeMarkupIsEntity(s);
    } else {
      EscapePlain(s);
    }
  }

  /** Text without markup characters is its own escape. */
  lemma {:induction false} EscapePlain(s: string)
    requires forall i :: 0 <= i < |s| ==> !IsMarkupChar(s[i])
    ensures Escape(s) == s
  {
    if s != [] {
      EscapePlain(s[1..]);
      assert s == [s[0]] + s[1..];
    }
  }

  /** A reference stays a reference when text is put before it. */
  lemma EntityAtShift(h: string, t: string, i: nat)
    requires EntityAt(t, i)
    ensures EntityAt(h + t, |h| + i)
  {
    assert (h + t)[|h| + i + 1..] == t[i + 1..];
    assert (h + t)[|h| + i] == t[i];
  }

  /** `&`, a run of reference characters and `;` form a reference. */
  lemma EntityAtFront(body: string, rest: string)
    requires body != [] && forall k :: 0 <= k < |body| ==> IsReferenceChar(body[k])
    ensures EntityAt("&" + body + ";" + rest, 0)
  {
    var e := "&" + body + ";" + rest;
    assert e[1..] == body + (";" + rest);
    RunPrefix(body, ";" + rest, IsReferenceChar);
    assert e[1 + |body|] == ';';
  }

  /** The escape of a markup character starts a reference. */
  lemma EscapeCharIsEntity(c: char, rest: string)
    requires IsMarkupChar(c)
    ensures EntityAt(EscapeChar(c) + rest, 0)
  {
    var body :=
      if c == '&' then "amp" else if c == '<' then "lt" else if c == '>' then "gt"
      else if c == '"' then "quot" else "#39";
    assert EscapeChar(c) == "&" + body + ";";
    EntityAtFront(body, rest);
  }

  /** Escaped text that had a markup character has a reference. */
  lemma {:induction false} EscapeMarkupIsEntity(s: string)
    requires exists i :: 0 <= i < |s| && IsMarkupChar(s[i])
    ensures HasEntity(Escape(s))
  {
    var rest := Escape(s[1..]);
    assert Escape(s) == EscapeChar(s[0]) + rest;
    if IsMarkupChar(s[0]) {
      EscapeCharIsEntity(s[0], rest);
    } else {
      var i :| 0 <= i < |s| && IsMarkupChar(s[i]);
      assert i > 0 && IsMarkupChar(s[1..][i - 1]);
      EscapeMarkupIsEntity(s[1..]);
      var j :| 0 <= j < |rest| && EntityAt(rest, j);
      EntityAtShift(EscapeChar(s[0]), rest, j);
    }
  }
}
