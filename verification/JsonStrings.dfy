/** String literals of cJSON: how they are printed, scanned and decoded (RFC 8259, section 7). A char stands for a byte. */
module JsonStrings {
  import opened CText
  import opened Words

  const BACKSPACE: char := 8 as char
  const FORM_FEED: char := 12 as char

  // ----- printing -----

  function HexDigit(d: nat): (c: char)
    requires d < 16
  {
    if d < 10 then Digit(d) else (d - 10 + 'a' as int) as char
  }

  /** The escape letter of a character that has one. */
  function EscapeLetter(c: char): (e: Option<char>) {
    if c == '\\' then Some('\\') else if c == '\"' then Some('\"') else if c == BACKSPACE then Some('b')
    else if c == FORM_FEED then Some('f') else if c == '\n' then Some('n') else if c == '\r' then Some('r')
    else if c == '\t' then Some('t') else None
  }

  function PrintChar(c: char): (p: string)
    ensures 1 <= |p| <= 6
  {
    if EscapeLetter(c).Some? then ['\\', EscapeLetter(c).value]
    else if c as int < 32 then ['\\', 'u', '0', '0', HexDigit(c as int / 16), HexDigit(c as int % 16)]
    else [c]
  }

  function PrintChars(s: string): (p: string) {
    if s == "" then "" else PrintChar(s[0]) + PrintChars(s[1..])
  }

  /** The literal for a string. */
  function PrintString(s: string): (p: string) {
    "\"" + PrintChars(s) + "\""
  }

  // ----- scanning for the closing quote -----

  /** Where the closing quote is, seen from behind the opening one. */
  function ScanBody(s: string): (end: Option<nat>)
    ensures end.Some? ==> end.value < |s| && s[end.value] == '\"'
  {
    if s == "" then None
    else if s[0] == '\"' then Some(0)
    else if s[0] == '\\' then
      if |s| == 1 then None
      else if ScanBody(s[2..]).None? then None else Some(2 + ScanBody(s[2..]).value)
    else if ScanBody(s[1..]).None? then None else Some(1 + ScanBody(s[1..]).value)
  }

  /** How many escape pairs the scan steps over. */
  function Skips(b: string): (n: nat)
    ensures n <= |b|
  {
    if |b| < 2 then 0
    else if b[0] == '\\' then 1 + Skips(b[2..])
    else Skips(b[1..])
  }

  // ----- decoding -----

  function HexValue(c: char): (v: Option<nat>)
    ensures v.Some? ==> v.value < 16
  {
    if '0' <= c <= '9' then Some(c as int - '0' as int)
    else if 'A' <= c <= 'F' then Some(10 + c as int - 'A' as int)
    else if 'a' <= c <= 'f' then Some(10 + c as int - 'a' as int)
    else None
  }

  /** The value of four hexadecimal digits, 0 when one of them is not a digit. */
  function Hex4(a: char, b: char, c: char, d: char): (h: nat)
    ensures h < 65536
  {
    if HexValue(a).Some? && HexValue(b).Some? && HexValue(c).Some? && HexValue(d).Some? then
      4096 * HexValue(a).value + 256 * HexValue(b).value + 16 * HexValue(c).value + HexValue(d).value
    else 0
  }

  /** The UTF-8 form of a code point. */
  function Utf8(cp: nat): (u: string)
    requires cp < 0x110000
    ensures 1 <= |u| <= 4 && (cp < 0x10000 ==> |u| <= 3)
  {
    if cp < 0x80 then [cp as char]
    else if cp < 0x800 then [(0xC0 + cp / 64) as char, (0x80 + cp % 64) as char]
    else if cp < 0x10000 then
      [(0xE0 + cp / 64 / 64) as char, (0x80 + cp / 64 % 64) as char, (0x80 + cp % 64) as char]
    else
      [(0xF0 + cp / 64 / 64 / 64) as char, (0x80 + cp / 64 / 64 % 64) as char, (0x80 + cp / 64 % 64) as char,
       (0x80 + cp % 64) as char]
  }

  function SurrogatePair(first: nat, second: nat): (cp: nat)
    ensures 0x10000 <= cp < 0x110000
  {
    0x10000 + first % 1024 * 1024 + second % 1024
  }

  /** The bytes of a \u sequence and how many characters it takes; None when a surrogate has no partner. */
  function Utf16Literal(b: string): (r: Option<(string, nat)>)
    ensures r.Some? ==> (r.value.1 == 6 && 1 <= |r.value.0| <= 3) || (r.value.1 == 12 && 1 <= |r.value.0| <= 4)
    ensures r.Some? ==> r.value.1 <= |b|
  {
    if |b| < 6 then None
    else
      var first := Hex4(b[2], b[3], b[4], b[5]);
      if 0xDC00 <= first <= 0xDFFF then None
      else if 0xD800 <= first <= 0xDBFF then
        if |b| < 12 || b[6] != '\\' || b[7] != 'u' then None
        else
          var second := Hex4(b[8], b[9], b[10], b[11]);
          if second < 0xDC00 || second > 0xDFFF then None else Some((Utf8(SurrogatePair(first, second)), 12))
      else Some((Utf8(first), 6))
  }

  /** The character an escape letter stands for. */
  function Unletter(c: char): (r: Option<char>) {
    if c == 'b' then Some(BACKSPACE) else if c == 'f' then Some(FORM_FEED) else if c == 'n' then Some('\n')
    else if c == 'r' then Some('\r') else if c == 't' then Some('\t')
    else if c == '\"' || c == '\\' || c == '/' then Some(c) else None
  }

  function Append(head: string, tail: Option<string>): (r: Option<string>) {
    if tail.None? then None else Some(head + tail.value)
  }

  /**
   * What the first character or escape of a body stands for, and how many characters it takes. A lone backslash at
   * the very end, which only an earlier malformed \u sequence can leave there, takes the closing quote for its letter.
   */
  function DecodeStep(b: string): (r: Option<(string, nat)>)
    requires b != ""
    ensures r.Some? ==> r.value.1 >= 1
  {
    var letter := if |b| == 1 then '\"' else b[1];
    if b[0] != '\\' then Some(([b[0]], 1))
    else if letter == 'u' then Utf16Literal(b)
    else if Unletter(letter).None? then None
    else Some(([Unletter(letter).value], 2))
  }

  function Rest(b: string, n: nat): (r: string) {
    if n <= |b| then b[n..] else ""
  }

  /** The bytes a literal's body stands for. */
  function DecodeBody(b: string): (r: Option<string>)
    decreases |b|
  {
    if b == "" then Some("")
    else
      var step := DecodeStep(b);
      if step.None? then None else Append(step.value.0, DecodeBody(Rest(b, step.value.1)))
  }

  // ----- the size estimate -----

  lemma {:induction false} SkipsStep(b: string)
    requires b != ""
    ensures Skips(b[1..]) <= Skips(b) <= Skips(b[1..]) + 1
    decreases |b|
  {
    if |b| >= 2 && b[0] == '\\' {
      SkipsStep(b[1..]);
      assert b[1..][1..] == b[2..];
    }
  }

  lemma SkipsPerPair(b: string)
    requires |b| >= 2
    ensures Skips(b) <= Skips(b[2..]) + 1
  {
    if b[0] != '\\' {
      SkipsStep(b[1..]);
      assert b[1..][1..] == b[2..];
    }
  }

  /** At most every second character is an escape the scan skips. */
  lemma {:induction false} SkipsPerPairs(b: string, k: nat)
    requires 2 * k <= |b|
    ensures Skips(b) <= Skips(b[2 * k..]) + k
    decreases k
  {
    if k == 0 {
      assert b[0..] == b;
    } else {
      SkipsPerPair(b);
      SkipsPerPairs(b[2..], k - 1);
      assert b[2..][2 * (k - 1)..] == b[2 * k..];
    }
  }

  /** The room left in the estimate for a rest of the body. */
  function Room(b: string): (n: nat) {
    |b| - Skips(b)
  }

  lemma StepFits(b: string)
    requires b != "" && DecodeStep(b).Some?
    ensures var (out, n) := DecodeStep(b).value; |out| + Room(Rest(b, n)) <= Room(b)
  {
    var n := DecodeStep(b).value.1;
    if n > 1 && n <= |b| {
      SkipsPerPairs(b, n / 2);
    }
  }

  /** On any body, well formed or not, the decoded bytes fit the estimate made from the skipped pairs. */
  lemma {:induction false} DecodeFits(b: string)
    ensures DecodeBody(b).Some? ==> |DecodeBody(b).value| <= Room(b)
    decreases |b|
  {
    if b != "" && DecodeStep(b).Some? {
      StepFits(b);
      DecodeFits(Rest(b, DecodeStep(b).value.1));
    }
  }

  // ----- printing and decoding are inverse -----

  lemma HexByte(c: char)
    requires c as int < 32
    ensures Hex4('0', '0', HexDigit(c as int / 16), HexDigit(c as int % 16)) == c as int
  {
  }

  lemma DecodeHexChar(c: char, rest: string)
    requires c as int < 32
    ensures var p := ['\\', 'u', '0', '0', HexDigit(c as int / 16), HexDigit(c as int % 16)];
            DecodeBody(p + rest) == Append([c], DecodeBody(rest))
  {
    var p := ['\\', 'u', '0', '0', HexDigit(c as int / 16), HexDigit(c as int % 16)];
    var b := p + rest;
    assert b[..6] == p && b[6..] == rest;
    HexByte(c);
    assert Utf16Literal(b) == Some(([c], 6)) by {
      hide HexDigit, Hex4;
    }
    assert DecodeStep(b) == Some(([c], 6));
    hide HexDigit, Hex4, Utf16Literal, DecodeStep;
  }

  lemma DecodePrintChar(c: char, rest: string)
    requires c != '\0'
    ensures DecodeBody(PrintChar(c) + rest) == Append([c], DecodeBody(rest))
  {
    var p := PrintChar(c);
    if EscapeLetter(c).None? && c as int < 32 {
      DecodeHexChar(c, rest);
      hide DecodeBody;
    } else {
      var b := p + rest;
      assert b[..|p|] == p && b[|p|..] == rest;
      assert DecodeStep(b) == Some(([c], |p|)) by {
        hide Utf16Literal;
      }
      hide Utf16Literal, DecodeStep;
    }
  }

  /** Decoding the printed body gives back the string. */
  lemma {:induction false} DecodePrinted(s: string)
    requires Text(s)
    ensures DecodeBody(PrintChars(s)) == Some(s)
  {
    if s != "" {
      DecodePrinted(s[1..]);
      DecodePrintChar(s[0], PrintChars(s[1..]));
      assert s == [s[0]] + s[1..];
    }
  }

  function Shift(k: nat, end: Option<nat>): (r: Option<nat>) {
    if end.None? then None else Some(k + end.value)
  }

  lemma ScanPrintChar(c: char, rest: string)
    ensures ScanBody(PrintChar(c) + rest) == Shift(|PrintChar(c)|, ScanBody(rest))
  {
    var p := PrintChar(c);
    var b := p + rest;
    assert b[|p|..] == rest && b[..|p|] == p;
    if EscapeLetter(c).None? && c as int < 32 {
      ScanPlain(b[2..], 4);
      assert b[2..][4..] == rest;
    }
  }

  lemma {:induction false} ScanPlain(s: string, k: nat)
    requires k <= |s| && forall i :: 0 <= i < k ==> s[i] != '\"' && s[i] != '\\'
    ensures ScanBody(s) == Shift(k, ScanBody(s[k..]))
    decreases k
  {
    if k == 0 {
      assert s[0..] == s;
    } else {
      assert ScanBody(s) == Shift(1, ScanBody(s[1..]));
      ScanPlain(s[1..], k - 1);
      hide ScanBody;
      assert s[1..][k - 1..] == s[k..];
    }
  }

  lemma PrintCharsStep(s: string, rest: string)
    requires s != ""
    ensures PrintChars(s) + rest == PrintChar(s[0]) + (PrintChars(s[1..]) + rest)
    ensures |PrintChars(s)| == |PrintChar(s[0])| + |PrintChars(s[1..])|
  {
    hide PrintChar;
    assert PrintChar(s[0]) + PrintChars(s[1..]) + rest == PrintChar(s[0]) + (PrintChars(s[1..]) + rest);
  }

  /** The scan finds the closing quote of a printed string, whatever follows it. */
  lemma {:induction false} ScanPrinted(s: string, rest: string)
    ensures ScanBody(PrintChars(s) + ("\"" + rest)) == Some(|PrintChars(s)|)
  {
    var tail := "\"" + rest;
    if s == "" {
      assert PrintChars(s) + tail == tail;
    } else {
      hide ScanBody, PrintChars, PrintChar;
      ScanPrinted(s[1..], rest);
      ScanPrintChar(s[0], PrintChars(s[1..]) + tail);
      PrintCharsStep(s, tail);
    }
  }

  // ----- UTF-8 -----

  /** The code point a UTF-8 sequence stands for, by RFC 3629, section 3. */
  ghost function Utf8Value(u: string): (cp: int)
    requires 1 <= |u| <= 4
  {
    if |u| == 1 then u[0] as int
    else if |u| == 2 then (u[0] as int - 0xC0) * 64 + (u[1] as int - 0x80)
    else if |u| == 3 then ((u[0] as int - 0xE0) * 64 + (u[1] as int - 0x80)) * 64 + (u[2] as int - 0x80)
    else (((u[0] as int - 0xF0) * 64 + (u[1] as int - 0x80)) * 64 + (u[2] as int - 0x80)) * 64 + (u[3] as int - 0x80)
  }

  ghost predicate IsLead(u: string)
    requires 1 <= |u| <= 4
  {
    var lead := u[0] as int;
    if |u| == 1 then lead < 0x80
    else if |u| == 2 then 0xC2 <= lead < 0xE0
    else if |u| == 3 then 0xE0 <= lead < 0xF0
    else 0xF0 <= lead < 0xF5
  }

  /** Every code point is encoded as a sequence of bytes of the right shape that stands for it. */
  lemma Utf8RoundTrip(cp: nat)
    requires cp < 0x110000
    ensures Utf8Value(Utf8(cp)) == cp && IsLead(Utf8(cp))
    ensures forall i :: 1 <= i < |Utf8(cp)| ==> 0x80 <= Utf8(cp)[i] as int < 0xC0
  {
    assert cp == 64 * (cp / 64) + cp % 64;
  }

  /** A surrogate pair stands for the code point it was made from. */
  lemma SurrogateRoundTrip(cp: nat)
    requires 0x10000 <= cp < 0x110000
    ensures var high, low := 0xD800 + (cp - 0x10000) / 1024, 0xDC00 + (cp - 0x10000) % 1024;
            0xD800 <= high <= 0xDBFF && 0xDC00 <= low <= 0xDFFF && SurrogatePair(high, low) == cp
  {
  }

  /** A \u sequence with a wrong digit is not refused: it decodes to a NUL byte. */
  lemma BadHexIsNul(b: string)
    requires |b| >= 6 && b[0] == '\\' && b[1] == 'u'
    requires exists i :: 2 <= i < 6 && HexValue(b[i]).None?
    ensures DecodeStep(b) == Some((['\0'], 6))
  {
    assert Hex4(b[2], b[3], b[4], b[5]) == 0;
    assert Utf8(0) == [0 as char] == ['\0'];
  }

  // ----- what each escape stands for, by section 7 of RFC 8259 -----

  /** The character is the hexadecimal digit of value v, in either case. */
  ghost predicate DigitOf(c: char, v: nat) {
    v < 16 && (c == "0123456789abcdef"[v] || c == "0123456789ABCDEF"[v])
  }

  /** At position i of b stand a backslash, a u, and the four digits of the number n. */
  ghost predicate Quad(b: string, i: nat, n: nat) {
    && i + 6 <= |b| && b[i] == '\\' && b[i + 1] == 'u' && n < 0x10000
    && DigitOf(b[i + 2], n / 4096) && DigitOf(b[i + 3], n / 256 % 16)
    && DigitOf(b[i + 4], n / 16 % 16) && DigitOf(b[i + 5], n % 16)
  }

  /** u is the UTF-8 sequence of the code point cp, the shortest one. */
  ghost predicate Encodes(u: string, cp: nat) {
    && |u| == (if cp < 0x80 then 1 else if cp < 0x800 then 2 else if cp < 0x10000 then 3 else 4)
    && Utf8Value(u) == cp && IsLead(u)
    && forall i :: 1 <= i < |u| ==> 0x80 <= u[i] as int < 0xC0
  }

  lemma EncodesItself(cp: nat)
    requires cp < 0x110000
    ensures Encodes(Utf8(cp), cp)
  {
    Utf8RoundTrip(cp);
  }

  lemma OneEncoding(u: string, w: string, cp: nat)
    requires Encodes(u, cp) && Encodes(w, cp)
    ensures u == w
  {
    if |u| >= 2 {
      DigitsDiffer(u, w);
    }
  }

  lemma DigitsDiffer(u: string, w: string)
    requires 2 <= |u| == |w| <= 4 && Utf8Value(u) == Utf8Value(w)
    requires forall i :: 1 <= i < |u| ==> 0x80 <= u[i] as int < 0xC0 && 0x80 <= w[i] as int < 0xC0
    ensures u == w
  {
    assert u[1] as int - 0x80 < 64 && w[1] as int - 0x80 < 64;
    assert u[|u| - 1] == w[|w| - 1];
    if |u| > 2 {
      assert u[|u| - 2] == w[|w| - 2];
    }
  }

  lemma DigitsValue(a: char, b: char, c: char, d: char, n: nat)
    requires n < 0x10000 && DigitOf(a, n / 4096) && DigitOf(b, n / 256 % 16)
    requires DigitOf(c, n / 16 % 16) && DigitOf(d, n % 16)
    ensures Hex4(a, b, c, d) == n
  {
    var p, q, r, s := n / 4096, n / 256 % 16, n / 16 % 16, n % 16;
    SplitHex(n);
    DigitValueOf(a, p);
    DigitValueOf(b, q);
    DigitValueOf(c, r);
    DigitValueOf(d, s);
    hide DigitOf, HexValue;
  }

  lemma SplitHex(n: nat)
    ensures n == 4096 * (n / 4096) + 256 * (n / 256 % 16) + 16 * (n / 16 % 16) + n % 16
  {
    assert n / 16 / 16 == n / 256 && n / 256 / 16 == n / 4096;
  }

  lemma JoinHex(p: nat, q: nat, r: nat, s: nat, n: nat)
    requires p < 16 && q < 16 && r < 16 && s < 16 && n == 4096 * p + 256 * q + 16 * r + s
    ensures n / 4096 == p && n / 256 % 16 == q && n / 16 % 16 == r && n % 16 == s
  {
    var l := 16 * p + q;
    var m := 16 * l + r;
    DivUnique(n, 16, m, s);
    DivUnique(m, 16, l, r);
    DivUnique(l, 16, p, q);
    assert n / 256 == n / 16 / 16 && n / 4096 == n / 256 / 16;
  }

  lemma DigitValueOf(c: char, v: nat)
    requires DigitOf(c, v)
    ensures HexValue(c) == Some(v)
  {
  }

  lemma QuadValue(b: string, i: nat, n: nat)
    requires Quad(b, i, n)
    ensures i + 6 <= |b| && b[i] == '\\' && b[i + 1] == 'u' && Hex4(b[i + 2], b[i + 3], b[i + 4], b[i + 5]) == n
  {
    DigitsValue(b[i + 2], b[i + 3], b[i + 4], b[i + 5], n);
  }

  /** An escaped code unit that is no surrogate gives the UTF-8 bytes of its code point and takes six characters. */
  lemma UnitDecodes(b: string, cp: nat)
    requires Quad(b, 0, cp) && !(0xD800 <= cp <= 0xDFFF)
    ensures DecodeStep(b).Some? && DecodeStep(b).value.1 == 6 && Encodes(DecodeStep(b).value.0, cp)
  {
    hide Hex4, DigitOf, Utf8, Encodes, Quad;
    QuadValue(b, 0, cp);
    EncodesItself(cp);
    assert Utf16Literal(b) == Some((Utf8(cp), 6));
    hide Utf16Literal;
  }

  /** The escaped surrogate pair of a code point gives its UTF-8 bytes and takes twelve characters. */
  lemma PairDecodes(b: string, cp: nat)
    requires 0x10000 <= cp < 0x110000
    requires Quad(b, 0, 0xD800 + (cp - 0x10000) / 1024) && Quad(b, 6, 0xDC00 + (cp - 0x10000) % 1024)
    ensures DecodeStep(b).Some? && DecodeStep(b).value.1 == 12 && Encodes(DecodeStep(b).value.0, cp)
  {
    SurrogateRoundTrip(cp);
    hide *;
    PairIs(b, cp, 0xD800 + (cp - 0x10000) / 1024, 0xDC00 + (cp - 0x10000) % 1024);
  }

  lemma PairIs(b: string, cp: nat, high: nat, low: nat)
    requires Quad(b, 0, high) && Quad(b, 6, low) && cp < 0x110000
    requires 0xD800 <= high <= 0xDBFF && 0xDC00 <= low <= 0xDFFF && SurrogatePair(high, low) == cp
    ensures DecodeStep(b).Some? && DecodeStep(b).value.1 == 12 && Encodes(DecodeStep(b).value.0, cp)
  {
    hide *;
    QuadValue(b, 0, high);
    QuadValue(b, 6, low);
    EncodesItself(cp);
    PairStep(b, high, low);
  }

  lemma PairStep(b: string, high: nat, low: nat)
    requires |b| >= 12 && b[0] == b[6] == '\\' && b[1] == b[7] == 'u'
    requires Hex4(b[2], b[3], b[4], b[5]) == high && Hex4(b[8], b[9], b[10], b[11]) == low
    requires 0xD800 <= high <= 0xDBFF && 0xDC00 <= low <= 0xDFFF
    ensures DecodeStep(b) == Some((Utf8(SurrogatePair(high, low)), 12))
  {
    hide Hex4, Utf8, SurrogatePair, Unletter;
    assert Utf16Literal(b) == Some((Utf8(SurrogatePair(high, low)), 12));
    hide Utf16Literal;
  }

  /** A low surrogate in front, or a high one without an escaped low one right behind it, is refused. */
  lemma BrokenPairIsRefused(b: string, n: nat)
    requires Quad(b, 0, n) && 0xD800 <= n <= 0xDFFF
    requires n <= 0xDBFF ==> forall m :: Quad(b, 6, m) ==> !(0xDC00 <= m <= 0xDFFF)
    ensures DecodeStep(b) == None
  {
    DigitsValue(b[2], b[3], b[4], b[5], n);
    if n <= 0xDBFF && |b| >= 12 && b[6] == '\\' && b[7] == 'u' {
      var m := Hex4(b[8], b[9], b[10], b[11]);
      if m != 0 {
        HexDigits(b[8], b[9], b[10], b[11]);
        assert Quad(b, 6, m);
      }
    }
    hide Hex4, DigitOf, Utf8;
  }

  lemma HexDigits(a: char, b: char, c: char, d: char)
    ensures var n := Hex4(a, b, c, d);
      n != 0 ==> DigitOf(a, n / 4096) && DigitOf(b, n / 256 % 16) && DigitOf(c, n / 16 % 16) && DigitOf(d, n % 16)
  {
    if Hex4(a, b, c, d) != 0 {
      var p, q, r, s := GoodDigits(a, b, c, d);
      hide DigitOf, HexValue, Hex4;
      JoinHex(p, q, r, s, Hex4(a, b, c, d));
    }
  }

  lemma GoodDigits(a: char, b: char, c: char, d: char) returns (p: nat, q: nat, r: nat, s: nat)
    requires Hex4(a, b, c, d) != 0
    ensures DigitOf(a, p) && DigitOf(b, q) && DigitOf(c, r) && DigitOf(d, s)
    ensures p < 16 && q < 16 && r < 16 && s < 16 && Hex4(a, b, c, d) == 4096 * p + 256 * q + 16 * r + s
  {
    hide DigitOf, HexValue;
    p, q, r, s := HexValue(a).value, HexValue(b).value, HexValue(c).value, HexValue(d).value;
    ValueIsDigit(a);
    ValueIsDigit(b);
    ValueIsDigit(c);
    ValueIsDigit(d);
  }

  lemma ValueIsDigit(c: char)
    ensures HexValue(c).Some? ==> DigitOf(c, HexValue(c).value)
  {
  }

  /** The eight escape letters with the characters they stand for. */
  ghost predicate StandsFor(letter: char, c: char) {
    exists i :: 0 <= i < 8 && letter == "\"\\/bfnrt"[i] && c as int == [34, 92, 47, 8, 12, 10, 13, 9][i]
  }

  /** Any other character is taken as it is; of the escapes without a u exactly these eight are accepted. */
  lemma LetterDecodes(b: string)
    requires b != ""
    ensures b[0] != '\\' ==> DecodeStep(b) == Some(([b[0]], 1))
    ensures |b| >= 2 && b[0] == '\\' && b[1] != 'u' ==>
      forall c: char :: StandsFor(b[1], c) <==> DecodeStep(b) == Some(([c], 2))
    ensures |b| >= 2 && b[0] == '\\' && b[1] != 'u' && (forall c: char :: !StandsFor(b[1], c)) ==> DecodeStep(b) == None
  {
    if |b| >= 2 && b[0] == '\\' && b[1] != 'u' {
      forall c: char
        ensures StandsFor(b[1], c) <==> Unletter(b[1]) == Some(c)
      {
        LetterIs(b[1], c);
      }
      if Unletter(b[1]).Some? {
        assert StandsFor(b[1], Unletter(b[1]).value);
      }
    }
  }

  lemma LetterIs(letter: char, c: char)
    ensures StandsFor(letter, c) <==> Unletter(letter) == Some(c)
  {
    var letters, codes := "\"\\/bfnrt", [34, 92, 47, 8, 12, 10, 13, 9];
    assert letter == letters[0] || letter == letters[1] || letter == letters[2] || letter == letters[3] ||
      letter == letters[4] || letter == letters[5] || letter == letters[6] || letter == letters[7] ||
      Unletter(letter) == None;
  }
}
