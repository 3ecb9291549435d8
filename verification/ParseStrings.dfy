/** The loops that read a string literal: hexadecimal digits, UTF-16 escapes, and the decoding into a sized buffer. */
module ParseStrings {
  import opened CText
  import opened JsonStrings
  import opened Words

  /** Four hexadecimal digits; a wrong digit makes the result 0. */
  method ParseHex4(content: string, at: nat) returns (h: nat)
    requires at + 4 <= |content|
    ensures h == Hex4(content[at], content[at + 1], content[at + 2], content[at + 3])
  {
    ghost var w := content[at..at + 4];
    h := 0;
    var i := 0;
    while i < 4
      invariant i <= 4
      invariant forall k :: 0 <= k < i ==> HexValue(w[k]).Some?
      invariant i == 0 ==> h == 0
      invariant i == 1 ==> h == 16 * HexValue(w[0]).value
      invariant i == 2 ==> h == 256 * HexValue(w[0]).value + 16 * HexValue(w[1]).value
      invariant i == 3 ==> h == 4096 * HexValue(w[0]).value + 256 * HexValue(w[1]).value + 16 * HexValue(w[2]).value
      invariant i == 4 ==> h == Hex4(w[0], w[1], w[2], w[3])
    {
      var c := content[at + i];
      assert c == w[i];
      var v := HexValue(c);
      if v.None? {
        return 0;
      }
      h := h + v.value;
      if i < 3 {
        h := h * 16;
      }
      i := i + 1;
    }
  }

  /** The code point with its low 6-bit groups shifted out. */
  ghost function Shifted(cp: nat, groups: nat): (r: nat) {
    if groups == 0 then cp else Shifted(cp, groups - 1) / 64
  }

  /** The bits in front of the code point in the first byte. */
  function LeadMark(length: nat): (m: nat)
    ensures m <= 0xF0
  {
    if length <= 1 then 0 else if length == 2 then 0xC0 else if length == 3 then 0xE0 else 0xF0
  }

  function LeadByte(length: nat, left: nat): (c: char) {
    ((LeadMark(length) + left) % 256) as char
  }

  function TailByte(left: nat): (c: char) {
    (0x80 + left % 64) as char
  }

  lemma Utf8Bytes(cp: nat)
    requires cp < 0x110000
    ensures var u := Utf8(cp);
            && |u| == (if cp < 0x80 then 1 else if cp < 0x800 then 2 else if cp < 0x10000 then 3 else 4)
            && (forall k :: 1 <= k < |u| ==> u[k] == TailByte(Shifted(cp, |u| - 1 - k)))
            && u[0] == LeadByte(|u|, Shifted(cp, |u| - 1))
  {
    assert Shifted(cp, 1) == cp / 64;
    assert Shifted(cp, 2) == cp / 64 / 64;
    assert Shifted(cp, 3) == cp / 64 / 64 / 64;
  }

  /** Writes the UTF-8 form of a code point, last byte first. */
  method EncodeUtf8(codepoint: nat, output: array<char>, o: nat) returns (length: nat)
    requires codepoint < 0x110000 && o + |Utf8(codepoint)| <= output.Length
    modifies output
    ensures length == |Utf8(codepoint)| && output[o..o + length] == Utf8(codepoint)
    ensures output[..o] == old(output[..o])
  {
    Utf8Bytes(codepoint);
    hide Utf8, LeadByte, TailByte;
    ghost var u := Utf8(codepoint);
    length := if codepoint < 0x80 then 1 else if codepoint < 0x800 then 2 else if codepoint < 0x10000 then 3 else 4;
    var left, position := codepoint, length - 1;
    while position > 0
      invariant 0 <= position < length && left == Shifted(codepoint, length - 1 - position)
      invariant forall k :: position < k < length ==> output[o + k] == u[k]
      invariant output[..o] == old(output[..o])
    {
      output[o + position] := TailByte(left);
      left, position := left / 64, position - 1;
    }
    output[o] := LeadByte(length, left);
  }

  /** One \u escape or surrogate pair at position at; the length is 0 when it is refused. */
  method Utf16LiteralToUtf8(content: string, at: nat, end: nat, output: array<char>, o: nat)
    returns (sequence: nat, next: nat)
    requires at <= end <= |content|
    requires var u := Utf16Literal(content[at..end]); u.Some? ==> o + |u.value.0| <= output.Length
    modifies output
    ensures var u := Utf16Literal(content[at..end]);
            if u.None? then sequence == 0
            else sequence == u.value.1 && next == o + |u.value.0| <= output.Length && output[o..next] == u.value.0
    ensures o <= output.Length ==> output[..o] == old(output[..o])
  {
    sequence, next := 0, o;
    if end - at < 6 {
      return;
    }
    ghost var b := content[at..end];
    var first := ParseHex4(content, at + 2);
    assert first == Hex4(b[2], b[3], b[4], b[5]);
    var codepoint := first;
    var taken := 6;
    if 0xDC00 <= first <= 0xDFFF {
      return;
    }
    if 0xD800 <= first <= 0xDBFF {
      if end - at < 12 || content[at + 6] != '\\' || content[at + 7] != 'u' {
        return;
      }
      var second := ParseHex4(content, at + 8);
      assert second == Hex4(b[8], b[9], b[10], b[11]);
      if second < 0xDC00 || second > 0xDFFF {
        return;
      }
      codepoint, taken := SurrogatePair(first, second), 12;
    }
    assert Utf16Literal(b) == Some((Utf8(codepoint), taken));
    hide Utf8, Hex4, Utf16Literal;
    var length := EncodeUtf8(codepoint, output, o);
    sequence, next := taken, o + length;
  }

  /** The first character or escape of a literal's body, decoded to the output. */
  method DecodeOne(content: string, at: nat, end: nat, output: array<char>, o: nat)
    returns (sequence: nat, next: nat)
    requires at < end < |content| && content[end] == '\"' && o <= output.Length
    requires var step := DecodeStep(content[at..end]); step.Some? ==> o + |step.value.0| <= output.Length
    modifies output
    ensures var step := DecodeStep(content[at..end]);
            if step.None? then sequence == 0
            else sequence == step.value.1 && next == o + |step.value.0| <= output.Length &&
                 output[o..next] == step.value.0
    ensures output[..o] == old(output[..o])
  {
    ghost var b := content[at..end];
    assert b[0] == content[at] && (|b| > 1 ==> b[1] == content[at + 1]);
    sequence, next := 0, o;
    if content[at] != '\\' {
      output[o] := content[at];
      return 1, o + 1;
    }
    var letter := content[at + 1];
    if letter == 'u' {
      sequence, next := Utf16LiteralToUtf8(content, at, end, output, o);
    } else if Unletter(letter).Some? {
      output[o] := Unletter(letter).value;
      sequence, next := 2, o + 1;
    }
  }
}
