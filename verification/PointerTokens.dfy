/** Reference tokens of a JSON Pointer: escaping, unescaping, comparing and array indices (RFC 6901, sections 3 and 4). */
module PointerTokens {
  import opened CText
  import opened Words

  // ----- tokens and escapes -----

  /** What stands in front of the first slash. */
  function Token(s: string): (t: string)
    ensures |t| <= |s| && s[..|t|] == t && '/' !in t
    ensures |t| < |s| ==> s[|t|] == '/'
  {
    if s == "" || s[0] == '/' then "" else [s[0]] + Token(s[1..])
  }

  /** A name with ~ written as ~0 and / as ~1. */
  function Escape(s: string): (e: string) {
    if s == "" then "" else EscapeChar(s[0]) + Escape(s[1..])
  }

  function EscapeChar(c: char): (e: string)
    ensures 1 <= |e| <= 2
  {
    if c == '/' then "~1" else if c == '~' then "~0" else [c]
  }

  /** The name a token stands for; a ~ without a 0 or 1 behind it makes the token invalid. */
  function Unescape(t: string): (s: Option<string>)
    ensures s.Some? && t != "" ==> s.value != ""
  {
    if t == "" then Some("")
    else if t[0] != '~' then Prepend(t[0], Unescape(t[1..]))
    else if |t| > 1 && t[1] == '0' then Prepend('~', Unescape(t[2..]))
    else if |t| > 1 && t[1] == '1' then Prepend('/', Unescape(t[2..]))
    else None
  }

  function Prepend(c: char, s: Option<string>): (r: Option<string>) {
    if s.None? then None else Some([c] + s.value)
  }

  /** Escaping can be undone, so it maps different names to different tokens. */
  lemma {:induction false} EscapeRoundTrip(s: string)
    ensures Unescape(Escape(s)) == Some(s)
  {
    if s != "" {
      EscapeRoundTrip(s[1..]);
      var e := Escape(s);
      assert e[|EscapeChar(s[0])|..] == Escape(s[1..]);
      assert s == [s[0]] + s[1..];
    }
  }

  lemma EscapeInjective(s: string, t: string)
    requires Escape(s) == Escape(t)
    ensures s == t
  {
    EscapeRoundTrip(s);
    EscapeRoundTrip(t);
  }

  lemma {:induction false} EscapeSlashFree(s: string)
    ensures '/' !in Escape(s)
    ensures Text(s) ==> Text(Escape(s))
  {
    if s != "" {
      EscapeSlashFree(s[1..]);
    }
  }

  /** A name is escaped character by character: ~ as ~0, / as ~1, everything else as itself. */
  lemma {:induction false} EscapeOf(s: string, t: string, c: char)
    ensures Escape(s + t) == Escape(s) + Escape(t)
    ensures Escape([c]) == if c == '~' then "~0" else if c == '/' then "~1" else [c]
  {
    assert [c][1..] == "";
    if s == "" {
      assert s + t == t;
    } else {
      EscapeOf(s[1..], t, c);
      assert (s + t)[1..] == s[1..] + t;
    }
  }

  /** A token stands for a name if and only if it is the name escaped; any other one is invalid. */
  lemma {:induction false} UnescapeIff(t: string, s: string)
    requires '/' !in t
    ensures Unescape(t) == Some(s) <==> t == Escape(s)
    decreases |t|
  {
    EscapeRoundTrip(s);
    if Unescape(t) == Some(s) && t != "" {
      var n := if t[0] == '~' then 2 else 1;
      assert s == [s[0]] + s[1..];
      UnescapeIff(t[n..], s[1..]);
      assert t == t[..n] + t[n..];
    }
  }

  /** A token that is followed by nothing or by the next token is read back whole. */
  lemma {:induction false} TokenOfConcat(t: string, rest: string)
    requires '/' !in t && (rest == "" || rest[0] == '/')
    ensures Token(t + rest) == t
  {
    if t == "" {
      assert t + rest == rest;
    } else {
      TokenOfConcat(t[1..], rest);
      assert (t + rest)[1..] == t[1..] + rest;
    }
  }

  // ----- encoding into a buffer -----

  lemma {:induction false} EscapeSnoc(s: string, i: nat)
    requires i < |s|
    ensures Escape(s[..i + 1]) == Escape(s[..i]) + EscapeChar(s[i])
    decreases |s|
  {
    if i == 0 {
      assert s[..1] == [s[0]] && s[..1][1..] == "";
    } else {
      EscapeSnoc(s[1..], i - 1);
      assert s[..i + 1][1..] == s[1..][..i] && s[..i][1..] == s[1..][..i - 1];
    }
  }

  method PointerEncodedLength(s: string) returns (length: nat)
    ensures length == |Escape(s)|
  {
    length := 0;
    var i := 0;
    while i < |s|
      invariant i <= |s| && length == |Escape(s[..i])|
    {
      EscapeSnoc(s, i);
      if s[i] == '~' || s[i] == '/' {
        length := length + 1;
      }
      i, length := i + 1, length + 1;
    }
    assert s[..i] == s;
  }

  /** Writes one source character, escaped if need be. */
  method EncodeChar(destination: array<char>, d: nat, c: char) returns (next: nat)
    requires d + |EscapeChar(c)| <= destination.Length
    modifies destination
    ensures next == d + |EscapeChar(c)|
    ensures destination[d..next] == EscapeChar(c)
    ensures destination[..d] == old(destination[..d]) && destination[next..] == old(destination[next..])
  {
    next := d;
    if c == '/' {
      destination[next], destination[next + 1] := '~', '1';
      next := next + 1;
    } else if c == '~' {
      destination[next], destination[next + 1] := '~', '0';
      next := next + 1;
    } else {
      destination[next] := c;
    }
    next := next + 1;
  }

  lemma JoinSlices(first: string, before: string, after: string, at: nat, d: nat, next: nat)
    requires at <= d <= next <= |first| == |before| == |after|
    requires before[..d] == after[..d] && before[next..] == after[next..] && before[d..] == first[d..]
    ensures before[..at] == after[..at] && after[at..next] == before[at..d] + after[d..next]
    ensures after[next..] == first[next..]
  {
    assert before[next..] == before[d..][next - d..] && first[next..] == first[d..][next - d..];
    assert after[at..d] == after[..d][at..] == before[..d][at..] == before[at..d];
    assert before[..at] == before[..d][..at] && after[..at] == after[..d][..at];
  }

  /** Writes the escaped source and its NUL at the offset at, and nothing else. */
  method EncodeStringAsPointer(destination: array<char>, at: nat, source: string)
    requires at + |Escape(source)| < destination.Length
    modifies destination
    ensures destination[at..at + |Escape(source)|] == Escape(source)
    ensures destination[at + |Escape(source)|] == '\0'
    ensures destination[..at] == old(destination[..at])
    ensures destination[at + |Escape(source)| + 1..] == old(destination[at + |Escape(source)| + 1..])
  {
    hide Escape, EscapeChar;
    var i, d := 0, at;
    assert Escape(source[..0]) == "" by {
      EscapeEmpty(source[..0]);
    }
    EscapePrefix(source, 0);
    while i < |source|
      invariant i <= |source| && d == at + |Escape(source[..i])| <= at + |Escape(source)|
      invariant destination[at..d] == Escape(source[..i])
      invariant destination[..at] == old(destination[..at])
      invariant destination[d..] == old(destination[d..])
    {
      EscapeSnoc(source, i);
      EscapePrefix(source, i + 1);
      ghost var before := destination[..];
      var next := EncodeChar(destination, d, source[i]);
      JoinSlices(old(destination[..]), before, destination[..], at, d, next);
      i, d := i + 1, next;
    }
    assert source[..i] == source;
    ghost var done := destination[..];
    destination[d] := '\0';
    assert destination[at..d] == done[at..d];
    assert destination[d + 1..] == old(destination[d..])[1..];
  }

  lemma EscapeEmpty(s: string)
    requires s == ""
    ensures Escape(s) == ""
  {
  }

  lemma {:induction false} EscapePrefix(s: string, i: nat)
    requires i <= |s|
    ensures |Escape(s[..i])| <= |Escape(s)|
    decreases |s| - i
  {
    if i == |s| {
      assert s[..i] == s;
    } else {
      EscapeSnoc(s, i);
      EscapePrefix(s, i + 1);
    }
  }

  // ----- comparing a name with a token -----

  /** The C library's tolower in the C locale. */
  function Lower(c: char): (l: char)
    ensures l == c || ('A' <= c <= 'Z' && 'a' <= l <= 'z')
  {
    if 'A' <= c <= 'Z' then (c as int + 32) as char else c
  }

  predicate Same(a: char, b: char, caseSensitive: bool) {
    if caseSensitive then a == b else Lower(a) == Lower(b)
  }

  predicate Alike(s: string, t: string, caseSensitive: bool) {
    |s| == |t| && forall i :: 0 <= i < |s| ==> Same(s[i], t[i], caseSensitive)
  }

  /** The token is valid and stands for the name. */
  predicate Matches(token: string, name: string, caseSensitive: bool) {
    Unescape(token).Some? && Alike(Unescape(token).value, name, caseSensitive)
  }

  /** Equal, or, when case is ignored, the upper and the lower case of one letter. */
  ghost predicate SameLetter(a: char, b: char) {
    a == b || ('A' <= a <= 'Z' && b as int == a as int + 32) || ('A' <= b <= 'Z' && a as int == b as int + 32)
  }

  lemma AlikeIff(s: string, t: string)
    ensures Alike(s, t, true) <==> s == t
    ensures Alike(s, t, false) <==> |s| == |t| && forall i :: 0 <= i < |s| ==> SameLetter(s[i], t[i])
  {
    forall a, b
      ensures Same(a, b, false) <==> SameLetter(a, b)
    {
    }
    hide SameLetter, Lower;
    assert Alike(s, t, true) ==> forall i :: 0 <= i < |s| ==> Same(s[i], t[i], true) && s[i] == t[i];
  }

  lemma AlikeStep(c: char, s: string, name: string, caseSensitive: bool)
    ensures Alike([c] + s, name, caseSensitive) <==>
            name != "" && Same(c, name[0], caseSensitive) && Alike(s, name[1..], caseSensitive)
  {
    if name != "" && Alike([c] + s, name, caseSensitive) {
      assert Same(([c] + s)[0], name[0], caseSensitive);
      forall i | 0 <= i < |s|
        ensures Same(s[i], name[1..][i], caseSensitive)
      {
        assert Same(([c] + s)[i + 1], name[i + 1], caseSensitive);
      }
    }
  }

  /** The token is an alike name escaped. */
  ghost predicate Denotes(token: string, name: string, caseSensitive: bool) {
    exists n :: Escape(n) == token && Alike(n, name, caseSensitive)
  }

  lemma MatchesIff(token: string, name: string, caseSensitive: bool)
    requires '/' !in token
    ensures Matches(token, name, caseSensitive) <==> Denotes(token, name, caseSensitive)
  {
    hide Alike, Unescape, Escape;
    forall n
      ensures Unescape(token) == Some(n) <==> token == Escape(n)
    {
      UnescapeIff(token, n);
    }
  }

  /** One step of the comparison, on whole tokens. */
  lemma MatchesStep(t: string, name: string, caseSensitive: bool)
    requires t != ""
    ensures t[0] != '~' ==>
              (Matches(t, name, caseSensitive) <==>
               name != "" && Same(t[0], name[0], caseSensitive) && Matches(t[1..], name[1..], caseSensitive))
    ensures t[0] == '~' ==>
              (Matches(t, name, caseSensitive) <==>
               name != "" && |t| > 1 && ((t[1] == '0' && name[0] == '~') || (t[1] == '1' && name[0] == '/')) &&
               Matches(t[2..], name[1..], caseSensitive))
  {
    if t[0] != '~' && Unescape(t[1..]).Some? {
      AlikeStep(t[0], Unescape(t[1..]).value, name, caseSensitive);
    } else if |t| > 1 && Unescape(t[2..]).Some? {
      AlikeStep(if t[1] == '0' then '~' else '/', Unescape(t[2..]).value, name, caseSensitive);
    }
  }

  /** The rest of the name, from i, is what the rest of the token, from position q of the pointer, stands for. */
  ghost predicate MatchesFrom(pointer: string, q: nat, n: string, i: nat, caseSensitive: bool)
    requires q <= |pointer| && i <= |n|
  {
    Matches(Token(pointer[q..]), n[i..], caseSensitive)
  }

  /** One step of the comparison loop, at position q of the pointer and i of the name. */
  lemma CompareStep(pointer: string, q: nat, n: string, i: nat, caseSensitive: bool)
    requires q < |pointer| && pointer[q] != '/' && i < |n|
    ensures var here := MatchesFrom(pointer, q, n, i, caseSensitive);
            var next := CharAt(pointer, q + 1);
            if pointer[q] == '~' then
              if (next == '0' && n[i] == '~') || (next == '1' && n[i] == '/') then
                q + 2 <= |pointer| && here == MatchesFrom(pointer, q + 2, n, i + 1, caseSensitive)
              else !here
            else
              here == (Same(n[i], pointer[q], caseSensitive) &&
                       MatchesFrom(pointer, q + 1, n, i + 1, caseSensitive))
  {
    var t := Token(pointer[q..]);
    MatchesStep(t, n[i..], caseSensitive);
    assert n[i..][1..] == n[i + 1..];
    TokenStep(pointer, q);
    assert t[1..] == Token(pointer[q + 1..]);
    if q + 1 < |pointer| && pointer[q + 1] != '/' {
      TokenStep(pointer, q + 1);
      assert t[2..] == Token(pointer[q + 2..]) && t[1] == pointer[q + 1];
    } else {
      assert Token(pointer[q + 1..]) == "";
    }
    hide Matches, Same, Unescape, Token;
  }

  lemma TokenStep(s: string, q: nat)
    requires q < |s| && s[q] != '/'
    ensures Token(s[q..]) == [s[q]] + Token(s[q + 1..])
  {
    assert s[q..][1..] == s[q + 1..];
  }

  /** Compares the name with the token at position p of the pointer; a missing name matches nothing. */
  method ComparePointers(name: Option<string>, pointer: string, p: nat, caseSensitive: bool) returns (same: bool)
    requires p <= |pointer| && Text(pointer) && (name.Some? ==> Text(name.value))
    ensures same == (name.Some? && Matches(Token(pointer[p..]), name.value, caseSensitive))
  {
    if name.None? {
      return false;
    }
    hide Matches, Same, MatchesFrom;
    var n := name.value;
    var i, q := 0, p;
    while i < |n| && q < |pointer| && pointer[q] != '/'
      invariant i <= |n| && q <= |pointer|
      invariant Matches(Token(pointer[p..]), n, caseSensitive) == MatchesFrom(pointer, q, n, i, caseSensitive)
      decreases |pointer| - q
    {
      CompareStep(pointer, q, n, i, caseSensitive);
      if pointer[q] == '~' {
        var next := CharAt(pointer, q + 1);
        if (next != '0' || n[i] != '~') && (next != '1' || n[i] != '/') {
          return false;
        }
        q := q + 1;
      } else if !Same(n[i], pointer[q], caseSensitive) {
        return false;
      }
      i, q := i + 1, q + 1;
    }
    same := (q < |pointer| && pointer[q] != '/') == (i < |n|);
  }

  // ----- array indices -----

  /** The index a token stands for: digits without a leading zero, cut to a 32-bit size_t. */
  ghost function IndexOf(t: string): (i: Option<nat>) {
    if AllDigits(t) && !(|t| > 1 && t[0] == '0') then Some(Value(t) % U32_MODULUS) else None
  }

  /** Every index below 2^32 is printed and read back. */
  lemma IndexRoundTrip(n: nat)
    requires n < U32_MODULUS
    ensures IndexOf(Decimal(n)) == Some(n) && '/' !in Decimal(n) && Text(Decimal(n))
  {
    DecimalRoundTrip(n);
    var s := Decimal(n);
    forall i | 0 <= i < |s|
      ensures s[i] != '/' && s[i] != '\0'
    {
      assert IsDigit(s[i]);
    }
  }

  /** An index token is exact if and only if its value fits; otherwise another element is addressed. */
  lemma IndexExactIff(t: string)
    requires IndexOf(t).Some?
    ensures IndexOf(t) == Some(Value(t)) <==> Value(t) < U32_MODULUS
  {
  }

  /** Exactly the tokens of digits without a leading zero are indices, and are taken modulo 2^32. */
  lemma IndexIff(t: string)
    ensures IndexOf(t).Some? <==> (forall i :: 0 <= i < |t| ==> t[i] in "0123456789") && (|t| > 1 ==> t[0] != '0')
    ensures IndexOf(t).Some? ==>
      IndexOf(t).value < 0x1_0000_0000 && exists q: nat :: Value(t) == q * 0x1_0000_0000 + IndexOf(t).value
  {
    forall c: char
      ensures IsDigit(c) <==> c in "0123456789"
    {
    }
    assert AllDigits(t) <==> forall i :: 0 <= i < |t| ==> t[i] in "0123456789";
    if IndexOf(t).Some? {
      assert Value(t) == (Value(t) / U32_MODULUS) * U32_MODULUS + IndexOf(t).value;
    }
  }

  /** Unlike RFC 6901, the empty token is accepted and means the first element. */
  lemma EmptyTokenIsZero()
    ensures IndexOf("") == Some(0)
  {
  }

  lemma WrapStep(v: nat, d: nat)
    ensures (10 * (v % U32_MODULUS) + d) % U32_MODULUS == (10 * v + d) % U32_MODULUS
  {
    var q, r := v / U32_MODULUS, v % U32_MODULUS;
    assert 10 * v + d == U32_MODULUS * (10 * q) + (10 * r + d);
    ModAddMultiple(10 * q, 10 * r + d, U32_MODULUS);
  }

  /** Reads the index token at position p. */
  method DecodeArrayIndex(pointer: string, p: nat) returns (index: Option<nat>)
    requires p <= |pointer| && Text(pointer)
    ensures index == IndexOf(Token(pointer[p..]))
  {
    ghost var t := Token(pointer[p..]);
    assert forall k :: 0 <= k < |t| ==> pointer[p + k] == pointer[p..][k] == t[k];
    var next := CharAt(pointer, p + 1);
    if CharAt(pointer, p) == '0' && next != '\0' && next != '/' {
      SecondOfToken(pointer, p);
      return None;
    }
    NoDigits(t);
    hide Value, Token, AllDigits;
    var parsed, position := 0, 0;
    while IsDigit(CharAt(pointer, p + position))
      invariant position <= |t| && AllDigits(t[..position]) && parsed == Value(t[..position]) % U32_MODULUS
      decreases |t| - position
    {
      assert position < |t|;
      var d := DigitValue(pointer[p + position]);
      IndexStep(t, position);
      parsed := (10 * parsed + d) % U32_MODULUS;
      position := position + 1;
    }
    if CharAt(pointer, p + position) != '\0' && CharAt(pointer, p + position) != '/' {
      return None;
    }
    assert t[..position] == t;
    index := Some(parsed);
  }

  lemma NoDigits(t: string)
    ensures AllDigits(t[..0]) && Value(t[..0]) == 0
    ensures AllDigits(t) <==> forall i :: 0 <= i < |t| ==> IsDigit(t[i])
  {
  }

  lemma IndexStep(t: string, n: nat)
    requires n < |t| && AllDigits(t[..n]) && IsDigit(t[n])
    ensures AllDigits(t[..n + 1])
    ensures Value(t[..n + 1]) % U32_MODULUS == (10 * (Value(t[..n]) % U32_MODULUS) + DigitValue(t[n])) % U32_MODULUS
  {
    assert t[..n + 1][..n] == t[..n];
    WrapStep(Value(t[..n]), DigitValue(t[n]));
  }

  lemma SecondOfToken(s: string, p: nat)
    requires p + 1 < |s| && s[p] != '/' && s[p + 1] != '/'
    ensures var t := Token(s[p..]); |t| > 1 && t[0] == s[p]
  {
  }
}
