/** Which texts are string literals and what they stand for, independently of how they are scanned and decoded. */
module JsonLiterals {
  import opened JsonStrings
  import opened JsonTree
  import opened Words

  // ----- the closing quote -----

  /** How many backslashes stand right in front of position j. */
  ghost function Slashes(s: string, j: nat): (n: nat)
    requires j <= |s|
    ensures n <= j
  {
    if j == 0 || s[j - 1] != '\\' then 0 else 1 + Slashes(s, j - 1)
  }

  ghost predicate Escaped(s: string, j: nat)
    requires j <= |s|
  {
    Slashes(s, j) % 2 == 1
  }

  /** The first quote with an even number of backslashes in front of it stands at k. */
  ghost predicate ClosesAt(s: string, k: nat) {
    && k < |s| && s[k] == '\"' && !Escaped(s, k)
    && forall j :: 0 <= j < k && s[j] == '\"' ==> Escaped(s, j)
  }

  lemma {:induction false} SlashesBehind(s: string, i: nat, j: nat)
    requires i <= j <= |s|
    ensures var n := Slashes(s[i..], j - i);
      Slashes(s, j) == if n == j - i then n + Slashes(s, i) else n
  {
    if i < j {
      assert s[i..][j - i - 1] == s[j - 1];
      if s[j - 1] == '\\' {
        SlashesBehind(s, i, j - 1);
      }
    }
  }

  /** Behind a plain character, or behind a backslash and what it escapes, the same quotes are escaped. */
  lemma SameEscapes(s: string, i: nat)
    requires i <= |s| && Slashes(s, i) % 2 == 0
    ensures forall j :: i <= j <= |s| ==> (Escaped(s, j) <==> Escaped(s[i..], j - i))
  {
    forall j | i <= j <= |s|
      ensures Escaped(s, j) <==> Escaped(s[i..], j - i)
    {
      SlashesBehind(s, i, j);
    }
  }

  lemma ClosesBehind(s: string, i: nat, k: nat)
    requires i <= k && i <= |s| && Slashes(s, i) % 2 == 0
    requires forall j :: 0 <= j < i && s[j] == '\"' ==> Escaped(s, j)
    ensures ClosesAt(s, k) <==> ClosesAt(s[i..], k - i)
  {
    SameEscapes(s, i);
    hide Escaped;
    if ClosesAt(s, k) {
      forall j | 0 <= j < k - i && s[i..][j] == '\"'
        ensures Escaped(s[i..], j)
      {
        assert s[i + j] == '\"' && Escaped(s, i + j) && i + j - i == j;
      }
    }
    if ClosesAt(s[i..], k - i) {
      forall j | i <= j < k && s[j] == '\"'
        ensures Escaped(s, j)
      {
        assert s[i..][j - i] == '\"';
      }
    }
  }

  /** The scan stops at the first unescaped quote, and fails when there is none. */
  lemma {:induction false} ScanIff(s: string, k: nat)
    ensures ScanBody(s) == Some(k) <==> ClosesAt(s, k)
    decreases |s|
  {
    if s == "" {
    } else if s[0] == '\"' {
      assert !Escaped(s, 0);
    } else {
      var i := if s[0] == '\\' then 2 else 1;
      assert Slashes(s, 0) == 0;
      if i <= |s| {
        assert Slashes(s, 1) == i - 1;
        assert i == 2 ==> Slashes(s, 2) == if s[1] == '\\' then 2 else 0;
        if k >= i {
          ScanIff(s[i..], k - i);
          ClosesBehind(s, i, k);
        }
      }
    }
  }

  // ----- the body -----

  /** The first piece of the body b, a character or an escape of n characters, stands for u. */
  ghost predicate Piece(b: string, u: string, n: nat)
    requires b != ""
  {
    if b[0] != '\\' then u == [b[0]] && n == 1
    else if |b| == 1 then u == "\"" && n == 2
    else if b[1] != 'u' then n == 2 && |u| == 1 && StandsFor(b[1], u[0])
    else
      || (n == 6 && |b| >= 6 && (forall m :: !Quad(b, 0, m)) && u == ['\0'])
      || (n == 6 && exists cp :: Quad(b, 0, cp) && !(0xD800 <= cp <= 0xDFFF) && Encodes(u, cp))
      || (n == 12 && exists cp :: PairAt(b, cp) && Encodes(u, cp))
  }

  /** The escaped surrogate pair of the code point cp. */
  ghost predicate PairAt(b: string, cp: nat) {
    0x10000 <= cp < 0x110000
    && Quad(b, 0, 0xD800 + (cp - 0x10000) / 1024) && Quad(b, 6, 0xDC00 + (cp - 0x10000) % 1024)
  }

  /** What a character or escape is decoded to, and when it is refused. */
  lemma StepIff(b: string, u: string, n: nat)
    requires b != ""
    ensures DecodeStep(b) == Some((u, n)) <==> Piece(b, u, n)
  {
    if |b| >= 2 && b[0] == '\\' && b[1] == 'u' {
      UnitIff(b, u, n);
    } else {
      LetterDecodes(b);
      hide StandsFor;
      if |u| == 1 {
        assert u == [u[0]];
      }
    }
  }

  lemma UnitIff(b: string, u: string, n: nat)
    requires |b| >= 2 && b[0] == '\\' && b[1] == 'u'
    ensures DecodeStep(b) == Some((u, n)) <==> Piece(b, u, n)
  {
    hide Quad, Encodes, Hex4, PairAt, Utf8, SurrogatePair;
    if Piece(b, u, n) {
      PieceDecodes(b, u, n);
    }
    if DecodeStep(b) == Some((u, n)) {
      StepIsPiece(b, u, n);
    }
  }

  lemma PieceDecodes(b: string, u: string, n: nat)
    requires |b| >= 2 && b[0] == '\\' && b[1] == 'u' && Piece(b, u, n)
    ensures DecodeStep(b) == Some((u, n))
  {
    hide Quad, Encodes, Hex4, DecodeStep;
    if n == 6 && |b| >= 6 && (forall m :: !Quad(b, 0, m)) && u == ['\0'] {
      NoQuad(b, 0);
    } else if cp :| n == 6 && Quad(b, 0, cp) && !(0xD800 <= cp <= 0xDFFF) && Encodes(u, cp) {
      UnitDecodes(b, cp);
      OneEncoding(u, DecodeStep(b).value.0, cp);
    } else if cp :| n == 12 && PairAt(b, cp) && Encodes(u, cp) {
      PairDecodes(b, cp);
      OneEncoding(u, DecodeStep(b).value.0, cp);
    }
  }

  lemma NoQuad(b: string, i: nat)
    requires i + 6 <= |b| && b[i] == '\\' && b[i + 1] == 'u' && forall m :: !Quad(b, i, m)
    ensures Hex4(b[i + 2], b[i + 3], b[i + 4], b[i + 5]) == 0
    ensures i == 0 ==> DecodeStep(b) == Some((['\0'], 6))
  {
    hide Hex4, Quad;
    var h := Hex4(b[i + 2], b[i + 3], b[i + 4], b[i + 5]);
    if h != 0 {
      QuadOf(b, i, h);
    }
    assert Utf8(0) == ['\0'];
  }

  lemma StepIsPiece(b: string, u: string, n: nat)
    requires |b| >= 2 && b[0] == '\\' && b[1] == 'u' && DecodeStep(b) == Some((u, n))
    ensures Piece(b, u, n)
  {
    hide Quad, Encodes, Hex4, PairAt, Utf8, SurrogatePair;
    var first := Hex4(b[2], b[3], b[4], b[5]);
    if m :| Quad(b, 0, m) {
      QuadValue(b, 0, m);
      if 0xD800 <= first <= 0xDFFF {
        var second := Hex4(b[8], b[9], b[10], b[11]);
        QuadOf(b, 6, second);
        PairIsAt(b, first, second);
        EncodesItself(SurrogatePair(first, second));
      } else {
        EncodesItself(first);
      }
    } else {
      NoQuad(b, 0);
    }
  }

  lemma QuadOf(b: string, i: nat, h: nat)
    requires i + 6 <= |b| && b[i] == '\\' && b[i + 1] == 'u'
    requires h == Hex4(b[i + 2], b[i + 3], b[i + 4], b[i + 5]) != 0
    ensures Quad(b, i, h)
  {
    HexDigits(b[i + 2], b[i + 3], b[i + 4], b[i + 5]);
    hide Hex4, DigitOf;
  }

  lemma PairIsAt(b: string, first: nat, second: nat)
    requires Quad(b, 0, first) && Quad(b, 6, second)
    requires 0xD800 <= first <= 0xDBFF && 0xDC00 <= second <= 0xDFFF
    ensures PairAt(b, SurrogatePair(first, second))
  {
    hide Quad;
    var high, low := first - 0xD800, second - 0xDC00;
    assert first % 1024 == high && second % 1024 == low;
    DivUnique(high * 1024 + low, 1024, high, low);
  }

  // ----- whole literals -----

  ghost function Concat(us: seq<string>): (t: string) {
    if us == [] then "" else us[0] + Concat(us[1..])
  }

  /** The body b is a row of pieces that stand for us; only a lone backslash at the end takes more than there is. */
  ghost predicate Pieces(b: string, us: seq<string>)
    decreases |us|
  {
    if us == [] then b == ""
    else b != "" && exists n :: Piece(b, us[0], n) && Pieces(Rest(b, n), us[1..])
  }

  /** t is the C string at the start of s. */
  ghost predicate CString(s: string, t: string) {
    t <= s && '\0' !in t && (|t| < |s| ==> s[|t|] == '\0')
  }

  /** The text s starts with a literal for the string t, and rest stands behind it. */
  ghost predicate LiteralAt(s: string, t: string, rest: string) {
    exists u, k, us :: s == "\"" + u && ClosesAt(u, k) && BodyStands(u, k, us, t, rest)
  }

  ghost predicate BodyStands(u: string, k: nat, us: seq<string>, t: string, rest: string) {
    k < |u| && rest == u[k + 1..] && Pieces(u[..k], us) && CString(Concat(us), t)
  }

  lemma {:induction false} CutIsCString(s: string, t: string)
    ensures CString(s, t) <==> CutAtNul(s) == t
  {
    if s != "" && s[0] != '\0' {
      if t != "" {
        CutIsCString(s[1..], t[1..]);
        assert CString(s, t) ==> CString(s[1..], t[1..]);
        assert t == [t[0]] + t[1..];
      }
    }
  }

  lemma {:induction false} BodyIsPieces(b: string) returns (us: seq<string>)
    requires DecodeBody(b).Some?
    ensures Pieces(b, us) && Concat(us) == DecodeBody(b).value
    decreases |b|
  {
    hide Piece, DecodeStep;
    if b == "" {
      us := [];
    } else {
      var (u, n) := DecodeStep(b).value;
      StepIff(b, u, n);
      var more := BodyIsPieces(Rest(b, n));
      us := [u] + more;
      assert us[1..] == more;
    }
  }

  lemma {:induction false} PiecesDecode(b: string, us: seq<string>)
    requires Pieces(b, us)
    ensures DecodeBody(b) == Some(Concat(us))
    decreases |us|
  {
    hide Piece, DecodeStep;
    if us != [] {
      var n :| Piece(b, us[0], n) && Pieces(Rest(b, n), us[1..]);
      StepIff(b, us[0], n);
      PiecesDecode(Rest(b, n), us[1..]);
    }
  }

  /** The parser reads exactly the literals, and each as the string it stands for. */
  lemma LiteralIff(s: string, t: string, rest: string)
    ensures ParseString(s) == Some((t, rest)) <==> LiteralAt(s, t, rest)
  {
    hide ScanBody, DecodeBody, CutAtNul, ClosesAt, Pieces, CString;
    if ParseString(s) == Some((t, rest)) {
      var u := s[1..];
      var k := ScanBody(u).value;
      assert s == "\"" + u && s[1..1 + k] == u[..k] && s[k + 2..] == u[k + 1..];
      ScanIff(u, k);
      var us := BodyIsPieces(u[..k]);
      CutIsCString(Concat(us), t);
      assert BodyStands(u, k, us, t, rest);
    }
    if u, k, us :| s == "\"" + u && ClosesAt(u, k) && BodyStands(u, k, us, t, rest) {
      assert s[1..] == u && s[1..1 + k] == u[..k] && s[k + 2..] == u[k + 1..];
      ScanIff(u, k);
      PiecesDecode(u[..k], us);
      CutIsCString(Concat(us), t);
    }
  }
}
