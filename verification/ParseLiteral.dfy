/** Scanning a string literal for its end and decoding it into a buffer of the estimated size. */
module ParseLiteral {
  import opened CText
  import opened JsonStrings
  import opened ParseStrings
  import opened Words

  /** How many pairs are skipped in front of the closing quote of s, 0 when there is none. */
  ghost function SkipsBefore(s: string): (n: nat) {
    if ScanBody(s).None? then 0 else Skips(s[..ScanBody(s).value])
  }

  lemma SkipsNext(s: string)
    requires s != "" && s[0] != '\"' && ScanBody(s).Some?
    ensures s[0] != '\\' ==> SkipsBefore(s) == SkipsBefore(s[1..])
    ensures s[0] == '\\' ==> |s| > 1 && SkipsBefore(s) == 1 + SkipsBefore(s[2..])
  {
    var e := ScanBody(s).value;
    hide ScanBody;
    if s[0] != '\\' {
      assert s[..e][1..] == s[1..][..e - 1];
    } else {
      assert s[..e][2..] == s[2..][..e - 2];
    }
  }

  /** How far the scan from p has come at q, with skipped pairs behind it. */
  ghost predicate ScannedTo(content: string, p: nat, q: nat, skipped: nat)
    requires p <= q <= |content|
  {
    && Shift(p, ScanBody(content[p..])) == Shift(q, ScanBody(content[q..]))
    && (ScanBody(content[p..]).Some? ==> SkipsBefore(content[p..]) == skipped + SkipsBefore(content[q..]))
  }

  lemma ScanStep(content: string, p: nat, q: nat, skipped: nat)
    requires p <= q < |content| && content[q] != '\"' && ScannedTo(content, p, q, skipped)
    ensures content[q] != '\\' ==> ScannedTo(content, p, q + 1, skipped)
    ensures content[q] == '\\' && q + 1 < |content| ==> ScannedTo(content, p, q + 2, skipped + 1)
    ensures content[q] == '\\' && q + 1 == |content| ==> ScanBody(content[p..]).None?
  {
    var s := content[q..];
    if ScanBody(s).Some? {
      SkipsNext(s);
    }
    assert s[1..] == content[q + 1..] && (|s| > 1 ==> s[2..] == content[q + 2..]);
    hide ScanBody, SkipsBefore;
  }

  lemma ScanEnd(content: string, p: nat, q: nat, skipped: nat)
    requires p <= q <= |content| && ScannedTo(content, p, q, skipped) && (q == |content| || content[q] == '\"')
    ensures q == |content| ==> ScanBody(content[p..]).None?
    ensures q < |content| ==>
              Shift(p, ScanBody(content[p..])) == Some(q) && skipped == Skips(content[p..q])
  {
    if q < |content| {
      assert ScanBody(content[q..]) == Some(0);
      assert content[p..][..q - p] == content[p..q];
      hide ScanBody, Skips;
    }
  }

  /** Finds the closing quote from position p on and counts the escape pairs in front of it. */
  method ScanLiteral(content: string, p: nat) returns (end: Option<nat>, skipped: nat)
    requires p <= |content|
    ensures end == Shift(p, ScanBody(content[p..]))
    ensures end.Some? ==> p <= end.value < |content| && content[end.value] == '\"'
    ensures end.Some? ==> skipped == Skips(content[p..end.value])
  {
    hide ScannedTo, ScanBody, Skips;
    ScanStart(content, p);
    var q := p;
    skipped := 0;
    while q < |content| && content[q] != '\"'
      invariant p <= q <= |content| && ScannedTo(content, p, q, skipped)
      decreases |content| - q
    {
      ScanStep(content, p, q, skipped);
      if content[q] == '\\' {
        if q + 1 >= |content| {
          return None, 0;
        }
        skipped := skipped + 1;
        q := q + 1;
      }
      q := q + 1;
    }
    ScanEnd(content, p, q, skipped);
    if q >= |content| || content[q] != '\"' {
      return None, 0;
    }
    end := Some(q);
  }

  lemma ScanStart(content: string, p: nat)
    requires p <= |content|
    ensures ScannedTo(content, p, p, 0)
  {
  }

  ghost function From(content: string, i: nat, end: nat): (r: string)
    requires end <= |content|
  {
    if i <= end then content[i..end] else ""
  }

  /** What the body stands for is what has been written so far, followed by what the rest stands for. */
  ghost predicate Decoded(body: string, written: string, rest: string) {
    DecodeBody(body) == Append(written, DecodeBody(rest))
  }

  /** From position i on the rest of the body still fits behind what has been written. */
  ghost predicate Progress(content: string, i: nat, end: nat, body: string, written: string)
    requires end <= |content|
  {
    var rest := From(content, i, end);
    Decoded(body, written, rest) && |written| + Room(rest) <= Room(body)
  }

  lemma ProgressStart(content: string, p: nat, end: nat)
    requires p <= end <= |content|
    ensures Progress(content, p, end, content[p..end], "")
  {
    var body := content[p..end];
    if DecodeBody(body).Some? {
      assert "" + DecodeBody(body).value == DecodeBody(body).value;
    }
  }

  lemma ProgressEnd(content: string, i: nat, end: nat, body: string, written: string)
    requires end <= i && end <= |content| && Progress(content, i, end, body, written)
    ensures DecodeBody(body) == Some(written)
  {
    assert written + "" == written;
  }

  lemma AppendAssociative(a: string, b: string, tail: Option<string>)
    ensures Append(a + b, tail) == Append(a, Append(b, tail))
  {
    if tail.Some? {
      assert a + b + tail.value == a + (b + tail.value);
    }
  }

  lemma ProgressStep(content: string, i: nat, end: nat, body: string, written: string)
    requires i < end <= |content| && Progress(content, i, end, body, written)
    ensures var step := DecodeStep(content[i..end]);
            if step.None? then DecodeBody(body).None?
            else
              Progress(content, i + step.value.1, end, body, written + step.value.0) &&
              |written| + |step.value.0| <= Room(body)
  {
    var b := content[i..end];
    var step := DecodeStep(b);
    if step.Some? {
      var (piece, n) := step.value;
      StepFits(b);
      assert Rest(b, n) == From(content, i + n, end);
      AppendAssociative(written, piece, DecodeBody(Rest(b, n)));
    }
    hide DecodeStep, Room;
  }

  /** Decodes one more character or escape behind what has been written. */
  method DecodeMore(content: string, i: nat, end: nat, output: array<char>, o: nat, ghost body: string)
    returns (sequence: nat, next: nat)
    requires i < end < |content| && content[end] == '\"' && output.Length == Room(body) + 2
    requires o <= Room(body) && Progress(content, i, end, body, output[..o])
    modifies output
    ensures sequence == 0 ==> DecodeBody(body).None?
    ensures sequence > 0 ==> next <= Room(body) && Progress(content, i + sequence, end, body, output[..next])
  {
    ghost var before := output[..o];
    ProgressStep(content, i, end, body, before);
    hide *;
    sequence, next := DecodeOne(content, i, end, output, o);
    assert output[..o] == before;
    if sequence > 0 {
      ghost var piece := output[o..next];
      assert output[..next] == before + piece;
    }
  }

  /** Decodes a whole body into a buffer of the estimated size; no write, and not the NUL either, is out of bounds. */
  method DecodeAll(content: string, p: nat, end: nat, output: array<char>, ghost body: string)
    returns (r: Option<string>)
    requires p <= end < |content| && content[end] == '\"' && output.Length == Room(body) + 2
    requires Progress(content, p, end, body, "")
    modifies output
    ensures r == DecodeBody(body)
  {
    hide *;
    var i: nat, o: nat := p, 0;
    assert output[..0] == "";
    while i < end
      invariant o <= Room(body) && Progress(content, i, end, body, output[..o])
      decreases end - i
    {
      var sequence, next := DecodeMore(content, i, end, output, o, body);
      if sequence == 0 {
        return None;
      }
      i, o := i + sequence, next;
    }
    ProgressEnd(content, i, end, body, output[..o]);
    r := Some(output[..o]);
    output[o] := '\0';
  }

  /** Decodes the body between p and the closing quote. */
  method DecodeLiteral(content: string, p: nat, end: nat, skipped: nat) returns (r: Option<string>)
    requires p <= end < |content| && content[end] == '\"' && skipped == Skips(content[p..end])
    ensures r == DecodeBody(content[p..end])
  {
    var allocation := end - p + 1 - skipped;
    var output := new char[allocation + 1];
    ProgressStart(content, p, end);
    assert output.Length == Room(content[p..end]) + 2;
    hide *;
    r := DecodeAll(content, p, end, output, content[p..end]);
  }
}
