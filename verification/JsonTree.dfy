/** JSON values as cJSON keeps them, the text it prints for them, and the values it reads from a text. */
module JsonTree {
  import opened CText
  import opened JsonStrings
  import opened Words

  datatype Json =
    | Null
    | False
    | True
    | Number(d: real)
    | String(s: string)
    | Array(items: seq<Json>)
    | Object(members: seq<Member>)

  datatype Member = Member(key: string, value: Json)

  /** strtod: the number at the start of a text and how many characters it takes, 0 for none. */
  type Reader = string -> (real, nat)

  /** printf of a number that is not a 32-bit integer, with 15 or 17 digits. */
  type Writer = real -> string

  const INT_MAX: int := 0x7FFF_FFFF
  const INT_MIN: int := -0x8000_0000
  /** CJSON_NESTING_LIMIT. */
  const NESTING_LIMIT: nat := 1000

  // ----- numbers -----

  /** valueint: the number cut to an integer, saturated at the ends of the int range. */
  function ValueInt(d: real): (i: int)
    ensures INT_MIN <= i <= INT_MAX
  {
    if d >= INT_MAX as real then INT_MAX
    else if d <= INT_MIN as real then INT_MIN
    else if d >= 0.0 then d.Floor
    else -((-d).Floor)
  }

  function IntText(i: int): (t: string) {
    if i < 0 then "-" + Decimal(-i) else Decimal(i)
  }

  function NumberText(d: real, writer: Writer): (t: string) {
    if d == ValueInt(d) as real then IntText(ValueInt(d)) else writer(d)
  }

  predicate IsNumberChar(c: char) {
    IsDigit(c) || c == '+' || c == '-' || c == 'e' || c == 'E' || c == '.'
  }

  /** The run of number characters a text starts with. */
  function NumberRun(s: string): (run: string)
    ensures |run| <= |s| && s[..|run|] == run
  {
    if s == "" || !IsNumberChar(s[0]) then "" else [s[0]] + NumberRun(s[1..])
  }

  // ----- printing -----

  function Tabs(n: nat): (t: string)
    ensures |t| == n
  {
    if n == 0 then "" else "\t" + Tabs(n - 1)
  }

  /** Layout: with line breaks and tabs, or compact. */
  function Spaced(format: bool, space: string): (t: string) {
    if format then space else ""
  }

  function Comma(more: bool): (t: string) {
    if more then "," else ""
  }

  function Width(v: Json): (n: nat) {
    match v
    case Array(items) => |items|
    case Object(members) => |members|
    case _ => 0
  }

  /** The text of a value inside depth arrays and objects. */
  function PrintValue(v: Json, format: bool, depth: nat, writer: Writer): (t: string)
    decreases v, Width(v) + 1
  {
    match v
    case Null => "null"
    case False => "false"
    case True => "true"
    case Number(d) => NumberText(d, writer)
    case String(s) => PrintString(s)
    case Array(items) => "[" + PrintItems(v, 0, format, depth + 1, writer) + "]"
    case Object(members) =>
      "{" + Spaced(format, "\n") + PrintMembers(v, 0, format, depth + 1, writer) +
      Spaced(format, Tabs(depth)) + "}"
  }

  /** The elements of an array from number i on. */
  function PrintItems(v: Json, i: nat, format: bool, depth: nat, writer: Writer): (t: string)
    requires v.Array? && i <= |v.items|
    decreases v, |v.items| - i
  {
    if i == |v.items| then ""
    else
      var more := i + 1 < |v.items|;
      PrintValue(v.items[i], format, depth, writer) + Comma(more) + (if more then Spaced(format, " ") else "") +
      PrintItems(v, i + 1, format, depth, writer)
  }

  /** The members of an object from number i on. */
  function PrintMembers(v: Json, i: nat, format: bool, depth: nat, writer: Writer): (t: string)
    requires v.Object? && i <= |v.members|
    decreases v, |v.members| - i
  {
    if i == |v.members| then ""
    else
      var member := v.members[i];
      Spaced(format, Tabs(depth)) + PrintString(member.key) + ":" + Spaced(format, "\t") +
      PrintValue(member.value, format, depth, writer) + Comma(i + 1 < |v.members|) + Spaced(format, "\n") +
      PrintMembers(v, i + 1, format, depth, writer)
  }

  // ----- reading -----

  datatype Parsed = Good(value: Json, rest: string) | Bad
  datatype ParsedItems = GoodItems(items: seq<Json>, rest: string) | BadItems
  datatype ParsedMembers = GoodMembers(members: seq<Member>, rest: string) | BadMembers

  /** The text behind leading white space and control characters. */
  function DropSpace(s: string): (r: string)
    ensures |r| <= |s| && (r != "" ==> r[0] as int > 32)
  {
    if s != "" && s[0] as int <= 32 then DropSpace(s[1..]) else s
  }

  /** As buffer_skip_whitespace: when only white space is left it stops at the last character. */
  function SkipSpace(s: string): (r: string)
    ensures |r| <= |s| && (r == "" <==> s == "")
  {
    var r := DropSpace(s);
    if r == "" && s != "" then s[|s| - 1..] else r
  }

  function StartsWith(s: string, word: string): (b: bool)
    ensures b ==> |word| <= |s|
  {
    |word| <= |s| && s[..|word|] == word
  }

  /** A byte buffer read as a C string ends at its first NUL. */
  function CutAtNul(s: string): (c: string) {
    if s == "" || s[0] == '\0' then "" else [s[0]] + CutAtNul(s[1..])
  }

  /** The string a literal stands for, and the text behind it. */
  function ParseString(s: string): (r: Option<(string, string)>)
    ensures r.Some? ==> |r.value.1| < |s|
  {
    if s == "" || s[0] != '\"' then None
    else
      var end := ScanBody(s[1..]);
      if end.None? then None
      else
        var body := DecodeBody(s[1..1 + end.value]);
        if body.None? then None else Some((CutAtNul(body.value), s[end.value + 2..]))
  }

  function ParseNumber(s: string, reader: Reader): (r: Parsed)
    ensures r.Good? ==> |r.rest| < |s|
  {
    var run := NumberRun(s);
    var (d, n) := reader(run);
    if n == 0 || n > |run| then Bad else Good(Number(d), s[n..])
  }

  /** A value at the start of the text, inside depth arrays and objects. */
  function ParseValue(s: string, depth: nat, reader: Reader): (r: Parsed)
    ensures r.Good? ==> |r.rest| < |s|
    decreases |s|, 2
  {
    if StartsWith(s, "null") then Good(Null, s[4..])
    else if StartsWith(s, "false") then Good(False, s[5..])
    else if StartsWith(s, "true") then Good(True, s[4..])
    else if s == "" then Bad
    else if s[0] == '\"' then
      var r := ParseString(s);
      if r.None? then Bad else Good(String(r.value.0), r.value.1)
    else if s[0] == '-' || IsDigit(s[0]) then ParseNumber(s, reader)
    else if s[0] == '[' then ParseArray(s, depth, reader)
    else if s[0] == '{' then ParseObject(s, depth, reader)
    else Bad
  }

  function ParseArray(s: string, depth: nat, reader: Reader): (r: Parsed)
    requires s != "" && s[0] == '['
    ensures r.Good? ==> |r.rest| < |s|
    decreases |s|, 1
  {
    if depth >= NESTING_LIMIT then Bad
    else
      var t := SkipSpace(s[1..]);
      if t == "" then Bad
      else if t[0] == ']' then Good(Array([]), t[1..])
      else
        var r := ParseItems(t, depth + 1, reader);
        if r.BadItems? then Bad else Good(Array(r.items), r.rest)
  }

  /** One element with the white space around it. */
  function ParseItem(s: string, depth: nat, reader: Reader): (r: Option<(Json, string)>)
    ensures r.Some? ==> |r.value.1| < |s|
    decreases |s|, 3
  {
    var value := ParseValue(SkipSpace(s), depth, reader);
    if value.Bad? then None else Some((value.value, SkipSpace(value.rest)))
  }

  /** Elements up to and with the closing bracket. */
  function ParseItems(s: string, depth: nat, reader: Reader): (r: ParsedItems)
    ensures r.GoodItems? ==> |r.rest| < |s|
    decreases |s|, 4
  {
    var first := ParseItem(s, depth, reader);
    if first.None? then BadItems
    else
      var (item, t) := first.value;
      if t == "" then BadItems
      else if t[0] == ',' then
        var others := ParseItems(t[1..], depth, reader);
        if others.BadItems? then BadItems else GoodItems([item] + others.items, others.rest)
      else if t[0] == ']' then GoodItems([item], t[1..])
      else BadItems
  }

  function ParseObject(s: string, depth: nat, reader: Reader): (r: Parsed)
    requires s != "" && s[0] == '{'
    ensures r.Good? ==> |r.rest| < |s|
    decreases |s|, 1
  {
    if depth >= NESTING_LIMIT then Bad
    else
      var t := SkipSpace(s[1..]);
      if t == "" then Bad
      else if t[0] == '}' then Good(Object([]), t[1..])
      else
        var r := ParseMembers(t, depth + 1, reader);
        if r.BadMembers? then Bad else Good(Object(r.members), r.rest)
  }

  /** One name, colon and value, with the white space around them. */
  function ParseMember(s: string, depth: nat, reader: Reader): (r: Option<(Member, string)>)
    ensures r.Some? ==> |r.value.1| < |s|
    decreases |s|, 3
  {
    var name := ParseString(SkipSpace(s));
    if name.None? then None
    else
      var t := SkipSpace(name.value.1);
      if t == "" || t[0] != ':' then None
      else
        var value := ParseValue(SkipSpace(t[1..]), depth, reader);
        if value.Bad? then None else Some((Member(name.value.0, value.value), SkipSpace(value.rest)))
  }

  /** Members up to and with the closing brace. */
  function ParseMembers(s: string, depth: nat, reader: Reader): (r: ParsedMembers)
    ensures r.GoodMembers? ==> |r.rest| < |s|
    decreases |s|, 4
  {
    var first := ParseMember(s, depth, reader);
    if first.None? then BadMembers
    else
      var (member, t) := first.value;
      if t == "" then BadMembers
      else if t[0] == ',' then
        var others := ParseMembers(t[1..], depth, reader);
        if others.BadMembers? then BadMembers else GoodMembers([member] + others.members, others.rest)
      else if t[0] == '}' then GoodMembers([member], t[1..])
      else BadMembers
  }

  /** The text behind a UTF-8 byte order mark. */
  function SkipBom(s: string): (r: string)
    ensures |r| <= |s|
  {
    if |s| > 4 && s[0] as int == 0xEF && s[1] as int == 0xBB && s[2] as int == 0xBF then s[3..] else s
  }

  /** A whole text; when asked for, nothing but white space may stand between the value and a NUL. */
  function ParseDocument(content: string, requireNul: bool, reader: Reader): (r: Parsed) {
    var r := ParseValue(SkipSpace(SkipBom(content)), 0, reader);
    if content == "" || r.Bad? then Bad
    else if !requireNul then r
    else
      var t := SkipSpace(r.rest);
      if t == "" || t[0] != '\0' then Bad else Good(r.value, t)
  }
}
