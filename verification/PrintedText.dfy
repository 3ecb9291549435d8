/** No printed text contains a NUL, so the printer can measure with strlen what it has written. */
module PrintedText {
  import opened CText
  import opened JsonStrings
  import opened JsonTree
  import opened Words

  /** All strings, keys and number texts are C strings. */
  ghost predicate TextTree(v: Json, writer: Writer) {
    match v
    case Number(d) => Text(NumberText(d, writer))
    case String(s) => Text(s)
    case Array(items) => forall i :: 0 <= i < |items| ==> TextTree(items[i], writer)
    case Object(members) =>
      forall i :: 0 <= i < |members| ==> Text(members[i].key) && TextTree(members[i].value, writer)
    case _ => true
  }

  /** Every number text fits the scratch array of the printer. */
  ghost predicate ShortTree(v: Json, writer: Writer) {
    match v
    case Number(d) => |NumberText(d, writer)| <= 25
    case Array(items) => forall i :: 0 <= i < |items| ==> ShortTree(items[i], writer)
    case Object(members) => forall i :: 0 <= i < |members| ==> ShortTree(members[i].value, writer)
    case _ => true
  }

  lemma TextOfMember(v: Json, i: nat, writer: Writer)
    requires TextTree(v, writer) && v.Object? && i < |v.members|
    ensures Text(v.members[i].key) && TextTree(v.members[i].value, writer)
    ensures ShortTree(v, writer) ==> ShortTree(v.members[i].value, writer)
  {
  }

  lemma TextJoin(a: string, b: string)
    requires Text(a) && Text(b)
    ensures Text(a + b)
  {
  }

  lemma {:induction false} PrintCharsText(s: string)
    requires Text(s)
    ensures Text(PrintChars(s))
  {
    if s != "" {
      PrintCharsText(s[1..]);
      hide PrintChar;
      TextJoin(PrintChar(s[0]), PrintChars(s[1..]));
    }
  }

  lemma PrintStringText(s: string)
    requires Text(s)
    ensures Text(PrintString(s))
  {
    PrintCharsText(s);
    hide PrintChars;
    TextJoin("\"" + PrintChars(s), "\"");
  }

  lemma {:induction false} TabsText(n: nat)
    ensures Text(Tabs(n))
  {
    if n > 0 {
      TabsText(n - 1);
    }
  }

  /** Layout texts contain no NUL. */
  lemma LayoutText(format: bool, n: nat, more: bool)
    ensures Text(Spaced(format, Tabs(n))) && Text(Spaced(format, "\n")) && Text(Spaced(format, "\t"))
    ensures Text(Spaced(format, " ")) && Text(Comma(more)) && Text(":")
  {
    TabsText(n);
  }

  lemma {:induction false} PrintedIsText(v: Json, format: bool, depth: nat, writer: Writer)
    requires TextTree(v, writer)
    ensures Text(PrintValue(v, format, depth, writer))
    decreases v, Width(v) + 1
  {
    hide PrintItems, PrintMembers, PrintString, NumberText, Tabs, Spaced;
    match v
    case String(s) => PrintStringText(s);
    case Array(items) => ItemsText(v, 0, format, depth + 1, writer);
    case Object(members) =>
      MembersText(v, 0, format, depth + 1, writer);
      LayoutText(format, depth, true);
    case _ =>
  }

  lemma {:induction false} ItemsText(v: Json, i: nat, format: bool, depth: nat, writer: Writer)
    requires TextTree(v, writer) && v.Array? && i <= |v.items|
    ensures Text(PrintItems(v, i, format, depth, writer))
    decreases v, |v.items| - i
  {
    if i < |v.items| {
      PrintedIsText(v.items[i], format, depth, writer);
      ItemsText(v, i + 1, format, depth, writer);
      LayoutText(format, depth, i + 1 < |v.items|);
      hide PrintValue, Spaced, Comma;
    }
  }

  lemma {:induction false} MembersText(v: Json, i: nat, format: bool, depth: nat, writer: Writer)
    requires TextTree(v, writer) && v.Object? && i <= |v.members|
    ensures Text(PrintMembers(v, i, format, depth, writer))
    decreases v, |v.members| - i
  {
    if i < |v.members| {
      var member := v.members[i];
      PrintStringText(member.key);
      PrintedIsText(member.value, format, depth, writer);
      MembersText(v, i + 1, format, depth, writer);
      LayoutText(format, depth, i + 1 < |v.members|);
      hide PrintValue, PrintString, Spaced, Comma, Tabs, Text;
      TextJoin(Spaced(format, Tabs(depth)), PrintString(member.key));
      TextJoin(Spaced(format, Tabs(depth)) + PrintString(member.key), ":");
      TextJoin(Spaced(format, Tabs(depth)) + PrintString(member.key) + ":", Spaced(format, "\t"));
      var name := Spaced(format, Tabs(depth)) + PrintString(member.key) + ":" + Spaced(format, "\t");
      var value := PrintValue(member.value, format, depth, writer);
      TextJoin(name, value);
      TextJoin(name + value, Comma(i + 1 < |v.members|));
      TextJoin(name + value + Comma(i + 1 < |v.members|), Spaced(format, "\n"));
      TextJoin(name + value + Comma(i + 1 < |v.members|) + Spaced(format, "\n"),
               PrintMembers(v, i + 1, format, depth, writer));
    }
  }

  // ----- the layout, one level at a time -----

  function Join(ts: seq<string>, sep: string): (t: string) {
    if ts == [] then "" else if |ts| == 1 then ts[0] else ts[0] + sep + Join(ts[1..], sep)
  }

  /** The literal of a character: a letter escape, \u00 and two lower-case digits, or the character itself. */
  ghost predicate CharText(c: char, p: string) {
    if exists i :: 0 <= i < 7 && c as int == [34, 92, 8, 12, 10, 13, 9][i] then
      exists i :: 0 <= i < 7 && c as int == [34, 92, 8, 12, 10, 13, 9][i] && p == "\\" + ["\"\\bfnrt"[i]]
    else if c as int < 32 then p == "\\u00" + ["01"[c as int / 16]] + ["0123456789abcdef"[c as int % 16]]
    else p == [c]
  }

  lemma CharIsText(c: char)
    ensures CharText(c, PrintChar(c))
  {
    var codes := [34, 92, 8, 12, 10, 13, 9];
    if EscapeLetter(c).Some? {
      var i := if c == '\"' then 0 else if c == '\\' then 1 else if c == BACKSPACE then 2 else if c == FORM_FEED then 3
               else if c == '\n' then 4 else if c == '\r' then 5 else 6;
      assert c as int == codes[i];
    }
  }

  lemma JoinFirst(t: string, ts: seq<string>)
    ensures Join([], "") == "" && Join([t] + ts, "") == t + Join(ts, "")
  {
    assert ([t] + ts)[1..] == ts;
  }

  /** A printed string is its characters' texts between quotes. */
  lemma StringLayout(s: string) returns (ps: seq<string>)
    ensures |ps| == |s| && forall i :: 0 <= i < |s| ==> CharText(s[i], ps[i])
    ensures PrintString(s) == "\"" + Join(ps, "") + "\""
  {
    hide CharText, PrintChars, Join;
    ps := CharsLayout(s);
  }

  lemma {:induction false} CharsLayout(s: string) returns (ps: seq<string>)
    ensures |ps| == |s| && (forall i :: 0 <= i < |s| ==> CharText(s[i], ps[i])) && PrintChars(s) == Join(ps, "")
  {
    hide CharText, PrintChar, Join;
    if s == "" {
      ps := [];
      JoinFirst("", []);
    } else {
      var more := CharsLayout(s[1..]);
      CharIsText(s[0]);
      ps := [PrintChar(s[0])] + more;
      JoinFirst(PrintChar(s[0]), more);
    }
  }

  /** Elements stand one behind the other, separated by commas, or by commas and blanks. */
  lemma ArrayLayout(items: seq<Json>, ts: seq<string>, format: bool, depth: nat, writer: Writer)
    requires |ts| == |items| && forall i :: 0 <= i < |items| ==> ts[i] == PrintValue(items[i], format, depth + 1, writer)
    ensures PrintValue(Array(items), format, depth, writer) == "[" + Join(ts, if format then ", " else ",") + "]"
  {
    ItemsLayout(Array(items), 0, ts, format, depth + 1, writer);
    assert ts[0..] == ts;
  }

  lemma {:induction false} ItemsLayout(v: Json, i: nat, ts: seq<string>, format: bool, depth: nat, writer: Writer)
    requires v.Array? && |ts| == |v.items| && i <= |ts|
    requires forall k :: i <= k < |ts| ==> ts[k] == PrintValue(v.items[k], format, depth, writer)
    ensures PrintItems(v, i, format, depth, writer) == Join(ts[i..], if format then ", " else ",")
    decreases |ts| - i
  {
    hide PrintValue;
    if i < |ts| {
      ItemsLayout(v, i + 1, ts, format, depth, writer);
      assert ts[i..][1..] == ts[i + 1..] && ts[i..][0] == ts[i];
    }
  }

  /** The lines of the members: the indented key, a colon and a tab, the value, a comma but for the last one. */
  ghost predicate Lines(ls: seq<string>, members: seq<Member>, depth: nat, writer: Writer) {
    |ls| == |members| && forall i :: 0 <= i < |members| ==>
      ls[i] == seq(depth, _ => '\t') + PrintString(members[i].key) + ":\t" +
               PrintValue(members[i].value, true, depth, writer) + (if i + 1 < |members| then ",\n" else "\n")
  }

  /** Formatted, an object is printed as lines, one for each member, indented by one tab more than the braces. */
  lemma ObjectLayout(members: seq<Member>, ls: seq<string>, depth: nat, writer: Writer)
    requires Lines(ls, members, depth + 1, writer)
    ensures PrintValue(Object(members), true, depth, writer) == "{\n" + Join(ls, "") + seq(depth, _ => '\t') + "}"
  {
    MembersLayout(Object(members), 0, ls, depth + 1, writer);
    TabsAre(depth);
    assert ls[0..] == ls;
  }

  lemma {:induction false} TabsAre(n: nat)
    ensures Tabs(n) == seq(n, _ => '\t')
  {
    if n > 0 {
      TabsAre(n - 1);
    }
  }

  lemma {:induction false} MembersLayout(v: Json, i: nat, ls: seq<string>, depth: nat, writer: Writer)
    requires v.Object? && Lines(ls, v.members, depth, writer) && i <= |ls|
    ensures PrintMembers(v, i, true, depth, writer) == Join(ls[i..], "")
    decreases |ls| - i
  {
    hide PrintValue, PrintString, Tabs;
    TabsAre(depth);
    if i < |ls| {
      MembersLayout(v, i + 1, ls, depth, writer);
      assert ls[i..][1..] == ls[i + 1..] && ls[i..][0] == ls[i];
    }
  }

  /** Compact, an object is printed as its members, key, colon and value, separated by commas. */
  lemma CompactLayout(members: seq<Member>, ts: seq<string>, depth: nat, writer: Writer)
    requires |ts| == |members| && forall i :: 0 <= i < |members| ==>
      ts[i] == PrintString(members[i].key) + ":" + PrintValue(members[i].value, false, depth + 1, writer)
    ensures PrintValue(Object(members), false, depth, writer) == "{" + Join(ts, ",") + "}"
  {
    CompactMembers(Object(members), 0, ts, depth + 1, writer);
    assert ts[0..] == ts;
  }

  lemma {:induction false} CompactMembers(v: Json, i: nat, ts: seq<string>, depth: nat, writer: Writer)
    requires v.Object? && |ts| == |v.members| && i <= |ts|
    requires forall k :: i <= k < |ts| ==>
      ts[k] == PrintString(v.members[k].key) + ":" + PrintValue(v.members[k].value, false, depth, writer)
    ensures PrintMembers(v, i, false, depth, writer) == Join(ts[i..], ",")
    decreases |ts| - i
  {
    hide PrintValue, PrintString;
    if i < |ts| {
      CompactMembers(v, i + 1, ts, depth, writer);
      assert ts[i..][1..] == ts[i + 1..] && ts[i..][0] == ts[i];
    }
  }

  ghost predicate Numeral(t: string, n: nat) {
    AllDigits(t) && t != "" && Value(t) == n && (|t| > 1 ==> t[0] != '0')
  }

  ghost predicate IntegerText(t: string, i: int) {
    if i < 0 then t != "" && t[0] == '-' && Numeral(t[1..], -i) else Numeral(t, i)
  }

  /** A number that is a 32-bit integer is printed as its decimal numeral, any other one by the writer. */
  lemma NumberLayout(d: real, format: bool, depth: nat, writer: Writer)
    ensures var t := PrintValue(Number(d), format, depth, writer);
      if d == d.Floor as real && -0x8000_0000 <= d.Floor <= 0x7FFF_FFFF then IntegerText(t, d.Floor) else t == writer(d)
  {
    IntegersOnly(d);
    if d == d.Floor as real && -0x8000_0000 <= d.Floor <= 0x7FFF_FFFF {
      IntTextIs(d.Floor);
    }
    hide ValueInt, IntText, IntegerText;
  }

  lemma IntegersOnly(d: real)
    ensures d == ValueInt(d) as real <==> d == d.Floor as real && -0x8000_0000 <= d.Floor <= 0x7FFF_FFFF
    ensures d == ValueInt(d) as real ==> ValueInt(d) == d.Floor
  {
    if d == d.Floor as real && -0x8000_0000 <= d.Floor <= 0x7FFF_FFFF {
      WholeNumber(d.Floor);
    }
    hide ValueInt;
  }

  lemma WholeNumber(i: int)
    requires -0x8000_0000 <= i <= 0x7FFF_FFFF
    ensures ValueInt(i as real) == i
  {
    assert -(i as real) == (-i) as real;
    assert ((-i) as real).Floor == -i;
  }

  lemma IntTextIs(i: int)
    ensures IntegerText(IntText(i), i)
  {
    DecimalRoundTrip(if i < 0 then -i else i);
    hide Decimal;
    assert i < 0 ==> IntText(i)[1..] == Decimal(-i);
  }
}
