/** Reading what was printed gives back the value, exactly when it is not nested too deeply. */
module JsonRoundTrip {
  import opened CText
  import opened JsonStrings
  import opened JsonTree
  import opened Words

  /** The C library reads every 32-bit integer numeral whole and exactly. */
  ghost predicate ReadsIntegers(reader: Reader) {
    forall i :: INT_MIN <= i <= INT_MAX ==> reader(IntText(i)) == (i as real, |IntText(i)|)
  }

  /** A text made of number characters only, as a number value may start. */
  ghost predicate NumberLike(t: string) {
    t != "" && (t[0] == '-' || IsDigit(t[0])) && forall i :: 0 <= i < |t| ==> IsNumberChar(t[i])
  }

  /** The number is an integer, or the C library reads back what it writes for it. */
  ghost predicate Exact(d: real, reader: Reader, writer: Writer) {
    d == ValueInt(d) as real || (NumberLike(writer(d)) && reader(writer(d)) == (d, |writer(d)|))
  }

  /** All strings and keys are C strings, all numbers are read back exactly. */
  ghost predicate Printable(v: Json, reader: Reader, writer: Writer) {
    match v
    case Number(d) => Exact(d, reader, writer)
    case String(s) => Text(s)
    case Array(items) => forall i :: 0 <= i < |items| ==> Printable(items[i], reader, writer)
    case Object(members) =>
      forall i :: 0 <= i < |members| ==> Text(members[i].key) && Printable(members[i].value, reader, writer)
    case _ => true
  }

  /** Arrays and objects are nested at most n deep. */
  ghost predicate NestedWithin(v: Json, n: int) {
    match v
    case Array(items) => n > 0 && forall i :: 0 <= i < |items| ==> NestedWithin(items[i], n - 1)
    case Object(members) => n > 0 && forall i :: 0 <= i < |members| ==> NestedWithin(members[i].value, n - 1)
    case _ => true
  }

  // ----- white space -----

  ghost predicate Blank(ws: string) {
    forall i :: 0 <= i < |ws| ==> ws[i] as int <= 32
  }

  lemma {:induction false} DropBlank(ws: string, s: string)
    requires Blank(ws) && s != "" && s[0] as int > 32
    ensures DropSpace(ws + s) == s
  {
    if ws == "" {
      assert ws + s == s;
    } else {
      DropBlank(ws[1..], s);
      assert (ws + s)[1..] == ws[1..] + s;
    }
  }

  lemma SkipBlank(ws: string, s: string)
    requires Blank(ws) && s != "" && s[0] as int > 32
    ensures SkipSpace(ws + s) == s
  {
    DropBlank(ws, s);
  }

  lemma SkipNothing(s: string)
    requires s != "" && s[0] as int > 32
    ensures SkipSpace(s) == s
  {
  }

  lemma {:induction false} TabsBlank(n: nat)
    ensures Blank(Tabs(n))
  {
    if n > 0 {
      TabsBlank(n - 1);
    }
  }

  // ----- strings and numbers -----

  lemma {:induction false} CutNothing(s: string)
    requires Text(s)
    ensures CutAtNul(s) == s
  {
    if s != "" {
      CutNothing(s[1..]);
      assert s == [s[0]] + s[1..];
    }
  }

  lemma StringBack(s: string, rest: string)
    requires Text(s)
    ensures ParseString(PrintString(s) + rest) == Some((s, rest))
  {
    var p := PrintChars(s);
    var t := PrintString(s) + rest;
    assert t[1..] == p + ("\"" + rest);
    ScanPrinted(s, rest);
    assert t[1..1 + |p|] == p && t[|p| + 2..] == rest;
    DecodePrinted(s);
    CutNothing(s);
  }

  lemma {:induction false} RunBack(t: string, rest: string)
    requires forall i :: 0 <= i < |t| ==> IsNumberChar(t[i])
    requires rest == "" || !IsNumberChar(rest[0])
    ensures NumberRun(t + rest) == t
  {
    if t == "" {
      assert t + rest == rest;
    } else {
      RunBack(t[1..], rest);
      assert (t + rest)[1..] == t[1..] + rest;
    }
  }

  lemma IntTextIsNumber(i: int)
    ensures NumberLike(IntText(i))
  {
    DecimalRoundTrip(if i < 0 then -i else i);
    var t, s := IntText(i), Decimal(if i < 0 then -i else i);
    forall k | 0 <= k < |t|
      ensures IsNumberChar(t[k])
    {
      assert t[k] == '-' || t[k] in s;
    }
  }

  lemma NumberBack(d: real, rest: string, depth: nat, reader: Reader, writer: Writer)
    requires ReadsIntegers(reader) && Exact(d, reader, writer)
    requires rest == "" || !IsNumberChar(rest[0])
    ensures ParseValue(NumberText(d, writer) + rest, depth, reader) == Good(Number(d), rest)
    ensures NumberLike(NumberText(d, writer))
  {
    var t := NumberText(d, writer);
    if d == ValueInt(d) as real {
      IntTextIsNumber(ValueInt(d));
    }
    RunBack(t, rest);
    assert (t + rest)[|t|..] == rest && (t + rest)[0] == t[0];
  }

  // ----- values -----

  /** The characters a printed value can start with. */
  ghost predicate StartChar(c: char) {
    c == 'n' || c == 'f' || c == 't' || c == '\"' || c == '-' || IsDigit(c) || c == '[' || c == '{'
  }

  lemma Starts(v: Json, format: bool, depth: nat, reader: Reader, writer: Writer)
    requires Printable(v, reader, writer) && ReadsIntegers(reader)
    ensures var t := PrintValue(v, format, depth, writer); t != "" && StartChar(t[0])
  {
    if v.Number? {
      NumberBack(v.d, "", 0, reader, writer);
    }
  }

  /** What reading a printed value has to give: the value and the text behind it, or a refusal when it nests too deep. */
  ghost predicate ReadBack(v: Json, rest: string, depth: nat, r: Parsed) {
    r == if NestedWithin(v, NESTING_LIMIT - depth) then Good(v, rest) else Bad
  }

  lemma WordBack(v: Json, rest: string, format: bool, indent: nat, depth: nat, reader: Reader, writer: Writer)
    requires v.Null? || v.False? || v.True?
    ensures ParseValue(PrintValue(v, format, indent, writer) + rest, depth, reader) == Good(v, rest)
  {
    var w := PrintValue(v, format, indent, writer);
    var t := w + rest;
    assert t[..|w|] == w && t[|w|..] == rest && t[0] == w[0];
    hide ParseString, ParseNumber, ParseArray, ParseObject;
  }

  lemma LiteralBack(s: string, rest: string, depth: nat, reader: Reader)
    requires Text(s)
    ensures ParseValue(PrintString(s) + rest, depth, reader) == Good(String(s), rest)
  {
    StringBack(s, rest);
    assert (PrintString(s) + rest)[0] == '\"';
    hide ParseString, ParseNumber, ParseArray, ParseObject, PrintChars;
  }

  /** What stands behind element i of a printed array. */
  function AfterItem(v: Json, i: nat, tail: string, format: bool, indent: nat, writer: Writer): (t: string)
    requires v.Array? && i < |v.items|
  {
    if i + 1 < |v.items| then "," + (Spaced(format, " ") + (PrintItems(v, i + 1, format, indent, writer) + tail))
    else tail
  }

  lemma ItemsText(v: Json, i: nat, tail: string, format: bool, indent: nat, writer: Writer)
    requires v.Array? && i < |v.items|
    ensures PrintItems(v, i, format, indent, writer) + tail ==
            PrintValue(v.items[i], format, indent, writer) + AfterItem(v, i, tail, format, indent, writer)
  {
    hide PrintValue;
  }

  /** The elements from number i on are nested at most n deep. */
  ghost predicate ItemsWithin(v: Json, i: nat, n: int)
    requires v.Array?
  {
    forall k :: i <= k < |v.items| ==> NestedWithin(v.items[k], n)
  }

  /** What reading the elements from number i on has to give. */
  ghost predicate ItemsRead(v: Json, i: nat, rest: string, n: int, r: ParsedItems)
    requires v.Array? && i <= |v.items|
  {
    r == if ItemsWithin(v, i, n) then GoodItems(v.items[i..], rest) else BadItems
  }

  /** What one element and the text behind it give. */
  ghost function ItemThen(item: Json, good: bool, after: string, depth: nat, reader: Reader): (r: ParsedItems)
    requires after != ""
  {
    if !good then BadItems
    else if after[0] == ']' then GoodItems([item], after[1..])
    else
      var r := ParseItems(after[1..], depth, reader);
      if r.BadItems? then BadItems else GoodItems([item] + r.items, r.rest)
  }

  lemma ParseItemsStep(s: string, item: Json, after: string, good: bool, depth: nat, reader: Reader)
    requires ParseValue(SkipSpace(s), depth, reader) == if good then Good(item, after) else Bad
    requires after != "" && SkipSpace(after) == after && (after[0] == ',' || after[0] == ']')
    ensures ParseItems(s, depth, reader) == ItemThen(item, good, after, depth, reader)
  {
    hide ParseValue, SkipSpace;
  }

  lemma LastItemRead(v: Json, i: nat, after: string, n: int, depth: nat, reader: Reader)
    requires v.Array? && i + 1 == |v.items| && after != "" && after[0] == ']'
    ensures ItemsRead(v, i, after[1..], n, ItemThen(v.items[i], NestedWithin(v.items[i], n), after, depth, reader))
  {
    hide NestedWithin;
    assert v.items[i..] == [v.items[i]];
  }

  lemma NextItemRead(v: Json, i: nat, rest: string, after: string, n: int, depth: nat, reader: Reader)
    requires v.Array? && i + 1 < |v.items| && after != "" && after[0] == ','
    requires ItemsRead(v, i + 1, rest, n, ParseItems(after[1..], depth, reader))
    ensures ItemsRead(v, i, rest, n, ItemThen(v.items[i], NestedWithin(v.items[i], n), after, depth, reader))
  {
    hide NestedWithin, ParseItems;
    assert v.items[i..] == [v.items[i]] + v.items[i + 1..];
  }

  /** Reading element i and what stands behind it. */
  lemma ItemBack(v: Json, i: nat, ws: string, tail: string, format: bool, indent: nat, depth: nat,
                 reader: Reader, writer: Writer)
    requires v.Array? && i < |v.items| && Blank(ws) && depth <= NESTING_LIMIT
    requires ReadsIntegers(reader) && Printable(v, reader, writer)
    requires var after := AfterItem(v, i, tail, format, indent, writer);
             after != "" && SkipSpace(after) == after && (after[0] == ',' || after[0] == ']')
    ensures ParseItems(ws + (PrintItems(v, i, format, indent, writer) + tail), depth, reader) ==
            ItemThen(v.items[i], NestedWithin(v.items[i], NESTING_LIMIT - depth),
                     AfterItem(v, i, tail, format, indent, writer), depth, reader)
    decreases v, |v.items| - i, 0
  {
    var item, limit := v.items[i], NESTING_LIMIT - depth;
    var after := AfterItem(v, i, tail, format, indent, writer);
    var text := PrintValue(item, format, indent, writer);
    ItemsText(v, i, tail, format, indent, writer);
    assert Printable(item, reader, writer) && !IsNumberChar(after[0]);
    hide *;
    Starts(item, format, indent, reader, writer);
    StartsBlank(ws, text, after);
    ValueBack(item, after, format, indent, depth, reader, writer);
    ParseItemsStep(ws + (text + after), item, after, NestedWithin(item, limit), depth, reader);
  }

  /** Reading the elements from number i on, behind some white space. */
  lemma {:induction false} ItemsBack(v: Json, i: nat, ws: string, rest: string, format: bool, indent: nat, depth: nat,
                                     reader: Reader, writer: Writer)
    requires v.Array? && i < |v.items| && Blank(ws) && depth <= NESTING_LIMIT
    requires ReadsIntegers(reader) && Printable(v, reader, writer)
    ensures ItemsRead(v, i, rest, NESTING_LIMIT - depth,
                      ParseItems(ws + (PrintItems(v, i, format, indent, writer) + ("]" + rest)), depth, reader))
    decreases v, |v.items| - i, 1
  {
    hide *;
    var limit, tail := NESTING_LIMIT - depth, "]" + rest;
    var after := AfterItem(v, i, tail, format, indent, writer);
    AfterItemStarts(v, i, rest, format, indent, writer);
    ItemBack(v, i, ws, tail, format, indent, depth, reader, writer);
    if i + 1 < |v.items| {
      ItemsBack(v, i + 1, Spaced(format, " "), rest, format, indent, depth, reader, writer);
      NextItemRead(v, i, rest, after, limit, depth, reader);
    } else {
      LastItemRead(v, i, after, limit, depth, reader);
    }
  }

  lemma StartsBlank(ws: string, text: string, after: string)
    requires Blank(ws) && text != "" && StartChar(text[0])
    ensures SkipSpace(ws + (text + after)) == text + after
  {
    SkipBlank(ws, text + after);
  }

  lemma AfterItemStarts(v: Json, i: nat, rest: string, format: bool, indent: nat, writer: Writer)
    requires v.Array? && i < |v.items|
    ensures var after := AfterItem(v, i, "]" + rest, format, indent, writer);
            && after != "" && !IsNumberChar(after[0]) && SkipSpace(after) == after
            && (i + 1 == |v.items| ==> after[0] == ']' && after[1..] == rest)
            && (i + 1 < |v.items| ==> after[0] == ',' && Blank(Spaced(format, " ")))
            && (i + 1 < |v.items| ==>
                  after[1..] == Spaced(format, " ") + (PrintItems(v, i + 1, format, indent, writer) + ("]" + rest)))
  {
    SkipNothing(AfterItem(v, i, "]" + rest, format, indent, writer));
    hide PrintItems, SkipSpace;
  }

  lemma ArrayText(v: Json, rest: string, format: bool, indent: nat, writer: Writer)
    requires v.Array?
    ensures var t := PrintValue(v, format, indent, writer) + rest;
            t != "" && t[0] == '[' && t[1..] == PrintItems(v, 0, format, indent + 1, writer) + ("]" + rest)
  {
    hide PrintItems;
  }

  lemma FirstItem(v: Json, tail: string, format: bool, indent: nat, reader: Reader, writer: Writer)
    requires v.Array? && v.items != []
    requires ReadsIntegers(reader) && Printable(v, reader, writer)
    ensures var body := PrintItems(v, 0, format, indent, writer) + tail;
            body != "" && SkipSpace(body) == body && body[0] != ']'
  {
    assert Printable(v.items[0], reader, writer);
    hide *;
    ItemsText(v, 0, tail, format, indent, writer);
    Starts(v.items[0], format, indent, reader, writer);
    SkipNothing(PrintItems(v, 0, format, indent, writer) + tail);
  }

  /** The elements are read behind the bracket, whether there are any or not. */
  lemma ItemsStart(v: Json, rest: string, format: bool, indent: nat, depth: nat, reader: Reader, writer: Writer)
    requires v.Array? && depth <= NESTING_LIMIT
    requires ReadsIntegers(reader) && Printable(v, reader, writer)
    ensures var body := PrintItems(v, 0, format, indent, writer) + ("]" + rest);
            && body != "" && SkipSpace(body) == body
            && (v.items == [] ==> body == "]" + rest)
            && (v.items != [] ==> body[0] != ']')
    ensures v.items != [] ==>
              ItemsRead(v, 0, rest, NESTING_LIMIT - depth,
                        ParseItems(PrintItems(v, 0, format, indent, writer) + ("]" + rest), depth, reader))
    decreases v, |v.items| + 1
  {
    var body := PrintItems(v, 0, format, indent, writer) + ("]" + rest);
    if v.items == [] {
      assert body == "]" + rest;
      hide *;
      SkipNothing(body);
    } else {
      hide *;
      FirstItem(v, "]" + rest, format, indent, reader, writer);
      NoBlank();
      ItemsBack(v, 0, "", rest, format, indent, depth, reader, writer);
      assert "" + body == body;
    }
  }

  lemma ArrayBack(v: Json, rest: string, format: bool, indent: nat, depth: nat, reader: Reader, writer: Writer)
    requires v.Array? && depth <= NESTING_LIMIT
    requires ReadsIntegers(reader) && Printable(v, reader, writer)
    ensures var t := PrintValue(v, format, indent, writer) + rest;
            t != "" && t[0] == '[' && ReadBack(v, rest, depth, ParseArray(t, depth, reader))
    decreases v, |v.items| + 2
  {
    ArrayText(v, rest, format, indent, writer);
    if depth < NESTING_LIMIT {
      ItemsStart(v, rest, format, indent + 1, depth + 1, reader, writer);
    }
    hide ParseItems, PrintItems, PrintValue, Printable, SkipSpace;
  }

  lemma {:induction false} ValueBack(v: Json, rest: string, format: bool, indent: nat, depth: nat,
                                     reader: Reader, writer: Writer)
    requires depth <= NESTING_LIMIT && (rest == "" || !IsNumberChar(rest[0]))
    requires ReadsIntegers(reader) && Printable(v, reader, writer)
    ensures ReadBack(v, rest, depth, ParseValue(PrintValue(v, format, indent, writer) + rest, depth, reader))
    decreases v, Width(v) + 3
  {
    hide ParseString, ParseNumber, ParseArray, ParseObject, PrintChars, PrintItems, PrintMembers;
    match v
    case Number(d) => NumberBack(d, rest, depth, reader, writer);
    case String(s) => LiteralBack(s, rest, depth, reader);
    case Array(_) => ArrayBack(v, rest, format, indent, depth, reader, writer);
    case Object(_) => ObjectBack(v, rest, format, indent, depth, reader, writer);
    case _ => WordBack(v, rest, format, indent, depth, reader, writer);
  }

  // ----- objects -----

  /** Name, colon and value of member i. */
  function MemberText(v: Json, i: nat, format: bool, indent: nat, writer: Writer): (t: string)
    requires v.Object? && i < |v.members|
  {
    PrintString(v.members[i].key) +
    (":" + (Spaced(format, "\t") + PrintValue(v.members[i].value, format, indent, writer)))
  }

  /** What stands behind member i of a printed object. */
  function AfterMember(v: Json, i: nat, tail: string, format: bool, indent: nat, writer: Writer): (t: string)
    requires v.Object? && i < |v.members|
  {
    Comma(i + 1 < |v.members|) + (Spaced(format, "\n") + (PrintMembers(v, i + 1, format, indent, writer) + tail))
  }

  lemma MembersText(v: Json, i: nat, tail: string, format: bool, indent: nat, writer: Writer)
    requires v.Object? && i < |v.members|
    ensures PrintMembers(v, i, format, indent, writer) + tail ==
            Spaced(format, Tabs(indent)) +
            (MemberText(v, i, format, indent, writer) + AfterMember(v, i, tail, format, indent, writer))
  {
    hide PrintValue, PrintString, Tabs, Comma, Spaced;
    var member := v.members[i];
    var tabs, name, tab := Spaced(format, Tabs(indent)), PrintString(member.key), Spaced(format, "\t");
    var value, comma := PrintValue(member.value, format, indent, writer), Comma(i + 1 < |v.members|);
    var line, others := Spaced(format, "\n"), PrintMembers(v, i + 1, format, indent, writer);
    Regroup(tabs, name, tab, value, comma, line, others, tail);
  }

  lemma Regroup(a: string, b: string, c: string, d: string, e: string, f: string, g: string, tail: string)
    ensures a + b + ":" + c + d + e + f + g + tail == a + ((b + (":" + (c + d))) + (e + (f + (g + tail))))
  {
  }

  ghost function MemberThen(member: Member, good: bool, after: string): (r: Option<(Member, string)>) {
    if good then Some((member, SkipSpace(after))) else None
  }

  lemma ColonFacts(tab: string, value: string)
    ensures var colon := ":" + (tab + value);
            colon != "" && colon[0] == ':' && SkipSpace(colon) == colon && colon[1..] == tab + value
  {
    SkipNothing(":" + (tab + value));
    hide SkipSpace;
  }

  lemma QuotedFacts(ws: string, s: string, colon: string)
    requires Blank(ws)
    ensures SkipSpace(ws + (PrintString(s) + colon)) == PrintString(s) + colon
  {
    SkipBlank(ws, PrintString(s) + colon);
    hide SkipSpace, PrintChars;
  }

  lemma MemberTextIs(v: Json, i: nat, after: string, format: bool, indent: nat, writer: Writer)
    requires v.Object? && i < |v.members|
    ensures MemberText(v, i, format, indent, writer) + after ==
            PrintString(v.members[i].key) +
            (":" + (Spaced(format, "\t") + (PrintValue(v.members[i].value, format, indent, writer) + after)))
  {
    hide PrintString, PrintValue, Spaced;
  }

  lemma MemberBack(v: Json, i: nat, ws: string, after: string, format: bool, indent: nat, depth: nat,
                   reader: Reader, writer: Writer)
    requires v.Object? && i < |v.members| && Blank(ws) && depth <= NESTING_LIMIT
    requires after != "" && !IsNumberChar(after[0])
    requires ReadsIntegers(reader) && Printable(v, reader, writer)
    ensures ParseMember(ws + (MemberText(v, i, format, indent, writer) + after), depth, reader) ==
            MemberThen(v.members[i], NestedWithin(v.members[i].value, NESTING_LIMIT - depth), after)
    decreases v, 0
  {
    var member, tab := v.members[i], Spaced(format, "\t");
    var text := PrintValue(member.value, format, indent, writer);
    var colon := ":" + (tab + (text + after));
    assert Printable(member.value, reader, writer) && Text(member.key);
    hide *;
    MemberTextIs(v, i, after, format, indent, writer);
    QuotedFacts(ws, member.key, colon);
    StringBack(member.key, colon);
    ColonFacts(tab, text + after);
    Starts(member.value, format, indent, reader, writer);
    StartsBlank(tab, text, after);
    ValueBack(member.value, after, format, indent, depth, reader, writer);
  }

  /** The members from number i on are nested at most n deep. */
  ghost predicate MembersWithin(v: Json, i: nat, n: int)
    requires v.Object?
  {
    forall k :: i <= k < |v.members| ==> NestedWithin(v.members[k].value, n)
  }

  /** What reading the members from number i on has to give. */
  ghost predicate MembersRead(v: Json, i: nat, rest: string, n: int, r: ParsedMembers)
    requires v.Object? && i <= |v.members|
  {
    r == if MembersWithin(v, i, n) then GoodMembers(v.members[i..], rest) else BadMembers
  }

  lemma LastMemberRead(v: Json, i: nat, s: string, rest: string, after: string, n: int, depth: nat, reader: Reader)
    requires v.Object? && i + 1 == |v.members|
    requires ParseMember(s, depth, reader) == MemberThen(v.members[i], NestedWithin(v.members[i].value, n), after)
    requires var t := SkipSpace(after); t != "" && t[0] == '}' && t[1..] == rest
    ensures MembersRead(v, i, rest, n, ParseMembers(s, depth, reader))
  {
    hide NestedWithin, ParseMember, SkipSpace;
    assert v.members[i..] == [v.members[i]];
  }

  lemma NextMemberRead(v: Json, i: nat, s: string, rest: string, after: string, n: int, depth: nat, reader: Reader)
    requires v.Object? && i + 1 < |v.members|
    requires ParseMember(s, depth, reader) == MemberThen(v.members[i], NestedWithin(v.members[i].value, n), after)
    requires SkipSpace(after) != "" && SkipSpace(after)[0] == ','
    requires MembersRead(v, i + 1, rest, n, ParseMembers(SkipSpace(after)[1..], depth, reader))
    ensures MembersRead(v, i, rest, n, ParseMembers(s, depth, reader))
  {
    hide NestedWithin, ParseMember, SkipSpace;
    assert v.members[i..] == [v.members[i]] + v.members[i + 1..];
  }

  function Closing(format: bool, indent: nat, rest: string): (t: string) {
    Spaced(format, Tabs(indent)) + ("}" + rest)
  }

  function Gap(format: bool, indent: nat): (t: string) {
    Spaced(format, "\n") + Spaced(format, Tabs(indent))
  }

  lemma GapBlank(format: bool, indent: nat)
    ensures Blank(Gap(format, indent))
  {
    TabsBlank(indent);
  }

  lemma RegroupEnd(line: string, tabs: string, close: string)
    ensures "" + (line + ("" + (tabs + close))) == line + tabs + close
    ensures line + ("" + (tabs + close)) == line + tabs + close
  {
  }

  lemma NoMoreMembers(v: Json, rest: string, format: bool, indent: nat, writer: Writer)
    requires v.Object?
    ensures Spaced(format, "\n") + (PrintMembers(v, |v.members|, format, indent + 1, writer) + Closing(format, indent, rest))
            == Gap(format, indent) + ("}" + rest)
    ensures v.members != [] ==>
              AfterMember(v, |v.members| - 1, Closing(format, indent, rest), format, indent + 1, writer)
              == Gap(format, indent) + ("}" + rest)
  {
    RegroupEnd(Spaced(format, "\n"), Spaced(format, Tabs(indent)), "}" + rest);
    hide Tabs, Spaced;
  }

  lemma GapThenBrace(format: bool, indent: nat, rest: string)
    ensures var s := Gap(format, indent) + ("}" + rest);
            s != "" && !IsNumberChar(s[0]) && SkipSpace(s) == "}" + rest && ("}" + rest)[1..] == rest
  {
    GapBlank(format, indent);
    SkipBlank(Gap(format, indent), "}" + rest);
    hide SkipSpace, Gap;
  }

  /** Behind the last member come white space and the closing brace. */
  lemma AfterLastMember(v: Json, i: nat, rest: string, format: bool, indent: nat, writer: Writer)
    requires v.Object? && i + 1 == |v.members|
    ensures var after := AfterMember(v, i, Closing(format, indent, rest), format, indent + 1, writer);
            && after != "" && !IsNumberChar(after[0])
            && SkipSpace(after) == "}" + rest && ("}" + rest)[1..] == rest
  {
    hide *;
    NoMoreMembers(v, rest, format, indent, writer);
    GapThenBrace(format, indent, rest);
  }

  /** Behind any other member come a comma, white space and the next member. */
  lemma AfterEarlierMember(v: Json, i: nat, tail: string, format: bool, indent: nat, writer: Writer)
    requires v.Object? && i + 1 < |v.members|
    ensures var after := AfterMember(v, i, tail, format, indent, writer);
            && after != "" && !IsNumberChar(after[0]) && SkipSpace(after) == after && after[0] == ','
            && after[1..] == Gap(format, indent) +
                             (MemberText(v, i + 1, format, indent, writer) +
                              AfterMember(v, i + 1, tail, format, indent, writer))
  {
    var after := AfterMember(v, i, tail, format, indent, writer);
    SkipNothing(after);
    MembersText(v, i + 1, tail, format, indent, writer);
    var line, tabs := Spaced(format, "\n"), Spaced(format, Tabs(indent));
    var next := MemberText(v, i + 1, format, indent, writer) + AfterMember(v, i + 1, tail, format, indent, writer);
    assert after[1..] == line + (PrintMembers(v, i + 1, format, indent, writer) + tail);
    hide *;
    assert line + (tabs + next) == line + tabs + next;
  }

  /** Reading the members from number i on, behind some white space. */
  lemma {:induction false} MembersBack(v: Json, i: nat, ws: string, rest: string, format: bool, indent: nat,
                                       depth: nat, reader: Reader, writer: Writer)
    requires v.Object? && i < |v.members| && Blank(ws) && depth <= NESTING_LIMIT
    requires ReadsIntegers(reader) && Printable(v, reader, writer)
    ensures var tail := Closing(format, indent, rest);
            var s := ws + (MemberText(v, i, format, indent + 1, writer) +
                           AfterMember(v, i, tail, format, indent + 1, writer));
            MembersRead(v, i, rest, NESTING_LIMIT - depth, ParseMembers(s, depth, reader))
    decreases v, |v.members| - i
  {
    hide *;
    var tail, limit := Closing(format, indent, rest), NESTING_LIMIT - depth;
    var after := AfterMember(v, i, tail, format, indent + 1, writer);
    var s := ws + (MemberText(v, i, format, indent + 1, writer) + after);
    if i + 1 < |v.members| {
      AfterEarlierMember(v, i, tail, format, indent + 1, writer);
      MemberBack(v, i, ws, after, format, indent + 1, depth, reader, writer);
      GapBlank(format, indent + 1);
      MembersBack(v, i + 1, Gap(format, indent + 1), rest, format, indent, depth, reader, writer);
      NextMemberRead(v, i, s, rest, after, limit, depth, reader);
    } else {
      AfterLastMember(v, i, rest, format, indent, writer);
      MemberBack(v, i, ws, after, format, indent + 1, depth, reader, writer);
      LastMemberRead(v, i, s, rest, after, limit, depth, reader);
    }
  }

  lemma ObjectText(v: Json, rest: string, format: bool, indent: nat, writer: Writer)
    requires v.Object?
    ensures var t := PrintValue(v, format, indent, writer) + rest;
            t != "" && t[0] == '{' &&
            t[1..] == Spaced(format, "\n") +
                      (PrintMembers(v, 0, format, indent + 1, writer) + Closing(format, indent, rest))
  {
    hide PrintMembers, Tabs, Spaced;
    var a, b, c := Spaced(format, "\n"), PrintMembers(v, 0, format, indent + 1, writer), Spaced(format, Tabs(indent));
    assert ("{" + a + b + c + "}" + rest)[1..] == a + (b + (c + ("}" + rest)));
  }

  /** The first member stands behind white space. */
  lemma FirstMember(v: Json, tail: string, format: bool, indent: nat, writer: Writer)
    requires v.Object? && v.members != []
    ensures var t := MemberText(v, 0, format, indent, writer) + AfterMember(v, 0, tail, format, indent, writer);
            && Spaced(format, "\n") + (PrintMembers(v, 0, format, indent, writer) + tail) == Gap(format, indent) + t
            && SkipSpace(Gap(format, indent) + t) == t && t != "" && t[0] == '\"'
  {
    var after := AfterMember(v, 0, tail, format, indent, writer);
    var text, line, tabs := MemberText(v, 0, format, indent, writer), Spaced(format, "\n"), Spaced(format, Tabs(indent));
    hide *;
    MembersText(v, 0, tail, format, indent, writer);
    assert line + (tabs + (text + after)) == line + tabs + (text + after);
    GapBlank(format, indent);
    SkipBlank(Gap(format, indent), text + after);
  }

  /** The members are read behind the brace and white space, whether there are any or not. */
  lemma MembersStart(v: Json, rest: string, format: bool, indent: nat, depth: nat, reader: Reader, writer: Writer)
    requires v.Object? && depth <= NESTING_LIMIT
    requires ReadsIntegers(reader) && Printable(v, reader, writer)
    ensures var body := Spaced(format, "\n") +
                        (PrintMembers(v, 0, format, indent + 1, writer) + Closing(format, indent, rest));
            var t := SkipSpace(body);
            && t != "" && (v.members == [] ==> t == "}" + rest)
            && (v.members != [] ==>
                  t[0] != '}' && MembersRead(v, 0, rest, NESTING_LIMIT - depth, ParseMembers(t, depth, reader)))
    decreases v, |v.members| + 1
  {
    hide *;
    if v.members == [] {
      NoMoreMembers(v, rest, format, indent, writer);
      GapThenBrace(format, indent, rest);
    } else {
      var tail := Closing(format, indent, rest);
      var t := MemberText(v, 0, format, indent + 1, writer) + AfterMember(v, 0, tail, format, indent + 1, writer);
      FirstMember(v, tail, format, indent + 1, writer);
      NoBlank();
      MembersBack(v, 0, "", rest, format, indent, depth, reader, writer);
      assert "" + t == t;
    }
  }

  lemma NoBlank()
    ensures Blank("")
  {
  }

  lemma MembersReadAll(v: Json, rest: string, depth: nat, r: ParsedMembers)
    requires v.Object? && depth < NESTING_LIMIT && MembersRead(v, 0, rest, NESTING_LIMIT - (depth + 1), r)
    ensures ReadBack(v, rest, depth, if r.BadMembers? then Bad else Good(Object(r.members), r.rest))
  {
    assert v.members[0..] == v.members;
  }

  lemma ObjectBack(v: Json, rest: string, format: bool, indent: nat, depth: nat, reader: Reader, writer: Writer)
    requires v.Object? && depth <= NESTING_LIMIT
    requires ReadsIntegers(reader) && Printable(v, reader, writer)
    ensures var t := PrintValue(v, format, indent, writer) + rest;
            t != "" && t[0] == '{' && ReadBack(v, rest, depth, ParseObject(t, depth, reader))
    decreases v, |v.members| + 2
  {
    ObjectText(v, rest, format, indent, writer);
    var body := (PrintValue(v, format, indent, writer) + rest)[1..];
    if depth < NESTING_LIMIT {
      MembersStart(v, rest, format, indent, depth + 1, reader, writer);
      if v.members != [] {
        MembersReadAll(v, rest, depth, ParseMembers(SkipSpace(body), depth + 1, reader));
        hide ReadBack;
      }
    }
    hide ParseMembers, PrintMembers, PrintValue, Printable, SkipSpace, MembersRead, Closing;
  }

  // ----- whole documents -----

  /** Printing and then reading gives back the value if and only if it nests at most 1000 deep. */
  lemma PrintThenParse(v: Json, format: bool, reader: Reader, writer: Writer)
    requires ReadsIntegers(reader) && Printable(v, reader, writer)
    ensures ParseValue(PrintValue(v, format, 0, writer), 0, reader) ==
            if NestedWithin(v, 1000) then Good(v, "") else Bad
  {
    var t := PrintValue(v, format, 0, writer);
    ValueBack(v, "", format, 0, 0, reader, writer);
    assert t + "" == t;
  }

  /** The same for a whole NUL-terminated text, with or without the check for text behind the value. */
  lemma DocumentRoundTrip(v: Json, format: bool, requireNul: bool, reader: Reader, writer: Writer)
    requires ReadsIntegers(reader) && Printable(v, reader, writer)
    ensures ParseDocument(PrintValue(v, format, 0, writer) + "\0", requireNul, reader) ==
            if NestedWithin(v, 1000) then Good(v, "\0") else Bad
  {
    var t := PrintValue(v, format, 0, writer);
    Starts(v, format, 0, reader, writer);
    ValueBack(v, "\0", format, 0, 0, reader, writer);
    hide ParseValue, PrintValue, Printable, NestedWithin;
    assert (t + "\0")[0] == t[0];
    SkipNothing(t + "\0");
    NulIsLast();
    assert SkipBom(t + "\0") == t + "\0";
    hide SkipSpace, SkipBom, ReadsIntegers, DropSpace;
  }

  lemma NulIsLast()
    ensures SkipSpace("\0") == "\0"
  {
    assert DropSpace("\0"[1..]) == "";
  }
}
