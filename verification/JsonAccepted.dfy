/** What every accepted text yields: clean strings, bounded nesting, and a value that survives printing. */
module JsonAccepted {
  import opened CText
  import opened JsonStrings
  import opened JsonTree
  import opened JsonRoundTrip
  import opened Words

  /** All strings and keys are C strings. */
  ghost predicate Clean(v: Json) {
    match v
    case String(s) => Text(s)
    case Array(items) => forall i :: 0 <= i < |items| ==> Clean(items[i])
    case Object(members) => forall i :: 0 <= i < |members| ==> Text(members[i].key) && Clean(members[i].value)
    case _ => true
  }

  /** Every number is read back as it is printed. */
  ghost predicate ExactNumbers(v: Json, reader: Reader, writer: Writer) {
    match v
    case Number(d) => Exact(d, reader, writer)
    case Array(items) => forall i :: 0 <= i < |items| ==> ExactNumbers(items[i], reader, writer)
    case Object(members) => forall i :: 0 <= i < |members| ==> ExactNumbers(members[i].value, reader, writer)
    case _ => true
  }

  lemma {:induction false} CleanPrints(v: Json, reader: Reader, writer: Writer)
    requires Clean(v) && ExactNumbers(v, reader, writer)
    ensures Printable(v, reader, writer)
  {
    match v
    case Array(items) =>
      forall i | 0 <= i < |items|
        ensures Printable(items[i], reader, writer)
      {
        CleanPrints(items[i], reader, writer);
      }
    case Object(members) =>
      forall i | 0 <= i < |members|
        ensures Text(members[i].key) && Printable(members[i].value, reader, writer)
      {
        CleanPrints(members[i].value, reader, writer);
      }
    case _ =>
  }

  lemma {:induction false} CutIsText(s: string)
    ensures Text(CutAtNul(s))
  {
    if s != "" && s[0] != '\0' {
      CutIsText(s[1..]);
    }
  }

  lemma StringIsText(s: string)
    requires ParseString(s).Some?
    ensures Text(ParseString(s).value.0)
  {
    var end := ScanBody(s[1..]);
    CutIsText(DecodeBody(s[1..1 + end.value]).value);
  }

  // ----- values of accepted texts -----

  ghost predicate Proper(v: Json, depth: nat) {
    Clean(v) && NestedWithin(v, NESTING_LIMIT - depth)
  }

  /** Every value read inside depth arrays and objects is clean and nests within what is left of the limit. */
  lemma {:induction false} ParsedIsProper(s: string, depth: nat, reader: Reader)
    requires ParseValue(s, depth, reader).Good?
    ensures Proper(ParseValue(s, depth, reader).value, depth)
    decreases |s|, 2
  {
    if StartsWith(s, "null") || StartsWith(s, "false") || StartsWith(s, "true") {
    } else if s[0] == '\"' {
      StringIsText(s);
    } else if s[0] == '[' {
      ArrayIsProper(s, depth, reader);
    } else if s[0] == '{' {
      ObjectIsProper(s, depth, reader);
    }
  }

  lemma {:induction false} ArrayIsProper(s: string, depth: nat, reader: Reader)
    requires s != "" && s[0] == '[' && ParseArray(s, depth, reader).Good?
    ensures Proper(ParseArray(s, depth, reader).value, depth)
    decreases |s|, 1
  {
    var t := SkipSpace(s[1..]);
    if t[0] != ']' {
      ItemsAreProper(t, depth + 1, reader);
    }
  }

  lemma {:induction false} ItemsAreProper(s: string, depth: nat, reader: Reader)
    requires ParseItems(s, depth, reader).GoodItems?
    ensures var items := ParseItems(s, depth, reader).items; forall i :: 0 <= i < |items| ==> Proper(items[i], depth)
    decreases |s|, 4
  {
    hide Proper;
    ParsedIsProper(SkipSpace(s), depth, reader);
    var (item, t) := ParseItem(s, depth, reader).value;
    if t[0] == ',' {
      ItemsAreProper(t[1..], depth, reader);
    }
  }

  lemma {:induction false} ObjectIsProper(s: string, depth: nat, reader: Reader)
    requires s != "" && s[0] == '{' && ParseObject(s, depth, reader).Good?
    ensures Proper(ParseObject(s, depth, reader).value, depth)
    decreases |s|, 1
  {
    var t := SkipSpace(s[1..]);
    if t[0] != '}' {
      MembersAreProper(t, depth + 1, reader);
    }
  }

  lemma {:induction false} MembersAreProper(s: string, depth: nat, reader: Reader)
    requires ParseMembers(s, depth, reader).GoodMembers?
    ensures var members := ParseMembers(s, depth, reader).members;
      forall i :: 0 <= i < |members| ==> Text(members[i].key) && Proper(members[i].value, depth)
    decreases |s|, 4
  {
    hide Proper, Text;
    var name := ParseString(SkipSpace(s));
    StringIsText(SkipSpace(s));
    ParsedIsProper(SkipSpace(SkipSpace(name.value.1)[1..]), depth, reader);
    var (member, t) := ParseMember(s, depth, reader).value;
    if t[0] == ',' {
      MembersAreProper(t[1..], depth, reader);
    }
  }

  /**
   Parsing any text, printing the value and parsing that gives the first value again: no
   accepted text yields a value that is too deep, or has a string that cannot be printed.
   */
  lemma ParsePrintParse(content: string, requireNul: bool, format: bool, reader: Reader, writer: Writer)
    requires ReadsIntegers(reader) && ParseDocument(content, requireNul, reader).Good?
    requires ExactNumbers(ParseDocument(content, requireNul, reader).value, reader, writer)
    ensures var v := ParseDocument(content, requireNul, reader).value;
      ParseValue(PrintValue(v, format, 0, writer), 0, reader) == Good(v, "")
  {
    hide ParseValue, PrintValue;
    var v := ParseDocument(content, requireNul, reader).value;
    ParsedIsProper(SkipSpace(SkipBom(content)), 0, reader);
    CleanPrints(v, reader, writer);
    PrintThenParse(v, format, reader, writer);
  }
}
