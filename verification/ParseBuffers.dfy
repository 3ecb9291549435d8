/** The recursive-descent reader of cJSON: a buffer with an offset and a nesting depth that the parsing functions move. */
module ParseBuffers {
  import opened CText
  import opened JsonStrings
  import JsonTree
  import opened ParseLiteral
  import opened Words

  class ParseBuffer {
    const content: string
    const reader: JsonTree.Reader
    var offset: nat
    var depth: nat

    constructor (content: string, reader: JsonTree.Reader)
      ensures this.content == content && this.reader == reader && offset == 0 && depth == 0
    {
      this.content, this.reader := content, reader;
      offset, depth := 0, 0;
    }

    ghost predicate Valid()
      reads this
    {
      offset <= |content|
    }

    /** The text that has not been read yet. */
    ghost function Left(): (s: string)
      requires Valid()
      reads this
    {
      content[offset..]
    }

    lemma Next()
      requires offset < |content|
      ensures Left() != "" && Left()[0] == content[offset] && Left()[1..] == content[offset + 1..]
    {
    }

    /** can_access_at_index. */
    predicate CanAccess(i: nat)
      reads this
    {
      offset + i < |content|
    }

    method SkipWhitespace()
      requires Valid()
      modifies this`offset
      ensures Valid() && Left() == JsonTree.SkipSpace(old(Left()))
    {
      if !CanAccess(0) {
        return;
      }
      ghost var before := Left();
      while CanAccess(0) && content[offset] as int <= 32
        invariant Valid() && JsonTree.DropSpace(Left()) == JsonTree.DropSpace(before)
        decreases |content| - offset
      {
        assert Left()[1..] == content[offset + 1..];
        offset := offset + 1;
      }
      if offset == |content| {
        offset := offset - 1;
        assert content[offset..] == before[|before| - 1..];
      }
    }

    method ParseString() returns (r: Option<string>)
      requires Valid() && offset < |content|
      modifies this`offset
      ensures Valid()
      ensures var p := JsonTree.ParseString(old(Left()));
              if p.None? then r.None? else r == Some(p.value.0) && Left() == p.value.1
    {
      if content[offset] != '\"' {
        return None;
      }
      ghost var s := Left();
      var start := offset + 1;
      assert s[1..] == content[start..];
      var end, skipped := ScanLiteral(content, start);
      if end.None? {
        return None;
      }
      assert s[1..end.value - offset] == content[start..end.value];
      var output := DecodeLiteral(content, start, end.value, skipped);
      if output.None? {
        return None;
      }
      assert s[end.value + 1 - offset..] == content[end.value + 1..];
      offset := end.value + 1;
      r := Some(JsonTree.CutAtNul(output.value));
    }

    method ParseNumber() returns (r: Option<JsonTree.Json>)
      requires Valid()
      modifies this`offset
      ensures Valid()
      ensures var p := JsonTree.ParseNumber(old(Left()), reader);
              if p.Bad? then r.None? else r == Some(p.value) && Left() == p.rest
    {
      ghost var s := Left();
      ghost var run := JsonTree.NumberRun(s);
      var i := 0;
      while CanAccess(i) && JsonTree.IsNumberChar(content[offset + i])
        invariant offset + i <= |content|
        invariant i + |JsonTree.NumberRun(content[offset + i..])| == |run|
        decreases |content| - offset - i
      {
        assert content[offset + i..][1..] == content[offset + i + 1..];
        i := i + 1;
      }
      var digits := content[offset..offset + i];
      assert digits == s[..i] == run;
      var (number, taken) := reader(digits);
      if taken == 0 || taken > |digits| {
        return None;
      }
      assert s[taken..] == content[offset + taken..];
      offset := offset + taken;
      r := Some(JsonTree.Number(number));
    }

    predicate AtWord(word: string)
      requires Valid()
      reads this
    {
      offset + |word| <= |content| && content[offset..offset + |word|] == word
    }

    lemma AtWordIs(word: string)
      requires Valid()
      ensures AtWord(word) == JsonTree.StartsWith(Left(), word)
      ensures AtWord(word) ==> Left()[|word|..] == content[offset + |word|..]
    {
      if offset + |word| <= |content| {
        assert Left()[..|word|] == content[offset..offset + |word|];
      }
    }

    /** parse_value: what it reads, where it leaves the offset, and that a success restores the depth. */
    method ParseValue() returns (r: Option<JsonTree.Json>)
      requires Valid()
      modifies this
      ensures Valid()
      ensures var p := JsonTree.ParseValue(old(Left()), old(depth), reader);
              if p.Bad? then r.None? else r == Some(p.value) && Left() == p.rest && depth == old(depth)
      decreases |content| - offset, 2
    {
      AtWordIs("null");
      AtWordIs("false");
      AtWordIs("true");
      if AtWord("null") {
        offset := offset + 4;
        return Some(JsonTree.Null);
      }
      if AtWord("false") {
        offset := offset + 5;
        return Some(JsonTree.False);
      }
      if AtWord("true") {
        offset := offset + 4;
        return Some(JsonTree.True);
      }
      if !CanAccess(0) {
        return None;
      }
      var c := content[offset];
      if c == '\"' {
        var s := ParseString();
        if s.None? {
          return None;
        }
        return Some(JsonTree.String(s.value));
      }
      if c == '-' || IsDigit(c) {
        r := ParseNumber();
      } else if c == '[' {
        r := ParseArray();
      } else if c == '{' {
        r := ParseObject();
      } else {
        r := None;
      }
    }

    method ParseArray() returns (r: Option<JsonTree.Json>)
      requires Valid() && offset < |content| && content[offset] == '['
      modifies this
      ensures Valid()
      ensures var p := JsonTree.ParseArray(old(Left()), old(depth), reader);
              if p.Bad? then r.None? else r == Some(p.value) && Left() == p.rest && depth == old(depth)
      decreases |content| - offset, 1
    {
      hide JsonTree.SkipSpace, JsonTree.ParseItems;
      Next();
      if depth >= JsonTree.NESTING_LIMIT {
        return None;
      }
      depth := depth + 1;
      offset := offset + 1;
      SkipWhitespace();
      if CanAccess(0) && content[offset] == ']' {
        Next();
        depth, offset := depth - 1, offset + 1;
        return Some(JsonTree.Array([]));
      }
      if !CanAccess(0) {
        return None;
      }
      var items := ParseItems();
      if items.None? {
        return None;
      }
      depth := depth - 1;
      r := Some(JsonTree.Array(items.value));
    }

    /** One round of the element loop: white space, a value, white space. */
    method ParseItem() returns (r: Option<JsonTree.Json>)
      requires Valid()
      modifies this
      ensures Valid()
      ensures var p := JsonTree.ParseItem(old(Left()), old(depth), reader);
              if p.None? then r.None? else r == Some(p.value.0) && Left() == p.value.1 && depth == old(depth)
      decreases |content| - offset, 3
    {
      SkipWhitespace();
      r := ParseValue();
      if r.Some? {
        SkipWhitespace();
      }
    }

    /** One element and the comma or closing bracket behind it; more says which. */
    method ItemRound() returns (r: Option<JsonTree.Json>, more: bool)
      requires Valid()
      modifies this
      ensures Valid()
      ensures var p := ItemRoundOf(old(Left()), old(depth), reader);
              if p.None? then r.None?
              else
                r == Some(p.value.0) && more == p.value.1 && Left() == p.value.2 && depth == old(depth) &&
                offset > old(offset)
      decreases |content| - offset, 4
    {
      hide JsonTree.ParseItem;
      more := false;
      r := ParseItem();
      if r.Some? {
        if !CanAccess(0) {
          return None, false;
        }
        assert Left()[1..] == content[offset + 1..];
        more := content[offset] == ',';
        if !more && content[offset] != ']' {
          return None, false;
        }
        offset := offset + 1;
      }
    }

    /** The loop over the elements, up to and with the closing bracket. */
    method ParseItems() returns (r: Option<seq<JsonTree.Json>>)
      requires Valid()
      modifies this
      ensures Valid()
      ensures var p := JsonTree.ParseItems(old(Left()), old(depth), reader);
              if p.BadItems? then r.None? else r == Some(p.items) && Left() == p.rest && depth == old(depth)
      decreases |content| - offset, 5
    {
      hide JsonTree.ParseItems, ItemRoundOf, Before;
      var items: seq<JsonTree.Json> := [];
      ghost var s, level := Left(), depth;
      BeforeNone(JsonTree.ParseItems(s, level, reader));
      var more := true;
      while more
        invariant Valid() && depth == level && old(offset) <= offset <= |content|
        invariant more ==>
                    JsonTree.ParseItems(s, level, reader) == Before(items, JsonTree.ParseItems(Left(), level, reader))
        invariant !more ==> JsonTree.ParseItems(s, level, reader) == JsonTree.GoodItems(items, Left())
        decreases more, |content| - offset
      {
        ItemsStep(items, Left(), level, reader);
        var next: Option<JsonTree.Json>;
        next, more := ItemRound();
        if next.None? {
          return None;
        }
        items := items + [next.value];
      }
      r := Some(items);
    }

    method ParseObject() returns (r: Option<JsonTree.Json>)
      requires Valid() && offset < |content| && content[offset] == '{'
      modifies this
      ensures Valid()
      ensures var p := JsonTree.ParseObject(old(Left()), old(depth), reader);
              if p.Bad? then r.None? else r == Some(p.value) && Left() == p.rest && depth == old(depth)
      decreases |content| - offset, 1
    {
      hide JsonTree.SkipSpace, JsonTree.ParseMembers;
      Next();
      if depth >= JsonTree.NESTING_LIMIT {
        return None;
      }
      depth := depth + 1;
      offset := offset + 1;
      SkipWhitespace();
      if CanAccess(0) && content[offset] == '}' {
        Next();
        depth, offset := depth - 1, offset + 1;
        return Some(JsonTree.Object([]));
      }
      if !CanAccess(0) {
        return None;
      }
      var members := ParseMembers();
      if members.None? {
        return None;
      }
      depth := depth - 1;
      r := Some(JsonTree.Object(members.value));
    }

    /** One round of the member loop: name, colon and value with the white space around them. */
    method ParseMember() returns (r: Option<JsonTree.Member>)
      requires Valid()
      modifies this
      ensures Valid()
      ensures var p := JsonTree.ParseMember(old(Left()), old(depth), reader);
              if p.None? then r.None? else r == Some(p.value.0) && Left() == p.value.1 && depth == old(depth)
      decreases |content| - offset, 3
    {
      hide JsonTree.ParseValue, JsonTree.ParseString, JsonTree.SkipSpace;
      if !CanAccess(0) {
        return None;
      }
      SkipWhitespace();
      var name := ParseString();
      if name.None? {
        return None;
      }
      SkipWhitespace();
      if !CanAccess(0) || content[offset] != ':' {
        return None;
      }
      assert Left()[1..] == content[offset + 1..];
      offset := offset + 1;
      SkipWhitespace();
      var value := ParseValue();
      if value.None? {
        return None;
      }
      SkipWhitespace();
      r := Some(JsonTree.Member(name.value, value.value));
    }

    /** One member and the comma or closing brace behind it; more says which. */
    method MemberRound() returns (r: Option<JsonTree.Member>, more: bool)
      requires Valid()
      modifies this
      ensures Valid()
      ensures var p := MemberRoundOf(old(Left()), old(depth), reader);
              if p.None? then r.None?
              else
                r == Some(p.value.0) && more == p.value.1 && Left() == p.value.2 && depth == old(depth) &&
                offset > old(offset)
      decreases |content| - offset, 4
    {
      hide JsonTree.ParseMember;
      more := false;
      r := ParseMember();
      if r.Some? {
        if !CanAccess(0) {
          return None, false;
        }
        assert Left()[1..] == content[offset + 1..];
        more := content[offset] == ',';
        if !more && content[offset] != '}' {
          return None, false;
        }
        offset := offset + 1;
      }
    }

    /** The loop over the members, up to and with the closing brace. */
    method ParseMembers() returns (r: Option<seq<JsonTree.Member>>)
      requires Valid()
      modifies this
      ensures Valid()
      ensures var p := JsonTree.ParseMembers(old(Left()), old(depth), reader);
              if p.BadMembers? then r.None? else r == Some(p.members) && Left() == p.rest && depth == old(depth)
      decreases |content| - offset, 5
    {
      hide JsonTree.ParseMembers, MemberRoundOf, Behind;
      var members: seq<JsonTree.Member> := [];
      ghost var s, level := Left(), depth;
      BehindNone(JsonTree.ParseMembers(s, level, reader));
      var more := true;
      while more
        invariant Valid() && depth == level && old(offset) <= offset <= |content|
        invariant more ==>
                    JsonTree.ParseMembers(s, level, reader) == Behind(members, JsonTree.ParseMembers(Left(), level, reader))
        invariant !more ==> JsonTree.ParseMembers(s, level, reader) == JsonTree.GoodMembers(members, Left())
        decreases more, |content| - offset
      {
        MembersStep(members, Left(), level, reader);
        var next: Option<JsonTree.Member>;
        next, more := MemberRound();
        if next.None? {
          return None;
        }
        members := members + [next.value];
      }
      r := Some(members);
    }
  }

  /** cJSON_ParseWithLengthOpts; a success says where the text behind the value starts. */
  method ParseWithLengthOpts(content: string, requireNul: bool, reader: JsonTree.Reader)
    returns (r: Option<JsonTree.Json>, end: nat)
    ensures var p := JsonTree.ParseDocument(content, requireNul, reader);
            if p.Bad? then r.None? else r == Some(p.value) && end <= |content| && content[end..] == p.rest
  {
    hide JsonTree.ParseValue, JsonTree.SkipSpace;
    end := 0;
    if content == "" {
      return None, end;
    }
    var input := new ParseBuffer(content, reader);
    if input.CanAccess(4) && content[0] as int == 0xEF && content[1] as int == 0xBB && content[2] as int == 0xBF {
      input.offset := 3;
    }
    assert content[0..] == content;
    input.SkipWhitespace();
    r := input.ParseValue();
    if r.None? {
      return;
    }
    if requireNul {
      input.SkipWhitespace();
      if input.offset >= |content| || content[input.offset] != '\0' {
        return None, end;
      }
    }
    end := input.offset;
  }

  ghost function Before(items: seq<JsonTree.Json>, r: JsonTree.ParsedItems): (b: JsonTree.ParsedItems) {
    if r.BadItems? then r else JsonTree.GoodItems(items + r.items, r.rest)
  }

  lemma BeforeNone(r: JsonTree.ParsedItems)
    ensures Before([], r) == r
  {
    if r.GoodItems? {
      assert [] + r.items == r.items;
    }
  }

  /** An element of a list, whether a comma stands behind it, and the text behind that. */
  ghost function ItemRoundOf(s: string, depth: nat, reader: JsonTree.Reader): (r: Option<(JsonTree.Json, bool, string)>) {
    var first := JsonTree.ParseItem(s, depth, reader);
    if first.None? then None
    else
      var (x, t) := first.value;
      if t != "" && t[0] == ',' then Some((x, true, t[1..]))
      else if t != "" && t[0] == ']' then Some((x, false, t[1..]))
      else None
  }

  lemma ItemsStep(xs: seq<JsonTree.Json>, s: string, depth: nat, reader: JsonTree.Reader)
    ensures var round := ItemRoundOf(s, depth, reader);
            var r := Before(xs, JsonTree.ParseItems(s, depth, reader));
            if round.None? then r.BadItems?
            else
              var (x, more, t) := round.value;
              r == if more then Before(xs + [x], JsonTree.ParseItems(t, depth, reader))
                   else JsonTree.GoodItems(xs + [x], t)
  {
    hide JsonTree.ParseItem;
    var round := ItemRoundOf(s, depth, reader);
    if round.Some? && round.value.1 {
      var others := JsonTree.ParseItems(round.value.2, depth, reader);
      if others.GoodItems? {
        assert xs + ([round.value.0] + others.items) == xs + [round.value.0] + others.items;
      }
    }
  }

  ghost function Behind(members: seq<JsonTree.Member>, r: JsonTree.ParsedMembers): (b: JsonTree.ParsedMembers) {
    if r.BadMembers? then r else JsonTree.GoodMembers(members + r.members, r.rest)
  }

  lemma BehindNone(r: JsonTree.ParsedMembers)
    ensures Behind([], r) == r
  {
    if r.GoodMembers? {
      assert [] + r.members == r.members;
    }
  }

  /** An element of a list, whether a comma stands behind it, and the text behind that. */
  ghost function MemberRoundOf(s: string, depth: nat, reader: JsonTree.Reader): (r: Option<(JsonTree.Member, bool, string)>) {
    var first := JsonTree.ParseMember(s, depth, reader);
    if first.None? then None
    else
      var (x, t) := first.value;
      if t != "" && t[0] == ',' then Some((x, true, t[1..]))
      else if t != "" && t[0] == '}' then Some((x, false, t[1..]))
      else None
  }

  lemma MembersStep(xs: seq<JsonTree.Member>, s: string, depth: nat, reader: JsonTree.Reader)
    ensures var round := MemberRoundOf(s, depth, reader);
            var r := Behind(xs, JsonTree.ParseMembers(s, depth, reader));
            if round.None? then r.BadMembers?
            else
              var (x, more, t) := round.value;
              r == if more then Behind(xs + [x], JsonTree.ParseMembers(t, depth, reader))
                   else JsonTree.GoodMembers(xs + [x], t)
  {
    hide JsonTree.ParseMember;
    var round := MemberRoundOf(s, depth, reader);
    if round.Some? && round.value.1 {
      var others := JsonTree.ParseMembers(round.value.2, depth, reader);
      if others.GoodMembers? {
        assert xs + ([round.value.0] + others.members) == xs + [round.value.0] + others.members;
      }
    }
  }
}
