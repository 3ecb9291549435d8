/** The texts the parser accepts, by their grammar (RFC 8259, as the parser widens it), and what it reads from each. */
module JsonGrammar {
  import opened CText
  import opened JsonAccepted
  import opened JsonLiterals
  import opened JsonRoundTrip
  import opened JsonStrings
  import opened JsonTree
  import opened Words

  // ----- the grammar -----

  /** t is s without some white space in front; every control character counts as white space. */
  ghost predicate Behind(s: string, t: string) {
    exists ws: string :: s == ws + t && forall i :: 0 <= i < |ws| ==> ws[i] as int <= 32
  }

  /** The text s starts with the value v, and rest stands behind it. */
  ghost predicate Spells(s: string, v: Json, rest: string, reader: Reader)
    decreases v, 2
  {
    match v
    case Null => s == "null" + rest
    case False => s == "false" + rest
    case True => s == "true" + rest
    case Number(d) => exists run :: NumberAt(s, run, d, rest, reader)
    case String(t) => LiteralAt(s, t, rest)
    case Array(items) =>
      if items == [] then exists w :: s == "[" + w && Behind(w, "]" + rest)
      else exists ts: seq<string> :: ItemsAt(ts, items, rest, reader) && s == "[" + ts[0]
    case Object(members) =>
      if members == [] then exists w :: s == "{" + w && Behind(w, "}" + rest)
      else exists ts: seq<string> :: MembersAt(ts, members, rest, reader) && s == "{" + ts[0]
  }

  predicate InNumber(c: char) {
    c in "0123456789+-eE."
  }

  ghost predicate LongestRun(s: string, run: string) {
    run <= s && (forall i :: 0 <= i < |run| ==> InNumber(run[i])) && (|run| < |s| ==> !InNumber(s[|run|]))
  }

  /** The longest run of number characters is handed to strtod, which may take less than all of it. */
  ghost predicate NumberAt(s: string, run: string, d: real, rest: string, reader: Reader) {
    && s != "" && s[0] in "-0123456789" && LongestRun(s, run)
    && reader(run).0 == d && 0 < reader(run).1 <= |run| && rest == s[reader(run).1..]
  }

  /** Element i stands in ts[i], in front of a comma and ts[i + 1], or the last one of the bracket and the rest. */
  ghost predicate ItemsAt(ts: seq<string>, items: seq<Json>, rest: string, reader: Reader)
    decreases items, 1
  {
    && |ts| == |items| + 1 && ts[|items|] == rest
    && forall i :: 0 <= i < |items| ==>
      ItemAt(ts[i], items[i], (if i + 1 < |items| then "," else "]") + ts[i + 1], reader)
  }

  /** White space, the element, and white space in front of what stands behind. */
  ghost predicate ItemAt(s: string, v: Json, after: string, reader: Reader)
    decreases v, 3
  {
    exists t, u :: Behind(s, t) && Spells(t, v, u, reader) && Behind(u, after)
  }

  ghost predicate MembersAt(ts: seq<string>, members: seq<Member>, rest: string, reader: Reader)
    decreases members, 1
  {
    && |ts| == |members| + 1 && ts[|members|] == rest
    && forall i :: 0 <= i < |members| ==>
      MemberAt(ts[i], members[i], (if i + 1 < |members| then "," else "}") + ts[i + 1], reader)
  }

  /** Name, colon and value with white space around each. */
  ghost predicate MemberAt(s: string, m: Member, after: string, reader: Reader)
    decreases m, 3
  {
    exists t, u, w ::
      Behind(s, t) && LiteralAt(t, m.key, u) && Behind(u, ":" + w) && ItemAt(w, m.value, after, reader)
  }

  // ----- white space -----

  lemma SkipIsBehind(s: string)
    ensures Behind(s, SkipSpace(s))
  {
    var r := DropSpace(s);
    DropIsBehind(s);
    if r == "" && s != "" {
      assert s == s[..|s| - 1] + s[|s| - 1..];
    }
  }

  lemma {:induction false} DropIsBehind(s: string)
    ensures Behind(s, DropSpace(s))
  {
    if s != "" && s[0] as int <= 32 {
      DropIsBehind(s[1..]);
      BehindOne(s, DropSpace(s));
    } else {
      BehindItself(s);
    }
  }

  lemma BehindOne(s: string, t: string)
    requires s != "" && s[0] as int <= 32 && Behind(s[1..], t)
    ensures Behind(s, t)
  {
    var ws :| s[1..] == ws + t && forall i :: 0 <= i < |ws| ==> ws[i] as int <= 32;
    assert s == ([s[0]] + ws) + t;
  }

  lemma BehindSkips(s: string, t: string)
    requires Behind(s, t) && t != "" && t[0] as int > 32
    ensures SkipSpace(s) == t
  {
    var ws :| s == ws + t && forall i :: 0 <= i < |ws| ==> ws[i] as int <= 32;
    SkipBlank(ws, t);
  }

  lemma BehindItself(s: string)
    ensures Behind(s, s)
  {
    assert s == "" + s;
  }

  // ----- every text that is read is in the grammar -----

  lemma NumberChar(c: char)
    ensures IsNumberChar(c) <==> InNumber(c)
  {
  }

  lemma {:induction false} RunIsLongest(s: string)
    ensures LongestRun(s, NumberRun(s))
  {
    hide InNumber, IsNumberChar;
    if s != "" {
      NumberChar(s[0]);
      if IsNumberChar(s[0]) {
        RunIsLongest(s[1..]);
      }
    }
  }

  lemma {:induction false} Sound(s: string, depth: nat, reader: Reader)
    requires ParseValue(s, depth, reader).Good?
    ensures var r := ParseValue(s, depth, reader); Spells(s, r.value, r.rest, reader)
    decreases |s|, 2
  {
    hide ParseString, LiteralAt, SkipSpace, Behind, ItemAt, MemberAt;
    if StartsWith(s, "null") {
      assert s == "null" + s[4..];
    } else if StartsWith(s, "false") {
      assert s == "false" + s[5..];
    } else if StartsWith(s, "true") {
      assert s == "true" + s[4..];
    } else if s[0] == '\"' {
      LiteralIff(s, ParseString(s).value.0, ParseString(s).value.1);
    } else if s[0] == '-' || IsDigit(s[0]) {
      RunIsLongest(s);
      assert NumberAt(s, NumberRun(s), reader(NumberRun(s)).0, s[reader(NumberRun(s)).1..], reader);
    } else if s[0] == '[' {
      ArraySound(s, depth, reader);
    } else {
      ObjectSound(s, depth, reader);
    }
  }

  lemma {:induction false} ArraySound(s: string, depth: nat, reader: Reader)
    requires s != "" && s[0] == '[' && ParseArray(s, depth, reader).Good?
    ensures var r := ParseArray(s, depth, reader); Spells(s, r.value, r.rest, reader)
    decreases |s|, 1
  {
    var t := SkipSpace(s[1..]);
    SkipIsBehind(s[1..]);
    assert s == "[" + s[1..];
    if t[0] == ']' {
      assert t == "]" + t[1..];
    } else {
      var ts := ItemsSound(t, depth + 1, reader);
      var r := ParseItems(t, depth + 1, reader);
      FirstItemBehind(s[1..], ts, r.items, r.rest, reader);
    }
  }

  lemma FirstItemBehind(s: string, ts: seq<string>, items: seq<Json>, rest: string, reader: Reader)
    requires items != [] && ItemsAt(ts, items, rest, reader) && Behind(s, ts[0])
    ensures ItemsAt(ts[0 := s], items, rest, reader)
  {
    hide Spells;
    var after := (if 1 < |items| then "," else "]") + ts[1];
    assert ItemAt(ts[0], items[0], (if 0 + 1 < |items| then "," else "]") + ts[0 + 1], reader);
    var t, u :| Behind(ts[0], t) && Spells(t, items[0], u, reader) && Behind(u, after);
    BehindTwice(s, ts[0], t);
    assert ItemAt(s, items[0], after, reader);
  }

  lemma BehindTwice(s: string, t: string, u: string)
    requires Behind(s, t) && Behind(t, u)
    ensures Behind(s, u)
  {
    var ws :| s == ws + t && forall i :: 0 <= i < |ws| ==> ws[i] as int <= 32;
    var more :| t == more + u && forall i :: 0 <= i < |more| ==> more[i] as int <= 32;
    assert s == (ws + more) + u;
  }

  lemma ItemsFront(s: string, item: Json, ts: seq<string>, items: seq<Json>, rest: string, reader: Reader)
    requires items != [] && ItemsAt(ts, items, rest, reader) && ItemAt(s, item, "," + ts[0], reader)
    ensures ItemsAt([s] + ts, [item] + items, rest, reader)
  {
    hide ItemAt;
    var ss, all := [s] + ts, [item] + items;
    forall i | 0 <= i < |all|
      ensures ItemAt(ss[i], all[i], (if i + 1 < |all| then "," else "]") + ss[i + 1], reader)
    {
      if i > 0 {
        assert ItemAt(ts[i - 1], items[i - 1], (if i - 1 + 1 < |items| then "," else "]") + ts[i - 1 + 1], reader);
      }
    }
  }

  lemma {:induction false} ItemsSound(s: string, depth: nat, reader: Reader) returns (ts: seq<string>)
    requires ParseItems(s, depth, reader).GoodItems?
    ensures var r := ParseItems(s, depth, reader);
      r.items != [] && ItemsAt(ts, r.items, r.rest, reader) && ts[0] == s
    decreases |s|, 4
  {
    hide ParseValue, SkipSpace, ItemAt;
    var (item, t) := ParseItem(s, depth, reader).value;
    ValueSound(s, depth, reader);
    if t[0] == ',' {
      var others := ItemsSound(t[1..], depth, reader);
      assert t == "," + t[1..];
      ts := [s] + others;
      var r := ParseItems(t[1..], depth, reader);
      hide ParseItems;
      ItemsFront(s, item, others, r.items, r.rest, reader);
    } else {
      assert t == "]" + t[1..];
      ts := [s, t[1..]];
    }
  }

  lemma {:induction false} ValueSound(s: string, depth: nat, reader: Reader)
    requires ParseValue(SkipSpace(s), depth, reader).Good?
    ensures var r := ParseValue(SkipSpace(s), depth, reader); ItemAt(s, r.value, SkipSpace(r.rest), reader)
    decreases |s|, 3
  {
    hide Spells, Behind, ParseValue, SkipSpace;
    var r := ParseValue(SkipSpace(s), depth, reader);
    SkipIsBehind(s);
    SkipIsBehind(r.rest);
    Sound(SkipSpace(s), depth, reader);
  }

  lemma {:induction false} ObjectSound(s: string, depth: nat, reader: Reader)
    requires s != "" && s[0] == '{' && ParseObject(s, depth, reader).Good?
    ensures var r := ParseObject(s, depth, reader); Spells(s, r.value, r.rest, reader)
    decreases |s|, 1
  {
    var t := SkipSpace(s[1..]);
    SkipIsBehind(s[1..]);
    assert s == "{" + s[1..];
    if t[0] == '}' {
      assert t == "}" + t[1..];
    } else {
      var ts := MembersSound(t, depth + 1, reader);
      var r := ParseMembers(t, depth + 1, reader);
      FirstMemberBehind(s[1..], ts, r.members, r.rest, reader);
    }
  }

  lemma FirstMemberBehind(s: string, ts: seq<string>, members: seq<Member>, rest: string, reader: Reader)
    requires members != [] && MembersAt(ts, members, rest, reader) && Behind(s, ts[0])
    ensures MembersAt(ts[0 := s], members, rest, reader)
  {
    hide ItemAt, LiteralAt;
    var after := (if 1 < |members| then "," else "}") + ts[1];
    assert MemberAt(ts[0], members[0], (if 0 + 1 < |members| then "," else "}") + ts[0 + 1], reader);
    var m := members[0];
    var t, u, w :|
      Behind(ts[0], t) && LiteralAt(t, m.key, u) && Behind(u, ":" + w) && ItemAt(w, m.value, after, reader);
    BehindTwice(s, ts[0], t);
    assert MemberAt(s, m, after, reader);
  }

  lemma MembersFront(s: string, m: Member, ts: seq<string>, members: seq<Member>, rest: string, reader: Reader)
    requires members != [] && MembersAt(ts, members, rest, reader) && MemberAt(s, m, "," + ts[0], reader)
    ensures MembersAt([s] + ts, [m] + members, rest, reader)
  {
    hide MemberAt;
    var ss, all := [s] + ts, [m] + members;
    forall i | 0 <= i < |all|
      ensures MemberAt(ss[i], all[i], (if i + 1 < |all| then "," else "}") + ss[i + 1], reader)
    {
      if i > 0 {
        assert MemberAt(ts[i - 1], members[i - 1], (if i - 1 + 1 < |members| then "," else "}") + ts[i - 1 + 1], reader);
      }
    }
  }

  lemma {:induction false} MembersSound(s: string, depth: nat, reader: Reader) returns (ts: seq<string>)
    requires ParseMembers(s, depth, reader).GoodMembers?
    ensures var r := ParseMembers(s, depth, reader);
      r.members != [] && MembersAt(ts, r.members, r.rest, reader) && ts[0] == s
    decreases |s|, 4
  {
    hide MemberAt, ParseMember, ParseValue, ParseString, SkipSpace, Spells, ItemAt;
    MemberSound(s, depth, reader);
    var (member, t) := ParseMember(s, depth, reader).value;
    if t[0] == ',' {
      var others := MembersSound(t[1..], depth, reader);
      assert t == "," + t[1..];
      ts := [s] + others;
      var r := ParseMembers(t[1..], depth, reader);
      hide ParseMembers;
      MembersFront(s, member, others, r.members, r.rest, reader);
    } else {
      assert t == "}" + t[1..];
      ts := [s, t[1..]];
    }
  }

  lemma {:induction false} MemberSound(s: string, depth: nat, reader: Reader)
    requires ParseMember(s, depth, reader).Some?
    ensures var r := ParseMember(s, depth, reader); MemberAt(s, r.value.0, r.value.1, reader)
    decreases |s|, 3
  {
    hide Spells, Behind, ParseValue, SkipSpace, ParseString, LiteralAt, ItemAt;
    var name := ParseString(SkipSpace(s));
    var c := SkipSpace(name.value.1);
    SkipIsBehind(s);
    SkipIsBehind(name.value.1);
    assert c == ":" + c[1..];
    LiteralIff(SkipSpace(s), name.value.0, name.value.1);
    ValueSound(c[1..], depth, reader);
  }

  // ----- every text in the grammar is read -----

  lemma LiteralStart()
    ensures forall s, t, rest :: LiteralAt(s, t, rest) ==> s != "" && s[0] == '\"'
  {
  }

  lemma SpellingStarts(s: string, v: Json, rest: string, reader: Reader)
    requires Spells(s, v, rest, reader)
    ensures s != "" && StartChar(s[0])
  {
    LiteralStart();
    hide ItemsAt, MembersAt, Behind;
  }

  lemma {:induction false} RunIsRead(s: string, run: string)
    requires LongestRun(s, run)
    ensures NumberRun(s) == run
  {
    hide InNumber, IsNumberChar;
    if s != "" {
      NumberChar(s[0]);
      if run != "" {
        assert run[0] == s[0];
        RunIsRead(s[1..], run[1..]);
        assert run == [run[0]] + run[1..];
      }
    }
  }

  lemma Joined(word: string, rest: string)
    ensures (word + rest)[..|word|] == word && (word + rest)[|word|..] == rest
  {
  }

  lemma WordRead(rest: string, depth: nat, reader: Reader)
    ensures ParseValue("null" + rest, depth, reader) == Good(Null, rest)
    ensures ParseValue("false" + rest, depth, reader) == Good(False, rest)
    ensures ParseValue("true" + rest, depth, reader) == Good(True, rest)
  {
    hide ParseString, ParseNumber, ParseArray, ParseObject;
    Joined("null", rest);
    Joined("false", rest);
    Joined("true", rest);
    assert ("false" + rest)[0] == 'f' && ("true" + rest)[0] == 't';
  }

  /** Apart from the three words, the first character decides. */
  lemma ByFirstChar(s: string, depth: nat, reader: Reader)
    requires s != ""
    ensures s[0] == '\"' && ParseString(s).Some? ==>
      ParseValue(s, depth, reader) == Good(String(ParseString(s).value.0), ParseString(s).value.1)
    ensures s[0] in "-0123456789" ==> ParseValue(s, depth, reader) == ParseNumber(s, reader)
    ensures s[0] == '[' ==> ParseValue(s, depth, reader) == ParseArray(s, depth, reader)
    ensures s[0] == '{' ==> ParseValue(s, depth, reader) == ParseObject(s, depth, reader)
  {
    hide ParseString, ParseNumber, ParseArray, ParseObject;
  }

  lemma NumberComplete(s: string, d: real, rest: string, depth: nat, reader: Reader)
    requires Spells(s, Number(d), rest, reader)
    ensures ParseValue(s, depth, reader) == Good(Number(d), rest)
  {
    hide LongestRun, ParseValue;
    var run :| NumberAt(s, run, d, rest, reader);
    RunIsRead(s, run);
    ByFirstChar(s, depth, reader);
  }

  /** The grammar determines what is read: every text in it that nests within the limit yields its value. */
  lemma {:induction false} Complete(s: string, v: Json, rest: string, depth: nat, reader: Reader)
    requires Spells(s, v, rest, reader) && NestedWithin(v, NESTING_LIMIT - depth)
    ensures ParseValue(s, depth, reader) == Good(v, rest)
    decreases v, 2
  {
    SpellingStarts(s, v, rest, reader);
    ByFirstChar(s, depth, reader);
    WordRead(rest, depth, reader);
    hide ParseValue, ParseString, LiteralAt, ParseArray, ParseObject, NestedWithin, ItemsAt, MembersAt, Behind,
         NumberAt;
    match v
    case Null =>
    case False =>
    case True =>
    case Number(d) => NumberComplete(s, d, rest, depth, reader);
    case String(t) => LiteralIff(s, t, rest);
    case Array(items) =>
      ArrayComplete(s, items, rest, depth, reader);
    case Object(members) =>
      ObjectComplete(s, members, rest, depth, reader);
  }

  lemma {:induction false} ArrayComplete(s: string, items: seq<Json>, rest: string, depth: nat, reader: Reader)
    requires Spells(s, Array(items), rest, reader) && NestedWithin(Array(items), NESTING_LIMIT - depth)
    ensures s != "" && s[0] == '[' && ParseArray(s, depth, reader) == Good(Array(items), rest)
    decreases items, 1
  {
    hide Behind, SkipSpace, ItemAt, ParseItems;
    if items == [] {
      var w :| s == "[" + w && Behind(w, "]" + rest);
      BehindSkips(w, "]" + rest);
      assert s[1..] == w;
    } else {
      var ts :| ItemsAt(ts, items, rest, reader) && s == "[" + ts[0];
      assert s[1..] == ts[0];
      assert ItemAt(ts[0], items[0], (if 0 + 1 < |items| then "," else "]") + ts[0 + 1], reader);
      var t := ItemTrimmed(ts[0], items[0], (if 1 < |items| then "," else "]") + ts[1], reader);
      BehindSkips(ts[0], t);
      ItemsComplete(ts[0 := t], items, rest, depth + 1, reader);
    }
  }

  /** The same element without the white space in front of it. */
  lemma ItemTrimmed(s: string, v: Json, after: string, reader: Reader) returns (t: string)
    requires ItemAt(s, v, after, reader)
    ensures Behind(s, t) && ItemAt(t, v, after, reader) && t != "" && StartChar(t[0])
  {
    var u :| exists t0 :: Behind(s, t0) && Spells(t0, v, u, reader) && Behind(u, after);
    t :| Behind(s, t) && Spells(t, v, u, reader) && Behind(u, after);
    BehindItself(t);
    SpellingStarts(t, v, u, reader);
    hide Spells, Behind;
    assert ItemAt(t, v, after, reader);
  }

  lemma {:induction false} ItemsComplete(ts: seq<string>, items: seq<Json>, rest: string, depth: nat, reader: Reader)
    requires items != [] && ItemsAt(ts, items, rest, reader)
    requires forall i :: 0 <= i < |items| ==> NestedWithin(items[i], NESTING_LIMIT - depth)
    ensures ParseItems(ts[0], depth, reader) == GoodItems(items, rest)
    decreases items, 0
  {
    var last := |items| == 1;
    var after := (if last then "]" else ",") + ts[1];
    assert ItemAt(ts[0], items[0], (if 0 + 1 < |items| then "," else "]") + ts[0 + 1], reader);
    ItemComplete(ts[0], items[0], after, depth, reader);
    hide ItemAt, ParseItem, NestedWithin, ItemsAt;
    assert after[1..] == ts[1];
    assert items == [items[0]] + items[1..];
    if !last {
      RestOfItems(ts, items, rest, reader);
      ItemsComplete(ts[1..], items[1..], rest, depth, reader);
    }
  }

  lemma RestOfItems(ts: seq<string>, items: seq<Json>, rest: string, reader: Reader)
    requires items != [] && ItemsAt(ts, items, rest, reader)
    ensures ItemsAt(ts[1..], items[1..], rest, reader)
  {
    hide ItemAt;
    forall i | 0 <= i < |items| - 1
      ensures ItemAt(ts[1..][i], items[1..][i], (if i + 1 < |items| - 1 then "," else "]") + ts[1..][i + 1], reader)
    {
      assert ItemAt(ts[i + 1], items[i + 1], (if i + 1 + 1 < |items| then "," else "]") + ts[i + 1 + 1], reader);
    }
  }

  lemma {:induction false} ItemComplete(s: string, v: Json, after: string, depth: nat, reader: Reader)
    requires ItemAt(s, v, after, reader) && NestedWithin(v, NESTING_LIMIT - depth)
    requires after != "" && after[0] as int > 32
    ensures ParseItem(s, depth, reader) == Some((v, after))
    decreases v, 3
  {
    var t, u :| Behind(s, t) && Spells(t, v, u, reader) && Behind(u, after);
    SpellingStarts(t, v, u, reader);
    BehindSkips(s, t);
    BehindSkips(u, after);
    Complete(t, v, u, depth, reader);
    hide Spells, Behind, SkipSpace, ParseValue, NestedWithin;
  }

  lemma {:induction false} ObjectComplete(s: string, members: seq<Member>, rest: string, depth: nat, reader: Reader)
    requires Spells(s, Object(members), rest, reader) && NestedWithin(Object(members), NESTING_LIMIT - depth)
    ensures s != "" && s[0] == '{' && ParseObject(s, depth, reader) == Good(Object(members), rest)
    decreases members, 1
  {
    hide Behind, SkipSpace, MemberAt, ParseMembers;
    if members == [] {
      var w :| s == "{" + w && Behind(w, "}" + rest);
      BehindSkips(w, "}" + rest);
      assert s[1..] == w;
    } else {
      var ts :| MembersAt(ts, members, rest, reader) && s == "{" + ts[0];
      assert s[1..] == ts[0];
      assert MemberAt(ts[0], members[0], (if 0 + 1 < |members| then "," else "}") + ts[0 + 1], reader);
      var t := MemberTrimmed(ts[0], members[0], (if 1 < |members| then "," else "}") + ts[1], reader);
      BehindSkips(ts[0], t);
      MembersComplete(ts[0 := t], members, rest, depth + 1, reader);
    }
  }

  /** The same member without the white space in front of it. */
  lemma MemberTrimmed(s: string, m: Member, after: string, reader: Reader) returns (t: string)
    requires MemberAt(s, m, after, reader)
    ensures Behind(s, t) && MemberAt(t, m, after, reader) && t != "" && t[0] == '\"'
  {
    LiteralStart();
    hide ItemAt, Behind, LiteralAt;
    var u, w;
    t, u, w :|
      Behind(s, t) && LiteralAt(t, m.key, u) && Behind(u, ":" + w) && ItemAt(w, m.value, after, reader);
    BehindItself(t);
    assert MemberAt(t, m, after, reader);
  }

  lemma {:induction false} MembersComplete(ts: seq<string>, members: seq<Member>, rest: string, depth: nat,
                                           reader: Reader)
    requires members != [] && MembersAt(ts, members, rest, reader)
    requires forall i :: 0 <= i < |members| ==> NestedWithin(members[i].value, NESTING_LIMIT - depth)
    ensures ParseMembers(ts[0], depth, reader) == GoodMembers(members, rest)
    decreases members, 0
  {
    hide MemberAt, ParseMember, NestedWithin, ParseValue, Spells, ItemAt;
    var last := |members| == 1;
    var after := (if last then "}" else ",") + ts[1];
    assert MemberAt(ts[0], members[0], (if 0 + 1 < |members| then "," else "}") + ts[0 + 1], reader);
    MemberComplete(ts[0], members[0], after, depth, reader);
    hide MembersAt;
    assert after[1..] == ts[1];
    assert members == [members[0]] + members[1..];
    if !last {
      RestOfMembers(ts, members, rest, reader);
      MembersComplete(ts[1..], members[1..], rest, depth, reader);
    }
  }

  lemma RestOfMembers(ts: seq<string>, members: seq<Member>, rest: string, reader: Reader)
    requires members != [] && MembersAt(ts, members, rest, reader)
    ensures MembersAt(ts[1..], members[1..], rest, reader)
  {
    hide MemberAt;
    forall i | 0 <= i < |members| - 1
      ensures MemberAt(ts[1..][i], members[1..][i],
                       (if i + 1 < |members| - 1 then "," else "}") + ts[1..][i + 1], reader)
    {
      assert MemberAt(ts[i + 1], members[i + 1], (if i + 1 + 1 < |members| then "," else "}") + ts[i + 1 + 1], reader);
    }
  }

  lemma {:induction false} MemberComplete(s: string, m: Member, after: string, depth: nat, reader: Reader)
    requires MemberAt(s, m, after, reader) && NestedWithin(m.value, NESTING_LIMIT - depth)
    requires after != "" && after[0] as int > 32
    ensures ParseMember(s, depth, reader) == Some((m, after))
    decreases m, 3
  {
    hide ItemAt, LiteralAt;
    var t, u, w :|
      Behind(s, t) && LiteralAt(t, m.key, u) && Behind(u, ":" + w) && ItemAt(w, m.value, after, reader);
    LiteralIff(t, m.key, u);
    BehindSkips(s, t);
    BehindSkips(u, ":" + w);
    assert (":" + w)[1..] == w;
    ItemComplete(w, m.value, after, depth, reader);
    hide Behind, SkipSpace, ParseValue, NestedWithin, ParseString;
  }

  // ----- the parser is the grammar -----

  /** Reading yields a value if and only if the text spells it and it nests within what is left of the limit. */
  lemma ReadsIff(s: string, v: Json, rest: string, depth: nat, reader: Reader)
    ensures ParseValue(s, depth, reader) == Good(v, rest) <==>
            Spells(s, v, rest, reader) && NestedWithin(v, 1000 - depth)
  {
    hide Spells, ParseValue;
    if ParseValue(s, depth, reader) == Good(v, rest) {
      Sound(s, depth, reader);
      ParsedIsProper(s, depth, reader);
    } else if Spells(s, v, rest, reader) && NestedWithin(v, 1000 - depth) {
      Complete(s, v, rest, depth, reader);
    }
  }

  /** A text of more than four characters may start with a byte order mark. */
  ghost predicate Unmarked(content: string, text: string) {
    || text == content
    || (|content| > 4 && content == [0xEF as char, 0xBB as char, 0xBF as char] + text)
  }

  /** Only white space is left, and it ends with a NUL. */
  ghost predicate OnlyNul(s: string) {
    s != "" && s[|s| - 1] == '\0' && forall i :: 0 <= i < |s| ==> s[i] as int <= 32
  }

  /** Behind a byte order mark and white space the text spells a value that nests at most 1000 deep. */
  ghost predicate DocumentAt(content: string, v: Json, rest: string, reader: Reader) {
    exists text, s ::
      Unmarked(content, text) && Behind(text, s) && Spells(s, v, rest, reader) && NestedWithin(v, 1000)
  }

  /** Whether the parser returns at end, with rest behind the value. */
  ghost predicate EndsAt(rest: string, requireNul: bool, end: string) {
    if requireNul then OnlyNul(rest) && end == "\0" else end == rest
  }

  /**
   A whole text yields a value if and only if it spells the value and, when that is asked for, only white
   space up to a NUL follows.
   */
  lemma DocumentIff(content: string, v: Json, end: string, requireNul: bool, reader: Reader)
    ensures ParseDocument(content, requireNul, reader) == Good(v, end) <==>
            exists rest :: DocumentAt(content, v, rest, reader) && EndsAt(rest, requireNul, end)
  {
    DocumentIs(content, v, end, requireNul, reader);
    var s := SkipSpace(SkipBom(content));
    var r := ParseValue(s, 0, reader);
    hide *;
    if ParseDocument(content, requireNul, reader) == Good(v, end) {
      ReadsIff(s, v, r.rest, 0, reader);
      DocumentSound(content, v, r.rest, reader);
    }
    if rest :| DocumentAt(content, v, rest, reader) && EndsAt(rest, requireNul, end) {
      DocumentComplete(content, v, rest, reader);
      ReadsIff(s, v, rest, 0, reader);
    }
  }

  lemma DocumentIs(content: string, v: Json, end: string, requireNul: bool, reader: Reader)
    ensures var r := ParseValue(SkipSpace(SkipBom(content)), 0, reader);
      ParseDocument(content, requireNul, reader) == Good(v, end) <==>
      content != "" && r.Good? && r.value == v && EndsAt(r.rest, requireNul, end)
  {
    hide ParseValue, SkipBom, SkipSpace, EndsAt;
    var r := ParseValue(SkipSpace(SkipBom(content)), 0, reader);
    if r.Good? {
      EndIs(r.rest, requireNul, end);
    }
  }

  lemma EndIs(rest: string, requireNul: bool, end: string)
    ensures EndsAt(rest, requireNul, end) <==>
            if requireNul then end == SkipSpace(rest) && end != "" && end[0] == '\0' else end == rest
  {
    DropAll(rest);
  }

  lemma {:induction false} DropAll(s: string)
    ensures DropSpace(s) == "" <==> forall i :: 0 <= i < |s| ==> s[i] as int <= 32
  {
    if s != "" && s[0] as int <= 32 {
      DropAll(s[1..]);
      assert forall i :: 0 < i < |s| ==> s[i] == s[1..][i - 1];
    }
  }

  lemma DocumentSound(content: string, v: Json, rest: string, reader: Reader)
    requires Spells(SkipSpace(SkipBom(content)), v, rest, reader) && NestedWithin(v, 1000)
    ensures DocumentAt(content, v, rest, reader)
  {
    hide Spells, NestedWithin, Behind, SkipSpace;
    SkipIsBehind(SkipBom(content));
    assert Unmarked(content, SkipBom(content));
  }

  lemma DocumentComplete(content: string, v: Json, rest: string, reader: Reader)
    requires DocumentAt(content, v, rest, reader)
    ensures content != "" && Spells(SkipSpace(SkipBom(content)), v, rest, reader) && NestedWithin(v, 1000)
  {
    hide Spells, NestedWithin;
    var text, s :|
      Unmarked(content, text) && Behind(text, s) && Spells(s, v, rest, reader) && NestedWithin(v, 1000);
    SpellingStarts(s, v, rest, reader);
    BehindSkips(text, s);
    assert SkipBom(content) == text;
  }
}
