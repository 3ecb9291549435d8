/** The printer of cJSON: a growing buffer with an offset, written piece by piece. */
module PrintBuffers {
  import opened CText
  import opened JsonStrings
  import JsonTree
  import opened PrintedText
  import opened Words

  class PrintBuffer {
    var buffer: array<char>
    var offset: nat
    var depth: nat
    const format: bool
    const noalloc: bool
    const writer: JsonTree.Writer
    /** Whether the allocator can provide a block of this size. */
    const allocates: nat -> bool

    constructor (buffer: array<char>, noalloc: bool, format: bool, writer: JsonTree.Writer, allocates: nat -> bool)
      ensures this.buffer == buffer && offset == 0 && depth == 0
      ensures this.noalloc == noalloc && this.format == format && this.writer == writer && this.allocates == allocates
    {
      this.buffer, this.noalloc, this.format, this.writer, this.allocates := buffer, noalloc, format, writer, allocates;
      offset, depth := 0, 0;
    }

    ghost predicate Valid()
      reads this`buffer, this`offset
    {
      offset < buffer.Length || offset == buffer.Length == 0
    }

    /** How much the buffer can hold, now or after growing. */
    ghost function Capacity(): (n: nat)
      reads this`buffer
    {
      if !noalloc && forall n :: allocates(n) then JsonTree.INT_MAX else Min(buffer.Length, JsonTree.INT_MAX)
    }

    /** What has been written in front of the offset. */
    ghost function Written(): (s: string)
      requires Valid()
      reads this`buffer, this`offset, buffer
    {
      buffer[..offset]
    }

    /** Makes room for needed characters and a NUL behind the offset; what stands in front of it is kept. */
    method Ensure(needed: nat) returns (ok: bool)
      requires Valid()
      modifies this`buffer
      ensures Valid() && Written() == old(Written()) && (buffer == old(buffer) || fresh(buffer))
      ensures Capacity() >= old(Capacity()) && (noalloc ==> buffer == old(buffer))
      ensures ok ==> offset + needed + 1 <= buffer.Length
      ensures offset + needed + 1 <= old(Capacity()) ==> ok
      ensures
        var total, length := offset + needed + 1, old(buffer.Length);
        var newsize := if total <= 0x3FFF_FFFF then 2 * total else 0x7FFF_FFFF;
        && (ok <==>
             && needed <= 0x7FFF_FFFF
             && (total <= length || (!noalloc && total <= 0x7FFF_FFFF && allocates(newsize))))
        && buffer.Length == (if ok && total > length then newsize else length)
    {
      if buffer.Length > 0 && offset >= buffer.Length {
        return false;
      }
      if needed > JsonTree.INT_MAX {
        return false;
      }
      var total := needed + offset + 1;
      if total <= buffer.Length {
        return true;
      }
      if noalloc {
        return false;
      }
      var newsize := total * 2;
      if total > JsonTree.INT_MAX / 2 {
        if total > JsonTree.INT_MAX {
          return false;
        }
        newsize := JsonTree.INT_MAX;
      }
      if !allocates(newsize) {
        return false;
      }
      var old_ := buffer;
      var grown := new char[newsize];
      forall i | 0 <= i < old_.Length {
        grown[i] := old_[i];
      }
      buffer := grown;
      ok := true;
    }

    /** Stores a text from position at on. */
    method Store(at: nat, t: string)
      requires at + |t| <= buffer.Length
      modifies buffer
      ensures buffer[..at + |t|] == old(buffer[..at]) + t
    {
      var i := 0;
      while i < |t|
        invariant i <= |t| && buffer[..at + i] == old(buffer[..at]) + t[..i]
      {
        buffer[at + i] := t[i];
        i := i + 1;
      }
      assert t[..i] == t;
    }

    /** Makes room for needed characters and stores a text at the offset, which stays. */
    method Put(needed: nat, t: string) returns (ok: bool)
      requires Valid() && |t| <= needed + 1
      modifies this`buffer, buffer
      ensures Valid() && (buffer == old(buffer) || fresh(buffer))
      ensures Capacity() >= old(Capacity()) && (noalloc ==> buffer == old(buffer))
      ensures ok ==> offset + |t| <= buffer.Length && buffer[..offset + |t|] == old(Written()) + t
      ensures ok ==> offset + needed + 1 <= buffer.Length
      ensures offset + needed + 1 <= old(Capacity()) ==> ok
    {
      ok := Ensure(needed);
      if ok {
        Store(offset, t);
      }
    }

    /** The buffer holds the text s from its start, with a NUL behind it. */
    ghost predicate Holds(s: string)
      reads this`buffer, this`offset, buffer
    {
      |s| < buffer.Length && buffer[..|s|] == s && buffer[|s|] == '\0'
    }

    /** Stores one character of a string, escaped if need be. */
    method StoreEscaped(at: nat, c: char) returns (next: nat)
      requires at + |PrintChar(c)| <= buffer.Length
      modifies buffer
      ensures next == at + |PrintChar(c)| && buffer[..next] == old(buffer[..at]) + PrintChar(c)
    {
      ghost var before := buffer[..at];
      next := at;
      if c as int > 31 && c != '\"' && c != '\\' {
        buffer[next] := c;
        next := next + 1;
      } else {
        buffer[next] := '\\';
        next := next + 1;
        var letter := EscapeLetter(c);
        if letter.Some? {
          buffer[next] := letter.value;
          next := next + 1;
        } else {
          Store(next, ['u', '0', '0', HexDigit(c as int / 16), HexDigit(c as int % 16)]);
          next := next + 5;
        }
      }
      assert buffer[..next] == before + PrintChar(c);
    }

    /** Prints a string literal behind the offset: the counted escapes give exactly its length. */
    method PrintStringPtr(input: string) returns (ok: bool)
      requires Valid() && Text(input)
      modifies this`buffer, buffer
      ensures Valid() && (buffer == old(buffer) || fresh(buffer))
      ensures Capacity() >= old(Capacity()) && (noalloc ==> buffer == old(buffer))
      ensures ok ==> Shows(old(Written()) + PrintString(input))
      ensures |old(Written()) + PrintString(input)| + 2 <= old(Capacity()) ==> ok
    {
      var escapes := CountEscapes(input);
      var length := |input| + escapes;
      ok := Ensure(length + 3);
      if ok {
        StoreString(input, escapes, length);
      }
    }

    method StoreString(input: string, escapes: nat, length: nat)
      requires Valid() && offset + length + 3 < buffer.Length
      requires length == |PrintChars(input)| == |input| + escapes
      modifies buffer
      ensures Holds(old(Written()) + PrintString(input))
    {
      ghost var written := Written();
      buffer[offset] := '\"';
      assert buffer[..offset + 1] == written + "\"";
      if escapes == 0 {
        PlainPrint(input);
        Store(offset + 1, input);
      } else {
        StoreChars(offset + 1, input);
      }
      ghost var body := buffer[..offset + length + 1];
      CloseString(offset + length + 1);
      QuotedIs(written, input);
      assert buffer[..|body| + 1] == body + "\"";
    }

    /** Stores the closing quote and the NUL. */
    method CloseString(at: nat)
      requires at + 1 < buffer.Length
      modifies buffer
      ensures buffer[..at + 1] == old(buffer[..at]) + "\"" && buffer[at + 1] == '\0'
    {
      buffer[at] := '\"';
      buffer[at + 1] := '\0';
    }

    /** Stores the printed characters of a string from position at on. */
    method StoreChars(at: nat, input: string)
      requires at + |PrintChars(input)| <= buffer.Length
      modifies buffer
      ensures buffer[..at + |PrintChars(input)|] == old(buffer[..at]) + PrintChars(input)
    {
      ghost var target := buffer[..at] + PrintChars(input);
      var i: nat, p: nat := 0, at;
      assert input[0..] == input && |target| <= buffer.Length;
      while i < |input|
        invariant i <= |input| && p <= |target| && p + |PrintChars(input[i..])| == |target|
        invariant buffer[..p] + PrintChars(input[i..]) == target
      {
        ghost var before := buffer[..p];
        CharsStep(before, input[i..], target);
        assert input[i..][1..] == input[i + 1..];
        p := StoreEscaped(p, input[i]);
        i := i + 1;
      }
      assert input[i..] == "" && buffer[..p] + "" == buffer[..p];
    }

    /** The buffer shows the text s with a character to spare, and the offset is somewhere in the text. */
    ghost predicate Shows(s: string)
      reads this`buffer, this`offset, buffer
    {
      Holds(s) && offset <= |s| && |s| + 2 <= buffer.Length
    }

    /** strlen from the offset on: moves the offset behind the text. */
    method UpdateOffset(ghost s: string)
      requires Shows(s) && Text(s[offset..])
      modifies this`offset
      ensures Valid() && offset == |s| && Written() == s
    {
      ghost var start := offset;
      forall k | start <= k < |s|
        ensures buffer[k] != '\0'
      {
        assert buffer[k] == buffer[..|s|][k] && s[k] == s[start..][k - start];
      }
      var n: nat := 0;
      while buffer[offset + n] != '\0'
        invariant offset == start && offset + n <= |s|
        decreases |s| - n
      {
        n := n + 1;
      }
      offset := offset + n;
    }

    /** Makes room, stores a text, with a NUL behind it or not, and moves the offset behind it. */
    method Emit(needed: nat, t: string, nul: bool) returns (ok: bool)
      requires Valid() && |t| <= needed
      modifies this`buffer, this`offset, buffer
      ensures Valid() && (buffer == old(buffer) || fresh(buffer))
      ensures Capacity() >= old(Capacity()) && (noalloc ==> buffer == old(buffer))
      ensures ok ==> Written() == old(Written()) + t && offset == old(offset) + |t|
      ensures |old(Written())| + needed + 1 <= old(Capacity()) ==> ok
    {
      ghost var written := Written();
      var stored := if nul then t + "\0" else t;
      ok := Put(needed, stored);
      if ok {
        assert buffer[..offset + |stored|] == written + stored;
        offset := offset + |t|;
        assert buffer[..offset] == (written + stored)[..offset];
        assert (written + stored)[..offset] == written + t;
      }
    }

    /** Stores the closing text and its NUL; the offset stays. */
    method EmitLast(needed: nat, t: string) returns (ok: bool)
      requires Valid() && needed == |t| + 1
      modifies this`buffer, buffer
      ensures Valid() && (buffer == old(buffer) || fresh(buffer))
      ensures Capacity() >= old(Capacity()) && (noalloc ==> buffer == old(buffer))
      ensures ok ==> Shows(old(Written()) + t)
      ensures |old(Written()) + t| + 2 <= old(Capacity()) ==> ok
    {
      ghost var written := Written();
      ok := Put(needed, t + "\0");
      if ok {
        ghost var all := buffer[..offset + |t| + 1];
        assert all == written + (t + "\0");
        assert all[..|written + t|] == written + t;
        assert buffer[|written + t|] == all[|written + t|];
      }
    }

    /** A number: the text must fit the 26-byte scratch array. */
    method PrintNumber(d: real) returns (ok: bool)
      requires Valid()
      modifies this`buffer, this`offset, buffer
      ensures Valid() && (buffer == old(buffer) || fresh(buffer))
      ensures Capacity() >= old(Capacity()) && (noalloc ==> buffer == old(buffer))
      ensures ok ==> Shows(old(Written()) + JsonTree.NumberText(d, writer)) && offset >= old(offset)
      ensures ok ==> |JsonTree.NumberText(d, writer)| <= 25
      ensures (|JsonTree.NumberText(d, writer)| <= 25 &&
               |old(Written()) + JsonTree.NumberText(d, writer)| + 2 <= old(Capacity())) ==> ok
    {
      ghost var written := Written();
      var text := JsonTree.NumberText(d, writer);
      if |text| > 25 {
        return false;
      }
      ok := EmitLast(|text| + 1, text);
      if ok {
        offset := offset + |text|;
        assert |written + text| == offset;
      }
    }

    /** print_value: the text of the value stands behind what was written before. */
    method PrintValue(v: JsonTree.Json) returns (ok: bool)
      requires Valid() && TextTree(v, writer)
      modifies this`buffer, this`offset, this`depth, buffer
      ensures Valid() && (buffer == old(buffer) || fresh(buffer))
      ensures Capacity() >= old(Capacity()) && (noalloc ==> buffer == old(buffer))
      ensures ok ==> depth == old(depth) &&
                     Shows(old(Written()) + JsonTree.PrintValue(v, format, old(depth), writer)) &&
                     offset >= old(offset)
      ensures (ShortTree(v, writer) &&
               |old(Written()) + JsonTree.PrintValue(v, format, old(depth), writer)| + 2 <= old(Capacity())) ==> ok
      decreases v, 4
    {
      match v {
        case Null => ok := EmitLast(5, "null");
        case False => ok := EmitLast(6, "false");
        case True => ok := EmitLast(5, "true");
        case Number(d) => ok := PrintNumber(d);
        case String(s) => ok := PrintStringPtr(s);
        case Array(_) => ok := PrintArray(v);
        case Object(_) => ok := PrintObject(v);
      }
    }

    /** What has been written and what is still to come make up the target. */
    ghost predicate Awaits(rest: string, target: string)
      requires Valid()
      reads this`buffer, this`offset, buffer
    {
      Written() + rest == target
    }

    lemma AwaitsNothing(target: string)
      requires Valid() && Awaits("", target)
      ensures Written() == target
    {
      assert Written() + "" == Written();
    }

    lemma AwaitsAll(rest: string, target: string)
      requires Valid() && Written() + rest == target
      ensures Awaits(rest, target)
    {
    }

    /** One round of the element loop: the value and the comma behind it. */
    method PrintElement(v: JsonTree.Json, i: nat, ghost target: string) returns (ok: bool)
      requires Valid() && v.Array? && i < |v.items| && TextTree(v.items[i], writer)
      requires Awaits(JsonTree.PrintItems(v, i, format, depth, writer), target)
      modifies this`buffer, this`offset, this`depth, buffer
      ensures Valid() && (buffer == old(buffer) || fresh(buffer))
      ensures Capacity() >= old(Capacity()) && (noalloc ==> buffer == old(buffer))
      ensures ok ==> depth == old(depth) && offset >= old(offset) &&
                     Awaits(JsonTree.PrintItems(v, i + 1, format, old(depth), writer), target)
      ensures ShortTree(v.items[i], writer) && |target| + 2 <= old(Capacity()) ==> ok
      decreases v, 0
    {
      ghost var written, level := Written(), depth;
      ghost var text := JsonTree.PrintValue(v.items[i], format, depth, writer);
      PrintedIsText(v.items[i], format, depth, writer);
      ElementText(written, v, i, format, depth, writer, target);
      hide JsonTree.PrintItems, JsonTree.PrintValue, TextTree, Text;
      ok := PrintValue(v.items[i]);
      if !ok {
        return;
      }
      ShownTail(written, text, offset);
      UpdateOffset(written + text);
      if i + 1 < |v.items| {
        var length := if format then 2 else 1;
        var separator := if format then ", " else ",";
        ok := Emit(length + 1, separator, true);
      }
    }

    /** The loop over the elements. */
    method PrintElements(v: JsonTree.Json, ghost target: string) returns (ok: bool)
      requires Valid() && v.Array? && TextTree(v, writer)
      requires Awaits(JsonTree.PrintItems(v, 0, format, depth, writer), target)
      modifies this`buffer, this`offset, this`depth, buffer
      ensures Valid() && (buffer == old(buffer) || fresh(buffer))
      ensures Capacity() >= old(Capacity()) && (noalloc ==> buffer == old(buffer))
      ensures ok ==> depth == old(depth) && Written() == target && offset >= old(offset)
      ensures ShortTree(v, writer) && |target| + 2 <= old(Capacity()) ==> ok
      decreases v, 1
    {
      NoMoreItems(v, format, depth, writer);
      hide *;
      var i: nat, n: nat := 0, |v.items|;
      ghost var level, start, capacity, first := depth, offset, Capacity(), buffer;
      ok := true;
      while i < n
        invariant i <= n && Valid() && (buffer == old(buffer) || fresh(buffer))
        invariant depth == level && offset >= start
        invariant Capacity() >= capacity && (noalloc ==> buffer == first)
        invariant Awaits(JsonTree.PrintItems(v, i, format, level, writer), target)
      {
        ok := PrintElement(v, i, target);
        if !ok {
          return;
        }
        i := i + 1;
      }
      AwaitsNothing(target);
    }

    method PrintArray(v: JsonTree.Json) returns (ok: bool)
      requires Valid() && v.Array? && TextTree(v, writer)
      modifies this`buffer, this`offset, this`depth, buffer
      ensures Valid() && (buffer == old(buffer) || fresh(buffer))
      ensures Capacity() >= old(Capacity()) && (noalloc ==> buffer == old(buffer))
      ensures ok ==> depth == old(depth) &&
                     Shows(old(Written()) + JsonTree.PrintValue(v, format, old(depth), writer)) &&
                     offset >= old(offset)
      ensures (ShortTree(v, writer) &&
               |old(Written()) + JsonTree.PrintValue(v, format, old(depth), writer)| + 2 <= old(Capacity())) ==> ok
      decreases v, 3
    {
      ghost var written, text := Written(), JsonTree.PrintValue(v, format, depth, writer);
      ghost var items := JsonTree.PrintItems(v, 0, format, depth + 1, writer);
      ghost var target := written + "[" + items;
      assert target + "]" == written + text;
      hide *;
      ok := OpenArray(v, items, target);
      if ok {
        ok := EmitLast(2, "]");
        depth := depth - 1;
      }
    }

    /** The bracket and the elements. */
    method OpenArray(v: JsonTree.Json, ghost items: string, ghost target: string) returns (ok: bool)
      requires Valid() && v.Array? && TextTree(v, writer)
      requires items == JsonTree.PrintItems(v, 0, format, depth + 1, writer) && Written() + "[" + items == target
      modifies this`buffer, this`offset, this`depth, buffer
      ensures Valid() && (buffer == old(buffer) || fresh(buffer))
      ensures Capacity() >= old(Capacity()) && (noalloc ==> buffer == old(buffer))
      ensures ok ==> depth == old(depth) + 1 && Written() == target && offset >= old(offset)
      ensures (ShortTree(v, writer) && |target| + 3 <= old(Capacity())) ==> ok
      decreases v, 2
    {
      hide *;
      ok := Emit(1, "[", false);
      if ok {
        depth := depth + 1;
        AwaitsAll(items, target);
        ok := PrintElements(v, target);
      }
    }

    /** The tabs, the name and the colon of a member. */
    method PrintName(key: string) returns (ok: bool)
      requires Valid() && Text(key)
      modifies this`buffer, this`offset, buffer
      ensures Valid() && (buffer == old(buffer) || fresh(buffer))
      ensures Capacity() >= old(Capacity()) && (noalloc ==> buffer == old(buffer))
      ensures ok ==> offset >= old(offset) &&
                     Written() == old(Written()) + JsonTree.Spaced(format, JsonTree.Tabs(depth)) + PrintString(key) +
                                  Colon(format)
      ensures (|old(Written()) + JsonTree.Spaced(format, JsonTree.Tabs(depth)) + PrintString(key) + Colon(format)| + 2
               <= old(Capacity())) ==> ok
    {
      hide PrintString, Text;
      PrintStringText(key);
      ok := true;
      if format {
        ok := Emit(depth, JsonTree.Tabs(depth), false);
      }
      if ok {
        ghost var written := Written();
        ok := PrintStringPtr(key);
        if ok {
          ShownTail(written, PrintString(key), offset);
          UpdateOffset(written + PrintString(key));
          ok := Emit(if format then 2 else 1, Colon(format), false);
        }
      }
    }

    /** One round of the member loop: name, value and the comma and line break behind them. */
    method PrintMember(v: JsonTree.Json, i: nat, ghost target: string) returns (ok: bool)
      requires Valid() && v.Object? && i < |v.members|
      requires Text(v.members[i].key) && TextTree(v.members[i].value, writer)
      requires Awaits(JsonTree.PrintMembers(v, i, format, depth, writer), target)
      modifies this`buffer, this`offset, this`depth, buffer
      ensures Valid() && (buffer == old(buffer) || fresh(buffer))
      ensures Capacity() >= old(Capacity()) && (noalloc ==> buffer == old(buffer))
      ensures ok ==> depth == old(depth) && offset >= old(offset) &&
                     Awaits(JsonTree.PrintMembers(v, i + 1, format, old(depth), writer), target)
      ensures ShortTree(v.members[i].value, writer) && |target| + 2 <= old(Capacity()) ==> ok
      decreases v, 0
    {
      ghost var text := JsonTree.PrintValue(v.members[i].value, format, depth, writer);
      PrintedIsText(v.members[i].value, format, depth, writer);
      MemberText(Written(), v, i, format, depth, writer, target);
      hide JsonTree.PrintMembers, JsonTree.PrintValue, JsonTree.Spaced, JsonTree.Tabs, PrintString, Colon, MemberEnd;
      hide TextTree, Text;
      ok := PrintName(v.members[i].key);
      if !ok {
        return;
      }
      ghost var written := Written();
      ok := PrintValue(v.members[i].value);
      if !ok {
        return;
      }
      ShownTail(written, text, offset);
      UpdateOffset(written + text);
      var length := (if format then 1 else 0) + (if i + 1 < |v.members| then 1 else 0);
      var end := MemberEnd(format, i + 1 < |v.members|);
      ok := Emit(length + 1, end, true);
    }

    /** The loop over the members. */
    method PrintMembers(v: JsonTree.Json, ghost target: string) returns (ok: bool)
      requires Valid() && v.Object? && TextTree(v, writer)
      requires Awaits(JsonTree.PrintMembers(v, 0, format, depth, writer), target)
      modifies this`buffer, this`offset, this`depth, buffer
      ensures Valid() && (buffer == old(buffer) || fresh(buffer))
      ensures Capacity() >= old(Capacity()) && (noalloc ==> buffer == old(buffer))
      ensures ok ==> depth == old(depth) && Written() == target && offset >= old(offset)
      ensures ShortTree(v, writer) && |target| + 2 <= old(Capacity()) ==> ok
      decreases v, 1
    {
      NoMoreMembers(v, format, depth, writer);
      hide *;
      var i: nat, n: nat := 0, |v.members|;
      ghost var level, start, capacity, first := depth, offset, Capacity(), buffer;
      ok := true;
      while i < n
        invariant i <= n && Valid() && (buffer == old(buffer) || fresh(buffer))
        invariant depth == level && offset >= start
        invariant Capacity() >= capacity && (noalloc ==> buffer == first)
        invariant Awaits(JsonTree.PrintMembers(v, i, format, level, writer), target)
      {
        TextOfMember(v, i, writer);
        ok := PrintMember(v, i, target);
        if !ok {
          return;
        }
        i := i + 1;
      }
      AwaitsNothing(target);
    }

    method PrintObject(v: JsonTree.Json) returns (ok: bool)
      requires Valid() && v.Object? && TextTree(v, writer)
      modifies this`buffer, this`offset, this`depth, buffer
      ensures Valid() && (buffer == old(buffer) || fresh(buffer))
      ensures Capacity() >= old(Capacity()) && (noalloc ==> buffer == old(buffer))
      ensures ok ==> depth == old(depth) &&
                     Shows(old(Written()) + JsonTree.PrintValue(v, format, old(depth), writer)) &&
                     offset >= old(offset)
      ensures (ShortTree(v, writer) &&
               |old(Written()) + JsonTree.PrintValue(v, format, old(depth), writer)| + 2 <= old(Capacity())) ==> ok
      decreases v, 3
    {
      hide *;
      ghost var written, text := Written(), JsonTree.PrintValue(v, format, depth, writer);
      ghost var members := JsonTree.PrintMembers(v, 0, format, depth + 1, writer);
      ghost var target := written + Opening(format) + members;
      var closing := Closing(format, depth);
      ObjectIs(written, v, format, depth, writer);
      ok := OpenObject(v, members, target);
      if ok {
        var length := if format then depth + 1 else 2;
        ok := EmitLast(length, closing);
        depth := depth - 1;
      }
    }

    /** The brace and the members. */
    method OpenObject(v: JsonTree.Json, ghost members: string, ghost target: string) returns (ok: bool)
      requires Valid() && v.Object? && TextTree(v, writer)
      requires members == JsonTree.PrintMembers(v, 0, format, depth + 1, writer)
      requires Written() + Opening(format) + members == target
      modifies this`buffer, this`offset, this`depth, buffer
      ensures Valid() && (buffer == old(buffer) || fresh(buffer))
      ensures Capacity() >= old(Capacity()) && (noalloc ==> buffer == old(buffer))
      ensures ok ==> depth == old(depth) + 1 && Written() == target && offset >= old(offset)
      ensures (ShortTree(v, writer) && |target| + 3 <= old(Capacity())) ==> ok
      decreases v, 2
    {
      hide *;
      var length := if format then 2 else 1;
      var opening := Opening(format);
      ok := Emit(length + 1, opening, false);
      if ok {
        depth := depth + 1;
        AwaitsAll(members, target);
        ok := PrintMembers(v, target);
      }
    }
  }

  function Colon(format: bool): (t: string)
    ensures |t| == if format then 2 else 1
  {
    if format then ":\t" else ":"
  }

  function MemberEnd(format: bool, more: bool): (t: string)
    ensures |t| == (if format then 1 else 0) + (if more then 1 else 0)
  {
    (if more then "," else "") + (if format then "\n" else "")
  }

  function Opening(format: bool): (t: string)
    ensures |t| == if format then 2 else 1
  {
    if format then "{\n" else "{"
  }

  function Closing(format: bool, depth: nat): (t: string)
    ensures |t| == if format then depth + 1 else 1
  {
    (if format then JsonTree.Tabs(depth) else "") + "}"
  }

  /** Member i in its pieces, and the members behind it. */
  lemma MemberText(written: string, v: JsonTree.Json, i: nat, format: bool, depth: nat, writer: JsonTree.Writer,
                   target: string)
    requires v.Object? && i < |v.members|
    requires written + JsonTree.PrintMembers(v, i, format, depth, writer) == target
    ensures var member := v.members[i];
            var name := written + JsonTree.Spaced(format, JsonTree.Tabs(depth)) + PrintString(member.key) + Colon(format);
            name + JsonTree.PrintValue(member.value, format, depth, writer) + MemberEnd(format, i + 1 < |v.members|) +
            JsonTree.PrintMembers(v, i + 1, format, depth, writer) == target
  {
    var member, more := v.members[i], i + 1 < |v.members|;
    var tabs, name := JsonTree.Spaced(format, JsonTree.Tabs(depth)), PrintString(member.key);
    var tab, line := JsonTree.Spaced(format, "\t"), JsonTree.Spaced(format, "\n");
    var value, comma := JsonTree.PrintValue(member.value, format, depth, writer), JsonTree.Comma(more);
    var rest := JsonTree.PrintMembers(v, i + 1, format, depth, writer);
    assert JsonTree.PrintMembers(v, i, format, depth, writer) ==
           tabs + name + ":" + tab + value + comma + line + rest;
    assert Colon(format) == ":" + tab && MemberEnd(format, more) == comma + line;
    hide *;
    Pieces(written, tabs, name, tab, value, comma, line, rest);
  }

  lemma Pieces(a: string, b: string, c: string, d: string, e: string, f: string, g: string, h: string)
    ensures a + (b + c + ":" + d + e + f + g + h) == a + b + c + (":" + d) + e + (f + g) + h
  {
  }

  lemma NoMoreMembers(v: JsonTree.Json, format: bool, depth: nat, writer: JsonTree.Writer)
    requires v.Object?
    ensures JsonTree.PrintMembers(v, |v.members|, format, depth, writer) == ""
  {
  }

  lemma ObjectIs(written: string, v: JsonTree.Json, format: bool, depth: nat, writer: JsonTree.Writer)
    requires v.Object?
    ensures written + Opening(format) + JsonTree.PrintMembers(v, 0, format, depth + 1, writer) + Closing(format, depth) ==
            written + JsonTree.PrintValue(v, format, depth, writer)
  {
    var line, members := JsonTree.Spaced(format, "\n"), JsonTree.PrintMembers(v, 0, format, depth + 1, writer);
    var tabs := JsonTree.Spaced(format, JsonTree.Tabs(depth));
    assert Opening(format) == "{" + line && Closing(format, depth) == tabs + "}";
    assert JsonTree.PrintValue(v, format, depth, writer) == "{" + line + members + tabs + "}";
    hide *;
    ObjectPieces(written, line, members, tabs);
  }

  lemma ObjectPieces(a: string, b: string, c: string, d: string)
    ensures a + ("{" + b) + c + (d + "}") == a + ("{" + b + c + d + "}")
  {
  }

  /** Element i, its separator and the elements behind it. */
  lemma ElementText(written: string, v: JsonTree.Json, i: nat, format: bool, depth: nat, writer: JsonTree.Writer,
                    target: string)
    requires v.Array? && i < |v.items|
    requires written + JsonTree.PrintItems(v, i, format, depth, writer) == target
    ensures var text, rest := JsonTree.PrintValue(v.items[i], format, depth, writer),
                              JsonTree.PrintItems(v, i + 1, format, depth, writer);
            (i + 1 < |v.items| ==> written + text + (if format then ", " else ",") + rest == target) &&
            (i + 1 == |v.items| ==> written + text + rest == target)
  {
    hide JsonTree.PrintValue;
  }

  lemma NoMoreItems(v: JsonTree.Json, format: bool, depth: nat, writer: JsonTree.Writer)
    requires v.Array?
    ensures JsonTree.PrintItems(v, |v.items|, format, depth, writer) == ""
  {
  }

  /** The part of the text behind the offset contains no NUL either. */
  lemma ShownTail(written: string, text: string, offset: nat)
    requires Text(text) && |written| <= offset <= |written + text|
    ensures Text((written + text)[offset..])
  {
  }

  lemma QuotedIs(written: string, s: string)
    ensures written + PrintString(s) == written + "\"" + PrintChars(s) + "\""
    ensures |PrintString(s)| == |PrintChars(s)| + 2
  {
    hide PrintChars;
  }

  lemma CharsStep(before: string, rest: string, target: string)
    requires rest != "" && before + PrintChars(rest) == target
    ensures before + PrintChar(rest[0]) + PrintChars(rest[1..]) == target
    ensures |PrintChars(rest)| == |PrintChar(rest[0])| + |PrintChars(rest[1..])|
  {
    assert PrintChars(rest) == PrintChar(rest[0]) + PrintChars(rest[1..]);
    hide *;
  }

  /** The additional characters that escaping takes. */
  method CountEscapes(input: string) returns (escapes: nat)
    ensures |input| + escapes == |PrintChars(input)|
  {
    escapes := 0;
    var i := 0;
    assert input[0..] == input;
    while i < |input|
      invariant i <= |input| && i + escapes + |PrintChars(input[i..])| == |PrintChars(input)|
    {
      var c := input[i];
      assert input[i..][1..] == input[i + 1..];
      if EscapeLetter(c).Some? {
        escapes := escapes + 1;
      } else if c as int < 32 {
        escapes := escapes + 5;
      }
      i := i + 1;
    }
  }

  lemma PrintCharsLength(s: string)
    ensures |PrintChars(s)| >= |s|
  {
  }

  /** A string without characters to escape is printed as it is. */
  lemma {:induction false} PlainPrint(s: string)
    requires |PrintChars(s)| == |s|
    ensures PrintChars(s) == s
  {
    if s != "" {
      PrintCharsLength(s[1..]);
      PlainPrint(s[1..]);
      assert s == [s[0]] + s[1..];
    }
  }
}
