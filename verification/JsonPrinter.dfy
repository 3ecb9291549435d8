/** The two ways cJSON prints a whole value: into a growing buffer, and into a buffer of the caller. */
module JsonPrinter {
  import opened CText
  import opened JsonTree
  import opened PrintBuffers
  import opened PrintedText
  import opened Words

  /** cJSON_Print and cJSON_PrintUnformatted: the text, unless it is too long or memory runs out. */
  method Print(v: Json, format: bool, writer: Writer, allocates: nat -> bool) returns (r: Option<string>)
    requires TextTree(v, writer)
    ensures r.Some? ==> r.value == JsonTree.PrintValue(v, format, 0, writer)
    ensures ((forall n :: allocates(n)) && ShortTree(v, writer) &&
             |JsonTree.PrintValue(v, format, 0, writer)| + 2 <= INT_MAX) ==> r.Some?
  {
    if !allocates(256) {
      return None;
    }
    ghost var text := JsonTree.PrintValue(v, format, 0, writer);
    PrintedIsText(v, format, 0, writer);
    var first := new char[256];
    var buffer := new PrintBuffer(first, false, format, writer, allocates);
    assert buffer.Written() == "" && "" + text == text;
    hide JsonTree.PrintValue, TextTree, ShortTree;
    var ok := buffer.PrintValue(v);
    if !ok {
      return None;
    }
    ShownTail("", text, buffer.offset);
    buffer.UpdateOffset(text);
    if !allocates(buffer.offset + 1) {
      return None;
    }
    r := Some(buffer.buffer[..buffer.offset]);
  }

  /** cJSON_PrintPreallocated succeeds if and only if the buffer has one character to spare behind text and NUL. */
  method PrintPreallocated(v: Json, buffer: array<char>, format: bool, writer: Writer) returns (ok: bool)
    requires TextTree(v, writer) && ShortTree(v, writer) && buffer.Length <= INT_MAX
    modifies buffer
    ensures var text := JsonTree.PrintValue(v, format, 0, writer);
            && (ok <==> |text| + 2 <= buffer.Length)
            && (ok ==> buffer[..|text|] == text && buffer[|text|] == '\0')
  {
    ghost var text := JsonTree.PrintValue(v, format, 0, writer);
    var p := new PrintBuffer(buffer, true, format, writer, n => false);
    assert p.Written() == "" && "" + text == text;
    hide JsonTree.PrintValue, TextTree, ShortTree;
    ok := p.PrintValue(v);
  }
}
