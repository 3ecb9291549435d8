/** Printing a value and parsing the text again, with the modelled printer and parser themselves. */
module JsonClient {
  import opened JsonPrinter
  import opened JsonRoundTrip
  import opened JsonTree
  import opened ParseBuffers
  import opened PrintedText
  import opened Words

  lemma {:induction false} PrintableIsText(v: Json, reader: Reader, writer: Writer)
    requires ReadsIntegers(reader) && Printable(v, reader, writer)
    ensures TextTree(v, writer)
    decreases v
  {
    match v
    case Number(d) =>
      NumberBack(d, "", 0, reader, writer);
    case Array(items) =>
      forall i | 0 <= i < |items|
        ensures TextTree(items[i], writer)
      {
        PrintableIsText(items[i], reader, writer);
      }
    case Object(members) =>
      forall i | 0 <= i < |members|
        ensures TextTree(members[i].value, writer)
      {
        PrintableIsText(members[i].value, reader, writer);
      }
    case _ =>
  }

  /** Whatever the printer delivers is parsed to the same value again, unless it is nested too deep for the parser. */
  method PrintAndParse(v: Json, format: bool, requireNul: bool, reader: Reader, writer: Writer, allocates: nat -> bool)
    returns (text: Option<string>, again: Option<Json>)
    requires ReadsIntegers(reader) && Printable(v, reader, writer)
    ensures ((forall n :: allocates(n)) && ShortTree(v, writer) &&
             |PrintValue(v, format, 0, writer)| + 2 <= INT_MAX) ==> text.Some?
    ensures text.Some? ==> (again == Some(v) <==> NestedWithin(v, 1000))
    ensures text.Some? && !NestedWithin(v, 1000) ==> again.None?
  {
    PrintableIsText(v, reader, writer);
    again := None;
    text := Print(v, format, writer, allocates);
    if text.Some? {
      var end;
      DocumentRoundTrip(v, format, requireNul, reader, writer);
      hide *;
      again, end := ParseWithLengthOpts(text.value + "\0", requireNul, reader);
    }
  }
}
