/** `JSON.stringify` and `JSON.parse` of a mark list, kept abstract: the
    model only relies on parsing undoing serialisation. */
module JsonCodec {
  import opened Wrappers
  import opened ProductMarks

  /** A serialiser and a parser for mark lists; the parser answers `None`
      where `JSON.parse` throws. */
  datatype MarkListCodec = MarkListCodec(
    stringify: seq<ProductMarkDetail> -> string,
    parse: string -> Option<seq<ProductMarkDetail>>)

  /** What `JSON.stringify`/`JSON.parse` guarantee for arrays of plain
      records: parsing the text of a list gives the list back, and the text
      of a list is never empty (it starts with `[`). */
  ghost predicate IsFaithful(codec: MarkListCodec) {
    forall marks :: codec.parse(codec.stringify(marks)) == Some(marks) && |codec.stringify(marks)| > 0
  }

  /** Faithful serialisation is injective. */
  lemma StringifyInjective(codec: MarkListCodec, a: seq<ProductMarkDetail>, b: seq<ProductMarkDetail>)
    requires IsFaithful(codec)
    requires codec.stringify(a) == codec.stringify(b)
    ensures a == b
  {
    assert codec.parse(codec.stringify(a)) == Some(a);
    assert codec.parse(codec.stringify(b)) == Some(b);
  }
}
