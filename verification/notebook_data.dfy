/**
  The values the notebook serializer works on: the host's notebook cells, the
  YAML tree it reads back from disk, and the object it hands to the YAML emitter.
 */
module NotebookData {
  import opened Options

  /** The host's two cell kinds. */
  datatype CellKind = Markup | Code

  /** A host notebook cell: its kind, its text and its language tag. */
  datatype Cell = Cell(kind: CellKind, value: string, languageId: string)

  /** Language tag of a document without a usable `metadata.language`, and of a
      serialized notebook without a usable Code cell. */
  const Plaintext: string := "plaintext"

  /** Language tag given to every Markup cell on deserialization. */
  const MarkdownLanguage: string := "markdown"

  /** JavaScript truthiness of a YAML field that is a string or absent:
      present and non-empty. */
  predicate Truthy(field: Option<string>)
  {
    field.Some? && field.value != ""
  }

  /** One non-null entry of the YAML `sections` list. A field is None when the
      entry does not carry it as a string (an absent key, or an entry that is
      a scalar or a list rather than a mapping). */
  datatype Section = Section(docs: Option<string>, code: Option<string>)

  /** The YAML root as the deserializer reads it.
      `language` is `metadata.language` (None when `metadata` or its
      `language` is missing); `sections` is None when the key is missing or
      its value is not a list, and each list entry is None when it is a YAML
      null. A truthy root that is not a mapping (a list, a string, `true`)
      has neither `metadata` nor `sections`, and is `Document(None, None)`. */
  datatype Document = Document(language: Option<string>, sections: Option<seq<Option<Section>>>)

  /** The `{}` the deserializer substitutes for an unusable root. */
  const EmptyDocument: Document := Document(None, None)

  /** What the YAML loader produced from the decoded text: a parse error, or a
      root that is None when it is null, undefined or otherwise falsy. */
  datatype Loaded = ParseError | Loaded(root: Option<Document>)

  /** Result of opening a notebook: the cells and whether the parse-error
      message was shown, or a rejected promise (a property read on a null
      section entry throws a TypeError). */
  datatype Outcome = Opened(cells: seq<Cell>, errorShown: bool) | Rejected

  /** A section as the serializer builds it: both fields always present. */
  datatype WrittenSection = WrittenSection(docs: string, code: string)

  /** The `{ metadata: { language }, sections }` object handed to the YAML emitter. */
  datatype NotebookObject = NotebookObject(language: string, sections: seq<WrittenSection>)

  /** The YAML entry that reloading a written section gives back. */
  function ReparsedEntry(section: WrittenSection): Option<Section>
  {
    Some(Section(Some(section.docs), Some(section.code)))
  }

  /** The YAML entries that loading the emitted text gives back for written
      sections: the emitter and loader reproduce a tree of plain strings. */
  function ReparsedSections(sections: seq<WrittenSection>): (entries: seq<Option<Section>>)
    ensures |entries| == |sections|
    ensures None !in entries
  {
    if sections == [] then []
    else [ReparsedEntry(sections[0])] + ReparsedSections(sections[1..])
  }

  /** The document that loading the emitted text of `obj` gives back. */
  function Reparsed(obj: NotebookObject): (doc: Document)
    ensures doc.language == Some(obj.language)
    ensures doc.sections.Some? && |doc.sections.value| == |obj.sections|
  {
    Document(Some(obj.language), Some(ReparsedSections(obj.sections)))
  }

}
