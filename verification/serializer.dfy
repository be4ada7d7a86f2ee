/**
  The notebook serializer `LPNBNotebookSerializer` of src/extension.ts. The class
  has no fields, so its two operations are methods of this module, each proved
  against a specification function defined beside it.
 */
module LPNBNotebookSerializer {
  import opened Options
  import opened NotebookData

  // ---------------------------------------------------------------------------
  // Deserialization: YAML document -> cells
  // ---------------------------------------------------------------------------

  /** The document the deserializer works on: `{}` after a parse error or for a
      falsy root, and the loaded root otherwise. */
  function RootOf(loaded: Loaded): (doc: Document)
    ensures loaded.ParseError? ==> doc == EmptyDocument
    ensures loaded == Loaded(None) ==> doc == EmptyDocument
    ensures loaded.Loaded? && loaded.root.Some? ==> doc == loaded.root.value
    ensures doc == EmptyDocument || (loaded.Loaded? && loaded.root == Some(doc))
  {
    match loaded
    case ParseError => EmptyDocument
    case Loaded(root) => if root.Some? then root.value else EmptyDocument
  }

  /** The entries the deserializer iterates over: none unless `sections` is a list. */
  function Entries(doc: Document): (entries: seq<Option<Section>>)
    ensures doc.sections.None? ==> entries == []
    ensures doc.sections.Some? ==> entries == doc.sections.value
  {
    match doc.sections
    case Some(entries) => entries
    case None => []
  }

  /** `defaultLang`: the document's `metadata.language` when truthy. */
  function DefaultLanguage(doc: Document): (lang: string)
    ensures lang != ""
    ensures Truthy(doc.language) ==> lang == doc.language.value
    ensures !Truthy(doc.language) ==> lang == Plaintext
  {
    if Truthy(doc.language) then doc.language.value else Plaintext
  }

  /** The cells one section contributes: a Markup cell for truthy `docs`, then
      a Code cell for truthy `code`. */
  function SectionCells(section: Section, lang: string): (cells: seq<Cell>)
    ensures |cells| == (if Truthy(section.docs) then 1 else 0) + (if Truthy(section.code) then 1 else 0)
    ensures Truthy(section.docs) ==> cells[0] == Cell(Markup, section.docs.value, MarkdownLanguage)
    ensures Truthy(section.code) ==> cells[|cells| - 1] == Cell(Code, section.code.value, lang)
  {
    (if Truthy(section.docs) then [Cell(Markup, section.docs.value, MarkdownLanguage)] else [])
    + (if Truthy(section.code) then [Cell(Code, section.code.value, lang)] else [])
  }

  /** Every cell has a non-empty value; Markup cells are tagged "markdown" and
      Code cells the given language. */
  predicate WellTagged(cells: seq<Cell>, lang: string)
  {
    forall k :: 0 <= k < |cells| ==>
      cells[k].value != "" &&
      cells[k].languageId == (if cells[k].kind == Markup then MarkdownLanguage else lang)
  }

  /** The cells of a list of non-null entries, section after section. Each
      section gives at most two cells, and the cells are well tagged. */
  function CellsOf(entries: seq<Option<Section>>, lang: string): (cells: seq<Cell>)
    requires None !in entries
    ensures |cells| <= 2 * |entries|
    ensures WellTagged(cells, lang)
  {
    if entries == [] then []
    else
      assert entries[|entries| - 1] in entries;
      CellsOf(entries[..|entries| - 1], lang) + SectionCells(entries[|entries| - 1].value, lang)
  }

  /** Reading one more section appends its cells. */
  lemma CellsOfStep(entries: seq<Option<Section>>, k: int, lang: string)
    requires 0 <= k < |entries| && None !in entries[..k] && entries[k].Some?
    ensures None !in entries[..k + 1]
    ensures CellsOf(entries[..k + 1], lang) == CellsOf(entries[..k], lang) + SectionCells(entries[k].value, lang)
  {
    assert entries[..k + 1] == entries[..k] + [entries[k]];
    assert entries[..k + 1][..k] == entries[..k];
  }

  /** What opening a notebook yields. */
  function Deserialized(loaded: Loaded): (out: Outcome)
    ensures out.Rejected? <==> None in Entries(RootOf(loaded))
    ensures out.Opened? ==> (out.errorShown <==> loaded.ParseError?)
    ensures loaded.ParseError? ==> out == Opened([], true)
    ensures loaded == Loaded(None) ==> out == Opened([], false)
    ensures loaded.Loaded? && loaded.root.Some? && loaded.root.value.sections.None? ==>
              out == Opened([], false)
  {
    var doc := RootOf(loaded);
    var entries := Entries(doc);
    if None in entries then Rejected
    else Opened(CellsOf(entries, DefaultLanguage(doc)), loaded.ParseError?)
  }

  /** `deserializeNotebook`, from the loader's result on: falls back to `{}`,
      picks `defaultLang`, and pushes the cells of each section in turn. */
  method DeserializeNotebook(loaded: Loaded) returns (outcome: Outcome)
    ensures outcome == Deserialized(loaded)
  {
    var parsed: Document;
    var errorShown := false;
    match loaded {
      case ParseError =>
        errorShown := true;
        parsed := EmptyDocument;
      case Loaded(root) =>
        parsed := if root.Some? then root.value else EmptyDocument;
    }

    var cells: seq<Cell> := [];
    var defaultLang := DefaultLanguage(parsed);

    if parsed.sections.Some? {
      var entries := parsed.sections.value;
      for k := 0 to |entries|
        invariant None !in entries[..k]
        invariant cells == CellsOf(entries[..k], defaultLang)
      {
        match entries[k] {
          case None =>
            // reading `docs` of a null entry throws
            return Rejected;
          case Some(section) =>
            CellsOfStep(entries, k, defaultLang);
            ghost var before := cells;
            ghost var markup := if Truthy(section.docs) then [Cell(Markup, section.docs.value, MarkdownLanguage)] else [];
            ghost var code := if Truthy(section.code) then [Cell(Code, section.code.value, defaultLang)] else [];
            if Truthy(section.docs) {
              cells := cells + [Cell(Markup, section.docs.value, MarkdownLanguage)];
            }
            assert cells == before + markup;
            if Truthy(section.code) {
              cells := cells + [Cell(Code, section.code.value, defaultLang)];
            }
            assert cells == before + markup + code;
            AppendAssociative(before, markup, code);
        }
      }
      assert entries[..|entries|] == entries;
    }
    outcome := Opened(cells, errorShown);
  }

  // ---------------------------------------------------------------------------
  // Serialization: cells -> YAML object
  // ---------------------------------------------------------------------------

  /** Cell `i` is a Markup cell and the cell right after it is a Code cell. */
  predicate PairsWithNext(cells: seq<Cell>, i: int)
    requires 0 <= i < |cells|
  {
    cells[i].kind == Markup && i + 1 < |cells| && cells[i + 1].kind == Code
  }

  /** The section the serializer writes when its scan reaches cell `i`. */
  function SectionAt(cells: seq<Cell>, i: int): (section: WrittenSection)
    requires 0 <= i < |cells|
    ensures cells[i].kind == Markup ==> section.docs == cells[i].value
    ensures cells[i].kind == Markup ==>
      section.code == (if i + 1 < |cells| && cells[i + 1].kind == Code then cells[i + 1].value else "")
    ensures cells[i].kind == Code ==> section == WrittenSection("", cells[i].value)
  {
    if PairsWithNext(cells, i) then WrittenSection(cells[i].value, cells[i + 1].value)
    else if cells[i].kind == Markup then WrittenSection(cells[i].value, "")
    else WrittenSection("", cells[i].value)
  }

  /** The sections of the left-to-right scan: one section per step, a step
      consuming two cells when it pairs them and one cell otherwise. */
  function SectionsOf(cells: seq<Cell>): (sections: seq<WrittenSection>)
    ensures |sections| <= |cells| <= 2 * |sections|
    decreases |cells|
  {
    if cells == [] then []
    else [SectionAt(cells, 0)] + SectionsOf(cells[if PairsWithNext(cells, 0) then 2 else 1..])
  }

  /** Cell `j` is the first Code cell of the list. */
  predicate IsFirstCode(cells: seq<Cell>, j: int)
  {
    0 <= j < |cells| && cells[j].kind == Code && forall k :: 0 <= k < j ==> cells[k].kind != Code
  }

  /** `cells.find(cell => cell.kind === Code)`. */
  function FirstCode(cells: seq<Cell>): (found: Option<Cell>)
    ensures found.None? <==> forall k :: 0 <= k < |cells| ==> cells[k].kind != Code
    ensures forall j :: IsFirstCode(cells, j) ==> found == Some(cells[j])
  {
    if cells == [] then None
    else if cells[0].kind == Code then Some(cells[0])
    else
      var found := FirstCode(cells[1..]);
      assert forall j :: IsFirstCode(cells, j) ==> IsFirstCode(cells[1..], j - 1);
      found
  }

  /** `metadata.language` of the serialized notebook: the first Code cell's
      `languageId` when truthy. */
  function DocumentLanguage(cells: seq<Cell>): (lang: string)
    ensures lang != ""
    ensures forall j :: IsFirstCode(cells, j) && cells[j].languageId != "" ==> lang == cells[j].languageId
    ensures forall j :: IsFirstCode(cells, j) && cells[j].languageId == "" ==> lang == Plaintext
    ensures (forall k :: 0 <= k < |cells| ==> cells[k].kind != Code) ==> lang == Plaintext
  {
    match FirstCode(cells)
    case Some(cell) => if cell.languageId != "" then cell.languageId else Plaintext
    case None => Plaintext
  }

  /** The object `serializeNotebook` hands to the YAML emitter. */
  function Serialized(cells: seq<Cell>): (obj: NotebookObject)
    ensures obj.language != ""
    ensures |obj.sections| <= |cells| <= 2 * |obj.sections|
  {
    NotebookObject(DocumentLanguage(cells), SectionsOf(cells))
  }

  /** The scan from cell `i` on: the section written at `i`, then the scan
      after the one or two cells that section consumed. */
  lemma SectionsOfFrom(cells: seq<Cell>, i: int)
    requires 0 <= i < |cells|
    ensures PairsWithNext(cells, i) ==>
      SectionsOf(cells[i..]) == [SectionAt(cells, i)] + SectionsOf(cells[i + 2..])
    ensures !PairsWithNext(cells, i) ==>
      SectionsOf(cells[i..]) == [SectionAt(cells, i)] + SectionsOf(cells[i + 1..])
  {
    var rest := cells[i..];
    assert rest[0] == cells[i];
    assert PairsWithNext(rest, 0) == PairsWithNext(cells, i);
    assert SectionAt(rest, 0) == SectionAt(cells, i);
    if PairsWithNext(cells, i) {
      assert rest[2..] == cells[i + 2..];
    } else {
      assert rest[1..] == cells[i + 1..];
    }
  }

  /** One step of the scan keeps "written so far, then the scan of the rest"
      equal to the whole scan. */
  lemma ScanStep(cells: seq<Cell>, i: int, written: seq<WrittenSection>)
    requires 0 <= i < |cells|
    requires written + SectionsOf(cells[i..]) == SectionsOf(cells)
    ensures PairsWithNext(cells, i) ==>
      written + [SectionAt(cells, i)] + SectionsOf(cells[i + 2..]) == SectionsOf(cells)
    ensures !PairsWithNext(cells, i) ==>
      written + [SectionAt(cells, i)] + SectionsOf(cells[i + 1..]) == SectionsOf(cells)
  {
    SectionsOfFrom(cells, i);
    var next := if PairsWithNext(cells, i) then i + 2 else i + 1;
    AppendAssociative(written, [SectionAt(cells, i)], SectionsOf(cells[next..]));
  }

  lemma AppendAssociative<T>(a: seq<T>, b: seq<T>, c: seq<T>)
    ensures a + b + c == a + (b + c)
  {
  }

  /** `serializeNotebook`, up to the YAML emitter: one index loop that writes a
      paired section and skips the Code cell it consumed, or writes a section
      with the other field empty. */
  method SerializeNotebook(cells: seq<Cell>) returns (obj: NotebookObject)
    ensures obj == Serialized(cells)
  {
    var sections: seq<WrittenSection> := [];
    var i := 0;
    while i < |cells|
      invariant 0 <= i <= |cells|
      invariant sections + SectionsOf(cells[i..]) == SectionsOf(cells)
    {
      ScanStep(cells, i, sections);
      if cells[i].kind == Markup {
        if i + 1 < |cells| && cells[i + 1].kind == Code {
          sections := sections + [WrittenSection(cells[i].value, cells[i + 1].value)];
          i := i + 1;
        } else {
          sections := sections + [WrittenSection(cells[i].value, "")];
        }
      } else {
        sections := sections + [WrittenSection("", cells[i].value)];
      }
      i := i + 1;
    }
    assert cells[i..] == [];
    obj := NotebookObject(DocumentLanguage(cells), sections);
  }

}
