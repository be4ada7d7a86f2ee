/**
  What the serializer's two directions promise, separately and composed.
 */
module SerializerProperties {
  import opened Options
  import opened NotebookData
  import opened LPNBNotebookSerializer

  // ---------------------------------------------------------------------------
  // Deserialization
  // ---------------------------------------------------------------------------

  /** The cells of a list of sections are the cells of its first part followed
      by those of the rest: sections are read in order and contribute their
      cells next to each other. */
  lemma {:induction false} CellsOfAppend(a: seq<Option<Section>>, b: seq<Option<Section>>, lang: string)
    requires None !in a && None !in b
    ensures None !in a + b
    ensures CellsOf(a + b, lang) == CellsOf(a, lang) + CellsOf(b, lang)
    decreases |b|
  {
    if b == [] {
      assert a + b == a;
    } else {
      var b' := b[..|b| - 1];
      assert b[|b| - 1] in b;
      assert (a + b)[..|a + b| - 1] == a + b';
      assert (a + b)[|a + b| - 1] == b[|b| - 1];
      CellsOfAppend(a, b', lang);
      var last := SectionCells(b[|b| - 1].value, lang);
      assert CellsOf(a + b, lang) == CellsOf(a + b', lang) + last;
      assert CellsOf(b, lang) == CellsOf(b', lang) + last;
      AppendAssociative(CellsOf(a, lang), CellsOf(b', lang), last);
    }
  }

  /** Every opened cell has a non-empty value; every Markup cell is tagged
      "markdown" and every Code cell carries `defaultLang`. */
  lemma OpenedCellsTagged(loaded: Loaded)
    requires Deserialized(loaded).Opened?
    ensures WellTagged(Deserialized(loaded).cells, DefaultLanguage(RootOf(loaded)))
  {
  }

  /** Opening a document whose sections are `a` then `b` gives the cells of `a`
      followed by the cells of `b`. */
  lemma OpenedInSectionOrder(language: Option<string>, a: seq<Option<Section>>, b: seq<Option<Section>>)
    requires None !in a && None !in b
    ensures
      var lang := DefaultLanguage(Document(language, None));
      Deserialized(Loaded(Some(Document(language, Some(a + b))))) ==
      Opened(CellsOf(a, lang) + CellsOf(b, lang), false)
  {
    CellsOfAppend(a, b, DefaultLanguage(Document(language, None)));
  }

  // ---------------------------------------------------------------------------
  // Serialization: greedy adjacent pairing
  // ---------------------------------------------------------------------------

  /** The number of adjacent (Markup, Code) pairs in `cells`. */
  function PairCount(cells: seq<Cell>): nat
    decreases |cells|
  {
    if |cells| < 2 then 0
    else (if PairsWithNext(cells, 0) then 1 else 0) + PairCount(cells[1..])
  }

  /** Cell `i` begins a section: it is not the Code half of a pair. */
  predicate StartsSection(cells: seq<Cell>, i: int)
    requires 0 <= i < |cells|
  {
    i == 0 || !PairsWithNext(cells, i - 1)
  }

  /** Appending a cell adds one pair exactly when it is Code after a Markup cell. */
  lemma {:induction false} PairCountSnoc(cells: seq<Cell>, c: Cell)
    ensures PairCount(cells + [c]) ==
      PairCount(cells) + (if |cells| > 0 && cells[|cells| - 1].kind == Markup && c.kind == Code then 1 else 0)
    decreases |cells|
  {
    if |cells| >= 2 {
      assert (cells + [c])[1..] == cells[1..] + [c];
      PairCountSnoc(cells[1..], c);
    }
  }

  /** Every adjacent (Markup, Code) pair becomes one section: the number of
      sections is the number of cells less the number of such pairs. */
  lemma {:induction false} SectionCount(cells: seq<Cell>)
    ensures |SectionsOf(cells)| == |cells| - PairCount(cells)
    decreases |cells|
  {
    if cells != [] {
      if PairsWithNext(cells, 0) {
        assert |cells| == 2 || PairCount(cells[1..]) == PairCount(cells[2..]) by {
          if |cells| > 2 { assert cells[1..][1..] == cells[2..]; }
        }
        SectionCount(cells[2..]);
      } else {
        SectionCount(cells[1..]);
      }
    }
  }

  /** The pairs of a prefix that starts with a pair. */
  lemma PairCountAfterPair(cells: seq<Cell>, i: int)
    requires 2 <= i <= |cells| && PairsWithNext(cells, 0)
    ensures PairCount(cells[..i]) == 1 + PairCount(cells[2..i])
  {
  }

  /** The pairs of a prefix that does not start with a pair. */
  lemma PairCountAfterSingle(cells: seq<Cell>, i: int)
    requires 1 <= i <= |cells| && !PairsWithNext(cells, 0)
    ensures PairCount(cells[..i]) == PairCount(cells[1..i])
  {
  }

  /** Section k of the rest of the scan is section k + 1 of the whole scan. */
  lemma SectionsOfStep(cells: seq<Cell>, k: int)
    requires cells != []
    requires 0 <= k < |SectionsOf(cells[if PairsWithNext(cells, 0) then 2 else 1..])|
    ensures k + 1 < |SectionsOf(cells)|
    ensures SectionsOf(cells)[k + 1] == SectionsOf(cells[if PairsWithNext(cells, 0) then 2 else 1..])[k]
  {
  }

  /** Dropping the first `step` cells shifts every position by `step` and
      changes neither the section written at a position nor whether a
      position begins a section. */
  lemma ShiftedScan(cells: seq<Cell>, step: int, j: int)
    requires 0 < step <= j < |cells|
    requires StartsSection(cells, j)
    ensures cells[step..][..j - step] == cells[step..j]
    ensures SectionAt(cells[step..], j - step) == SectionAt(cells, j)
    ensures StartsSection(cells[step..], j - step)
  {
    var rest := cells[step..];
    assert rest[j - step] == cells[j];
    assert j + 1 < |cells| ==> rest[j - step + 1] == cells[j + 1];
    assert PairsWithNext(rest, j - step) == PairsWithNext(cells, j);
    if j > step {
      assert rest[j - step - 1] == cells[j - 1];
      assert PairsWithNext(rest, j - step - 1) == PairsWithNext(cells, j - 1);
    }
  }

  /** A cell that begins a section lands in section number i - (pairs before
      it), and that section is built from it alone or from it and the Code
      cell right after it: the scan never skips ahead and never looks back. */
  lemma {:induction false} SectionPlacement(cells: seq<Cell>, i: int)
    requires 0 <= i < |cells| && StartsSection(cells, i)
    ensures 0 <= i - PairCount(cells[..i]) < |SectionsOf(cells)|
    ensures SectionsOf(cells)[i - PairCount(cells[..i])] == SectionAt(cells, i)
    decreases |cells|
  {
    if i == 0 {
      assert cells[..0] == [];
    } else {
      var step := if PairsWithNext(cells, 0) then 2 else 1;
      var rest := cells[step..];
      assert i >= step;
      ShiftedScan(cells, step, i);
      SectionPlacement(rest, i - step);
      if step == 2 {
        PairCountAfterPair(cells, i);
      } else {
        PairCountAfterSingle(cells, i);
      }
      var k := i - step - PairCount(rest[..i - step]);
      assert PairCount(cells[..i]) == step - 1 + PairCount(rest[..i - step]);
      assert i - PairCount(cells[..i]) == k + 1;
      SectionsOfStep(cells, k);
      assert SectionsOf(rest)[k] == SectionAt(cells, i);
    }
  }

  /** Every cell is written exactly where the scan reaches it: cell i lands in
      section number i - (pairs up to and including it), a Markup cell as that
      section's `docs` and a Code cell as its `code`. */
  lemma EveryCellWritten(cells: seq<Cell>, i: int)
    requires 0 <= i < |cells|
    ensures var k := i - PairCount(cells[..i + 1]);
      0 <= k < |SectionsOf(cells)| &&
      if cells[i].kind == Markup then SectionsOf(cells)[k].docs == cells[i].value
      else SectionsOf(cells)[k].code == cells[i].value
  {
    assert cells[..i + 1] == cells[..i] + [cells[i]];
    PairCountSnoc(cells[..i], cells[i]);
    if StartsSection(cells, i) {
      SectionPlacement(cells, i);
    } else {
      assert cells[..i] == cells[..i - 1] + [cells[i - 1]];
      PairCountSnoc(cells[..i - 1], cells[i - 1]);
      SectionPlacement(cells, i - 1);
    }
  }

  // ---------------------------------------------------------------------------
  // Serialization followed by deserialization
  // ---------------------------------------------------------------------------

  /** The cell that reopening gives for `cell`: Markup is retagged "markdown",
      Code gets the document language. */
  function Retagged(cell: Cell, lang: string): Cell
  {
    Cell(cell.kind, cell.value, if cell.kind == Markup then MarkdownLanguage else lang)
  }

  /** The cells that survive a save and reopen: those with a non-empty value,
      in order, retagged. */
  function Surviving(cells: seq<Cell>, lang: string): seq<Cell>
    decreases |cells|
  {
    if cells == [] then []
    else (if cells[0].value == "" then [] else [Retagged(cells[0], lang)]) + Surviving(cells[1..], lang)
  }

  /** Reloading written sections goes section by section. */
  lemma ReparsedSectionsCons(head: WrittenSection, tail: seq<WrittenSection>)
    ensures ReparsedSections([head] + tail) == [ReparsedEntry(head)] + ReparsedSections(tail)
  {
  }

  /** The cells of a one-section list. */
  lemma CellsOfSingle(entry: Option<Section>, lang: string)
    requires entry.Some?
    ensures CellsOf([entry], lang) == SectionCells(entry.value, lang)
  {
  }

  /** Surviving cells of a list, one cell at a time. */
  lemma SurvivingCons(cells: seq<Cell>, lang: string)
    requires cells != []
    ensures Surviving(cells, lang) ==
      (if cells[0].value == "" then [] else [Retagged(cells[0], lang)]) + Surviving(cells[1..], lang)
  {
  }

  /** A paired first section reopens to the surviving cells of the pair. */
  lemma PairedSectionSurvivors(cells: seq<Cell>, lang: string)
    requires cells != [] && PairsWithNext(cells, 0)
    ensures SectionCells(ReparsedEntry(SectionAt(cells, 0)).value, lang) + Surviving(cells[2..], lang) ==
            Surviving(cells, lang)
  {
    var markup := if cells[0].value == "" then [] else [Retagged(cells[0], lang)];
    var code := if cells[1].value == "" then [] else [Retagged(cells[1], lang)];
    SurvivingCons(cells, lang);
    SurvivingCons(cells[1..], lang);
    assert cells[1..][0] == cells[1];
    assert cells[1..][1..] == cells[2..];
    assert SectionCells(ReparsedEntry(SectionAt(cells, 0)).value, lang) == markup + code;
    assert Surviving(cells, lang) == markup + (code + Surviving(cells[2..], lang));
  }

  /** An unpaired first section reopens to its one cell, if that survives. */
  lemma SingleSectionSurvivors(cells: seq<Cell>, lang: string)
    requires cells != [] && !PairsWithNext(cells, 0)
    ensures SectionCells(ReparsedEntry(SectionAt(cells, 0)).value, lang) + Surviving(cells[1..], lang) ==
            Surviving(cells, lang)
  {
    SurvivingCons(cells, lang);
    assert SectionCells(ReparsedEntry(SectionAt(cells, 0)).value, lang) ==
      if cells[0].value == "" then [] else [Retagged(cells[0], lang)];
  }

  /** The cells the first written section reopens to are the surviving cells
      among those it was written from. */
  lemma FirstSectionSurvivors(cells: seq<Cell>, lang: string)
    requires cells != []
    ensures
      var rest := cells[if PairsWithNext(cells, 0) then 2 else 1..];
      SectionCells(ReparsedEntry(SectionAt(cells, 0)).value, lang) + Surviving(rest, lang) ==
      Surviving(cells, lang)
  {
    if PairsWithNext(cells, 0) {
      PairedSectionSurvivors(cells, lang);
    } else {
      SingleSectionSurvivors(cells, lang);
    }
  }

  /** Reopening the saved sections gives the surviving cells. */
  lemma {:induction false} ReparsedSectionsCells(cells: seq<Cell>, lang: string)
    ensures CellsOf(ReparsedSections(SectionsOf(cells)), lang) == Surviving(cells, lang)
    decreases |cells|
  {
    if cells != [] {
      var rest := cells[if PairsWithNext(cells, 0) then 2 else 1..];
      var entry := ReparsedEntry(SectionAt(cells, 0));
      var tail := ReparsedSections(SectionsOf(rest));
      ReparsedSectionsCons(SectionAt(cells, 0), SectionsOf(rest));
      CellsOfAppend([entry], tail, lang);
      CellsOfSingle(entry, lang);
      ReparsedSectionsCells(rest, lang);
      FirstSectionSurvivors(cells, lang);
    }
  }

  /** Saving and reopening keeps exactly the cells with a non-empty value, in
      their order, with Code cells retagged to the saved document language. */
  lemma SaveThenOpen(cells: seq<Cell>)
    ensures Deserialized(Loaded(Some(Reparsed(Serialized(cells))))) ==
            Opened(Surviving(cells, DocumentLanguage(cells)), false)
  {
    ReparsedSectionsCells(cells, DocumentLanguage(cells));
  }

  /** With no empty value, every cell survives, retagged, at its own position. */
  lemma {:induction false} SurvivingAllNonEmpty(cells: seq<Cell>, lang: string)
    requires forall k :: 0 <= k < |cells| ==> cells[k].value != ""
    ensures |Surviving(cells, lang)| == |cells|
    ensures forall k :: 0 <= k < |cells| ==> Surviving(cells, lang)[k] == Retagged(cells[k], lang)
    decreases |cells|
  {
    if cells != [] {
      SurvivingAllNonEmpty(cells[1..], lang);
      forall k | 1 <= k < |cells|
        ensures Surviving(cells, lang)[k] == Retagged(cells[k], lang)
      {
        assert cells[1..][k - 1] == cells[k];
      }
    }
  }

  /** Round trip: when every cell has a non-empty value, saving and reopening
      gives back the same kinds and values in the same order; Markup cells
      come back tagged "markdown" and every Code cell with the language of the
      first Code cell. */
  lemma RoundTrip(cells: seq<Cell>)
    requires forall k :: 0 <= k < |cells| ==> cells[k].value != ""
    ensures var out := Deserialized(Loaded(Some(Reparsed(Serialized(cells)))));
      out.Opened? && !out.errorShown && |out.cells| == |cells| &&
      forall k :: 0 <= k < |cells| ==>
        out.cells[k].kind == cells[k].kind && out.cells[k].value == cells[k].value &&
        out.cells[k].languageId ==
          (if cells[k].kind == Markup then MarkdownLanguage else DocumentLanguage(cells))
  {
    SaveThenOpen(cells);
    SurvivingAllNonEmpty(cells, DocumentLanguage(cells));
  }

  /** Cells that are already well tagged survive unchanged. */
  lemma {:induction false} SurvivingWellTagged(cells: seq<Cell>, lang: string)
    requires WellTagged(cells, lang)
    ensures Surviving(cells, lang) == cells
    decreases |cells|
  {
    if cells != [] {
      assert WellTagged(cells[1..], lang) by {
        forall k | 0 <= k < |cells| - 1 ensures cells[1..][k] == cells[k + 1] { }
      }
      SurvivingWellTagged(cells[1..], lang);
    }
  }

  /** Opening a notebook, saving it and opening it again gives the cells of
      the first opening, with no error shown. */
  lemma ReopenIsStable(loaded: Loaded)
    requires Deserialized(loaded).Opened?
    ensures var cells := Deserialized(loaded).cells;
      Deserialized(Loaded(Some(Reparsed(Serialized(cells))))) == Opened(cells, false)
  {
    var cells := Deserialized(loaded).cells;
    var lang := DefaultLanguage(RootOf(loaded));
    OpenedCellsTagged(loaded);
    var saved := DocumentLanguage(cells);
    assert WellTagged(cells, saved) by {
      forall k | 0 <= k < |cells| && cells[k].kind == Code ensures cells[k].languageId == saved {
        var j :| IsFirstCode(cells, j) by {
          FirstCodeExists(cells, k);
        }
      }
    }
    SurvivingWellTagged(cells, saved);
    SaveThenOpen(cells);
  }

  /** A list with a Code cell has a first Code cell. */
  lemma {:induction false} FirstCodeExists(cells: seq<Cell>, k: int)
    requires 0 <= k < |cells| && cells[k].kind == Code
    ensures exists j :: IsFirstCode(cells, j)
    decreases k
  {
    if !IsFirstCode(cells, k) {
      var k' :| 0 <= k' < k && cells[k'].kind == Code;
      FirstCodeExists(cells, k');
    }
  }

  // ---------------------------------------------------------------------------
  // Worked examples
  // ---------------------------------------------------------------------------

  /** Opening small sections: both fields give two cells, Markup first; an
      empty field gives no cell. */
  lemma OpeningExamples(lang: string)
    ensures SectionCells(Section(Some("A"), Some("print(1)")), lang) ==
            [Cell(Markup, "A", MarkdownLanguage), Cell(Code, "print(1)", lang)]
    ensures SectionCells(Section(Some("A"), Some("")), lang) == [Cell(Markup, "A", MarkdownLanguage)]
    ensures SectionCells(Section(Some(""), Some("x")), lang) == [Cell(Code, "x", lang)]
  {
  }

  /** Saving small cell lists: pairing is strictly forward and adjacent. */
  lemma SavingExamples(lang: string)
    ensures SectionsOf([Cell(Markup, "A", MarkdownLanguage), Cell(Code, "x", lang)]) ==
            [WrittenSection("A", "x")]
    ensures SectionsOf([Cell(Markup, "A", MarkdownLanguage), Cell(Markup, "B", MarkdownLanguage)]) ==
            [WrittenSection("A", ""), WrittenSection("B", "")]
    ensures SectionsOf([Cell(Code, "x", lang), Cell(Markup, "A", MarkdownLanguage)]) ==
            [WrittenSection("", "x"), WrittenSection("A", "")]
  {
    var markupB := [Cell(Markup, "B", MarkdownLanguage)];
    assert [Cell(Markup, "A", MarkdownLanguage), Cell(Markup, "B", MarkdownLanguage)][1..] == markupB;
    assert markupB[1..] == [];
    var markupA := [Cell(Markup, "A", MarkdownLanguage)];
    assert [Cell(Code, "x", lang), Cell(Markup, "A", MarkdownLanguage)][1..] == markupA;
    assert markupA[1..] == [];
  }

  /** A section list is not always restored by opening and saving: a
      docs-only section followed by a code-only section is saved back as one
      paired section. */
  lemma SectionsMerged(lang: string)
    ensures var cells := CellsOf([Some(Section(Some("a"), Some(""))), Some(Section(Some(""), Some("x")))], lang);
            SectionsOf(cells) == [WrittenSection("a", "x")]
  {
    var two := [Some(Section(Some("a"), Some(""))), Some(Section(Some(""), Some("x")))];
    assert two[..1] == [two[0]];
    CellsOfSingle(two[0], lang);
    assert CellsOf(two[..1], lang) == [Cell(Markup, "a", MarkdownLanguage)];
    assert SectionCells(two[1].value, lang) == [Cell(Code, "x", lang)];
    var cells := CellsOf(two, lang);
    assert cells == [Cell(Markup, "a", MarkdownLanguage)] + [Cell(Code, "x", lang)];
    assert cells[2..] == [];
  }

}
