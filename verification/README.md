# Literate-programming notebook serializer, in Dafny

This project models `LPNBNotebookSerializer`, the notebook serializer of a
VS Code extension for literate programming. A notebook is stored on disk as
YAML. The file holds a `metadata.language` and a list of `sections`, each with
an optional `docs` text and an optional `code` text. In the editor the
notebook is a flat list of cells: Markup cells and Code cells.

- **Opening** (`deserializeNotebook`) reads the sections in order. A section
  yields a Markup cell when its `docs` is non-empty, then a Code cell when its
  `code` is non-empty. Every Code cell gets the document language. That is
  `metadata.language` when it is non-empty, and `"plaintext"` otherwise.
- **Saving** (`serializeNotebook`) scans the cells once, from left to right. A
  Markup cell directly followed by a Code cell becomes one section. Any other
  cell becomes a section whose other field is `""`. The document language is
  the `languageId` of the first Code cell. It is `"plaintext"` when there is no
  Code cell or that tag is empty.

Files:

- `options.dfy`: module `Options`, the `Option` type.
- `notebook_data.dfy`: module `NotebookData`. It defines the host's `Cell`, the
  YAML document as the loader returns it (`Document`, `Loaded`), the result of
  opening (`Outcome`) and the object given to the YAML emitter
  (`NotebookObject`).
- `serializer.dfy`: module `LPNBNotebookSerializer`. It holds the two
  operations as methods with loops (`DeserializeNotebook`,
  `SerializeNotebook`). Each method is proved equal to a specification
  function beside it (`Deserialized`, `Serialized`). The source class has no
  fields, so it becomes a module, not a Dafny class.
- `properties.dfy`: module `SerializerProperties`. It proves lemmas about
  those specification functions.

Modelling choices:

- The YAML loader is an input, `Loaded = ParseError | Loaded(root)`. A root
  that is null or otherwise falsy is `Loaded(None)`. It is then replaced by
  `{}`, as is the document after a parse error.
- JavaScript truthiness of `docs`, `code` and `metadata.language` is
  `Truthy`: present and non-empty.
- A `sections` value that is absent, or is not a list, is `None`.
- A null entry inside the list is `None`.
- The emitter plus loader is assumed to give back the plain string tree
  it was given (`NotebookData.Reparsed`). The round-trip lemmas compose the
  two directions through that assumption.

Two consequences of the code worth knowing:

- Opening can reject. A null entry in `sections` (for example
  `sections: [~]`) makes `section.docs` throw (src/extension.ts:37), and
  `Deserialized` gives `Rejected`.
- Opening then saving is not the identity on the section list. A docs-only
  section followed by a code-only section opens as a Markup cell then a Code
  cell, and these are saved back as one paired section
  (`SerializerProperties.SectionsMerged`). What does hold is `ReopenIsStable`:
  opening, saving and opening again gives back exactly the cells of the first
  opening.

## Model

| member | source | states |
|---|---|---|
| LPNBNotebookSerializer.RootOf | src/extension.ts:22-30 | after a parse error, and for a null or otherwise falsy root, the deserializer works on `{}`; otherwise on the loaded root |
| LPNBNotebookSerializer.Entries | src/extension.ts:35 | the entries iterated are those of `sections` when it is a list, and none when it is missing or not a list |
| LPNBNotebookSerializer.DefaultLanguage | src/extension.ts:33 | `defaultLang` is never empty; it is `metadata.language` when that is a non-empty string, and "plaintext" otherwise |
| LPNBNotebookSerializer.SectionCells | src/extension.ts:37-52 | a section gives one cell per non-empty field, at most two; a non-empty `docs` gives a first cell that is Markup, tagged "markdown"; a non-empty `code` gives a last cell that is Code, tagged `defaultLang` |
| LPNBNotebookSerializer.CellsOf | src/extension.ts:35-53 | the cells of a list of sections: at most two per section; every cell is well tagged (`WellTagged`: a non-empty value; Markup cells tagged "markdown", Code cells the document language) |
| LPNBNotebookSerializer.Deserialized | src/extension.ts:22-37 | a parse error gives zero cells with the error shown; a null root or a missing or non-list `sections` gives zero cells with no error shown; the error is shown only after a parse error; opening rejects exactly when `sections` holds a null entry |
| LPNBNotebookSerializer.DeserializeNotebook | src/extension.ts:19-56 | the push loop over the sections gives exactly `Deserialized`: the cells of each section in turn, or a rejection at a null entry |
| LPNBNotebookSerializer.SectionAt | src/extension.ts:63-90 | the section written when the scan reaches a cell: a Markup cell's value as `docs`, with `code` the next cell's value if that is Code and `""` otherwise; a Code cell as `{docs: "", code}` |
| LPNBNotebookSerializer.SectionsOf | src/extension.ts:62-91 | the sections of the scan: each takes one or two cells, so there are at most as many sections as cells and at least half as many |
| LPNBNotebookSerializer.FirstCode | src/extension.ts:95 | `find` gives nothing exactly when there is no Code cell; otherwise it gives the first Code cell |
| LPNBNotebookSerializer.DocumentLanguage | src/extension.ts:93-96 | the saved `metadata.language` is never empty; it is the first Code cell's `languageId` when that is non-empty, and "plaintext" when that tag is empty or there is no Code cell |
| LPNBNotebookSerializer.Serialized | src/extension.ts:93-98 | the object handed to the emitter has a non-empty `metadata.language`, and between half as many and as many sections as there are cells |
| LPNBNotebookSerializer.SerializeNotebook | src/extension.ts:58-98 | the index loop, with its skip after a pair, builds the sections of `SectionsOf`; the object's language is `DocumentLanguage` |
| SerializerProperties.CellsOfAppend | src/extension.ts:35-53 | the cells of sections `a ++ b` are the cells of `a` followed by the cells of `b`: sections are read in order and each one's cells stay together |
| SerializerProperties.OpenedInSectionOrder | src/extension.ts:35-55 | opening a document whose sections are `a ++ b` gives the cells of `a`, then the cells of `b`, with no error shown |
| SerializerProperties.OpenedCellsTagged | src/extension.ts:33-53 | every opened cell has a non-empty value; every Markup cell is tagged "markdown"; every Code cell has `defaultLang` (its fallback to "plaintext" is stated by `DefaultLanguage`) |
| SerializerProperties.SectionCount | src/extension.ts:62-91 | number of sections = number of cells − number of adjacent Markup→Code pairs |
| SerializerProperties.SectionPlacement | src/extension.ts:62-90 | a cell that is not the Code half of a pair lands in section number i − (pairs before it); that section is made from the cell alone (other field `""`), or from it and the Code cell right after it; pairing never skips ahead and never looks back |
| SerializerProperties.EveryCellWritten | src/extension.ts:62-91 | every cell is written once, in order: cell i lands in section number i − (pairs up to i); a Markup cell's value becomes that section's `docs`, a Code cell's value its `code` |
| SerializerProperties.SaveThenOpen | src/extension.ts:32-95 | saving then opening gives exactly the non-empty cells, in order; Markup cells are tagged "markdown" and Code cells get the saved document language |
| SerializerProperties.RoundTrip | src/extension.ts:32-95 | when every value is non-empty, saving then opening gives the same kinds and values in the same order; every Code cell comes back with the first Code cell's language |
| SerializerProperties.ReopenIsStable | src/extension.ts:32-95 | opening a notebook, saving it and opening it again gives the cells of the first opening, with no error shown |
| SerializerProperties.OpeningExamples | src/extension.ts:37-52 | `{docs:"A",code:"print(1)"}` gives Markup "A" then Code "print(1)"; `{docs:"A",code:""}` gives only Markup "A"; `{docs:"",code:"x"}` gives only Code "x" |
| SerializerProperties.SavingExamples | src/extension.ts:62-90 | `[Markup A, Code x]` is saved as one section `{A, x}`; `[Markup A, Markup B]` as two sections with empty `code`; `[Code x, Markup A]` as `{"", x}` then `{A, ""}`, with no backward pairing |
| SerializerProperties.SectionsMerged | src/extension.ts:35-90 | a docs-only section followed by a code-only section opens as two cells and is saved back as one paired section |

## Left out

- `activate`, `deactivate` and the registration of the serializer with the host (src/extension.ts:4-16, 105): host wiring with no logic of its own.
- `yaml.load` and `yaml.dump` (src/extension.ts:23, 100): a foreign library. Loading is an input (`Loaded`). Dumping then loading is assumed to give back the same string tree (`Reparsed`).
- `TextDecoder` and `TextEncoder` (src/extension.ts:20, 101): foreign UTF-8 codec calls. The model starts after decoding and stops before encoding.
- `vscode.window.showErrorMessage` (src/extension.ts:25): a UI side effect. It is recorded only as the `errorShown` flag; the message text is not modelled.
- The cancellation token and the `async`/`Promise` wrappers: unused, with no logic. A thrown `TypeError` that rejects the promise is `Outcome.Rejected`.
- YAML values of `docs`, `code` or `metadata.language` that are not strings, such as numbers, booleans or mappings. Each such field is treated as absent. The source hands such a value to the host's `NotebookCellData` constructor; what happens then is not modelled.
