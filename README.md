# Figma copy workflow: the CSV ↔ Word converter, modelled in Dafny

The repository converts a Figma copy export between a CSV file and a Word
document. All of the conversion logic is in `src/figma_copy_workflow/helpers.py`.

- **Forward.** The CSV rows are read and cleaned (`read_csv_data`), then
  bucketed by their `group` column (`group_data_by_section`). Each bucket
  becomes a heading and a `Label | Text | ID` table (`create_word_document`).
- **Backward.** A table-by-table scan reads an edited document into an
  id → text map, turning bold and italic runs and list paragraphs into
  Markdown (`read_word_document_data`). That map is applied to the original
  rows (`update_csv_with_word_changes`) and the result is written out
  (`write_csv_data`).
- **From any document.** `extract_word_document_to_csv_format` infers
  records from a document that has no source CSV. Headings name the
  sections; table rows are read in one of several column layouts, and ids
  are invented where there are none.

The model follows the source's own form. Loops that build strings, lists
and dictionaries are methods with loop invariants. Each method is proved
equal to a reference function, and the properties the program promises are
proved as lemmas about those functions.

| file | module | models |
|---|---|---|
| `text.dfy` | `Text` | `str.strip` over a fixed character set, `startswith`, substring `in`, ASCII `lower`, `str(n)` |
| `ordered_map.dfy` | `Wrappers`, `OrderedMap` | `Option`/`Result`; an insertion-ordered Python `dict` as a sequence of pairs |
| `csv_store.dfy` | `CsvStore` | byte-order mark, line split, field cleaning, the writer's refusal of an empty list and its header rule |
| `grouping.dfy` | `Grouping` | `group_data_by_section`, the bucketing into a `defaultdict(list)` |
| `doc_model.dfy` | `DocModel` | runs, paragraphs, cells, tables, body elements; `paragraph.text`, `cell.text`, `document.tables` |
| `builder.dfy` | `Builder` | the structure `create_word_document` writes |
| `list_marker.dfy` | `ListMarker` | the unordered-item test and the numbered-item pattern `^(\d+[.)]|[a-zA-Z][.)]|[ivxlcdm]+[.)]|[IVXLCDM]+[.)])\s`, written out as a matcher |
| `rich_text.dfy` | `RichText` | `_extract_formatted_text_from_cell`: run wrapping, the space rule, re-prefixing list items, joining paragraphs |
| `id_map.dfy` | `IdMap` | the table scan of `read_word_document_data` |
| `reconcile.dfy` | `Reconcile` | `update_csv_with_word_changes` |
| `infer.dfy` | `Infer` | the element walk and row classification of `extract_word_document_to_csv_format` |
| `round_trip.dfy` | `RoundTrip` | what the forward and backward paths do together |

Modelling choices:

- A CSV record is an ordered dictionary: a sequence of (name, value) pairs
  with distinct names. A raw `DictReader` record may lack a value (`None`)
  for a missing column.
- A document body is a sequence of paragraphs (style name and runs), tables
  and other elements. A cell is a sequence of paragraphs, and a run has
  `text`, `bold` and `italic`.
- `str.strip()` and the pattern's `\s` use the characters Python's `isspace`
  accepts, and `lower()` and `re.IGNORECASE` are modelled on ASCII letters.
- The extractor is defined twice in the source
  (`src/figma_copy_workflow/helpers.py:161-279` and `:366-475`). The two
  copies are identical, so it is modelled once.

Three consequences of the code that a reader of the format might not expect:

- **A 2-column `Label | Text` row is a header row.** The header-row test
  (`helpers.py:515-518`) accepts a 2-cell row whose lower-cased cells are
  `label` and `text`, so such a row is skipped and yields no record.
  `RoundTrip.TwoColumnLabelRowSkipped` proves this.
- **Typed asterisks are not bold.** A bold run `Hi` reads back as `**Hi**`
  (`RichText.ExampleBold`). An unformatted cell whose text is `**Hi**`
  starts with a bullet character (`helpers.py:187-189`), so it is re-prefixed
  as an unordered item and reads back as `- *Hi**`
  (`RichText.ExampleLiteralStars`).
- **A failed write can leave a partial file.** `write_csv_data` opens the
  output file (`helpers.py:341`) before `csv.DictWriter` rejects a record
  with a column the first record lacks (`helpers.py:342-344`). The model
  returns `Err(ExtraFields(i))` for that record and does not model the file.

## Model

| member | source | states |
|---|---|---|
| Text.Strip | src/figma_copy_workflow/helpers.py:31-32 | the stripped text has no character of the set at either end, is no longer than the input, and is empty exactly when every input character is in the set |
| Text.StripWindow | src/figma_copy_workflow/helpers.py:31-32 | when everything before and after a window is in the set and the window has no such character at its edges, strip returns exactly that window |
| Text.StripCharacterization | src/figma_copy_workflow/helpers.py:31-32 | `p + r + q`, with `p` and `q` made of set characters and `r` clean at its edges, strips to `r` |
| Text.StripIdempotent | src/figma_copy_workflow/helpers.py:31-32 | stripping a second time changes nothing |
| Text.Contains | src/figma_copy_workflow/helpers.py:532 | `t in s` holds exactly when `t` occurs in `s` at some index |
| Text.LowerChar | src/figma_copy_workflow/helpers.py:506 | an ASCII capital becomes the small letter at the same position in the alphabet; every other character is kept |
| Text.Lower | src/figma_copy_workflow/helpers.py:506 | the same length, every character lower-cased in place |
| Text.LowerIdempotent | src/figma_copy_workflow/helpers.py:506 | lower-casing already lower-cased text changes nothing |
| Text.NatToString | src/figma_copy_workflow/helpers.py:549 | `str(n)` is non-empty, all decimal digits, and starts with `0` only for zero |
| Text.DecimalRoundTrip | src/figma_copy_workflow/helpers.py:549 | the digits of `str(n)` read back as `n` |
| Text.NatToStringInjective | src/figma_copy_workflow/helpers.py:549 | different numbers give different strings |
| OrderedMap.Get | src/figma_copy_workflow/helpers.py:44 | a lookup fails exactly when the key is absent; with distinct keys it yields the value stored at the key's position |
| OrderedMap.GetOr | src/figma_copy_workflow/helpers.py:121-123 | `d.get(k, default)`: the stored value when the key is present, else the default |
| OrderedMap.Set | src/figma_copy_workflow/helpers.py:33 | `d[k] = v`: the keys stay distinct, `k` maps to `v`, other keys keep their values, an existing key keeps its position and a new one goes last |
| CsvStore.StripBom | src/figma_copy_workflow/helpers.py:20-21 | the result is the content or the content minus its first character, and it is shorter exactly when the content starts with U+FEFF |
| CsvStore.Split | src/figma_copy_workflow/helpers.py:24 | `split('\n')` gives at least one part, no part holds the separator, and joining the parts gives back the text |
| CsvStore.SplitJoin | src/figma_copy_workflow/helpers.py:24 | splitting the join of separator-free parts gives the parts back |
| CsvStore.Lines | src/figma_copy_workflow/helpers.py:19-24 | the lines, joined by line feeds, are the stripped content without its mark, and no line holds a line feed |
| CsvStore.CleanField | src/figma_copy_workflow/helpers.py:31-32 | a cleaned name or value has no space, tab or `"` at either end, and one that was already clean is unchanged |
| CsvStore.CleanValue | src/figma_copy_workflow/helpers.py:32 | a missing or empty value becomes `''`; any other is cleaned; the result is always clean at its edges |
| CsvStore.CleanRow | src/figma_copy_workflow/helpers.py:29-33 | one column per distinct cleaned name, in first-seen order, holding the last cleaned value given to it; every name and value is clean |
| CsvStore.ReadRows | src/figma_copy_workflow/helpers.py:27-34 | one cleaned record per input record, in order |
| CsvStore.CleaningIdempotent | src/figma_copy_workflow/helpers.py:29-33 | cleaning an already-cleaned record again gives the same record |
| CsvStore.FirstExtra | src/figma_copy_workflow/helpers.py:342-344 | the index of the first record having a column outside the header, and none exactly when every record fits the header |
| CsvStore.WriteCsv | src/figma_copy_workflow/helpers.py:335-344 | refused with `NoData` exactly when the list is empty; accepted exactly when no record has a column the first lacks; the header is the first record's columns in order; each line holds the record's value for each header column, `''` where it has none |
| Grouping.GroupOf | src/figma_copy_workflow/helpers.py:44 | a row's group is its `group` value, or `Unknown Group` when it has none |
| Grouping.KeptIsTruthyGroup | src/figma_copy_workflow/helpers.py:45 | a row is kept exactly when its group is non-empty and not all whitespace |
| Grouping.GroupBySection | src/figma_copy_workflow/helpers.py:39-48 | one bucket per kept group name, in first-seen order; each holds exactly that group's kept rows, in input order |
| Grouping.GroupingStep | src/figma_copy_workflow/helpers.py:43-46 | appending a kept row extends its group's bucket, or adds the bucket last; appending another row changes nothing |
| Grouping.SeenIffPresent | src/figma_copy_workflow/helpers.py:43-48 | a group name is a key exactly when some kept row carries it |
| Grouping.KeptRowPlaced | src/figma_copy_workflow/helpers.py:43-46 | every kept row is in the bucket of its own group |
| Grouping.BucketMembersBelong | src/figma_copy_workflow/helpers.py:43-46 | every bucket member is a kept input row of that group |
| Grouping.FirstSeenDistinct | src/figma_copy_workflow/helpers.py:41-48 | no group name appears twice among the keys |
| Grouping.RowsInAppend | src/figma_copy_workflow/helpers.py:43-46 | a group's bucket over two runs of rows is the first run's bucket followed by the second's |
| Grouping.BucketsAccountForKeptRows | src/figma_copy_workflow/helpers.py:39-48 | the bucket sizes add up to the number of kept rows: no row is lost or duplicated |
| DocModel.PlainCell | src/figma_copy_workflow/helpers.py:121-123 | a cell written with `cell.text = s` has text `s` |
| DocModel.TablesAppend | src/figma_copy_workflow/helpers.py:282 | the tables of two bodies in sequence are the first body's tables followed by the second's |
| Builder.HeaderCell | src/figma_copy_workflow/helpers.py:97-106 | a bold header cell has the word as its text |
| Builder.DataRow | src/figma_copy_workflow/helpers.py:119-123 | three cells whose texts are the record's `layer_name`, `figma_text` and `id`, `''` where missing |
| Builder.GroupTable | src/figma_copy_workflow/helpers.py:87-123 | the header row first, then record `i`'s row at position `i + 1` |
| Builder.BuildTable | src/figma_copy_workflow/helpers.py:87-123 | the table the loop builds is the group's table |
| Builder.BuildSection | src/figma_copy_workflow/helpers.py:77-142 | a level-1 heading with the group's name, the group's table, an empty spacer paragraph |
| Builder.BuildDocument | src/figma_copy_workflow/helpers.py:60-145 | the title, then in the groups' order one section per non-empty group, then the final section properties |
| Builder.TablesOfDocument | src/figma_copy_workflow/helpers.py:72-123 | the tables of the built document are the non-empty groups' tables, in order |
| ListMarker.MarkerNoEdge | src/figma_copy_workflow/helpers.py:193 | a marker the pattern captures has no whitespace at either end |
| ListMarker.MatchMarkerSound | src/figma_copy_workflow/helpers.py:193-198 | a marker the matcher finds is one the pattern captures |
| ListMarker.MatchMarkerComplete | src/figma_copy_workflow/helpers.py:193-198 | every marker the pattern captures is found by the matcher |
| ListMarker.MatchMarkerCorrect | src/figma_copy_workflow/helpers.py:193-198 | the matcher yields `m` exactly when the pattern matches and captures `m` |
| ListMarker.MarkerUnique | src/figma_copy_workflow/helpers.py:193-198 | a text starts with at most one marker |
| ListMarker.ClassifyBullet | src/figma_copy_workflow/helpers.py:184-189 | a paragraph is an unordered item exactly when its trimmed text starts with `•`, `-` or `*` |
| ListMarker.ClassifyNumbered | src/figma_copy_workflow/helpers.py:184-198 | a paragraph is a numbered item with marker `m` exactly when its trimmed text does not start with a bullet character and the pattern captures `m` from it |
| RichText.Wrap | src/figma_copy_workflow/helpers.py:242-247 | a run becomes its text between one, two or three asterisks on each side (italic, bold, both), or stays bare |
| RichText.Rendered | src/figma_copy_workflow/helpers.py:200-203 | at most one rendered piece per run, and none is empty |
| RichText.SpacedStep | src/figma_copy_workflow/helpers.py:249-253 | the next piece follows the accumulated text after one space exactly when the text so far ends in `*` or `)` and the piece starts with `*` or `[` |
| RichText.RenderStep | src/figma_copy_workflow/helpers.py:249-253 | one loop step appends the wrapped run after the space the source's test decides |
| RichText.RenderSkip | src/figma_copy_workflow/helpers.py:201-203 | a run with no text contributes nothing |
| RichText.RenderParagraph | src/figma_copy_workflow/helpers.py:200-253 | the run loop builds the spaced join of the rendered runs |
| RichText.PlainRendering | src/figma_copy_workflow/helpers.py:200-253 | unformatted runs that do not start with `*` or `[` render as the paragraph's plain text |
| RichText.ClassifyParagraph | src/figma_copy_workflow/helpers.py:180-198 | the list flags and the marker agree with the classification of the paragraph's plain text |
| RichText.Reprefix | src/figma_copy_workflow/helpers.py:255-270 | the re-prefixed text of a plain, unordered or numbered paragraph |
| RichText.RefinishBullet | src/figma_copy_workflow/helpers.py:266-270 | `- ` followed by an edge-clean text is re-prefixed to itself |
| RichText.FinishStableBullet | src/figma_copy_workflow/helpers.py:266-270 | re-prefixing an unordered item twice gives what once gives |
| RichText.RefinishNumbered | src/figma_copy_workflow/helpers.py:259-265 | a marker, a space and an edge-clean text are re-prefixed to themselves |
| RichText.FinishStableNumbered | src/figma_copy_workflow/helpers.py:259-265 | re-prefixing a numbered item twice gives what once gives |
| RichText.JoinSnoc | src/figma_copy_workflow/helpers.py:272-277 | the first contribution stands alone; each later one follows a line feed if it starts with `- ` or is numbered, else a space |
| RichText.PieceNonEmpty | src/figma_copy_workflow/helpers.py:255 | a paragraph that contributes contributes non-empty text |
| RichText.ExtractText | src/figma_copy_workflow/helpers.py:161-279 | the extractor's loops compute the cell's text: trimmed plain text without formatting, else the trimmed join of the paragraphs' contributions |
| RichText.ExtractTrimmed | src/figma_copy_workflow/helpers.py:172-173 | the extracted text is always trimmed, with or without formatting |
| RichText.OneParagraphExtract | src/figma_copy_workflow/helpers.py:177-279 | a one-paragraph cell reads back as that paragraph's contribution, trimmed, or as nothing |
| RichText.PlainParagraphPiece | src/figma_copy_workflow/helpers.py:184-270 | an unformatted paragraph that is no list item and does not start with `*` or `[` contributes its own text, or nothing when blank |
| RichText.PlainCellAgrees | src/figma_copy_workflow/helpers.py:172-279 | such a text written into a cell reads back trimmed, the same with and without formatting |
| RichText.ExampleBold | src/figma_copy_workflow/helpers.py:244-245 | a bold run `Hi` reads back as `**Hi**` |
| RichText.ExampleLiteralStars | src/figma_copy_workflow/helpers.py:187-189 | a plain cell typed as `**Hi**` reads back as `- *Hi**` |
| IdMap.DataRows | src/figma_copy_workflow/helpers.py:284 | the rows of a table after row 0 |
| IdMap.RowEntry | src/figma_copy_workflow/helpers.py:286-294 | a row gives an entry exactly when it has at least three cells and its trimmed third cell is non-empty; the entry maps that id to the extracted second cell |
| IdMap.LastForIsLast | src/figma_copy_workflow/helpers.py:293-294 | the value kept for an id is `v` exactly when `(id, v)` occurs with no later entry for that id |
| IdMap.MapsLastSnoc | src/figma_copy_workflow/helpers.py:294 | assigning one more entry keeps the map holding the last value per id |
| IdMap.ReadIdMap | src/figma_copy_workflow/helpers.py:282-296 | the map holds, for each id of any table's data rows, the value of its last entry, and nothing else |
| IdMap.EntryKeysClean | src/figma_copy_workflow/helpers.py:290-293 | every entry's id is non-empty and trimmed |
| IdMap.IdMapKeysNonEmpty | src/figma_copy_workflow/helpers.py:293 | every key of the map is non-empty and trimmed |
| IdMap.EntriesOfDataRows | src/figma_copy_workflow/helpers.py:282-284 | tables with the same data rows give the same entries |
| IdMap.HeaderRowIgnored | src/figma_copy_workflow/helpers.py:284 | replacing any table's row 0 changes no entry |
| Reconcile.RowId | src/figma_copy_workflow/helpers.py:317 | a record's id is its trimmed `id`, or `''` when it has none |
| Reconcile.UpdateRows | src/figma_copy_workflow/helpers.py:310-325 | one output record per input record, in order; when the id has an update, the record keeps its other columns and their order and its `figma_text` is the update (added last if missing); otherwise it is unchanged |
| Reconcile.UpdateDetermined | src/figma_copy_workflow/helpers.py:314-321 | the updated record is determined by the record and the updates |
| Reconcile.UpdateToSameText | src/figma_copy_workflow/helpers.py:320-321 | an update to the text a record already has leaves the record unchanged |
| Infer.SectionIsLatestHeading | src/figma_copy_workflow/helpers.py:478-490 | the section in force is the trimmed text of the last heading or title paragraph with non-blank text |
| Infer.SectionDefault | src/figma_copy_workflow/helpers.py:364 | before any such paragraph the section is `General Content` |
| Infer.CellKeyOfWord | src/figma_copy_workflow/helpers.py:506 | a cell holding a word with no blank edge is compared as the word lower-cased |
| Infer.ReadIsHeaderRow | src/figma_copy_workflow/helpers.py:506-518 | the loop's header test is the exact-vocabulary test for 3 and 2 cells |
| Infer.ReadThreeColumns | src/figma_copy_workflow/helpers.py:524-549 | a 3-cell row is read in the layout the id heuristic picks |
| Infer.LayoutUsesEveryCell | src/figma_copy_workflow/helpers.py:531-549 | whatever the layout, a 3-cell row's layer, text and id are its three cells' texts, each used once; the id is invented exactly when the third cell is blank and the first does not look like an id |
| Infer.ReadRowFields | src/figma_copy_workflow/helpers.py:504-561 | rows under 2 cells and header rows are not read; rows of 3, 2 and 4 or more cells are read as the source lays them out |
| Infer.Records | src/figma_copy_workflow/helpers.py:563-571 | the `k`-th record is the `k`-th emitted row, numbered after the `k` before it |
| Infer.EmitTable | src/figma_copy_workflow/helpers.py:498-571 | the row loop appends the record of each read row with non-blank text, numbering invented ids by the records so far |
| Infer.InferRecords | src/figma_copy_workflow/helpers.py:478-574 | the element walk emits, in document order, the records of every table's rows, each under the section in force at its table |
| Infer.GeneratedIdsDistinct | src/figma_copy_workflow/helpers.py:549 | invented ids for records at different positions differ |
| Infer.FirstGeneratedId | src/figma_copy_workflow/helpers.py:555 | the first invented id is `generated_1` |
| Infer.TableCandidatesNonBlank | src/figma_copy_workflow/helpers.py:564 | every row a table emits has non-blank text and the table's section |
| Infer.CandidatesNonBlank | src/figma_copy_workflow/helpers.py:564 | every emitted row has non-blank text |
| Infer.RecordLookup | src/figma_copy_workflow/helpers.py:565-571 | a record has the columns `id`, `frame`, `group`, `layer_name`, `figma_text` in that order, holding the id, the section twice, the layer and the text |
| Infer.RecordsWellFormed | src/figma_copy_workflow/helpers.py:563-571 | every inferred record has those five columns, non-blank `figma_text` and `layer_name`, and `frame` equal to `group` |
| Infer.RecordsWritable | src/figma_copy_workflow/helpers.py:563-571 | the inferred records can be written exactly when there is at least one, and the header is then those five columns |
| Infer.UnreadFirstRow | src/figma_copy_workflow/helpers.py:520-521 | a first row that is not read adds nothing to the table's records |
| RoundTrip.CellReadsBack | src/figma_copy_workflow/helpers.py:161-279 | a trimmed text reads back from its cell unchanged, provided, when formatting is preserved, it is no list item and does not start with `*` or `[` |
| RoundTrip.HeaderRowRecognised | src/figma_copy_workflow/helpers.py:506-514 | the header row the builder writes passes the 3-column header test |
| RoundTrip.BuilderHeaderNotRead | src/figma_copy_workflow/helpers.py:504-521 | so a built table's header row is never read as a record |
| RoundTrip.TwoColumnLabelRowSkipped | src/figma_copy_workflow/helpers.py:515-518 | a 2-cell row reading `Label`, `Text` is skipped as a header row |
| RoundTrip.UneditedRoundTrip | src/figma_copy_workflow/helpers.py:282-325 | grouping records into a document and updating them from that unedited document gives the records back unchanged, when each text reads back verbatim and records sharing an id share their text |

## Left out

- File I/O: opening, reading and saving the CSV and Word files. The model
  works on their contents.
- CSV quoting and parsing by `csv.DictReader`. The model starts from the
  records it yields. A record with more fields than the header (its
  `restkey` is `None`, so `key.strip` fails) is not modelled.
- How `csv.DictWriter` formats a line. The model stops at the header and the
  values of each line.
- What is left on disk when `write_csv_data` fails after opening its file.
- Styling in `create_word_document`: colours, widths, font sizes, shading,
  alignment and spacing. These calls have no effect on the text that is
  read back.
- Hyperlink detection in the extractor (`helpers.py:205-239`). The URL it
  finds is never used.
- Finding the paragraph or table object for each body element
  (`helpers.py:482-483`, `495-496`). The model walks the body sequence
  directly.
- python-docx's own conversions, such as a `\r` in run text. Run text is
  taken as stored.
- Merged cells, which python-docx reports once per grid column.
- Unicode case mapping: `lower()` and `re.IGNORECASE` are modelled on ASCII
  letters only, and `\d` on ASCII digits only.
- The `label` variable of the table scan (`helpers.py:287`) and the bullet
  character kept in `list_marker` (`helpers.py:189`). Both are never used.
- The extractor's second copy (`helpers.py:366-475`). It is identical to the
  first, which is modelled.
- `src/figma_copy_workflow/parser.py` and `app.py` are not part of this
  model. They only wire the helpers to files and a user interface. That
  wiring picks the default `preserve_formatting=True`; the model takes the
  flag as a parameter everywhere.
