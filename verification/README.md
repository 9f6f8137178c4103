# annotator, modelled in Dafny

The annotator is a small Flask tool for labelling a JSON-lines dataset one
row at a time. A person attaches label triples (aspect, polarity, emotion) to
each row. The tool rewrites the dataset file with the labels and keeps a
progress file, so that a session can resume where it stopped.

This project models the two pieces of `app.py` that carry logic, with HTTP,
templates and file handles taken out:

- **Catalog flattening** (`flatten_global_emotions`). The emotion catalog
  maps aspect → polarity → emotions. It is flattened into three global lists
  (positive, negative, neutral). Each list is Python's `sorted(set)`.
  `StringOrder` models Python's string order and sorting. `Emotions` models
  the flattening as a method that visits the catalog's keys in any order.
- **The annotation session** (`annotate`, `save_progress`, and the session
  start in `index`). `Session.State` holds what the module globals hold: the
  in-memory dataset, the in-memory progress, the dataset file's contents, the
  progress file, the catalog and its lists. `Session.Annotate` is one request
  as a pure transition, returning the new state and a response. A response is
  a page, a redirect, "complete", or a fault.
  `FormFields` models how labels arrive as positional form fields. `Storage`
  models the line filter of `load_jsonl` and the progress file.

Modules: `Wrappers` (Option, Result), `Records` (Record, Label),
`StringOrder`, `Emotions`, `FormFields`, `Storage`, `Session`,
`SessionProperties` (lemmas that relate several requests).

Behaviours of the code that the model keeps as they are:

- A save sets the progress file to `row + 1` unconditionally, never
  `max(progress, row + 1)`, so progress can move backwards
  (`SessionProperties.SaveCanMoveProgressBack`).
- A save never changes the in-memory progress. Only session start assigns it.
- The completion check runs before the POST branch. A save or navigation
  aimed at a row past the end therefore answers "complete" and changes nothing.
- A missing dataset file loads as an empty dataset; it is not reported as an
  error, and every request then answers "complete".
- A save truncates and rewrites the dataset file in place; there is no
  write to a temporary file and rename.

## Model

| member | source | states |
|---|---|---|
| StringOrder.LessTransitive | app.py:53 | Python's string order, the one `sorted` uses, is transitive |
| StringOrder.LessTotal | app.py:53 | any two different strings are ordered one way or the other |
| StringOrder.StrictlySortedHasNoDuplicates | app.py:53 | a strictly ascending list repeats no element, so it has as many entries as distinct members |
| StringOrder.Insert | app.py:53 | adding an emotion to a sorted duplicate-free list keeps it sorted and duplicate-free, and its members become the old members plus the new one |
| StringOrder.SortSet | app.py:53 | `sorted(s)` of a set is strictly ascending and holds exactly the members of the set |
| StringOrder.SortedIsUnique | app.py:53 | two strictly ascending lists with the same members are equal, so a sorted set's list is unique |
| Emotions.GatheredStep | app.py:45-52 | visiting one more aspect adds exactly the emotions it files under the polarity, if it has that key |
| Emotions.FlattenGlobalEmotions | app.py:42-53 | each of the three lists is sorted without duplicates; an emotion is in the positive, negative or neutral list iff some aspect files it under that exact key; an emotion filed only under other keys is in none |
| Emotions.ListIsDeterminedByCatalog | app.py:44-53 | the lists do not depend on the order the catalog's keys are visited in |
| FormFields.DecimalRoundTrip | app.py:128-130 | the decimal index in a field name reads back as the index |
| FormFields.FieldNameInjective | app.py:128-130 | `aspect_{i}`, `polarity_{i}` and `emotion_{i}` are distinct names for distinct (prefix, index) pairs |
| FormFields.BuildLabels | app.py:123-131 | the saved list has `total_items` entries (none if it is negative); entry `i` takes its parts from the fields for index `i`, and each part may be absent |
| FormFields.EncodeLookup | app.py:128-130 | in the fields encoding a label list, the field for part `p` of index `i` holds that part, and is absent when the part is absent or `i` is out of range |
| FormFields.LabelsRoundTrip | app.py:123-131 | collecting labels from the fields that encode a label list gives back that list |
| Storage.TrimStart | app.py:30 | removes exactly the leading whitespace: what it drops is whitespace and what it keeps does not start with whitespace |
| Storage.TrimEnd | app.py:30 | removes exactly the trailing whitespace |
| Storage.Strip | app.py:30-31 | `line.strip()` is the infix of the line left after removing whitespace at both ends: everything before and after it is whitespace, it neither starts nor ends with whitespace, and it is empty iff the line is all whitespace |
| Storage.DecodeLines | app.py:27-33 | loading succeeds iff every non-blank line decodes after stripping, and then yields one row per non-blank line, in file order: the row for line `k` sits at the number of non-blank lines before `k` and is that line's decoding |
| Storage.BlankLineIgnored | app.py:29-32 | inserting a blank line anywhere does not change what is loaded |
| Storage.LoadJsonl | app.py:24-33 | a missing file loads as no rows, and so does a file of blank lines; an existing file loads iff every non-blank line decodes |
| Storage.LoadProgress | app.py:56-63 | the progress read is the stored `last_row` when the file holds one, and 0 for a missing file, an unreadable one, or one without `last_row` |
| Storage.SaveProgress | app.py:56-68 | the progress file written for a row reads back as that row |
| Session.RequestedRow | app.py:103-105 | the addressed row is the `row` argument when given, else the in-memory progress |
| Session.IsNavigation | app.py:115-119 | a POST navigates iff its action is exactly "navigate"; a missing or any other action saves |
| Session.Serve | app.py:151-168 | a GET for an existing row renders that row with its index and the dataset size, together with the session's emotion catalog and its three flattened lists, and changes nothing |
| Session.Save | app.py:122-146 | a save upserts row `row` (input kept, output replaced by the submitted labels, all other rows unchanged), the dataset file then equals the dataset, the progress file reads `row + 1`, in-memory progress is untouched, and the redirect goes to `row + 1`; a bad `total_items` or a row without `"input"` raises and changes nothing |
| Session.Annotate | app.py:99-168 | a row past the end answers "complete" with the state unchanged, on GET and POST; an in-range GET is `Serve` of that row and an in-range save is `Save` of that row; GET and navigation change nothing, and navigation redirects to `goto_row`; only a save changes state; the dataset size, every row's input and the in-memory progress never change; the file stays equal to the dataset; a progress file within the dataset stays within it |
| Session.Run | app.py:99-146 | over any sequence of requests the dataset size, the inputs, the in-memory progress and the catalog stay fixed, the file stays equal to the dataset, and the progress file stays within the dataset |
| Session.Resume | app.py:89-94 | a started session holds the loaded rows as both dataset and file contents, its progress is what the progress file reads, and it redirects there |
| Session.Start | app.py:79-94 | an undecodable dataset line or an unusable catalog fails the start; otherwise the session holds the loaded rows, the catalog, the progress read from the progress file, and the flattened lists with their properties |
| SessionProperties.CompleteIsIdempotent | app.py:107-109 | at a row past the end every request answers "complete" and asking again answers the same |
| SessionProperties.SaveThenServe | app.py:133-151 | displaying a row right after saving it shows its input with exactly the submitted labels |
| SessionProperties.ResaveReplaces | app.py:133-141 | saving a row twice is the same as one save of the later form, so the file does not grow |
| SessionProperties.SaveCanMoveProgressBack | app.py:143-144 | saving a row earlier than the stored progress moves the progress file backwards |
| SessionProperties.ReloadAfterSave | app.py:89-94 | restarting from the files a save left gives the same dataset, resumes at the row after the saved one, and displays every row as before |
| SessionProperties.NavigationKeepsSavedRow | app.py:114-120 | navigating changes nothing and redirects to `goto_row`, so a saved row still shows its saved labels |
| SessionProperties.ReadOnlyRunChangesNothing | app.py:114-120 | any sequence of GETs and navigations leaves the session exactly as it was |
| SessionProperties.ThreeRowScenario | app.py:123-151 | on rows "A", "B", "C", saving row 0 with (food, positive, tasty) writes that row back labelled, sets progress to 1, leaves row 1 unlabelled, and navigating back shows the saved row |

## Left out

- HTTP routing, `request` parsing, `render_template`, `redirect` and `url_for` (app.py:3-5, 74-78, 99-100) are framework code. Requests are plain parameters and responses a small datatype.
- The integer conversions of the `row` argument, `goto_row` and `total_items` are not modelled. Python's `int()` parsing accepts signs, whitespace and underscores. The model takes the converted value, or `None` when conversion fails.
- A missing `total_items` (HTTP 400) and a non-integer one (HTTP 500) are merged into one fault, `BadTotalItems`.
- File I/O (opening, writing, write failures) is left out. The dataset file is modelled as its decoded rows (`store`) and the progress file as a small datatype.
- `json.loads`, `json.load` and `json.dumps` are foreign calls. Decoding a line is a function parameter of `Storage.DecodeLines`. The catalog arrives already decoded, or as `None` when it is missing or malformed.
- Splitting the file into lines, including newline translation, is left out. The model starts from the sequence of lines.
- Rows are modelled as their `input` and `output` keys only. A save writes back only those two keys, so other keys of a row would be dropped; the model has none to drop.
- `output` values that are not label lists are left out. The handler never reads a row's `output`, it only overwrites it on save, so such a value loads and is passed to the template unchanged.
- Catalog entries whose emotion value is not a list of strings are left out. `set.update` accepts any iterable of hashable values: a string contributes its characters and an object its keys. A `null`, a boolean or a number raises at `set.update`; a list holding a list or an object raises (unhashable); a set mixing strings with numbers or `null` raises at `sorted`.
- A `last_row` value that is not an integer is left out. Every other malformed progress file reads as 0, as in the source.
- Negative row indices are excluded by `Session.RowValid`, because Python's negative indexing is not guarded at app.py:103-108.
- The fixed aspect and polarity vocabularies (app.py:153-154) are only passed to the template. They are not enforced, so they are not modelled.
- Module-level global lifetime and concurrent users are left out. Requests are handled one at a time over an explicit state.
- When `index` raises midway (app.py:79-92), some globals have already been reassigned. `Session.Start` only reports the failure and does not model the partial update.
- The GET branch of `index` (app.py:96) renders a static page and is not modelled.
