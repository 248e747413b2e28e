# Jnotes core, modelled in Dafny

Jnotes is a browser notebook for the Jackal scripting language. This project
models the parts of it that compute something, and proves what they do:

- **The variable-flow extractor** of the diagram panel
  (`DiagramManager.generate`, module `Diagrams`). It splits the top editor's
  buffer into lines, trims each one, and searches it for
  `let\s+([a-zA-Z_]\w*)\s*=\s*(.*)`. Every line that matches becomes a node
  `v_<name>_<line>["let <name>"]`. Each node after the first is linked from
  the one before it. The result is a Mermaid `graph TD` description, or the
  "No variable flow found" placeholder when no line matches.
- **The editor page's state** (module `Editor`, class `Workbench`). Each pane
  (`top` and `bottom`) has its open tabs, its active file and its buffer, and
  the page also keeps `currentActiveFile` and the last data set shown. The
  module also models the text builders: the line-number gutter, the data
  table behind `renderTable` and the CSV download behind `exportToCSV`.
- **The code generator of the visual blueprint editor** (module
  `VisualLogic`). It covers the data, process and output blocks and the
  statement chaining `scrub_`.
- **The notebook server's file rules** (module `Notebooks`). These are the
  `.jackal` suffix rule of `save_file` and `rename_file`, the `list_files`
  filter, and the effect of each route on the notebook directory.
- **The JavaScript and Python built-ins they rely on** (module `Text`):
  `trim` with the ECMAScript white-space set, `split` on one character,
  `join`, decimal number text, and `endswith`.

The imperative code is modelled as methods with loops proved against
specification functions:

- `Diagrams.Generate` is the `forEach` that pushes nodes and edges.
- `Editor.Workbench` methods change the page's globals.
- `UpdateLineNumbers`, `TableMarkup` and `CsvContent` model the string-building loops.

The pure code is modelled as functions and lemmas:

- the block generators;
- the server's suffix rule and listing filter.

Server round trips and dialogs become parameters:

- `loaded` is the `/load_file` response: `None` for a response that is not ok.
- `ok` says whether the delete request succeeded.
- `confirmed` is the user's answer to the confirmation dialog.

What the extractor does that is worth knowing (static/js/diagrams.js:55-64):

- Only `let` bindings produce nodes, and every edge is a plain `-->`.
- Comment lines are not skipped: `// let x = 1` yields `x`
  (`Diagrams.ClassifyComment`).
- The pattern is not anchored, even to a word boundary: `outlet y = 2`
  yields `y` (`Diagrams.ClassifyInsideWord`).
- `trim` and `\s` use the full ECMAScript white-space and line-terminator
  set, as the browser does. `\w` is ASCII, as it is without the `u` flag.

## Model

| member | source | states |
|---|---|---|
| Text.TrimIsSlice | static/js/diagrams.js:59 | `trim` removes a run of white space from each end, and what it keeps starts and ends with a non-space character |
| Text.TrimIdempotent | static/js/diagrams.js:59 | trimming a trimmed line changes nothing |
| Text.SplitCount | static/js/editor.js:199 | splitting on a character that occurs k times gives k+1 pieces |
| Text.JoinSplit | static/js/diagrams.js:56 | the buffer's lines, joined again with `\n`, are the buffer |
| Text.SplitJoin | static/js/diagrams.js:77 | lines without `\n`, joined with `\n`, split back into the same lines |
| Text.ParseNatToString | static/js/diagrams.js:63 | the decimal text of a line index reads back as that index |
| Text.NatToStringInjective | static/js/diagrams.js:63 | different line indices have different decimal texts |
| Diagrams.MatchAtSound | static/js/diagrams.js:60 | a name reported at position p comes from a match of the pattern at p (`let`, white space, identifier, white space, `=`) and is that match's capture |
| Diagrams.MatchAtComplete | static/js/diagrams.js:60 | every way the pattern can match at p is found, and its capture is the name reported, so backtracking cannot change the capture |
| Diagrams.LeftmostSpec | static/js/diagrams.js:60 | the search position is a match and no earlier position is |
| Diagrams.Classify | static/js/diagrams.js:60-62 | the captured name is always an identifier `[a-zA-Z_]\w*` |
| Diagrams.ClassifyMatches | static/js/diagrams.js:59-61 | a trimmed line yields a name exactly when the pattern matches somewhere in it, not only at its start |
| Diagrams.ClassifyLeftmost | static/js/diagrams.js:60-62 | the name is the capture of a match at some position p, and the pattern matches at no position before p |
| Diagrams.ClassifyAt | static/js/diagrams.js:60-62 | a match with no `let` before it is the one whose capture is reported |
| Diagrams.ClassifyNeedsEquals | static/js/diagrams.js:60 | a line that yields a name contains `=` |
| Diagrams.ClassifyComment | static/js/diagrams.js:58-62 | the comment line `// let x = 1` yields `x`: comments are not skipped |
| Diagrams.ClassifyInsideWord | static/js/diagrams.js:60 | `outlet y = 2` yields `y`: the pattern is not anchored at a word boundary |
| Diagrams.DeclarationMatches | static/js/diagrams.js:60 | `let`, white space, an identifier, optional white space, `=` and anything else is a match at position 0, and its capture is the identifier |
| Diagrams.ClassifyDeclaration | static/js/diagrams.js:60-62 | a line that starts with such a declaration yields its identifier, whatever the spacing and whatever follows `=` |
| Diagrams.BindingsSound | static/js/diagrams.js:58-64 | every node comes from a line that matched, with that line's zero-based index and name, and the nodes are in strictly increasing line order |
| Diagrams.BindingsComplete | static/js/diagrams.js:58-64 | every line that matched gives a node with its index and name; lines that do not match still use up their index |
| Diagrams.BindingsEmpty | static/js/diagrams.js:58-64 | there are no nodes exactly when no line matched |
| Diagrams.NoLineMatches | static/js/diagrams.js:56-61 | the buffer has no nodes exactly when no trimmed line of its split matches |
| Diagrams.ExtractEmptyBindings | static/js/diagrams.js:72-75 | the placeholder is the outcome exactly when the node list is empty |
| Diagrams.ExtractEmpty | static/js/diagrams.js:72-75 | the placeholder is shown, and no description is rendered, exactly when no line of the buffer matches |
| Diagrams.NodeIdInjective | static/js/diagrams.js:63 | two equal ids `v_<name>_<index>` have the same name and the same line index |
| Diagrams.IdsDistinct | static/js/diagrams.js:58-64 | node ids within one run are pairwise distinct |
| Diagrams.NodeIdPlain | static/js/diagrams.js:63 | an id holds neither white space nor `[` |
| Diagrams.IdRecovered | static/js/diagrams.js:64-66 | `split('[')[0].trim()` on a node's line gives back exactly the id it was built from |
| Diagrams.LastIdRecovered | static/js/diagrams.js:64-66 | the id read back from the last node's line is that node's id |
| Diagrams.EdgesSnoc | static/js/diagrams.js:65-67 | a new node adds one edge, from the previous node's id to the new id |
| Diagrams.EdgesGrow | static/js/diagrams.js:65-67 | the edge produced from the read-back `prevId` is that chain edge, so the edges stay the chain node i → node i+1 |
| Diagrams.NodeOneLine | static/js/diagrams.js:63-64 | neither an id nor a node line holds a line break |
| Diagrams.GraphOneLine | static/js/diagrams.js:64-67 | every node line and every edge line is a single line |
| Diagrams.SectionsSplit | static/js/diagrams.js:77 | a header, the joined node lines and the joined edge lines, separated by `\n`, split back into the header, the nodes and the edges |
| Diagrams.ExtractLines | static/js/diagrams.js:53-77 | the description's lines are `graph TD`, one line per node in order, then one `a --> b` line per edge. With a single node the last line is empty |
| Diagrams.Visit | static/js/diagrams.js:58-70 | one `forEach` callback pushes a node for a matching line, and an edge from the read-back id when it is not the first node; otherwise it pushes nothing |
| Diagrams.Generate | static/js/diagrams.js:47-77 | the loop over the lines produces exactly the specified description, or the placeholder when no node was pushed |
| Editor.RemoveMembers | static/js/editor.js:177 | after the filter a name is listed exactly when it was listed and is not the closed one |
| Editor.RemoveAppend | static/js/editor.js:177 | the filter works piecewise, so the remaining names keep their order |
| Editor.RemoveAbsent | static/js/editor.js:177 | filtering out a name that is not listed changes nothing |
| Editor.RemoveNoDuplicates | static/js/editor.js:177 | filtering keeps a list without repeats |
| Editor.AddOnceSpec | static/js/editor.js:113-115 | after a load the name is listed exactly once. It is appended at the end when it was absent, and otherwise the list is unchanged |
| Editor.Workbench.constructor | static/js/editor.js:14-17 | the page starts with no tabs, no active files, no current file and an empty data set |
| Editor.Workbench.LoadFileToPane | static/js/editor.js:108-128 | a successful load lists the file once in the pane and makes it the pane's active file and the current file, with its content in the pane's editor. A failed load changes nothing, and the other pane is untouched |
| Editor.Workbench.OpenFromList | static/js/editor.js:100-103 | a click in the file list makes the name the current file whatever the load's outcome. A successful load also opens it in the top pane as `loadFileToPane` does, and a failed one leaves the pane as it was |
| Editor.Workbench.CloseTab | static/js/editor.js:174-194 | every occurrence of the name leaves the pane's list. Closing the active tab makes the first remaining tab active and loads it, or empties the pane's editor when none is left. Closing another tab leaves the active file unchanged |
| Editor.Workbench.NewFile | static/js/editor.js:446-454 | the top editor is emptied and nothing else changes |
| Editor.Workbench.DeleteFilePrompt | static/js/editor.js:267-285 | with a non-empty current file, a confirmed dialog and a successful request, the file leaves both panes' lists, the current file becomes null and the top editor is emptied. Otherwise nothing changes |
| Editor.Workbench.UpdateLineNumbers | static/js/editor.js:195-203 | the gutter numbers every line of the pane's buffer |
| Editor.GutterJoin | static/js/editor.js:201 | the gutter for n lines is `1<br>2<br>…n<br>` |
| Editor.GutterOfBuffer | static/js/editor.js:199-202 | a buffer with k newline characters gets the gutter `1<br>…(k+1)<br>` |
| Editor.Workbench.RenderTable | static/js/editor.js:302-329 | the data set is remembered for the export, and the wrapper gets the markup of its table layout |
| Editor.TableMarkup | static/js/editor.js:305-328 | the string loops build exactly the markup of the layout: the message, the header and rows, or nothing when a series is `null` and reading it throws |
| Editor.HeaderMarkup | static/js/editor.js:309-316 | the header has one `Series i` cell per series in multi-series mode and a single `Value` cell otherwise |
| Editor.SingleBody | static/js/editor.js:317-326 | a single-series body has one `# r` row per element, with the element in bold |
| Editor.MultiBody | static/js/editor.js:317-326 | a multi-series body has one row per element of the first series, unless a row throws |
| Editor.MultiCells | static/js/editor.js:321 | a row has one cell per series, stopping with a throw at a `null` series |
| Editor.NoneStays | static/js/editor.js:321 | once a cell has thrown, the whole row throws |
| Editor.RowsNoneStays | static/js/editor.js:318-326 | once a row has thrown, the whole table throws |
| Editor.RowCellsSpec | static/js/editor.js:321 | a row throws exactly when some series is `null`. Otherwise cell i is series i's element r, or `-` when it has none |
| Editor.MultiRowsSpec | static/js/editor.js:318-326 | the rows are built in order, each from all the series, and the table throws exactly when some row does |
| Editor.LayoutNoData | static/js/editor.js:305-307 | a non-array or an empty array shows only "No data processed" |
| Editor.LayoutSingle | static/js/editor.js:314-323 | a single-series table has one `Value` column and one row per element, showing the element in bold |
| Editor.LayoutMulti | static/js/editor.js:310-323 | a multi-series table has one `Series i` column per series and `chartData[0].length` rows, with `-` where a series has no element. It throws exactly when it has rows and some series is `null` |
| Editor.Workbench.ExportToCsv | static/js/editor.js:331-334 | an empty data set exports nothing. An array exports the header and one `idx,val` line per element. Any other value throws |
| Editor.CsvContent | static/js/editor.js:333-334 | the `forEach` builds the header followed by `idx,val\n` for each element in order |
| Editor.SplitLines | static/js/editor.js:334 | text made of newline-terminated lines splits into those lines and one final empty piece |
| Editor.CsvRows | static/js/editor.js:332-334 | when no element's text holds a newline, the download's lines are `Index,Value`, then `i,<value i>` for each element in order |
| VisualLogic.ExprCode | static/js/visual_logic.js:42-54 | both expression generators return precedence 0 and non-empty code |
| VisualLogic.InputFallback | static/js/visual_logic.js:50-57 | an attached child's code is used unchanged, and the fallback fills an empty socket only |
| VisualLogic.DataCode | static/js/visual_logic.js:44-47 | the data block writes `[VAL]`, or `[0]` for an empty field |
| VisualLogic.SmoothCode | static/js/visual_logic.js:49-54 | the process block writes `Array(<input>).smooth(<fact>).collect()`, with `[]` for a missing input and `3` for a zero or NaN factor |
| VisualLogic.OutCodeLine | static/js/visual_logic.js:56-59 | the output block writes `println(<data>)` on its own line, with `[]` for missing data |
| VisualLogic.ThisOnly | static/js/visual_logic.js:61-65 | with `opt_thisOnly` only the block's own code is produced |
| VisualLogic.StackCode | static/js/visual_logic.js:61-65 | a stack of output blocks generates the concatenation of each block's code, top to bottom |
| VisualLogic.AppendCode | static/js/visual_logic.js:61-65 | stacking one chain under another appends its code |
| Notebooks.NormalizeSuffix | app.py:29 | the stored name ends with `.jackal`. A name that already does is unchanged, and any other gets `.jackal` appended once |
| Notebooks.NormalizeIdempotent | app.py:29-61 | normalising twice is normalising once |
| Notebooks.NormalizeExtends | app.py:29 | the typed name is a prefix of the stored name |
| Notebooks.SaveThenLoad | app.py:26-41 | a save stores the content, or `""` when it is missing, under the normalised name, or `untitled.jackal` when the name is missing. Loading that exact name returns it as a text-mode read does, with `\r\n` and a lone `\r` turned into `\n`, and returns it exactly when it holds no `\r`. Every other file is unchanged |
| Notebooks.UniversalPlain | app.py:39-40 | a text-mode read returns text without carriage returns unchanged |
| Notebooks.UniversalNoReturn | app.py:39-40 | what a text-mode read returns holds no carriage return and is no longer than the stored text |
| Notebooks.UniversalAfter | app.py:39-40 | text before the first carriage return is read back as it is |
| Notebooks.UniversalCrLf | app.py:39-40 | a `\r\n` between carriage-return-free texts reads back as one `\n` |
| Notebooks.UniversalLoneCr | app.py:39-40 | a lone `\r` not followed by `\n`, between carriage-return-free texts, reads back as `\n` |
| Notebooks.SavedIsListed | app.py:22-33 | after a save, the listing of the directory contains the stored name |
| Notebooks.RenameMoves | app.py:54-69 | a rename succeeds exactly when `old_name` exists as given. It moves that content to the normalised `new_name` only, and leaves every other file as it was |
| Notebooks.MissingFileUnchanged | app.py:43-69 | a rename or delete of a missing file changes nothing, and delete answers 404 |
| Notebooks.DeleteRemoves | app.py:43-52 | a delete succeeds exactly when the name exists as given, removes that file and leaves the others |
| Notebooks.BadNameFails | app.py:46-63 | a missing or non-text name, or the empty name (the notebook directory itself), makes delete and rename fail without changing anything |
| Notebooks.ListFilesMembers | app.py:22 | a name is listed exactly when it is a directory entry ending in `.jackal` |
| Notebooks.ListFilesAppend | app.py:22 | the filter works piecewise on the entries, so the listing keeps their order |
| Notebooks.ListFilesIdempotent | app.py:22 | filtering a listing again changes nothing |

## Left out

- Asynchronous `fetch` and its ordering: the page's methods are modelled as if each request resolved at once. Request bodies, headers and JSON parsing of responses are not modelled. The response that matters is a parameter.
- The DOM: `innerHTML`, element lookups and their `if (editorElem)` guards (assumed present), the file-name input, `localStorage`, the modal dialogs, `renderTabs`, the list elements `refreshFileList` builds (their click handler is modelled, as `Editor.Workbench.OpenFromList`), sidebar toggling and scroll syncing.
- The Mermaid `render` call, its `svg_` id from `Date.now()` and its error message, `renderAIDiagram`, and the hover tooltips over `window.lastExecutionData`: foreign library code, the clock and UI.
- `renderChart`, which only builds an option object for the charting library, and the run-output bracket regex with its `JSON.parse`.
- Blockly block definitions, workspace injection, `workspaceToCode` and `runBlueprint`. `valueToCode` is modelled as "the attached child's code, or the empty string".
- `initApp`, `switchTab`, `saveFile`, the autosave timer, `handleInput` and `runCode`: I/O with no state change of the modelled globals beyond the calls they make to `loadFileToPane` and, in `runCode`, to `renderTable` with the parsed run output.
- `renameFilePrompt`: the effective definition changes none of the modelled state. It only posts a request and refreshes the file list.
- The earlier, superseded definitions of `deleteFilePrompt`, `renameFilePrompt` (with `executeDelete` and `executeRename`) and `closeTab`. In JavaScript the later declaration wins.
- Editor.Workbench.DeleteFilePrompt: the panes' `activeFile` entries are left as the code leaves them, so they may name the deleted file. The model does not claim they are cleared.
- Editor.Workbench.ExportToCsv: `encodeURI`, the link element and the click are not modelled. The result is the text before encoding.
- JSON values: numbers are kept as the text JavaScript prints for them, because floating-point formatting is not modelled. Objects have no keys and print as `[object Object]`. Indexing a string yields one UTF-16 code unit, taken here as one `char`.
- Editor.TableMarkup: the source's single row loop, with an `if (isMulti)` inside, is modelled as two loops, one per mode, chosen once. Each builds the same text as the source for its mode.
- `updateLineNumbers`' early return when the editor or gutter element is missing (a DOM condition).
- Python path semantics: `os.path.join` with absolute names or `..`, sub-directories, names that collide with existing directories, and file-system errors other than the empty name. The directory is a flat map from names to contents.
- Text encoding and the write side of text mode: files are taken as sequences of characters in the platform's default encoding, and writing is taken to store `\n` as it is (a POSIX platform). Only the read-side newline translation is modelled.
- `os.listdir`'s order is not modelled: the listing order is whatever entry sequence is given.
- The `/run` route (a temporary `_exec_cache.jackal` and a subprocess with a timeout), `index`, and Flask's routing and JSON replies.
