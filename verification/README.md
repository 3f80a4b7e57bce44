# lineage_analysis, modelled in Dafny

lineage_analysis builds table-level data lineage for a SQL Server estate. It works in these steps:

- `lineage_extractor.py` picks the stored procedures to analyse.
  - For each one it skips the procedure when an earlier run already wrote its output file.
  - Otherwise it cleans the SQL text with `robust_clean_sql` and asks a language model for the procedure's `{"lineage": [{source, target}, ...]}`.
  - It writes the answer, or an error document, to `{index}--{schema}--{object}.json`.
- `create_sql_views_lineage_json.py` writes documents of the same shape for views, one per view, from a table of view dependencies.
- `json_cleaner.py` strips the square brackets from every `source` and `target`.
- `process_lineage_json.py` folds all documents into a forward and a reverse adjacency map. It walks them depth-first from one object, downstream or upstream, and draws the traced edges as a Mermaid diagram.

The model has one Dafny module per source file:

| module | file |
|---|---|
| `Utils` | `utils.py` |
| `Extractor` | `lineage_extractor.py` |
| `ViewExport` | `create_sql_views_lineage_json.py` |
| `JsonCleaner` | `json_cleaner.py` |
| `LineageGraph` | the graph build in `process_lineage_json.py` |
| `LineageTrace` | the trace and diagram in `process_lineage_json.py` |

Shared modules:

- `Text` models the Python string builtins the scripts rely on: `str.replace`, `str.split`, `str.strip`, `re.sub` with a character class, `str(int)` and string `<`.
- `Seqs` holds first-occurrence de-duplication, shared by pandas' `drop_duplicates(keep='first')` and the graph's "append unless listed".
- `JsonValue` is the JSON document type.
- `Wrappers` holds `Option`.

The code that works step by step is modelled by methods with loops:

- the graph fold (`LineageGraph.BuildGraph`, `RecordItems`, `RecordEdge`);
- the recursive tracer (`LineageTrace.GetLineageEdges`);
- the Mermaid line loop;
- the directory scan (`Utils.BuildProcessedHashes`);
- the per-row loop of the extractor;
- the group loop of the view export;
- the cleaner's file and item loops.

Each method is proved equal to a specification function. The promised properties are proved as lemmas about those functions. Expression chains are functions:

- the five passes of `robust_clean_sql`;
- the output file names;
- the parse-or-error document;
- the bracket stripping.

The following are parameters of the model:

- the folder contents, as a map from file name to document;
- the model's replies, as the `Reply` of each row;
- the JSON parser, as a function from text to an optional document;
- MD5, as a function from text to digest.

## Model

| member | source | states |
|---|---|---|
| Utils.DecodeEscapes | utils.py:10 | after the first pass no literal backslash-n or backslash-t pair is left |
| Utils.DecodeEscapesIsUnescape | utils.py:10 | the two `replace` calls equal one left-to-right scan (`Unescape`) in which each backslash-n pair becomes a newline, each backslash-t pair a tab, and every other character is copied |
| Utils.StripLineComments | utils.py:13 | no `--` is left and no newline is removed; a first character that does not open a comment is kept, and a comment at the start leaves the result empty or starting with its newline |
| Utils.LineCommentRemoved | utils.py:13 | the text's first `--` (the text before it holds no `--` and does not end in `-`) is deleted with the rest of its line; the text before it and the newline are kept, and the pass goes on after the newline |
| Utils.LineCommentAtEnd | utils.py:13 | a `--` comment on the last line, with no newline after it, is deleted to the end of the text |
| Utils.BlockCommentRemoved | utils.py:15 | the text's first `/*` (none occurs before it) is deleted through the nearest `*/`, newlines inside included; the text before it is kept and the pass goes on after the closer |
| Utils.BlockCommentUnclosed | utils.py:15 | a first `/*` with no `*/` after it is left in place, and so is everything after it |
| Utils.StripBlockComments | utils.py:15 | the block-comment pass never lengthens the text |
| Utils.NoBlockCommentUnchanged | utils.py:15 | text without a comment opener passes the block-comment pass unchanged |
| Utils.CollapseBlankLines | utils.py:18 | the blank-line pass never lengthens the text |
| Utils.CollapseBlankLinesNoBlank | utils.py:18 | after the blank-line pass no two newlines are separated by whitespace alone |
| Utils.CollapseBlankLinesUnchanged | utils.py:18 | the blank-line pass changes a text exactly when the text has a blank line (a newline, then whitespace only, then a newline) |
| Utils.CollapseBlankLinesAppend | utils.py:18 | the pass works piece by piece: text split after a character that is not whitespace is collapsed as its two pieces |
| Utils.CollapseBlankLinesRun | utils.py:18 | a newline, then whitespace ending in a newline, becomes one newline, when the text before it does not end in whitespace and the text after it does not start with whitespace holding another newline; the text before and after is collapsed on its own |
| Utils.CollapseBlanks | utils.py:20 | after the blank pass there is no tab and no two spaces in a row, and the first character is kept, or becomes a space if it is a blank |
| Utils.CollapseBlanksAppend | utils.py:20 | the pass works piece by piece: text split after a character that is not a space or tab is collapsed as its two pieces |
| Utils.CollapseBlanksRun | utils.py:20 | a whole run of spaces and tabs between two pieces becomes exactly one space, and the pieces are collapsed on their own |
| Utils.CollapseBlanksNoBlanks | utils.py:20 | text without spaces and tabs passes unchanged |
| Utils.CollapseBlanksKeepsNoBlank | utils.py:20 | collapsing blanks does not create a blank line |
| Utils.RobustCleanSql | utils.py:7-22 | the cleaned SQL has no tab, no double space, no blank line and no whitespace at either end |
| Utils.ObjectKeysDiffer | utils.py:26-29 | with a digest that tells its inputs apart and schemas free of `:`, two objects share a key exactly when schema and name agree |
| Utils.KeyOfName | utils.py:40-48 | a file name yields a key only if it ends in `.json` |
| Utils.KeyOfNameNeedsThreeParts | utils.py:43-44 | `{tag}.json` and `{tag}--{schema}.json` yield no key |
| Utils.KeyOfNameIgnoresExtraParts | utils.py:43-47 | in `{tag}--{schema}--{object}--{more}.json` the parts after the third are ignored: the key is that of schema and object |
| Utils.KeyOfNameDropsInnerJson | utils.py:43 | every `.json` is removed before the split, not only the suffix: `{tag}--{schema}.json--{object}.json` yields the key of schema and object |
| Utils.KeyOfNameReadsBack | utils.py:43-48 | `{tag}--{schema}--{object}.json`, with parts free of `-` and `.`, reads back to the key of that schema and object |
| Utils.BuildProcessedHashes | utils.py:33-50 | a missing folder gives the empty set; otherwise the result is the set of keys read off every entry's name |
| Utils.LineagePrompt | utils.py:61 | a template without `__SQL_TEXT__` is sent as it is |
| Utils.LineagePromptInsertsSql | utils.py:61 | when `before` holds no start of a placeholder and `after` holds no placeholder, `before + __SQL_TEXT__ + after` gives `before + sql + after`, the SQL verbatim even when it contains the placeholder |
| LineageGraph.ItemEdge | process_lineage_json.py:43-44 | an item yields an edge exactly when it is an object with string `source` and `target`; the edge is `(source, target)` |
| LineageGraph.ItemsEdgesAt | process_lineage_json.py:42-44 | item j yields edge j, or, if it raises, ends the file's edges at j |
| LineageGraph.RecordEdge | process_lineage_json.py:46-52 | one turn of the inner loop is `AddEdge` on the two maps |
| LineageGraph.RecordItems | process_lineage_json.py:40-55 | the item loop adds a file's edges up to the first item that raises; edges added before it stay |
| LineageGraph.BuildGraph | process_lineage_json.py:34-55 | the graph is the fold of every file's edges, in file order; a file that does not parse, or has no list under `lineage`, adds nothing |
| LineageGraph.FoldRecordsExactly | process_lineage_json.py:42-52 | t is in forward[s] iff (s, t) was read iff s is in reverse[t]; no list is empty |
| LineageGraph.FoldKeys | process_lineage_json.py:28-52 | the keys of forward are exactly the sources read, and those of reverse exactly the targets read |
| LineageGraph.FoldNoRepeats | process_lineage_json.py:46-52 | no adjacency list holds an entry twice |
| LineageGraph.GraphMirrors | process_lineage_json.py:46-52 | forward and reverse hold the same edges |
| LineageGraph.FoldTargetOrder | process_lineage_json.py:47-48 | forward[n] lists n's targets once each, in the order they were first read |
| LineageGraph.FoldSourceOrder | process_lineage_json.py:51-52 | reverse[n] lists n's sources once each, in the order they were first read |
| LineageTrace.Walk | process_lineage_json.py:62-88 | the walk only adds to the visited set, and the node it starts from ends up visited |
| LineageTrace.GetLineageEdges | process_lineage_json.py:62-88 | the recursive tracer appends the walk's edges and leaves the walk's visited set; the visited set makes it stop on cyclic graphs (Python's recursion depth limit is not modelled) |
| LineageTrace.VisitRelative | process_lineage_json.py:80-86 | one turn of the loop appends the oriented edge, then the edges traced from the relative |
| LineageTrace.LineageEdges | process_lineage_json.py:106 | the top-level call returns the walk from the root with nothing visited |
| LineageTrace.WalkFacts | process_lineage_json.py:69-86 | a walk emits no edge twice; it emits exactly the edges out of the nodes it newly expands, and the relatives of those nodes end up visited |
| LineageTrace.WalkFromFacts | process_lineage_json.py:78-86 | the relative loop emits exactly the edges from the parent to each relative plus those of newly expanded nodes, without repeats |
| LineageTrace.TraceFacts | process_lineage_json.py:62-88 | on a built graph every traced pair is a recorded edge, source first, in both directions; no pair repeats; every recorded edge at a visited node is traced |
| LineageTrace.CycleIsTracedOnce | process_lineage_json.py:69-86 | A→B→C→A traced downstream from A gives exactly (A,B), (B,C), (C,A) |
| LineageTrace.DirectionsAgreeOnOneEdge | process_lineage_json.py:75-83 | for one edge A→B, downstream from A and upstream from B both emit (A, B) |
| LineageTrace.CycleGraph | process_lineage_json.py:42-52 | the edges of a three-node cycle build the forward map A→[B], B→[C], C→[A] |
| LineageTrace.SanitizeNodeId | process_lineage_json.py:93-95 | the id has the name's length; every dot and hyphen becomes `_` and every other character stays |
| LineageTrace.SanitizeNodeIdIdempotent | process_lineage_json.py:93-95 | a sanitised id has no dot or hyphen, and sanitising it again changes nothing |
| LineageTrace.ExitStatus | process_lineage_json.py:101-110 | the exit status is 1 for a missing object and 0 otherwise |
| LineageTrace.Visualize | process_lineage_json.py:98-124 | the script fails (non-zero exit) exactly when the root is in neither map. There are three outcomes. A root absent from both maps is "not found". A present root with an empty trace is "no dependencies". Otherwise the lines are the header, the class line, the root line and one arrow line per traced edge, in order |
| Extractor.KeepProcedures | lineage_extractor.py:28 | exactly the stored-procedure rows are kept |
| Extractor.SortByDatabaseDescProperties | lineage_extractor.py:30 | the rows are sorted by descending DatabaseName and form a permutation of the input |
| Extractor.KeepSchemas | lineage_extractor.py:38 | exactly the rows of the requested schemas are kept |
| Extractor.SelectRowsSound | lineage_extractor.py:28-38 | the selected rows are stored procedures of requested schemas, taken from the input; no (schema, object) pair occurs twice |
| Extractor.SelectRowsComplete | lineage_extractor.py:28-38 | every (schema, object) pair of a stored procedure in a requested schema is selected |
| Extractor.SelectRowsPreferGreatestDatabase | lineage_extractor.py:30-31 | no stored procedure with the same pair has a greater DatabaseName than the row kept |
| Extractor.SelectRowsKeepIndicesDistinct | lineage_extractor.py:28-38 | selected rows keep distinct index labels |
| Extractor.NameStemCharacters | lineage_extractor.py:70-73 | the name stem holds only word characters, whitespace or `-`, never a space, and has no whitespace at either end |
| Extractor.OutputFileNameStartsWithIndex | lineage_extractor.py:69-75 | the file name starts with the row's index and `-`, whatever the schema and object |
| Extractor.OutputFileNamesDistinct | lineage_extractor.py:69-75 | rows with different indices get different file names |
| Extractor.OutputFileNameKeyRoundTrip | lineage_extractor.py:69-75 | for word-character schema and object, the written name reads back to the row's own key |
| Extractor.ResponseDocument | lineage_extractor.py:90-96 | a reply that parses is written as parsed; otherwise the document is exactly `{"error": "Invalid JSON from model", "raw_response": reply}` |
| Extractor.ProcessRow | lineage_extractor.py:50-102 | a row is skipped iff its key is processed. It is written iff it is not skipped, the prompt can be built and the model answers; the write goes to the row's file name. Otherwise it fails, reporting index and object |
| Extractor.ProcessRowAt | lineage_extractor.py:50-102 | processing row i extends the outcomes, the prompts sent and the folder to the first i+1 rows |
| Extractor.ProcessRows | lineage_extractor.py:117-125 | the row loop yields every row's outcome and the prompts sent, in order; the folder holds the written documents |
| Extractor.CountSkipped | lineage_extractor.py:111-112 | the number of rows whose key is already processed is at most the number of rows |
| Extractor.RunExtraction | lineage_extractor.py:107-125 | a run reads the processed keys off the folder, reports processed / total / total − skipped, and processes the selected rows |
| Extractor.PromptsMatchReport | lineage_extractor.py:109-115 | the model is asked exactly (total − skipped) times when the prompt file is readable, and never otherwise |
| Extractor.PersistKeys | lineage_extractor.py:98-99 | afterwards the folder holds its old files plus one per written outcome, and nothing else |
| Extractor.PersistWritten | lineage_extractor.py:98-99 | when names are distinct, each written document is what its file holds at the end |
| Extractor.PersistUntouched | lineage_extractor.py:98-102 | a file no outcome writes keeps its contents |
| Extractor.OutcomesWriteDistinctNames | lineage_extractor.py:69-75 | rows with distinct indices never write the same file |
| Extractor.RunKeepsEveryAnswer | lineage_extractor.py:90-99 | every row the model answered ends in its own file, holding the parsed answer or the error document |
| Extractor.RunLeavesOtherFiles | lineage_extractor.py:98-102 | a file that no selected row names is left as it was |
| Extractor.RerunSkipsDoneRows | lineage_extractor.py:55-75 | a skipped or written row with word-character schema and object is skipped by the next run |
| ViewExport.KeepViews | create_sql_views_lineage_json.py:11 | exactly the rows whose dependent type is VIEW are kept |
| ViewExport.SelectViewRowsProperties | create_sql_views_lineage_json.py:11-15 | only view rows are kept; none agree on the six columns; every view row has a kept row agreeing with it |
| ViewExport.InsertKeyProperties | create_sql_views_lineage_json.py:40 | inserting a target keeps the keys strictly ascending and adds exactly that target |
| ViewExport.GroupKeysProperties | create_sql_views_lineage_json.py:40 | the groups are the distinct targets, each once, in ascending order |
| ViewExport.Group | create_sql_views_lineage_json.py:40 | a group holds exactly the rows with that target |
| ViewExport.SafeName | create_sql_views_lineage_json.py:56-57 | each of `< > : " / \ \| ? *` becomes `_`, every other character stays, and the length is kept |
| ViewExport.SafeNameIsSafe | create_sql_views_lineage_json.py:56-57 | a sanitised name has no unsafe character, and sanitising it again changes nothing |
| ViewExport.ViewFileNamesDistinct | create_sql_views_lineage_json.py:59-61 | different group numbers give different file names |
| ViewExport.CollectDependencies | create_sql_views_lineage_json.py:48-52 | the inner loop builds one `{source, target}` item per row of the group, in order |
| ViewExport.GroupFilesAt | create_sql_views_lineage_json.py:40 | the k-th file is the file of the k-th group, numbered from the start number |
| ViewExport.ExportViewLineage | create_sql_views_lineage_json.py:11-71 | the folder afterwards is the old folder with every group's file written, in order |
| ViewExport.ExportedNamesDistinct | create_sql_views_lineage_json.py:59-61 | no two files share a name |
| ViewExport.WriteFilesHolds | create_sql_views_lineage_json.py:70-71 | with distinct names, every file's document is what the folder holds under its name |
| ViewExport.ExportedFiles | create_sql_views_lineage_json.py:40-68 | the export writes one file per distinct target of the kept view rows |
| ViewExport.ExportedFileContents | create_sql_views_lineage_json.py:40-68 | file k is numbered k+1 and named from its group's first row. Its document is `{"lineage": items}`, with one item per group row, each from that row's source to the group's target |
| ViewExport.EveryViewRowExported | create_sql_views_lineage_json.py:11-71 | every view row's dependency appears in the file of its target |
| ViewExport.ExportedEdges | create_sql_views_lineage_json.py:42-52 | the graph builder reads from file k exactly its group's edges, source to target |
| JsonCleaner.StripBracketsFilters | json_cleaner.py:26 | removing `[` then `]` deletes every bracket and keeps every other character, in order |
| JsonCleaner.StripBracketsIdempotent | json_cleaner.py:26 | stripping brackets twice is stripping them once |
| JsonCleaner.CleanField | json_cleaner.py:25-30 | a missing field is left absent, a string field is bracket-stripped, and any other value raises |
| JsonCleaner.CleanItem | json_cleaner.py:23-32 | a non-object item is unchanged; an object item keeps exactly its keys |
| JsonCleaner.CleanItemFields | json_cleaner.py:22-32 | other fields never change. String source and target are stripped, but the target only if the source did not raise first. A non-string source leaves the item as it was |
| JsonCleaner.CleanItems | json_cleaner.py:22-32 | cleaning the list keeps its length |
| JsonCleaner.CleanItemIdempotent | json_cleaner.py:23-32 | cleaning an item twice is cleaning it once |
| JsonCleaner.CleanLineageItems | json_cleaner.py:22-32 | the loop cleans each item where it stands |
| JsonCleaner.CleanDocument | json_cleaner.py:21-36 | the script stops exactly on a document whose loop raises uncaught: an object whose `lineage` is null, a boolean or a number, a list holding the string `"lineage"`, a string containing `lineage`, or any other scalar. An object without `lineage` is written back unchanged, and so is every other document that does not stop the script except an object with a `lineage` list |
| JsonCleaner.CleanFile | json_cleaner.py:21-36 | the per-file step computes the cleaned document, or stops, exactly as `CleanDocument` states |
| JsonCleaner.CleanDocumentShape | json_cleaner.py:21-32 | a lineage document keeps its keys and other fields; its list keeps its length and order, each item cleaned |
| JsonCleaner.CleanDocumentIdempotent | json_cleaner.py:21-36 | cleaning a cleaned document changes nothing |
| JsonCleaner.CleanFrom | json_cleaner.py:11-36 | the file loop keeps the folder's set of names |
| JsonCleaner.CleanFolder | json_cleaner.py:8-40 | a missing folder leaves nothing changed; otherwise the listed `.json` files are cleaned in order until one stops the script |
| JsonCleaner.CleanFromKeepsOthers | json_cleaner.py:11-12 | files not ending in `.json`, or not listed, are left as they were |
| JsonCleaner.CleanFromCompleted | json_cleaner.py:11-36 | after a run to the end, each listed `.json` file holds its cleaned document |
| JsonCleaner.CleanFromFixed | json_cleaner.py:11-36 | a folder whose `.json` files are all clean is left unchanged, and the run goes to the end |
| JsonCleaner.CleanFolderTwice | json_cleaner.py:8-40 | a second run after a complete one changes nothing |
| JsonCleaner.CleanItemEdge | json_cleaner.py:25-30 | an item yields an edge after cleaning iff it did before, with brackets stripped from both ends |
| JsonCleaner.CleanItemsEdges | json_cleaner.py:22-32 | the graph builder reads the same number of edges from a cleaned list, each with brackets stripped |
| JsonCleaner.CleanDocumentEdges | json_cleaner.py:21-36 | the same holds for every document the cleaner writes back |

## Left out

- Concurrency: the asyncio semaphore, `tqdm_asyncio.gather` and the task list (lineage_extractor.py:42, 59, 117-125). Each row writes its own file and at most one request runs at a time, so the rows are processed one after the other, in row order.
- The `ollama` client call (lineage_extractor.py:45, 81-85) is a foreign network call. It is modelled by each row's `Reply`: an answer text, or an exception.
- `json.loads`/`json.load` are a parameter returning an optional document; there is no JSON grammar. `json.dump` and the indentation of written files are not modelled: a written file is its document.
- The MD5 digest is a parameter, a function of the string `schema + "::" + object` alone.
- Python's Unicode `\w` is approximated by ASCII letters, digits and `_`. `\s` is Python's full whitespace set.
- pandas: CSV loading and concatenation are left out, and the rows are inputs. `sort_values` is modelled by a stable insertion sort. pandas promises no order among equal `DatabaseName` values, and the selection lemmas hold whichever row of a tie is kept.
- The `Target_Full` group keys are ordered by code point, as Python compares strings. pandas' own group-key ordering is not modelled beyond that.
- Several inputs are parameters rather than I/O: the argparse schema list (utils.py:70-80), the YAML target object (process_lineage_json.py:14-17) and the prompt file read (utils.py:54-66). The prompt template is an `Option<string>`, with `None` when the file cannot be read.
- The HTML template, `exit` and the writing of the HTML file (process_lineage_json.py:126-188) are I/O. The diagram is its list of lines.
- Console messages and the exceptions' log text are not modelled. A failed row records its index and object name.
- `json_cleaner_workflow.py` is not part of this model; it is directory copying.
- The call `json_cleaner.clean_json()` (lineage_extractor.py:135) is not modelled: `json_cleaner.py` defines no such function. Its cleaning runs as a module-level script, modelled as `JsonCleaner.CleanFolder`.
- An I/O failure opening or writing a file is not modelled.
- JSON numbers are integers; floating point is not modelled. JSON object key order is not modelled, since objects are maps.
- LineageGraph.ItemEdge: a `source` or `target` that is a number, boolean or null is treated like a missing one. Python would use such a scalar as a dictionary key, but only string nodes are modelled. An item with a string `source` and a list or object `target` is treated as raising with no edge, which ends the file's edges as Python's caught exception does (process_lineage_json.py:51, 54-55). Python has, however, already appended that target to `forward_graph[source]` (process_lineage_json.py:47-48) before `reverse_graph[target]` raises, so its forward map gains an entry with no reverse counterpart, and a later trace through it fails uncaught when it uses the list as a key (process_lineage_json.py:69). The model's graph holds string edges only, and `FoldRecordsExactly` and `GraphMirrors` are stated for it.
- LineageTrace.GetLineageEdges: the visited set and edge list that Python shares between recursive calls are passed in and returned as values. Aliasing of that shared state is not modelled. Python's recursion also stops with an uncaught `RecursionError` once a chain of new nodes is deeper than the interpreter's limit (about 1000 calls); the model's recursion has no depth bound and traces such a chain to the end.
- NaN cells and `str()` of non-string cells are not modelled: schema, object and definition are strings.
- Utils.CollapseBlankLines states only a length bound; its behaviour is stated by `CollapseBlankLinesNoBlank`, `CollapseBlankLinesUnchanged`, `CollapseBlankLinesAppend` and `CollapseBlankLinesRun`.
- Extractor.CountSkipped states only a bound; the count itself is tied to the prompts sent by `PromptsMatchReport`.
- JsonCleaner.CleanItems states only the length; each item's cleaning is stated by `CleanDocumentShape` and `CleanItemFields`.
- Utils.StripBlockComments states only a length bound; its behaviour is stated by `BlockCommentRemoved` for a closed comment, `BlockCommentUnclosed` for an opener with no closer, and `NoBlockCommentUnchanged` for text without an opener.
