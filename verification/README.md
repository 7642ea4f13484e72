# Workflow tool and schedule editor: a verified model

This project models the sequential core of a small workflow tool and the
schedule editor that goes with it. Both are written in Python.

- **The workflow tool** (`miwada-test.py`) keeps a list of workflow nodes.
  Each node has an id, a list of dependencies and a deadline.
  - `validate_workflow` checks the list in three steps. Dependencies that
    name no node are errors. Dependency cycles found by a depth-first
    search are errors. A dependency whose deadline falls after its
    dependent's is a warning.
  - The pages convert nodes to task rows and back, list the sections in
    use, filter the rows by section and print them as a Mermaid gantt
    chart.
  - The knowledge page rewrites relative links so they point into a node's
    knowledge folder.
- **The editor** (`test.py`) is a single-page app. Its store is the pair
  (task list, selected rows).
  - `update_store` maps the store to a new one for each user action: the
    dataset selector, a table click, a chart click, the add, update, delete,
    up and down buttons, and the import of Mermaid gantt text.
  - `update_view` prints the list back as Mermaid gantt text.

The Dafny modules follow that structure:

- `Text` holds the Python string operations the code relies on: `strip`,
  `split`, `join`, `replace`, `strip(c)`, `startswith` and the code-point
  string order.
- `Dates` holds the deadline parse and the chronological order.
- `Validation` holds the three checks. The depth-first search is a class
  whose fields are the visited set, the recursion stack and the error list.
- `Conversion` holds the node ↔ task record conversions.
- `Gantt` holds the Mermaid emitter, the importer as a function of the text,
  and the proof that importing emitted text gives the entries back.
- `Editor` holds the `update_store` branches and the line-by-line importer
  loop.
- `Pages` holds the section list and filter, the main page's chart and the
  knowledge link rewrite.

Each loop of the source is a method with a loop. Its postcondition ties the
result to a reference function, and the properties are proved about
that function.

## Model

| member | source | states |
|---|---|---|
| Validation.ValidateWorkflow | miwada-test.py:41-62 | the report is valid iff there are no errors, iff every dependency names a node and the dependency graph has no cycle; the missing-dependency errors come first and every later error is a cycle report; the warnings are exactly the deadline warnings |
| Validation.NodeById | miwada-test.py:44 | the lookup table's keys are exactly the node ids and each key maps to a node of the list carrying that id |
| Validation.NodeByIdLastWins | miwada-test.py:44 | when several nodes share an id, the table holds the last of them |
| Validation.MissingIn | miwada-test.py:47-53 | definition: the missing-dependency messages of the (node, dependency) entries, in order; MissingInExact states its contents |
| Validation.MissingInExact | miwada-test.py:47-53 | a message `Node '<id>': Dependency '<dep>' does not exist` is produced for every (node, dependency) entry naming no node, and nothing else; there are never more messages than entries |
| Validation.MissingErrorsEmptyIff | miwada-test.py:47-53 | there are no missing-dependency errors iff every dependency names a node of the list |
| Validation.DepRefsMembers | miwada-test.py:47-48 | the (node, dependency) entries walked by the nested loops are exactly the pairs of a node and one of its dependencies |
| Validation.CheckDeadlineContradictions | miwada-test.py:65-89 | the outer loop over nodes yields exactly the deadline warnings of the list, in node-then-dependency order |
| Validation.CheckDependencies | miwada-test.py:74-87 | the inner loop over one node's dependencies appends exactly that node's warnings |
| Validation.NoWarningsWithoutDeadline | miwada-test.py:68-71 | a node whose own deadline does not parse contributes no warning at all |
| Validation.WarningsInExact | miwada-test.py:74-87 | a warning is issued for every contradicting entry, every warning comes from one, and there are never more warnings than entries |
| Validation.DeadlineWarnings | miwada-test.py:65-89 | definition: the deadline warnings of the node list, one per contradicting (node, dependency) entry in loop order; WarningsInExact and DeadlineWarningsExact state its contents |
| Validation.DeadlineWarningsExact | miwada-test.py:65-89 | for a node and one of its dependencies: a strictly later parsed deadline on the dependency yields its warning; a missing or unreadable deadline on either side, a missing dependency or equal deadlines yield none; every warning has this origin |
| Validation.BuildGraph | miwada-test.py:94-97 | the loop builds exactly the adjacency table from dependency to dependents |
| Validation.GraphEdges | miwada-test.py:94-97 | the table has an edge u → v iff node v lists u as a dependency; every edge ends at an id of the list, so a dependency naming no node is never reached |
| Validation.GraphOfEdges | miwada-test.py:94-97 | the edges of the table built from entries are exactly the (dependency, node id) pairs of those entries |
| Validation.ClosedAcyclic | miwada-test.py:101-120 | a graph whose nodes can be listed so that every edge points back into the list is acyclic; this is the order in which the search finishes nodes |
| Validation.CycleSearch.SearchFromEach | miwada-test.py:118-120 | after a search from each unvisited root, the error list is empty iff the graph has no cycle; message j comes from the root at position rootOf[j] and its path starts at that root, and the positions strictly increase, so each root added at most one message |
| Validation.CycleSearch.HasCycle | miwada-test.py:101-116 | the search from a node marks it visited; on a report it returns true having appended exactly one message whose path extends the current path; otherwise it leaves the errors and the stack as they were |
| Validation.CycleSearch.SearchSuccessors | miwada-test.py:106-116 | the loop over a node's successors stops at the first report; with no report and no earlier error, every successor has finished |
| Validation.CycleSearch.Visit | miwada-test.py:107-113 | one successor step: on a report, exactly one message is appended whose path extends the current path; otherwise errors and stack are as before and, with no earlier error, the successor has finished |
| Validation.CycleSearch.RecordCycle | miwada-test.py:110-112 | the message `Cycle detected: a -> … -> m` is appended for the path followed by the repeated node |
| Validation.CycleSearch.Enter | miwada-test.py:103-104 | the node joins the visited set and the recursion stack |
| Validation.CycleSearch.Leave | miwada-test.py:115-116 | the node leaves the recursion stack and counts as finished |
| Validation.FirstReportIsCycle | miwada-test.py:110-112 | a path along edges that ends on a node already in it proves the graph cyclic |
| Validation.DetectCycles | miwada-test.py:92-122 | no messages iff the graph is acyclic; at most one message per node; every message is `Cycle detected:` over a path of edges between ids of the list, and some strictly increasing choice of node positions makes each message's path start at its node's id; the first message's path ends on a node repeated earlier in it |
| Dates.ParseDate | miwada-test.py:70 | a deadline parses only when it is ten characters of the YYYY-MM-DD shape and the parsed month is 1–12 and the parsed day 1–31; the empty (absent) deadline does not parse |
| Dates.ParseDateRendering | miwada-test.py:70 | a parsed deadline has a four-digit year and is exactly the canonical rendering of its value, so the value is read from the text's digits and text whose month or day digits are out of range does not parse; with ParseFormatted this fixes the parse on every input |
| Dates.ParseFormatted | miwada-test.py:70 | every date with a four-digit year, month 1–12 and day 1–31 is read back from its canonical rendering |
| Dates.AfterIsStrictTotalOrder | miwada-test.py:81 | the date comparison is irreflexive, transitive, asymmetric and total on distinct dates |
| Conversion.TaskOfNode | miwada-test.py:428-441 | definition: the task row of one node, with start and end both the deadline and next_to the first dependency or empty; NodeTaskNode and TaskNodeTask state its round trips |
| Conversion.NodeOfTask | miwada-test.py:494-505 | definition: the node of one task row, with the deadline taken from end and depends_on holding next_to when it is non-empty; NodeTaskNode and TaskNodeTask state its round trips |
| Conversion.LoadTasksFromNodes | miwada-test.py:425-444 | one task row per node, in order, each the row of its node |
| Conversion.NodesFromTasks | miwada-test.py:490-507 | one node per task row, in order, each the node of its row |
| Conversion.NodeTaskNode | miwada-test.py:425-507 | node → task → node changes only the dependency list, which becomes its first entry when that is non-empty and otherwise nothing; the node survives unchanged iff it has no dependency or exactly one non-empty dependency |
| Conversion.TaskNodeTask | miwada-test.py:425-507 | task → node → task changes only the start, which becomes the end; the row survives unchanged iff its start equals its end |
| Pages.AllSections | miwada-test.py:531-533 | the section list is strictly increasing in code-point order and holds exactly the non-empty section names in use |
| Pages.Insert | miwada-test.py:531-533 | adding a name to a strictly sorted list keeps it strictly sorted, with exactly the old names and the new one |
| Pages.SortedUnique | miwada-test.py:531-533 | two strictly sorted lists with the same names are equal, so the section list is the sorted set of names in use |
| Pages.FilterBySection | miwada-test.py:539-542 | no choice or `all` keeps every row; a chosen section keeps exactly the rows of that section, each as often as it occurs in the list, and never more rows than there were |
| Pages.InSection | miwada-test.py:540 | the filtered rows are exactly those of the chosen section, and there are never more of them than rows |
| Pages.InSectionCounts | miwada-test.py:540 | every row of the chosen section is kept as often as it occurs in the list, and no other row is kept |
| Pages.InSectionAll | miwada-test.py:540 | the filter keeps the whole list iff every row is in the chosen section |
| Pages.InSectionAppend | miwada-test.py:540 | the filter keeps the order of the rows: filtering a concatenation is concatenating the filtered parts |
| Pages.InSectionOne | miwada-test.py:540 | a single row is kept iff its section is the chosen one |
| Pages.FilterBySectionAppend | miwada-test.py:539-542 | whatever is chosen, the page's filter keeps the order of the rows |
| Pages.IndexChart | miwada-test.py:551-558 | the main page's chart is the gantt text of the filtered rows |
| Pages.IndexChartImports | miwada-test.py:551-558 | importing the main page's chart gives back the entries of the rows it shows, when every shown row meets the round-trip conditions |
| Pages.IndexChartSection | miwada-test.py:539-558 | with a section chosen, every entry of the chart belongs to that section |
| Pages.BaseUrl | miwada-test.py:686-688 | there is no base exactly when the knowledge folder is empty or made only of slashes and back slashes; otherwise the base is a slash, the folder with back slashes turned into slashes and a run of slashes cut from each end, and a slash; it starts and ends with a single slash and holds no back slash, so the runs cut are the longest |
| Pages.FolderPathEmpty | miwada-test.py:686-687 | the cleaned folder path is empty iff every character of the folder is a slash or a back slash |
| Pages.RewriteUrl | miwada-test.py:690-696 | definition: an absolute link is kept, any other gets the base prepended after dropping one leading `./`; RewriteFixedPoints, RewriteIsAbsolute, RewriteIdempotent, RewriteDotSlash and RewriteRelative state its properties |
| Pages.RewriteLink | miwada-test.py:690-696 | the rewritten attribute keeps its opening and closing parts, and what lies between them is the rewritten target |
| Pages.RewriteRelative | miwada-test.py:694-696 | a relative link's new target starts with the base, and the rest is the link itself or the link without its leading `./` |
| Pages.RewriteFixedPoints | miwada-test.py:692-693 | under a base starting with a slash, a link is left as it is iff it is absolute (web, mail, phone, absolute path or anchor) |
| Pages.RewriteIsAbsolute | miwada-test.py:690-696 | under a base starting with a slash, every rewritten target is absolute |
| Pages.RewriteIdempotent | miwada-test.py:690-696 | rewriting an already rewritten link changes nothing |
| Pages.RewriteDotSlash | miwada-test.py:694-696 | `./x` and `x` are rewritten to the same target when `x` is relative and does not itself start with `./` |
| Pages.BaseUrlRewrites | miwada-test.py:686-696 | with a folder's base, the rewrite is idempotent and leaves exactly the absolute links alone, and every relative link's target starts with `/`, the cleaned folder text and `/` |
| Gantt.GanttText | test.py:381-389 | definition: the header lines, a section line at each change of section and one indented task line per entry, joined with newlines; EmitGantt is proved equal to it and ImportEmitted inverts it |
| Gantt.EmitGantt | test.py:381-389 | the emitter loop produces the gantt text: the header, then a section line whenever the section changes, then one line per entry |
| Gantt.ImportEntries | test.py:252-273 | definition: the entries read by the line loop from the text split at newlines; ParseLineEffect states each line's effect and ImportEmitted inverts GanttText |
| Gantt.ImportEmitted | test.py:252-273 | importing emitted text gives back exactly the emitted entries, in order, when each entry meets the round-trip conditions |
| Gantt.BodyParse | test.py:252-273 | reading the emitted body lines appends exactly their entries to what was read before |
| Gantt.EntryLinesParse | test.py:256-271 | reading one entry's lines appends that entry and leaves its section current |
| Gantt.HeaderParse | test.py:256-271 | the three header lines leave the importer's state alone |
| Gantt.SectionLineParse | test.py:259 | an emitted section line sets the current section to its name |
| Gantt.TaskLineParse | test.py:260-271 | an emitted task line appends its entry under the current section and counts it |
| Gantt.TaskOf | test.py:261-270 | a task is produced only with a date-prefixed start and end, under the current section |
| Gantt.TaskOfTokens | test.py:261-271 | for any line with a colon: an entry is produced iff some token is date-prefixed; its name is the stripped text before the first colon, its start the first date-prefixed token, its end the next date-prefixed token or else the start, its id the first token neither date-prefixed nor starting with `after`, or else `id` followed by the counter |
| Gantt.DateTokensFrom | test.py:265 | from any position on, there are no date tokens iff no token there is date-prefixed, and otherwise they are the first date-prefixed token followed by the date tokens after it |
| Gantt.DateTokensPick | test.py:267-268 | the first date token is the first date-prefixed token, and the second is the next date-prefixed one when there is one |
| Gantt.IdTokensFirstIndex | test.py:266-269 | the first id token is the first token neither date-prefixed nor starting with `after`, and there is none when no token is such |
| Gantt.ParseLine | test.py:257-271 | a line adds at most one entry, never drops one, and an added entry has date-prefixed start and end |
| Gantt.ParseLineEffect | test.py:257-271 | for any line: a stripped line starting with `section` sets the section to the stripped line with every `section` deleted and reads nothing; any other line keeps the section; a colon line adds one entry iff some token is date-prefixed, that entry being the one its tokens describe, and the counter grows with each entry; any other line changes nothing |
| Gantt.ParseFromExtends | test.py:256-273 | reading lines never forgets entries read before, and every new entry has date-prefixed start and end |
| Gantt.ParseFromAppend | test.py:256-273 | reading two blocks of lines is reading the first and then the second |
| Gantt.DateTokens | test.py:265 | every kept token begins with a YYYY-MM-DD shape |
| Gantt.DateTokensMembers | test.py:265 | the date tokens are exactly the date-prefixed tokens, and there is one iff some token is date-prefixed |
| Gantt.DateTokensFirst | test.py:265-268 | the first date token is the earliest date-prefixed token of the line |
| Gantt.IdTokens | test.py:266 | no kept token is date-prefixed or starts with `after` |
| Gantt.IdTokensMembers | test.py:266 | the id tokens are exactly the tokens that are neither date-prefixed nor start with `after` |
| Gantt.IdTokensFirst | test.py:266-270 | the first id token is the earliest such token of the line |
| Gantt.TokensOfTaskLine | test.py:263-266 | an emitted task line's tokens are its id, start and end; the dates are start and end and the id is the id |
| Editor.Add | test.py:280-283 | with a section and a task name, exactly one record with the form's fields and the fresh id is appended, earlier rows stay and the selection is cleared; otherwise nothing changes |
| Editor.Update | test.py:284-287 | the selected row takes the form's fields and keeps its id; the other rows, the length and the selection stay; with no valid selection nothing changes |
| Editor.Delete | test.py:288-290 | the selected row is removed, the others keep their order (the rows after it move up by one), the multiset loses exactly that row and the selection is cleared |
| Editor.MoveUp | test.py:291-293 | the selected row swaps with the one above, the multiset of rows is unchanged and the selection follows the row; at the top nothing changes |
| Editor.MoveDown | test.py:294-296 | the selected row swaps with the one below, the multiset of rows is unchanged and the selection follows the row; at the bottom nothing changes |
| Editor.Reversed | test.py:307 | the plotted order is the list reversed, element by element |
| Editor.ChartClick | test.py:241-250 | a click at row position y selects row len−1−y, which is the task plotted at y, exactly when that index is in range; otherwise the selection stays |
| Editor.ReadGantt | test.py:252-273 | the import loop, line by line, yields exactly the imported entries of the text |
| Editor.Import | test.py:252-273 | the imported entries replace the list and clear the selection; text yielding no task changes nothing |
| Editor.MermaidView | test.py:304-389 | an empty list shows no text; otherwise the text is the gantt text of the list |
| Editor.ViewThenImport | test.py:252-389 | for any task list, including the empty one, importing its gantt text (the text shown for a non-empty list) gives back every task's id, section, name, start and end in order, with the successor, doc, action and lesson emptied |
| Editor.UpdateStore | test.py:229-298 | no trigger changes nothing; the dataset choice loads the chosen list and clears the selection; clicks never change the list; a table click selects its row; a chart click at y selects row len−1−y when in range and otherwise keeps the selection; the import, add, update, delete, up and down buttons have exactly the effects of their branches (including the no-change cases); every trigger but a table click keeps an in-range selection in range |
| Text.Strip | test.py:258 | the result has no surrounding whitespace and is no longer than the input |
| Text.StripCutsSpace | test.py:258 | the result is the input with whitespace-only pieces cut from both ends |
| Text.Split | test.py:253 | there is at least one part, two or more when the separator occurs, no part holds the separator, and joining the parts gives the input back |
| Text.SplitJoin | test.py:253 | splitting the join of separator-free parts gives those parts back |
| Text.RemoveAll | test.py:259 | deleting every occurrence of a word never lengthens the text |
| Text.RemoveAbsent | test.py:259 | deleting a word that does not occur leaves the text unchanged |
| Text.RemoveAllShrinks | test.py:259 | deleting shortens the text by a whole number of copies of the word, and by at least one copy when the word occurs |
| Text.RemoveAllUnchanged | test.py:259 | deleting a word leaves the text unchanged iff the word does not occur in it |
| Text.StripChar | miwada-test.py:686 | the result neither starts nor ends with the stripped character |
| Text.StripCharSlice | miwada-test.py:686 | the result is the input with a run of the character cut from the front and a run cut from the back; with StripChar's ensures these runs are the longest ones |
| Text.StripCharEmpty | miwada-test.py:686-687 | stripping a character leaves nothing iff the input is made only of that character |
| Text.LexLessTransitive | miwada-test.py:531-533 | the string order used for sorting is transitive |
| Text.LexLessTotal | miwada-test.py:531-533 | any two distinct strings are ordered one way or the other |

## Left out

- The Flask routes, templates, redirects and static file serving of the workflow tool. So are the Dash layout, the plotly figure, `fill_form` and the browser timer of the editor. These are UI glue.
- Reading and writing the workflow JSON file, and reading knowledge Markdown files. These are file I/O; only the record conversions are modelled.
- The DAG and timeline images. They rely on graph-layout and plotting libraries with floating-point coordinates.
- `build_knowledge_file_links` and the `re.sub` scan over the rendered HTML. These use the file system and regular-expression search; only the per-link rewrite is modelled.
- `uuid.uuid4()` for new ids. The fresh id is a parameter of `Editor.Add` and `Editor.UpdateStore`.
- The two editor datasets are parameters of `Editor.UpdateStore`.
- Form inputs that are `None` are the empty string.
- A chart click's y is a plotted row position.
  - A float y is taken after Python's `int()` truncation, so the model takes an `int`.
  - A point without a y counts as y = 0, as `point.get('y', 0)` does, so a click on such a point selects the last row of a non-empty list.
  - A non-numeric y, or click data without points, is `None`, and the selection stays.
  - An exception inside that branch is caught, and the selection stays; the model matches this.
- A selected index out of range makes `update_store` raise `IndexError` in the update, delete and up branches. The page then keeps its outputs, so the model leaves the store unchanged there.
- Dates.ParseDate: is stricter than Python's `strptime`. It accepts only zero-padded two-digit months and days and checks only that the day is between 1 and 31, not the calendar. It also accepts year 0000, which `datetime` rejects. Valid calendar dates written zero-padded as YYYY-MM-DD behave the same way in both.
- Dates.HasDatePrefix: accepts only ASCII digits, where Python's `\d` also matches other Unicode decimal digits.
- Text.IsSpace follows Python's `str.isspace` for the characters up to U+3000. Characters that are whitespace only under other Unicode versions are not considered.
- Validation.CycleSearch.HasCycle: is the recursive search as written. A branch that reports a cycle returns without taking its nodes off the recursion stack, so a later root can report a path that is not a cycle. An example is the list `a` (depending on `b` and `c`), `b` (depending on `a`), `c` (no dependency): the second report is `Cycle detected: c -> a`. Only the first report is therefore proved to end on a repeated node. Later reports are proved to be paths along edges.
- The cycle path runs from the search root to the repeated node, and it need not start where it ends. The code is followed here, not a reading in which the path starts and ends at the same id.
- Python's recursion limit on the depth-first search is not modelled. The recursion terminates because each call visits a new node.
- The `label` key of a node is the field `displayLabel`.
- Every node is a record with all its fields. Keys read with a default (`depends_on`, `deadline`, `section`, `note` and the like) behave as here when missing: they read as the empty list, the empty string or false. Keys indexed directly deliberately have no missing case in the model: `id` in `validate_workflow` and `detect_cycles` (miwada-test.py:44, 97, 119) and `id` and `label` in the node-to-row conversion (miwada-test.py:430, 432). For a stored record without them the Python code raises `KeyError`.
- Conversion.NodesFromTasks: reads the node deadline from the task's `end`. Task rows always carry an `end`, so the fallback to `start` never applies.
