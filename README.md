# aoc-env, modelled in Dafny

A model of the decision logic of aoc-env, a personal Advent of Code
workspace, together with proofs about it. It covers:

- the puzzle-session engine (`aoc.submit`, `aoc.bind`, `aoc.clear`), the
  choice of the session's puzzle, and the progress record;
- the `aoc context` commands and their validation chain;
- the latest-puzzle rule, and the URL and cache-file choice of
  `get_aoc_data`, with its cache-first behaviour;
- the puzzle toolbox: `Grid`, Manhattan distance, `add_vec`, Bresenham
  lines, BFS, DFS, Dijkstra, interval merging, the Chinese Remainder
  Theorem and the three tree traversals;
- the fluent `InputParser`;
- the `aoc test` case store and runner, and the `aoc template` store;
- the scrolling and table logic of the statistics viewer.

Outside effects are parameters of the model. These are the website (posting
an answer, scraping a day page, fetching a page), the `ruff` formatter, git,
the editor and confirmation prompts, running the notepad, the clock and the
terminal width. The files the code reads and writes are fields of classes:
the progress record, notepad, solutions, templates, test cases and data
cache.

Modules, one per source file or toolbox section:

| file | module | models |
|---|---|---|
| wrappers.dfy | Wrappers | `Option`, `Result` |
| pyint.dfy | PyInt | Python's `abs` |
| pystr.dfy | PyStr | the Python `str` operations the code uses: `strip`, `split`, `splitlines`, `join`, `replace`, `in`, `str(int)`, `int(str)`, `f"{d:02d}"` |
| string_order.dfy | StringOrder | Python's ordering of strings, and `sorted` over a set of keys |
| aoc_utils.dfy | AocUtils | env_src/aoc/_utils.py |
| context_cmd.dfy | ContextCommand | src/aoc/cli_commands/context.py |
| aoc.dfy | Aoc | src/aoc/__init__.py |
| geometry.dfy | Geometry | `manhattan_distance`, `add_vec`, `bresenham_line` |
| grid_tools.dfy | GridTools | `Grid` |
| graph_search.dfy | GraphSearch | `bfs`, `dfs` |
| dijkstra.dfy | ShortestPath | `dijkstra` |
| intervals.dfy | Intervals | `merge_intervals` |
| crt.dfy | Crt | `chinese_remainder_theorem` |
| trees.dfy | TreeTraversal | `TreeNode` and the traversals |
| parsers.dfy | Parsers | src/aoc/parsers.py |
| parser_fixtures.dfy | ParserFixtures | the concrete examples of tests/test_parsers.py |
| test_cmd.dfy | TestCommand | src/aoc/cli_commands/test.py |
| template_cmd.dfy | TemplateCommand | src/aoc/cli_commands/template.py |
| stats_viewer.dfy | StatsViewer | env_src/aoc/stats_viewer.py |

Python's `//` and `%` are modelled as floor division (`Crt.PyDiv`,
`Crt.PyMod`). Where the divisor is a positive constant (the viewer's
`// 5`), they are Dafny's `/` and `%`. Integers are unbounded, as in Python.

## Model

| member | source | states |
|---|---|---|
| Aoc.TestModeMessage | src/aoc/__init__.py:81-94 | the test-mode reply: "✅ PASSED" when `str(answer)` equals `str(expected)`, otherwise the FAILED text naming both; its properties are the contract of `Aoc.TestModeIsLocal` |
| Aoc.KnownAnswerMessage | src/aoc/__init__.py:117-142 | the reply for an already solved part from the scraped answer: "correct" on a match, "incorrect" naming the right answer on a mismatch, the warning when nothing was scraped; its properties are the contracts of `Aoc.SolvedPartIsNotPosted` and `Aoc.LongerThanCorrect` |
| Aoc.Plan | src/aoc/__init__.py:81-173 | the decision of one `submit` in the source's order: test mode, then the part check, then the already-solved check, then the live post; its properties are the contracts of `Aoc.TestModeIsLocal`, `Aoc.InvalidPartIsRefused`, `Aoc.SolvedPartIsNotPosted` and `Aoc.StarsNeverDecrease` |
| Aoc.LivePlan | src/aoc/__init__.py:144-173 | the decision once the answer is posted: record `max(current_stars, part)` and maybe bind on acceptance, record it on the wrong-level reply, otherwise record nothing; its properties are the contracts of `Aoc.AcceptedAnswerRecordsAndBinds` and `Aoc.OtherRepliesDoNotBind` |
| Aoc.Classify | src/aoc/__init__.py:146-171 | the reply is searched for "That's the right answer!" first, then for the wrong-level phrase, and is a rejection otherwise; its consequences, through `Aoc.Plan`, are the contracts of `Aoc.AcceptedAnswerRecordsAndBinds` and `Aoc.OtherRepliesDoNotBind` |
| Aoc.PlanFor | src/aoc/__init__.py:101-144 | the plan with the day's stars read from the progress record, the scraped answer of the part and the site's reply looked up; it is the specification in the contract of `Aoc.Workspace.Submit` |
| Aoc.ResolveContext | src/aoc/__init__.py:33-39 | the session's puzzle is the persisted context whenever there is one, whatever pair it holds; otherwise it is the latest puzzle date, which has unlocked and is not earlier than any unlocked puzzle |
| Aoc.ResolvedPuzzle | src/aoc/__init__.py:33-39 | a persisted context that `context set` accepted under the same clock, or the latest puzzle date when nothing is persisted, names a puzzle that has unlocked |
| Aoc.UnvalidatedContextIsUsed | tests/test_utils.py:14-19 | the persisted pair (2025, 99) that `write_context` stores is the session's puzzle although it has not unlocked and `context set` would refuse it |
| Aoc.TestModeIsLocal | src/aoc/__init__.py:81-94 | in test mode, submit scrapes nothing, posts nothing, records nothing and binds nothing; it answers "✅ PASSED" exactly when the answer equals the expected text, and otherwise gives a message containing both |
| Aoc.InvalidPartIsRefused | src/aoc/__init__.py:96-99 | outside test mode, a part other than 1 or 2 gets the error message and has no other effect |
| Aoc.SolvedPartIsNotPosted | src/aoc/__init__.py:112-142 | a part whose stars are already recorded is never posted and records nothing; the reply is "correct" exactly when the scraped answer matches, the unverified warning exactly when nothing was scraped, and on a mismatch "❌ Your answer '…' is incorrect. The correct answer was '…'." naming both |
| Aoc.LongerThanCorrect | src/aoc/__init__.py:126-135 | the "incorrect" reply for an answer never equals the "correct" reply for it |
| Aoc.StarsNeverDecrease | src/aoc/__init__.py:149-164 | an answer is posted exactly when it is live (not test mode, part 1 or 2, fewer stars than the part); any star count recorded is at least the old count and at least the part |
| Aoc.AcceptedAnswerRecordsAndBinds | src/aoc/__init__.py:146-156 | a reply containing "That's the right answer!" records the part's stars, binds exactly when `auto_bind` is on, and is reported with "✅ " in front |
| Aoc.OtherRepliesDoNotBind | src/aoc/__init__.py:158-173 | any other reply never binds; it records the part's stars exactly when it contains the wrong-level phrase, and is reported as "❌ " plus the reply exactly when it does not |
| Aoc.WrongLevelGuardAlwaysHolds | src/aoc/__init__.py:161-164 | in the wrong-level branch, the stored value always differs from `max(current_stars, part)`, so the write always happens |
| Aoc.RecordedChangesOneDay | src/aoc/__init__.py:149-150 | recording stars sets that day's count and leaves every other (year, day) as it was |
| Aoc.WithYear | src/aoc/__init__.py:105-106 | after reading the progress, the current year has an entry |
| Aoc.SolutionPath | src/aoc/__init__.py:188-189 | the destination is three path components: year, two-digit day, and `part_<n>.py` |
| Aoc.SolutionPathInjective | src/aoc/__init__.py:188-189 | different (year, day, part) triples never share a destination |
| Aoc.IsBindLine | src/aoc/__init__.py:214 | a line matches `^\s*aoc\.bind\s*\(.*\)\s*$`: whitespace, "aoc.bind", whitespace, "(", anything, ")", whitespace; its properties are the contracts of `Aoc.BindCallIsBindLine`, `Aoc.EmptyIsNoBindLine` and `Aoc.BlankBindLinesAt` |
| Aoc.SkipSpaces | src/aoc/__init__.py:214 | the leading whitespace of a line: everything skipped is whitespace, and the next character is not |
| Aoc.TrimEnd | src/aoc/__init__.py:214 | the trailing whitespace of a line: everything trimmed is whitespace, and the last character kept is not |
| Aoc.BlankBindLines | src/aoc/__init__.py:214-215 | removing the bind lines keeps the number of lines |
| Aoc.BlankBindLinesAt | src/aoc/__init__.py:214-215 | a line matching the bind pattern is emptied, any other line is kept, and no resulting line matches the pattern |
| Aoc.EmptyIsNoBindLine | src/aoc/__init__.py:214 | an empty line does not match the bind pattern |
| Aoc.CleanSolution | src/aoc/__init__.py:213-215 | `re.sub(bind_pattern, "", content).rstrip()` read line by line; its properties are the contracts of `Aoc.CleanedLinesHaveNoBind`, `Aoc.CleanKeepsOtherCode` and `Aoc.BindCallAloneIsRemoved` |
| Aoc.CleanedLinesHaveNoBind | src/aoc/__init__.py:213-215 | no line of the cleaned solution matches the bind pattern, and the cleaned text ends in a non-whitespace character or is empty |
| Aoc.BlankKeepsOthers | src/aoc/__init__.py:215 | lines with no bind call are all kept |
| Aoc.CleanKeepsOtherCode | src/aoc/__init__.py:215 | a notepad with no bind line is archived as its `rstrip()` |
| Aoc.BindCallAloneIsRemoved | src/aoc/__init__.py:214-215 | a notepad holding only `aoc.bind(part=1)` is archived as the empty text |
| Aoc.BindCallIsBindLine | src/aoc/__init__.py:214 | `aoc.bind(part=1)` matches the bind pattern |
| Aoc.Cleared | src/aoc/__init__.py:232-237 | `clear` empties an existing notepad, creates none, and touches neither the solutions nor the commits |
| Aoc.Formatted | src/aoc/__init__.py:197-203 | the notepad after `ruff format` when `auto_format_on_bind` is on (the default); a ruff failure leaves it unformatted; it is used by the contract of `Aoc.BindArchives` |
| Aoc.BindResult | src/aoc/__init__.py:176-229 | the files after `bind`: the part and notepad refusals, then formatting, then the overwrite guard, then archiving; its properties are the contracts of `Aoc.BindRefusesInvalid`, `Aoc.BindKeepsExisting`, `Aoc.BindArchives` and `Aoc.BindTwiceKeepsFirst` |
| Aoc.Archived | src/aoc/__init__.py:212-226 | the cleaned notepad written to the solution file, then a commit when `auto_commit_on_bind` is on and a clear when `auto_clear_on_bind` is on; its properties are the contract of `Aoc.BindArchives` |
| Aoc.BindRefusesInvalid | src/aoc/__init__.py:183-195 | an invalid part or a missing notepad leaves every file as it was |
| Aoc.BindKeepsExisting | src/aoc/__init__.py:205-210 | an existing solution is not replaced without `overwrite`, and nothing is committed |
| Aoc.BindArchives | src/aoc/__init__.py:212-226 | otherwise exactly the puzzle's solution file is written, with the cleaned, formatted notepad; a commit is requested exactly when `auto_commit_on_bind` is on; with `auto_clear_on_bind` the notepad is emptied, otherwise it holds the formatted text |
| Aoc.BindTwiceKeepsFirst | src/aoc/__init__.py:205-210 | binding again without `overwrite` leaves the solutions as the first bind left them |
| Aoc.Workspace.constructor | src/aoc/__init__.py:27-39 | a session starts from its context, test-mode settings and files, with no commit, scrape, post or progress write yet |
| Aoc.Workspace.Clear | src/aoc/__init__.py:232-237 | the files become `Cleared` of the old files; the progress and the website traces are unchanged |
| Aoc.Workspace.Bind | src/aoc/__init__.py:176-229 | the files become the bind result of the old files; the progress and the website traces are unchanged |
| Aoc.Workspace.Archive | src/aoc/__init__.py:212-226 | writes the cleaned solution, then commits and clears as the settings say |
| Aoc.Workspace.WriteProgress | src/aoc/__init__.py:151 | the progress becomes the given record, counting one write; nothing else changes |
| Aoc.Workspace.Submit | src/aoc/__init__.py:73-173 | returns the planned message; scrapes and posts occur exactly when planned; the progress is the old one with the new stars recorded exactly when the plan records them; the files are the bind result exactly when the plan binds |
| Aoc.Workspace.PostAnswer | src/aoc/__init__.py:144-173 | posts once, classifies the reply as the live plan says, records the planned stars, and reports whether to bind |
| Aoc.Workspace.RecordStars | src/aoc/__init__.py:146-164 | a rejected answer changes no progress; otherwise the day's stars become the part, written once |
| Aoc.SolvedOnceIsNotPostedAgain | src/aoc/__init__.py:108-173 | a first live submission records the part's stars exactly when the day had fewer stars and the plan records some; then exactly one post was sent for both calls, and the second call is answered from the scraped answer |
| AocUtils.DaysInMonth | env_src/aoc/_utils.py:89-92 | months have 28 to 31 days, and December has 31 |
| AocUtils.PreviousDay | env_src/aoc/_utils.py:89-92 | the day before a valid date is a valid date at the same hour |
| AocUtils.NextDay | env_src/aoc/_utils.py:89-92 | the day after a valid date is a valid date at the same hour |
| AocUtils.NextPreviousDay | env_src/aoc/_utils.py:89-92 | stepping a day back and then forward, or forward and then back, returns the same date |
| AocUtils.ToEst | env_src/aoc/_utils.py:89-95 | the EST instant is a valid date whose hour is the UTC hour minus 5, modulo 24 |
| AocUtils.FromEst | env_src/aoc/_utils.py:89-92 | the inverse shift gives a valid date |
| AocUtils.EstRoundTrip | env_src/aoc/_utils.py:89-92 | the shift to EST and back, in either order, is the identity |
| AocUtils.LatestPuzzleDate | env_src/aoc/_utils.py:83-105 | the latest puzzle at a UTC instant: the rule of `AocUtils.LatestForEst` applied to the instant shifted to EST; its properties are the contract of `AocUtils.LatestIsGreatestUnlocked` |
| AocUtils.LatestForEst | env_src/aoc/_utils.py:98-105 | the latest puzzle's day lies in 1..25, and its year is the EST year or the one before |
| AocUtils.LatestIsGreatestUnlocked | env_src/aoc/_utils.py:83-105 | the latest puzzle has unlocked, and every unlocked puzzle is not later than it |
| AocUtils.Extension | env_src/aoc/_utils.py:37 | "md" for instructions and "txt" for any other type; it is used by the contract of `AocUtils.CacheFile` |
| AocUtils.CacheFile | env_src/aoc/_utils.py:37-38 | the cache file is `<year>/<day>/<type>.<ext>`, with extension "md" for instructions and "txt" otherwise |
| AocUtils.CacheFileInjective | env_src/aoc/_utils.py:37-38 | different (year, day, type) requests never share a cache file |
| AocUtils.UrlPath | env_src/aoc/_utils.py:34 | `/<year>/day/<day>/input` for the input and `/<year>/day/<day>` otherwise; its properties are the contract of `AocUtils.UrlPathCases` |
| AocUtils.UrlPathCases | env_src/aoc/_utils.py:34 | "input" is fetched from `/<y>/day/<d>/input`, and any other type from `/<y>/day/<d>` |
| AocUtils.DataCache.GetAocData | env_src/aoc/_utils.py:28-68 | a cache hit returns the cached text with no request; a miss with no cookie fails before any request; otherwise exactly one request is sent, and its text (formatted for instructions) is returned and cached, or an HTTP error leaves the cache as it was |
| AocUtils.FetchIsCached | env_src/aoc/_utils.py:40-68 | once a fetch succeeds, the same request returns the same text whatever the cookie, and the two calls together send at most the first call's request |
| ContextCommand.Validate | src/aoc/cli_commands/context.py:20-37 | the first failing check of `context set`: the year range, then the day range, then the latest-day check; its properties are the contracts of `ContextCommand.ValidateAccepts`, `ContextCommand.ValidateReportsFirstFailure` and `ContextCommand.AcceptsExactlyUnlocked` |
| ContextCommand.ValidateAccepts | src/aoc/cli_commands/context.py:20-37 | validation passes exactly when the year is in 2015..latest, the day is in 1..25, and a latest-year day is not past the latest day |
| ContextCommand.ValidateReportsFirstFailure | src/aoc/cli_commands/context.py:20-37 | the reported error is the first failing check, in the order year, day, availability |
| ContextCommand.AcceptsExactlyUnlocked | src/aoc/cli_commands/context.py:17-37 | against the latest puzzle date, validation accepts exactly the puzzles that have unlocked |
| ContextCommand.ErrorLines | src/aoc/cli_commands/context.py:21-36 | every error prints one line, except "not yet available", which prints two |
| ContextCommand.SetMessage | src/aoc/cli_commands/context.py:40 | the confirmation "✅ Context set to Year y, Day d."; it is used by the contract of `ContextCommand.Set` |
| ContextCommand.Set | src/aoc/cli_commands/context.py:15-40 | aborts exactly when validation fails, keeping the stored context; otherwise stores exactly (year, day) and reports it |
| ContextCommand.Show | src/aoc/cli_commands/context.py:44-52 | showing changes nothing |
| ContextCommand.Clear | src/aoc/cli_commands/context.py:56-60 | after clearing, no context is stored |
| ContextCommand.SetThenShow | src/aoc/cli_commands/context.py:39-49 | after a successful set, show prints the pair just stored, and a different pair would print differently |
| ContextCommand.RefusedSetKeepsContext | src/aoc/cli_commands/context.py:20-52 | after a refused set, show prints what it printed before |
| ContextCommand.ClearThenShow | src/aoc/cli_commands/context.py:56-60 | clearing twice is clearing once, and after clearing show prints "No context is currently set." |
| Geometry.Manhattan | src/aoc/tools.py:67-68 | the distance is zero exactly for equal points |
| Geometry.ManhattanMetric | src/aoc/tools.py:67-68 | the distance is symmetric and obeys the triangle inequality |
| Geometry.AddVec | src/aoc/tools.py:70-71 | the sum differs from the first vector by the second in each coordinate |
| Geometry.AddVecKeepsDistance | src/aoc/tools.py:70-71 | translating two points by the same vector keeps their distance, and a point moves by the vector's length |
| Geometry.BresenhamLine | src/aoc/tools.py:82-101 | the line starts at p1 and ends at p2; consecutive points are distinct and differ by at most 1 in each coordinate; there are at most dx + dy + 1 points |
| Geometry.AxisDone | src/aoc/tools.py:92-93 | an axis reaches its end point exactly after its full count of steps |
| Geometry.AxisStepBounds | src/aoc/tools.py:94-100 | while the line is unfinished, the error term moves at least one coordinate, and never one that is already at its end |
| GridTools.Norm | src/aoc/tools.py:44-46 | a Python index, negative ones counted from the end, falls within the row or grid |
| GridTools.Deltas | src/aoc/tools.py:58-60 | there are 4 neighbour offsets, or 8 with diagonals |
| GridTools.InBoundsShifts | src/aoc/tools.py:62-65 | no more neighbours than offsets |
| GridTools.InBoundsShiftsIff | src/aoc/tools.py:62-65 | a point is a neighbour exactly when it is (x, y) shifted by one of the offsets and lies within the width and height |
| GridTools.InBoundsShiftsDistinct | src/aoc/tools.py:58-65 | distinct offsets give distinct neighbours |
| GridTools.NeighborsSpec | src/aoc/tools.py:57-65 | `neighbors` stays in bounds, yields each neighbour once, and yields at most 4 neighbours, or 8 with diagonals |
| GridTools.RowCells | src/aoc/tools.py:53-55 | one cell per element of a row |
| GridTools.FlattenedAt | src/aoc/tools.py:52-55 | iteration over a rectangular grid yields `(x, y, grid[y][x])` at position `y * width + x` |
| GridTools.Grid.constructor | src/aoc/tools.py:39-42 | the grid holds the value of the given rows; the height is the number of rows, and the width is the length of the first row, or 0 |
| GridTools.Grid.Get | src/aoc/tools.py:44-46 | a value exists exactly for coordinates Python can index (negative ones counted from the end), read row-major as `grid[y][x]` |
| GridTools.Grid.Set | src/aoc/tools.py:48-50 | succeeds exactly for coordinates Python can index; the cell then reads the new value, every other cell and the grid's shape are unchanged, and a failed set changes nothing |
| GridTools.Grid.Cells | src/aoc/tools.py:52-55 | yields every cell, row by row, with its coordinates |
| GridTools.Grid.Neighbors | src/aoc/tools.py:57-65 | the in-bounds shifts of (x, y) by the 4 or 8 offsets, in the source's order |
| GraphSearch.EnqueueUnvisited | src/aoc/tools.py:111-114 | the queue grows by exactly the unvisited successors, each once, and they become visited |
| GraphSearch.BfsStep | src/aoc/tools.py:108-114 | one dequeue keeps the search invariant and makes progress |
| GraphSearch.BfsDone | src/aoc/tools.py:108 | when the queue is empty, the order starts at the start node and holds exactly the reachable nodes |
| GraphSearch.DiscoveredLevel | src/aoc/tools.py:111-114 | a neighbour of the node being expanded that has not been seen yet is exactly one edge farther from the start than that node |
| GraphSearch.BfsLevelStep | src/aoc/tools.py:108-114 | one dequeue keeps the level structure: distances from the start never decrease along the yielded-then-queued nodes, the queue spans at most two neighbouring distances, and every node nearer than the queue's head has been yielded |
| GraphSearch.Bfs | src/aoc/tools.py:105-114 | yields the start first, no node twice, exactly the nodes reachable from the start, and in level order: a node yielded earlier is never farther from the start (fewest edges) than one yielded later |
| GraphSearch.PushUnvisited | src/aoc/tools.py:125-127 | the stack grows by exactly the unvisited successors |
| GraphSearch.DfsSkip | src/aoc/tools.py:120-121 | popping a visited node keeps the search invariant |
| GraphSearch.DfsVisit | src/aoc/tools.py:121-127 | visiting a popped node keeps the search invariant and makes progress |
| GraphSearch.DfsStep | src/aoc/tools.py:119-127 | one pop keeps the search invariant and makes progress |
| GraphSearch.DfsDone | src/aoc/tools.py:119 | when the stack is empty, the order starts at the start node and holds exactly the reachable nodes |
| GraphSearch.Dfs | src/aoc/tools.py:116-127 | yields the start first, no node twice, and exactly the nodes reachable from the start |
| GraphSearch.ClosedHoldsReachable | src/aoc/tools.py:105-127 | a set that holds the start and is closed under successors holds every reachable node |
| ShortestPath.WeightedPathIsPath | src/aoc/tools.py:150-158 | a weighted path is a path of the unweighted graph |
| ShortestPath.WeightedPathSnoc | src/aoc/tools.py:156-158 | extending a path by an edge adds that edge's weight to its cost |
| ShortestPath.MinIndex | src/aoc/tools.py:145 | the entry popped from the heap has the least distance |
| ShortestPath.PushedIff | src/aoc/tools.py:156-158 | an entry is pushed exactly for an edge to an unvisited node, with the distance plus the weight and the path extended |
| ShortestPath.PushNeighbours | src/aoc/tools.py:156-158 | the heap grows by exactly the pushed entries |
| ShortestPath.PushedEntry | src/aoc/tools.py:156-158 | every pushed entry is a path from the start whose weight sum is its distance |
| ShortestPath.DijkstraSkip | src/aoc/tools.py:147-148 | popping a visited node keeps the search invariant |
| ShortestPath.DijkstraVisit | src/aoc/tools.py:150-158 | visiting a popped node keeps the search invariant and makes progress |
| ShortestPath.DijkstraVisitPushed | src/aoc/tools.py:156-158 | every entry pushed from a visited node is a correct weighted path from the start |
| ShortestPath.DijkstraVisitClosed | src/aoc/tools.py:156-158 | after a visit, every edge out of a visited node leads to a visited or queued node |
| ShortestPath.DijkstraDone | src/aoc/tools.py:144-160 | when the heap empties without reaching the end, the end is unreachable |
| ShortestPath.FoundEnd | src/aoc/tools.py:153-154 | a popped entry for the end node gives a path from start to end with that distance |
| ShortestPath.DijkstraStep | src/aoc/tools.py:145-158 | one pop either returns a correct path to the end, no heavier than any path to it when the weights are non-negative, or keeps the search invariant and makes progress |
| ShortestPath.Dijkstra | src/aoc/tools.py:129-160 | returns a path exactly when the end is reachable; the path runs from start to end along edges whose weights sum to the returned distance; with non-negative weights that distance is no greater than the weight of any path from start to end |
| ShortestPath.LastEdge | src/aoc/tools.py:156-158 | a path of more than one node ends with an edge of the graph, and its front weighs that edge's weight less |
| ShortestPath.Frontier | src/aoc/tools.py:144-158 | with non-negative weights, any path from the start to an unvisited node weighs at least the distance of some queued entry |
| ShortestPath.PoppedIsShortest | src/aoc/tools.py:145-150 | with non-negative weights, the entry popped for an unvisited node has a distance no greater than any path to that node |
| ShortestPath.SettleNode | src/aoc/tools.py:150-152 | recording a node with a distance no greater than any path to it keeps every recorded distance minimal |
| ShortestPath.KeptEntry | src/aoc/tools.py:145 | popping an entry keeps every entry for another node on the heap |
| ShortestPath.SkipPushedFrom | src/aoc/tools.py:147-148 | popping an entry for a visited node keeps an entry on the heap for every edge out of the visited nodes into unvisited ones |
| ShortestPath.VisitPushedFrom | src/aoc/tools.py:150-158 | after visiting a node, every edge out of the visited nodes into unvisited ones still has a heap entry no farther than the edge's source distance plus its weight |
| ShortestPath.PotentialBound | src/aoc/tools.py:129-160 | a potential that grows by at most each edge's weight bounds every path's weight from below |
| ShortestPath.TestGraphNonNegative | tests/test_tools.py:84-89 | the weights of the graph of the test are non-negative |
| ShortestPath.TestGraphFeasible | tests/test_tools.py:84-89 | the distances 0, 1, 3, 4 of A, B, C, D grow by at most each edge's weight in the test graph |
| ShortestPath.TestEdge | tests/test_tools.py:84-89 | the edges of the test graph are exactly those listed for A, B, C and D |
| ShortestPath.TestPath | tests/test_tools.py:84-92 | A, B, C, D is a path of weight 4 in the test graph, so D is reachable from A |
| ShortestPath.TestLowerBound | tests/test_tools.py:84-92 | every path from A to D in the test graph weighs at least 4 |
| ShortestPath.DijkstraTest | tests/test_tools.py:84-92 | `dijkstra(graph, "A", "D")` on the test graph returns distance 4 with a path from A to D of that weight |
| Intervals.InsertByStart | src/aoc/tools.py:167 | inserting keeps every interval and adds the new one |
| Intervals.InsertByStartSorted | src/aoc/tools.py:167 | insertion into a list sorted by start keeps it sorted |
| Intervals.SortByStart | src/aoc/tools.py:167 | `sort(key=lambda x: x[0])` gives a permutation sorted by start |
| Intervals.SortByStartStable | src/aoc/tools.py:167 | the sort is stable: intervals with the same start keep their relative order |
| Intervals.SortByStartOfSorted | src/aoc/tools.py:167 | sorting a list already sorted by start leaves it as it is |
| Intervals.CoveredPermutation | src/aoc/tools.py:167 | reordering intervals keeps the points they cover |
| Intervals.CoveredWiden | src/aoc/tools.py:171-172 | widening the last interval over an overlapping one covers the union of both |
| Intervals.CoveredSnoc | src/aoc/tools.py:173-174 | appending an interval adds exactly its points |
| Intervals.MergeStep | src/aoc/tools.py:170-174 | the body of the loop: fold the interval into the last merged one when it starts no later than its end, otherwise append it; its properties are the contracts of `Intervals.Absorb`, `Intervals.FoldOverlapping` and `Intervals.FoldTouching` |
| Intervals.MergeFrom | src/aoc/tools.py:168-174 | the loop over the intervals after the first, one `MergeStep` each, in order; the contract of `Intervals.MergeIntervals` ties the method to it |
| Intervals.MergeFromAt | src/aoc/tools.py:169-174 | merging from position `k` on is one step at `k` followed by merging from `k + 1` on |
| Intervals.Absorb | src/aoc/tools.py:170-174 | adding the next interval is one `MergeStep`: it widens the last merged interval when it starts no later than its end, and is appended otherwise; the result stays separated and covers the old points plus the new interval |
| Intervals.OverlappingSorted | tests/test_tools.py:32-33 | the overlapping input of the test is already sorted by start |
| Intervals.TouchingSorted | tests/test_tools.py:35-39 | the touching and single-interval inputs of the test are already sorted by start |
| Intervals.FoldOverlapping | tests/test_tools.py:32-33 | merging [1,3], [2,6], [8,10], [15,18] in order gives [1,6], [8,10], [15,18] |
| Intervals.FoldTouching | tests/test_tools.py:35-39 | merging [1,2], [3,4] in order keeps both, and [1,5] alone stays as it is |
| Intervals.MergeOverlapping | tests/test_tools.py:32-33 | `merge_intervals` of the overlapping example is [1,6], [8,10], [15,18] |
| Intervals.MergeTouchingApart | tests/test_tools.py:35-39 | `merge_intervals` keeps [1,2] and [3,4] apart although no integer lies between them, and leaves [1,5] alone |
| Intervals.SeparatedWiden | src/aoc/tools.py:171-172 | widening the end of the last interval keeps the list separated |
| Intervals.SeparatedAppend | src/aoc/tools.py:173-174 | appending an interval that starts after the last end keeps the list separated |
| Intervals.CoveredStep | src/aoc/tools.py:169-174 | each loop step keeps the coverage equal to that of the intervals read so far |
| Intervals.CoveredSorted | src/aoc/tools.py:167 | the coverage of the sorted list is that of the input |
| Intervals.MergeIntervals | src/aoc/tools.py:164-175 | the result is `MergeFrom([], SortByStart(intervals))`, the merge step applied to the sorted intervals in order, so an interval is folded in only when it starts no later than the last merged end; the empty list merges to empty; the result is no longer than the input, sorted by start with each start after the previous end, and covers exactly the input's points |
| Crt.PyDivSpec | src/aoc/tools.py:187-189 | Python's `//` and `%`: the quotient and remainder recompose the dividend, and the remainder takes the divisor's sign |
| Crt.ExtGcd | src/aoc/tools.py:188 | the extended Euclid result satisfies Bezout's identity |
| Crt.GcdDivides | src/aoc/tools.py:188 | the gcd is positive unless both arguments are zero, and it divides both |
| Crt.Inverse | src/aoc/tools.py:188 | `pow(b, -1, m)` through the extended Euclidean algorithm; its properties are the contracts of `Crt.InverseSpec` and `Crt.NoInverseWhenGcdIsNotOne` |
| Crt.InverseSpec | src/aoc/tools.py:188 | `pow(b, -1, m)` returns an inverse of b modulo m, in 0..m-1 for positive m, and fails exactly when no inverse exists |
| Crt.NoInverseWhenGcdIsNotOne | src/aoc/tools.py:188 | an inverse exists only when b and m are coprime |
| Crt.ProdWithout | src/aoc/tools.py:185-187 | the product is a modulus times the product of the others |
| Crt.ProdPositive | src/aoc/tools.py:185 | the product of positive moduli is positive |
| Crt.WithoutCoprime | src/aoc/tools.py:187-188 | for pairwise-coprime moduli, every modulus other than n_i is coprime to n_i |
| Crt.TermParts | src/aoc/tools.py:187-188 | for pairwise-coprime moduli, `prod // n_i` is the product of the other moduli and has an inverse modulo n_i |
| Crt.Term | src/aoc/tools.py:187-188 | one summand `a_i * pow(p, -1, n_i) * p` with `p = prod // n_i`, or the exception it raises; its properties are the contracts of `Crt.TermParts` and `Crt.TermSpec` |
| Crt.TermSpec | src/aoc/tools.py:188 | a term is congruent to a_j modulo n_j, and to 0 modulo every other modulus |
| Crt.Terms | src/aoc/tools.py:186-188 | the running sum over the first k pairs of `zip(n, a)`, or the first exception; its properties are the contracts of `Crt.TermsSpec` and `Crt.TermsErrStays` |
| Crt.TermsSpec | src/aoc/tools.py:186-188 | the running sum is congruent to a_i modulo n_i once term i has been added, and to 0 before |
| Crt.TermsErrStays | src/aoc/tools.py:186-188 | once a term fails, the whole sum fails with that error |
| Crt.CrtResult | src/aoc/tools.py:179-189 | what `chinese_remainder_theorem(n, a)` returns or raises: the sum reduced modulo the product; it is the specification in the contracts of `Crt.ChineseRemainder` and `Crt.CrtSolves` |
| Crt.ChineseRemainder | src/aoc/tools.py:179-189 | the loop computes the fold of the terms, reduced modulo the product |
| Crt.CrtSolves | src/aoc/tools.py:179-189 | for pairwise-coprime positive moduli, the result lies in 0..prod-1 and is congruent to a_i modulo n_i for every i |
| TreeTraversal.Leaf | src/aoc/tools.py:27-30 | a new node holds its value and no children |
| TreeTraversal.AddChild | src/aoc/tools.py:32-33 | the child is appended after the existing children |
| TreeTraversal.PreOrder | src/aoc/tools.py:193-200 | the root, then each child's subtree in pre-order; its properties are the contracts of `TreeTraversal.PreOrderNodes` and `TreeTraversal.AddChildPreOrder` |
| TreeTraversal.PreOrderNodes | src/aoc/tools.py:193-200 | pre-order yields every node exactly once, the root first |
| TreeTraversal.PreOrderAllNodes | src/aoc/tools.py:199-200 | the children's pre-orders together yield every node below them exactly once |
| TreeTraversal.PostOrder | src/aoc/tools.py:202-209 | each child's subtree in post-order, then the root; its properties are the contracts of `TreeTraversal.PostOrderNodes` and `TreeTraversal.AddChildPostOrder` |
| TreeTraversal.PostOrderNodes | src/aoc/tools.py:202-209 | post-order yields every node exactly once, the root last |
| TreeTraversal.PostOrderAllNodes | src/aoc/tools.py:207-208 | the children's post-orders together yield every node below them exactly once |
| TreeTraversal.InOrder | src/aoc/tools.py:211-229 | a leaf alone; otherwise the first child's subtree, the root, then the other children's subtrees; its properties are the contracts of `TreeTraversal.InOrderNodes` and `TreeTraversal.InOrderRoot` |
| TreeTraversal.InOrderNodes | src/aoc/tools.py:211-229 | in-order yields every node exactly once |
| TreeTraversal.InOrderAllNodes | src/aoc/tools.py:228-229 | the children's in-orders together yield every node below them exactly once |
| TreeTraversal.InOrderRoot | src/aoc/tools.py:221-225 | an inner node comes right after the nodes of its first subtree |
| TreeTraversal.AddChildPreOrder | src/aoc/tools.py:193-200 | after `add_child`, the child's subtree comes last in pre-order |
| TreeTraversal.AddChildPostOrder | src/aoc/tools.py:202-209 | after `add_child`, the child's subtree comes just before the root in post-order |
| TreeTraversal.AddChildNodes | src/aoc/tools.py:32-33 | `add_child` adds exactly the child's nodes |
| Parsers.MapLeaves | src/aoc/parsers.py:20-26 | `_apply_to_elements`: the function applied to every leaf of nested lists and tuples, the first exception propagated; its properties are the contracts of `Parsers.MapLeavesOver` and `Parsers.MapLeavesError` |
| Parsers.MapLeavesOver | src/aoc/parsers.py:20-26 | `_apply_to_elements` succeeds with w exactly when w has the same shape as the data (lists stay lists, tuples stay tuples, same lengths), with the function's result at every leaf |
| Parsers.MapAllOver | src/aoc/parsers.py:22-25 | the same over a list of elements |
| Parsers.MapAllOk | src/aoc/parsers.py:22-25 | a successful map keeps the number of elements |
| Parsers.MapFlatList | src/aoc/parsers.py:22-23 | over a flat list, the result is the function applied to each element in turn |
| Parsers.MapLeavesError | src/aoc/parsers.py:20-26 | the map fails exactly when some leaf fails, and with the error of the first failing leaf |
| Parsers.MapAllError | src/aoc/parsers.py:22-25 | the same over a list of elements |
| Parsers.SplitLeaf | src/aoc/parsers.py:45 | `s.split(on)` succeeds exactly on a string with a non-empty separator, and gives the list of pieces |
| Parsers.StripLeaf | src/aoc/parsers.py:55 | `s.strip()` succeeds exactly on a string, and gives the stripped string |
| Parsers.IntLeaf | src/aoc/parsers.py:50 | `int(x)` keeps integers; on a string it succeeds exactly when the string parses, with the parsed value |
| Parsers.Chars | src/aoc/parsers.py:99 | `list(line)`: one one-character string per character |
| Parsers.GridLeaf | src/aoc/parsers.py:96-101 | the grid parser succeeds exactly on a string |
| Parsers.LinesOf | src/aoc/parsers.py:30-35 | `lines()` on the data: the non-empty lines of the stripped text, other data unchanged; its properties are the contracts of `Parsers.LinesSpec` and `Parsers.LinesBlocksKeepNonText` |
| Parsers.LinesSpec | src/aoc/parsers.py:30-35 | `lines()` on text yields exactly the non-empty lines of the stripped text, none with a line break |
| Parsers.BlocksOf | src/aoc/parsers.py:37-41 | `blocks()` on the data: the stripped text split on blank lines, other data unchanged; its properties are the contracts of `Parsers.BlocksSpec` and `Parsers.LinesBlocksKeepNonText` |
| Parsers.BlocksSpec | src/aoc/parsers.py:37-41 | `blocks()` yields at least one block, none containing a blank line, and joining them with "\n\n" gives back the stripped text |
| Parsers.LinesBlocksKeepNonText | src/aoc/parsers.py:30-41 | `lines()` and `blocks()` leave data that is not a string unchanged |
| Parsers.GridSpec | src/aoc/parsers.py:96-101 | the grid of a text has one row per line: the characters, or the pieces split on the delimiter |
| Parsers.InputParser.constructor | src/aoc/parsers.py:10-12 | a new parser holds the input text |
| Parsers.InputParser.Lines | src/aoc/parsers.py:30-35 | the data becomes its lines, and the parser itself is returned |
| Parsers.InputParser.Blocks | src/aoc/parsers.py:37-41 | the data becomes its blocks, and the parser itself is returned |
| Parsers.InputParser.Apply | src/aoc/parsers.py:78-81 | on success the data becomes the mapped data and the parser is returned; on failure the error is returned and the data is kept |
| Parsers.InputParser.Split | src/aoc/parsers.py:43-46 | `apply` with `split(on)` on every leaf |
| Parsers.InputParser.Strip | src/aoc/parsers.py:53-56 | `apply` with `strip()` on every leaf |
| Parsers.InputParser.ToInts | src/aoc/parsers.py:48-51 | `apply` with `int()` on every leaf |
| Parsers.InputParser.Get | src/aoc/parsers.py:85-87 | returns the data unchanged, and changes nothing |
| Parsers.InputParser.ToGrid | src/aoc/parsers.py:89-103 | the grid parser applied to every leaf, so block data gives one grid per block; the parser is unchanged |
| ParserFixtures.LinesExample | tests/test_parsers.py:22-29 | the sample's lines are its 8 non-empty lines: "1", "2", "3", "a,b,c", … |
| ParserFixtures.BlocksExample | tests/test_parsers.py:32-38 | the sample has the 3 blocks "1\n2\n3", "a,b,c\nd,e,f" and "#.#\n.#.\n###" |
| ParserFixtures.ToIntsExample | tests/test_parsers.py:41-46 | `to_ints()` on ["1", "2", "3"] gives [1, 2, 3] |
| ParserFixtures.LinesToIntsExample | tests/test_parsers.py:41-46 | `lines().to_ints()` on "1\n2\n3" gives [1, 2, 3] |
| ParserFixtures.StripExample | tests/test_parsers.py:49-55 | " a , b , c " strips to "a , b , c" |
| ParserFixtures.SplitExample | tests/test_parsers.py:49-55 | which splits on "," into "a ", " b " and " c" |
| ParserFixtures.StripEachExample | tests/test_parsers.py:49-55 | and strips to ["a", "b", "c"] |
| ParserFixtures.ToGridExample | tests/test_parsers.py:58-63 | "#.#\n.#." becomes the grid [["#", ".", "#"], [".", "#", "."]] |
| ParserFixtures.BlocksToGridExample | tests/test_parsers.py:66-72 | the sample's blocks become 3 grids, the last one the 3 × 3 grid of "#.#", ".#." and "###" |
| TestCommand.TrimmedIff | src/aoc/cli_commands/test.py:44-45 | a text is its own `strip()` exactly when it has no whitespace at either end |
| TestCommand.Removed | src/aoc/cli_commands/test.py:88 | `pop(i)` removes element i and keeps the order of the rest |
| TestCommand.RemovedMultiset | src/aoc/cli_commands/test.py:88 | `pop(i)` removes exactly one occurrence of element i |
| TestCommand.RemoveAppended | src/aoc/cli_commands/test.py:42-89 | deleting the last case undoes adding it |
| TestCommand.RemovedStripped | src/aoc/cli_commands/test.py:88 | deleting keeps every stored case stripped |
| TestCommand.NewCaseStripped | src/aoc/cli_commands/test.py:42-45 | a new case is stored stripped |
| TestCommand.Outputs | src/aoc/cli_commands/test.py:132-148 | one output per case, in order |
| TestCommand.Passed | src/aoc/cli_commands/test.py:145-150 | a run passes when it completed and its stripped output contains "✅ PASSED"; it is used by the contract of `TestCommand.TestStore.Run` |
| TestCommand.CountIf | src/aoc/cli_commands/test.py:132-150 | `passed_count`: how many runs pass; its properties are the contract of `TestCommand.CountIfBounds` |
| TestCommand.CountIfBounds | src/aoc/cli_commands/test.py:149-159 | the pass count is at most the number of cases, and equals it exactly when every case passed |
| TestCommand.DetectPart | src/aoc/cli_commands/test.py:101-116 | the `aoc.submit` match wins, and the `aoc.bind` match is used only when there is none |
| TestCommand.DetectPartFound | src/aoc/cli_commands/test.py:101-116 | a part is found exactly when one of the two searches matches |
| TestCommand.TestStore.constructor | src/aoc/cli_commands/test.py:28-47 | the store holds the two parts' cases; it is valid when they are all stripped, in particular when both are empty, as for a missing cache file |
| TestCommand.TestStore.Add | src/aoc/cli_commands/test.py:28-47 | no editor text aborts with nothing changed; otherwise the stripped case is appended to its part, and the other part is unchanged |
| TestCommand.TestStore.Delete | src/aoc/cli_commands/test.py:76-90 | succeeds exactly for a 1-based index in range, removing that case; otherwise nothing changes; the other part never changes |
| TestCommand.TestStore.List | src/aoc/cli_commands/test.py:51-70 | "No test cases found" exactly when both parts are empty; otherwise every case once, part 1 first, numbered from 1 |
| TestCommand.TestStore.Run | src/aoc/cli_commands/test.py:94-159 | a missing notepad, no detected part or no cases each give their message; otherwise the summary counts the passing cases, is at most the total, and is all-passed exactly when every case passed |
| TestCommand.Lifecycle | tests/test_cli_test.py:10-77 | a case added to an empty part 1 is listed as case 1, passes a run, and deleting it restores the store |
| TemplateCommand.FileNameInjective | src/aoc/cli_commands/template.py:25 | different names have different template files |
| TemplateCommand.ListedName | src/aoc/cli_commands/template.py:78-79 | the name listed for a template file with only the ".py.template" suffix removed (the corrected listing); its properties are the contract of `TemplateCommand.ListedNameOfFile` |
| TemplateCommand.ListedNameOfFile | src/aoc/cli_commands/template.py:78-79 | with only the ".py.template" suffix removed, every template is listed under its own name |
| TemplateCommand.ListedNameAsWritten | src/aoc/cli_commands/template.py:79 | `template_file.stem.replace('.py', '')` as written; its properties are the contracts of `TemplateCommand.ListedNameAsWrittenPlain`, `TemplateCommand.ListedNameAsWrittenMerges` and `TemplateCommand.ListedNameAsWrittenExample` |
| TemplateCommand.ListedNameAsWrittenPlain | src/aoc/cli_commands/template.py:79 | as written, a name without ".py" is listed unchanged |
| TemplateCommand.ListedNameAsWrittenMerges | src/aoc/cli_commands/template.py:79 | as written, a name `a.pyb` with no dots in a or b is listed as `ab` |
| TemplateCommand.ListedNameAsWrittenExample | src/aoc/cli_commands/template.py:79 | as written, "my.python" is listed as "mython" |
| TemplateCommand.DropPy | src/aoc/cli_commands/template.py:79 | removing ".py" from a dot-free name followed by ".py" gives the name |
| TemplateCommand.Lower | src/aoc/cli_commands/template.py:86 | `lower()` maps each character in turn |
| TemplateCommand.ProtectedNames | src/aoc/cli_commands/template.py:86-88 | "default" in any case is protected, and similar names are not |
| TemplateCommand.FileNamesCount | src/aoc/cli_commands/template.py:78 | there are as many template files as templates |
| TemplateCommand.TemplateStore.constructor | src/aoc/cli_commands/template.py:22-39 | the store holds the templates and the notepad |
| TemplateCommand.TemplateStore.Save | src/aoc/cli_commands/template.py:22-39 | an existing name without `--force` is refused with nothing changed; an unreadable notepad or a failing `write_text` is reported and leaves the templates as they were; otherwise the notepad is stored under the name, and no other template changes |
| TemplateCommand.TemplateStore.Load | src/aoc/cli_commands/template.py:47-67 | a missing name leaves the notepad unchanged; a declined confirmation over a non-blank notepad leaves it unchanged; a failing `read_text` or `write_text` is reported and leaves the notepad as it was; otherwise the notepad becomes the template |
| TemplateCommand.TemplateStore.Delete | src/aoc/cli_commands/template.py:84-103 | a protected name is refused before the lookup; a failing `unlink` is reported and keeps the template; it deletes exactly when the name is unprotected, present and confirmed and `unlink` succeeds, removing only that template; the protected template always survives |
| TemplateCommand.TemplateStore.List | src/aoc/cli_commands/template.py:71-79 | the no-templates message exactly when there are none; otherwise every template's name once, in the order of the file names (the corrected listing, with only the ".py.template" suffix removed) |
| TemplateCommand.Lifecycle | tests/test_cli_template.py:7-54 | a template saved, listed, loaded back over an edited notepad and deleted leaves the store as before, with the saved content in the notepad |
| StringOrder.Less | src/aoc/cli_commands/template.py:78 | Python's `<` on strings: code point by code point, a proper prefix first; its properties are the contracts of `StringOrder.LessIrreflexive`, `StringOrder.LessTransitive` and `StringOrder.LessTotal` |
| StringOrder.LessIrreflexive | src/aoc/cli_commands/template.py:78 | no string precedes itself |
| StringOrder.LessTransitive | src/aoc/cli_commands/template.py:78 | the string order is transitive |
| StringOrder.LessTotal | src/aoc/cli_commands/template.py:78 | any two different strings are ordered |
| StringOrder.Sorted | src/aoc/cli_commands/template.py:78 | `sorted` yields every key once, in ascending order |
| StringOrder.SortedDescending | env_src/aoc/stats_viewer.py:80 | `sorted(..., reverse=True)` yields every key once, in descending order |
| StatsViewer.DaysShown | env_src/aoc/stats_viewer.py:58 | `(width - 8) // 5` day columns; it is used by the contracts of `StatsViewer.MaxScroll`, `StatsViewer.VisibleDays` and `StatsViewer.LastColumnAtMaxScroll` |
| StatsViewer.MaxScroll | env_src/aoc/stats_viewer.py:58-62 | the largest first day is at least 1, and it is 1 or the first day that puts day 25 in the last column |
| StatsViewer.ScrolledLeft | env_src/aoc/stats_viewer.py:51-54 | scrolling left goes one day back, never below 1, and stays at 1 |
| StatsViewer.ScrolledRight | env_src/aoc/stats_viewer.py:56-66 | scrolling right goes one day on, never past the largest first day, and stays there |
| StatsViewer.RightThenLeft | env_src/aoc/stats_viewer.py:51-66 | while there is room, scrolling right then left comes back |
| StatsViewer.LeftThenRight | env_src/aoc/stats_viewer.py:51-66 | past day 1 and within the range, scrolling left then right comes back |
| StatsViewer.ScrollEnds | env_src/aoc/stats_viewer.py:51-66 | day 1 and the largest first day are fixed points of their scroll |
| StatsViewer.RightAfterResize | env_src/aoc/stats_viewer.py:56-66 | after the terminal grows, a right scroll moves back toward the new maximum |
| StatsViewer.VisibleDays | env_src/aoc/stats_viewer.py:73-78 | the columns are the consecutive days from the first visible day to `min(25, first + n - 1)` |
| StatsViewer.VisibleDaysBounds | env_src/aoc/stats_viewer.py:73-78 | no column comes before the first visible day or after day 25, and there are at most as many columns as fit |
| StatsViewer.LastColumnAtMaxScroll | env_src/aoc/stats_viewer.py:58-78 | scrolled fully right, a terminal that fits 1 to 25 days shows all it can, and its last column is day 25 |
| StatsViewer.StarsOn | env_src/aoc/stats_viewer.py:85 | `year_progress.get(str(day), 0)`; its properties are the contract of `StatsViewer.MissingDayBlank` |
| StatsViewer.Symbol | env_src/aoc/stats_viewer.py:86-91 | 2 stars give "★★", 1 gives "★ ", and anything else gives two spaces |
| StatsViewer.MissingDayBlank | env_src/aoc/stats_viewer.py:85-91 | a day missing from the record is shown blank |
| StatsViewer.Cells | env_src/aoc/stats_viewer.py:84-91 | one cell per visible day, with that day's symbol |
| StatsViewer.StatsApp.constructor | env_src/aoc/stats_viewer.py:27-30 | the viewer starts at day 1 |
| StatsViewer.StatsApp.ScrollLeft | env_src/aoc/stats_viewer.py:51-54 | the position becomes its left scroll, and stays at least 1 |
| StatsViewer.StatsApp.ScrollRight | env_src/aoc/stats_viewer.py:56-66 | the position becomes its right scroll, is at most the largest first day, and stays at least 1 |
| StatsViewer.StatsApp.BuildTable | env_src/aoc/stats_viewer.py:68-95 | the columns are the visible days, each one a day from 1 to 25 because the first visible day stays at least 1; there is one row per year, each year once, newest first; each row holds the year's cells |
| StatsViewer.DayColumns | env_src/aoc/stats_viewer.py:73-78 | the column loop yields exactly the visible days, and none when no day fits |
| StatsViewer.RowsOfYears | env_src/aoc/stats_viewer.py:80-93 | one row per sorted year gives every year of the record once, newest first, with its cells |

## Left out

- `get_instructions`, `get_input` and `get_input_parser` (src/aoc/__init__.py:43-70) are not modelled. They are thin wrappers around `get_aoc_data`, which is modelled.
- The functions that src/aoc/__init__.py calls in src/aoc/_utils.py are parameters or fields, because that file is not part of this model. They include reading and writing the context and progress files, posting answers, scraping day pages, reading settings and committing to git. The defaults of `auto_commit_on_bind` and `auto_clear_on_bind` are not visible and are taken as false.
- Aoc.Workspace.Submit: the answer is taken as the text `str(answer)` already gives; Python's `str` of arbitrary objects is not modelled.
- Aoc.IsBindLine: the bind regex is modelled line by line, and a matching line is emptied. Python's `\s*` can also consume line breaks, so blank lines around a bind call may differ. A call split across lines between `aoc.bind` and `(`, such as `aoc.bind` followed by a line `(part=1)`, is removed by the source, because the `\s*` there matches the line break under MULTILINE; the line-by-line model keeps both lines.
- `ruff format` is a parameter that returns the formatted text or fails; its failure leaves the notepad unformatted, as the source does. Exceptions from `read_text`, `mkdir` and `write_text` inside `bind` are not modelled. In `template save`, a failing `write_text` is modelled by the `writable` parameter; a failing `read_text` is the unreadable notepad. In `template load`, a failing `read_text` or `write_text` is modelled by the `writable` parameter, and in `template delete` a failing `unlink` by the `removable` parameter; the logged message itself is not modelled. An uncaught exception from reading the notepad in `template load`'s confirmation check is not modelled.
- `timed()` is not modelled: it depends on wall-clock floats and printing.
- The clock is a parameter: `LatestPuzzleDate` takes the UTC instant as a calendar date with an hour. `format_instructions` (HTML to text) and the HTTP fetch are parameters of `GetAocData`.
- tests/test_utils.py expects a two-digit day directory in the cache path, while env_src/aoc/_utils.py:38 uses `str(day)`. The model follows env_src/aoc/_utils.py.
- Regular expressions: `InputParser.extract`, `findall` and the part detection of `test run`. The two searches of `test run` are parameters; `extract` and `findall` are not modelled.
- `InputParser.to_numpy` is not modelled: it depends on numpy. `InputParser.__iter__` is not modelled either: it only iterates over the data.
- Parsers.IntLeaf: `int()` accepts an optional sign, decimal digits and surrounding whitespace. Underscores, other Unicode digits and other bases are not modelled.
- TemplateCommand.Lower: only ASCII letters are lowered; Python's `lower()` also lowers other Unicode letters.
- `shoelace_area` and `memoize` are not modelled: the first returns a float, and the second depends on closure identity and says nothing beyond calling its function.
- TreeTraversal: the `parent` field of `TreeNode` and the sharing of node objects are not modelled; trees are values.
- Intervals.MergeIntervals: it works on a sequence of pairs, not in place. The source sorts the caller's list and mutates its inner lists (aliasing), and the model does not capture that. Intervals with start after end are merged by the same rule as the source, and cover no points.
- GridTools.Grid.Cells requires a rectangular grid; iteration over ragged rows is not modelled.
- GridTools.Grid.constructor: the grid holds a value copy of the rows. In Python, `self.grid = grid_data` keeps the caller's list, so `grid[x, y] = v` is also visible through `grid_data` and later changes to `grid_data` are visible through the grid. That aliasing is not modelled; `Grid.Set` changes only the grid's own rows.
- GraphSearch.Bfs: the order among nodes at the same distance is not stated. The source yields them in the order their discoverers were yielded, then in adjacency order, and that fixes the exact sequence tests/test_tools.py:54-55 expects. The contract states the level order, which fixes everything except that tie order. Stating the tie order needs a second invariant that links each queued node to the node that discovered it.
- GraphSearch.Dfs: the exact visiting order (last pushed first, neighbours pushed in reverse) is not stated. The contract gives the start first, no repeats and exactly the reachable nodes.
- ShortestPath.Dijkstra: minimality is proved only for graphs whose weights are all non-negative. The source never checks the weights, and with a negative weight the model promises only a correct path. Ties in the heap are broken by position in the queue, not by Python's tuple comparison of nodes and paths, so which of several shortest paths comes back is not stated, and the exact path of tests/test_tools.py:92 is not derived. The source's `(float('inf'), [])` is `None`.
- Crt.CrtSolves: the result is proved correct for positive, pairwise-coprime moduli. For other inputs the model computes what the source computes, including the error of `pow`, without a correctness claim.
- TemplateCommand.TemplateStore.List: `any(iterdir())` sees any file in the templates directory, while the model sees only templates. The listing's formatting is left out.
- The output formatting of `test list` and `test run` (colours, `click.echo`) is left out; the model keeps the entries and counts. Running the notepad in a subprocess is the `execute` parameter.
- The Textual widgets, styles and key bindings of the statistics viewer are left out, and so are env_src/aoc/clear_viewer.py and src/aoc/cli.py.

## Findings

| source | as written | input that shows it | evidently intended | confidence | as-written member | corrected member |
|---|---|---|---|---|---|---|
| src/aoc/cli_commands/template.py:79 | `template list` prints `stem.replace('.py', '')`, which removes every ".py" in the name, not only the suffix | a template saved as `my.python` is listed as `mython` | list each template under the name it was saved with, by removing only the ".py.template" suffix | not executed | TemplateCommand.ListedNameAsWrittenExample | TemplateCommand.TemplateStore.List |
