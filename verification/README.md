# A verified model of the dbx4 engine's core

This project models, in Dafny, the components of the dbx4 database engine that carry its
hardest promises, and proves those promises for every input, every run and every reachable
state. Operations that change state are classes and loops, as in the source; each is proved
against a function on values, and what the component is for is proved about that function.

| files | component |
|---|---|
| `LogScan.dfy`, `Wal.dfy` | write-ahead log: byte codec, writer, two-pass recovery, crashes |
| `Graph.dfy` | graph engine: BFS, DFS, cost propagation |
| `Events.dfy` | event cascade: lineage, depth cap, queue, deliveries, cycle detector |
| `Lexing.dfy`, `Tokens.dfy`, `Lexer.dfy` | SQL lexer: the scanner as functions, what every kind of input lexes to, the cursor class |
| `Ordering.dfy`, `Queries.dfy`, `Updates.dfy`, `Answers.dfy` | ORDER BY comparator; SELECT, INSERT and DELETE; UPDATE; what each stores, answers and refuses |
| `Runs.dfy`, `Executor.dfy` | runs of statements and their constraints; the executor class |
| `Transactions.dfy` | transaction states and visibility, as a refinement of a ledger |
| `Mvcc.dfy` | row versions, snapshots and row locks |
| `Page.dfy`, `PageChecksum.dfy` | slotted page, its checksum, serialization |
| `Crc.dfy`, `CrcErrors.dfy` | the table-driven checksum class; which errors it sees |
| `Words.dfy`, `Linear.dfy` | 32-bit words and byte order; shift registers over XOR |
| `Folds.dfy`, `Options.dfy` | left folds; optional values |

`dafny verify dfyconfig.toml` checks the whole project.

## Main results

- **Crash safety.** However the log file is cut, recovery returns, in log order, exactly the
  DATA entries wholly inside the prefix whose transaction's last whole marker there is COMMIT
  (`Wal.CrashSafety`), for any self-delimiting codec (`LogScan.ScanCut`) and this one in
  particular (`Wal.WalIsCodec`).
- **Traversals.** BFS gives a shortest-hop spanning tree (`Graph.BfsSpans`); DFS gives the
  depth-first spanning tree, and there is only one (`Graph.DfsIsDepthFirst`,
  `Graph.DepthFirstIsUnique`), as BFS gives the breadth-first one (`Graph.BfsIsBreadthFirst`,
  `Graph.BreadthFirstIsUnique`); cost propagation adds up exactly the depth-first tree.
- **Lexer.** Lexing is compositional over newlines (`Lexing.LexComposes`), printing and lexing
  again gives the tokens back (`Lexing.PrintRoundTrip`), and the tokens that NUL-free input can
  produce are characterised exactly (`Lexing.LexableIff`). What each kind of word, number, string,
  comment and symbol lexes to is stated on the characters themselves (`Tokens.WordMeans` and the
  lemmas beside it).
- **Transactions.** The versioned store refines a ledger with one set of committed rows
  (`Transactions.VersionsRefineLedger`); isolation and atomic visibility follow.
- **Events.** The detector answers true exactly when a cycle is reachable, on any child graph
  (`Events.DetectsExactlyCycles`), and never does so after a run (`Events.RunsHaveNoCycles`);
  conservation of events, children and handler calls holds over every run.
- **Queries.** When the ORDER BY comparator is a strict weak order is decided exactly, for any keys
  and rows (`Ordering.WeakOrderIff`); SELECT then means what SQL says (`Queries.SelectMeans`), and
  pages concatenate (`Queries.PagesConcatenate`). Constraints survive every run of statements
  (`Runs.RunKeeps`), up to an UPDATE or DELETE that fails on rows characterised exactly, before
  it runs (`Updates.UpdateKeepsIff`, `Queries.DeleteKeepsIff`).
- **Storage.** A page refines an append-only list (`Page.PageRefinesList`); which corruptions
  each checksum sees is characterised exactly (`PageChecksum.ByteChangeUnseenIff`,
  `PageChecksum.CorruptionUnseenIff`, `CrcErrors.CollideIff`, `CrcErrors.BurstUndetectedIff`).

## What the code does not promise

Properties that turned out to hold only under a condition, with that condition:

- A log entry survives encoding exactly when its payload is shorter than 2^32 - 12 bytes, because
  `12 + len` is a 32-bit sum (`Wal.RoundTripIff`). Beyond it the decoder can read past its buffer
  or never advance; the model keeps both outcomes.
- Appending to a log after a crash is safe for every continuation exactly when the crash cut the
  file between two entries: the writer never truncates a torn tail (`Wal.ResumeSafeIff`,
  `Wal.LostContinuation`).
- A read at a snapshot is stable for ever exactly when the snapshot is below the current counter
  (`Mvcc.SnapshotStableIff`); a read at the counter can still change (`Mvcc.ReadCanChange`).
- The ORDER BY comparator leaves values of different types tied, so it is not always the strict weak
  order that `std::sort` asks for (`Ordering.MixedTypesBreakOrder`). It is one exactly when no row
  is straddled: wherever the first key that tells three rows apart puts a before b across a z of
  another type, the later keys put z after a or before b (`Ordering.WeakOrderIff`). For one key,
  and for any number of keys on rows whose key values may be exchanged, this says that each
  column is of one type or without differences (`Ordering.SingleKeyIff`, `Ordering.ColumnsIff`).
- UPDATE changes a row before validating it, and validates it against a table that already holds
  it. It succeeds exactly when it can get past every row, which depends on each row alone: it
  cannot get past one that with its assignments has a null in a NOT NULL column, or any value in a
  UNIQUE column, because that clashes with itself (`Updates.UpdateSucceedsIff`). It keeps the
  constraints exactly when it succeeds, or the clause does not hold on the first row that it cannot
  get past, or that row with its assignments has no null in NOT NULL and clashes with none of the
  rows that stay as they are (`Updates.UpdateKeepsIff`). `Updates.NullBreaksTable` is an UPDATE
  that does not.
- DELETE keeps the constraints, whatever the library leaves in moved-from rows, exactly when no
  error of the WHERE clause comes after a kept row was moved over a deleted one
  (`Queries.DeleteKeepsIff`). `Queries.RaisingDeleteBreaksTable` is a DELETE that does not.
- An error of the lexer stays whatever is written on further lines exactly when it is that of a whole
  token; an unterminated string, identifier or comment can still be ended (`Lexing.ErrorLastsIff`).
- The page checksum depends on the last 32 bytes of the page only (`PageChecksum.OnlyTheEndCounts`).
- The CRC constant, unreflected in a right-shifting loop, leaves a register of 29 effective bits:
  four zero bytes and 83 DE B8 3D are interchangeable anywhere (`CrcErrors.ZerosCollide`). The model
  claims no conformance to section 12.1 of RFC 3720.
- `delete_row` stores an ordinary version with empty data that is not marked deleted
  (`Mvcc.DeleteLeavesVersion`).
- `calculate_cost_propagation` on an unknown start files a node of cost 0 under it.

Where a comment and the code disagree, the code is modelled: `count_visible_rows` says it takes
the latest visible version, but stops at the oldest (src/transaction_correctness.cpp:102-106).

## Model

| member | source | states |
|---|---|---|
| `LogScan.Pass` | src/recovery_wal.cpp:101-136 | either loop of recover, on any bytes, ends as the scan of the file ends and leaves in its accumulator the fold of its step over exactly the scanned entries |
| `LogScan.WholeEntriesIsLargest` | src/recovery_wal.cpp:89-139 | the number of entries wholly inside a prefix is the largest n whose encodings fit in it |
| `LogScan.ScanWritten` | src/recovery_wal.cpp:101-118 | scanning written entries followed by anything sees exactly those entries, then what follows |
| `LogScan.CutFile` | src/recovery_wal.cpp:52-86 | a cut file is its whole entries followed by a strict prefix of the next, or nothing |
| `LogScan.ScanCut` | src/recovery_wal.cpp:101-118 | however the file is cut, the scan ends normally with exactly the whole entries |
| `LogScan.TornTailSwallows` | src/recovery_wal.cpp:103-118 | a continuation whose first entry cannot be read behind a torn tail is not read back |
| `Wal.DecodeEncoded` | src/recovery_wal.cpp:23-46 | an encoded entry followed by anything decodes to itself, consuming exactly its bytes |
| `Wal.RoundTripIff` | src/recovery_wal.cpp:27-45 | decode inverts encode if and only if the payload is below 2^32 - 12 bytes |
| `Wal.EncodeMeans` | src/recovery_wal.cpp:23-31 | the bytes of an entry, for every transaction, kind and length: two's complement and lowest byte first, then the payload |
| `Wal.EncodedEntries` | src/recovery_wal.cpp:23-31 | two whole entries in bytes, one of transaction -2 |
| `Wal.DecodeMeans` | src/recovery_wal.cpp:33-46 | what any bytes decode to, from the bytes themselves, the wrapped sum included |
| `Wal.DecodeTorn` | src/recovery_wal.cpp:33-41 | every strict prefix of an entry is refused as too short |
| `Wal.WalIsCodec` | src/recovery_wal.cpp:23-46 | the codec meets both demands of the log theory on all loggable entries |
| `Wal.WALManager.constructor` | src/recovery_wal.cpp:49 | an empty log and an empty map, consistent with each other |
| `Wal.WALManager.Append` | src/recovery_wal.cpp:52-86 | the encoded entry goes to the end of the file and its mark into the map, keeping both consistent with the log |
| `Wal.WALManager.WriteData` | src/recovery_wal.cpp:52-60 | appends one DATA entry, leaves the map alone, keeps consistency |
| `Wal.WALManager.WriteCommit` | src/recovery_wal.cpp:63-73 | appends one COMMIT entry, marks the transaction true, keeps consistency |
| `Wal.WALManager.WriteAbort` | src/recovery_wal.cpp:76-86 | appends one ABORT entry, marks the transaction false, keeps consistency |
| `Wal.WALManager.Recover` | src/recovery_wal.cpp:89-139 | on any file: how it ends, the recovered entries and the rebuilt map; after an undisturbed run the writer's own map and the committed data of the whole log |
| `Wal.MarksMean` | src/recovery_wal.cpp:111-115 | the first pass marks a transaction true exactly when its last marker is COMMIT |
| `Wal.KeptIsCommittedData` | src/recovery_wal.cpp:120-136 | the second pass collects, in order, exactly the DATA of transactions whose last marker is COMMIT |
| `Wal.CrashSafety` | src/recovery_wal.cpp:23-139 | for every log and every byte prefix, recovery ends normally with the DATA wholly inside whose last whole marker there is COMMIT |
| `Wal.FullRecovery` | src/recovery_wal.cpp:89-139 | on the uncut file every entry is seen and all committed data returned |
| `Wal.Durable` | src/recovery_wal.cpp:62-139 | once a COMMIT is whole in the file, every crash recovers each entry of its transaction that is whole in it, before or after the COMMIT, unless an ABORT that is whole in it follows the COMMIT |
| `Wal.ResumeSafeIff` | src/recovery_wal.cpp:52-60 | everything appended after a crash is read back, for every continuation, if and only if the cut fell between entries |
| `Wal.LostContinuation` | src/recovery_wal.cpp:33-46 | for every torn tail, a continuation that recovery does not read back |
| `Graph.EachTargetOnce` | src/advanced_features.cpp:342-352 | no node is the target of two recorded edges, nor is one known at the start |
| `Graph.SourceIsEarlier` | src/advanced_features.cpp:344-360 | each recorded edge leaves from the start or from an earlier target |
| `Graph.TreePathIsWalk` | src/advanced_features.cpp:344-360 | following sources back is a walk from the start |
| `Graph.DfsSpans` | src/advanced_features.cpp:368-376 | depth-first search records a spanning tree of exactly the reachable nodes |
| `Graph.DfsIsDepthFirst` | src/advanced_features.cpp:392-409 | every recorded edge is the first open edge of the most recently reached node that still has one |
| `Graph.DepthFirstIsUnique` | src/advanced_features.cpp:392-409 | two spanning trees in depth-first order are the same sequence of edges |
| `Graph.FollowEdges` | src/advanced_features.cpp:350-361 | the inner loop only adds nodes, each the target of one of the edges, and enqueues nothing if it adds none |
| `Graph.BfsRoundKeeps` | src/advanced_features.cpp:344-363 | one round keeps the queue layered by hops, with every earlier node's edges followed |
| `Graph.HopsAreShortest` | src/advanced_features.cpp:344-363 | when all edges have been followed, no walk is shorter than the recorded hops |
| `Graph.BfsSpans` | src/advanced_features.cpp:333-366 | breadth-first search records a spanning tree of exactly the reachable nodes along shortest walks |
| `Graph.BfsIsBreadthFirst` | src/advanced_features.cpp:342-363 | every recorded edge is the first open edge of the earliest reached node that still has one |
| `Graph.BreadthFirstIsUnique` | src/advanced_features.cpp:342-363 | two spanning trees in breadth-first order are the same sequence of edges |
| `Graph.TraversalsAgree` | src/advanced_features.cpp:333-376 | both traversals discover the same set of nodes |
| `Graph.SpanningPaths` | src/advanced_features.cpp:355-359 | in the recorded paths every reachable node but the start is a target exactly once, no other node is, and each source is the start or an earlier target |
| `Graph.GraphEngine.AddNode` | src/advanced_features.cpp:303-314 | files or replaces just that node, keeps the graph well-formed |
| `Graph.GraphEngine.AddEdge` | src/advanced_features.cpp:316-331 | accepted exactly when both ends exist; appends to the source's list only |
| `Graph.GraphEngine.BfsTraversal` | src/advanced_features.cpp:333-366 | terminates; the paths are those of the breadth-first, shortest-hop spanning tree |
| `Graph.GraphEngine.FollowAll` | src/advanced_features.cpp:350-361 | the inner loop's queue, visited set and paths |
| `Graph.GraphEngine.DfsTraversal` | src/advanced_features.cpp:368-376 | terminates; the paths are those of the depth-first spanning tree |
| `Graph.GraphEngine.DfsRecursive` | src/advanced_features.cpp:392-409 | from any visited set, terminates with the depth-first visit of the node |
| `Graph.GraphEngine.CalculateCostPropagation` | src/advanced_features.cpp:378-385 | along the paths that the depth-first traversal records there are running totals: the first is the cost of the start, each next adds the cost of the path's second node times the weight of its edge, and the last is the answer; 0 for an unknown start |
| `Graph.GraphEngine.PropagateCostRecursive` | src/advanced_features.cpp:411-423 | the same visit as the traversal's, charged edge by edge |
| `Events.RunKeeps` | src/advanced_features.cpp:174-241 | after every run: depths at most 15 and one more than the parent's; children exactly the events naming the parent; the cascade counter is the sum of child lists; the queue is the unprocessed events once each in id order; calls never repeated |
| `Events.RaiseMeans` | src/advanced_features.cpp:174-205 | in the arguments of the raise: refused under a stored parent of depth 15; else the event is stored as given and queued, under a stored parent one level deeper, behind the parent's children and counted as a cascade, otherwise at depth 0 with no other event changed |
| `Events.CascadeLimit` | src/advanced_features.cpp:185-193 | a run of sixteen raises reaches depth 15, and the next one under the last is refused |
| `Events.CallsInOrder` | src/advanced_features.cpp:231-235 | an event is given once to each handler of its type, in the order of registration |
| `Events.PendingIncreases` | src/advanced_features.cpp:202-203 | the queue is in the order of the identifiers |
| `Events.RaiseKeeps` | src/advanced_features.cpp:174-205 | raising an event, refused or stored, keeps all of that |
| `Events.ProcessKeeps` | src/advanced_features.cpp:219-241 | processing keeps it, empties the queue and changes stored events in nothing but marking them all processed |
| `Events.ProcessDelivers` | src/advanced_features.cpp:222-238 | from any state the new calls are exactly those of each queued event's type, in queue order and then handler order |
| `Events.OneParent` | src/advanced_features.cpp:190-200 | an event is in at most one child list, at one place, under an earlier event |
| `Events.DetectFinds` | src/advanced_features.cpp:243-261 | a positive answer comes with a chain that closes on itself or on the visited set |
| `Events.DetectMissesNothing` | src/advanced_features.cpp:243-261 | every closing chain makes the answer positive |
| `Events.DetectsExactlyCycles` | src/advanced_features.cpp:243-261 | from an empty visited set, true if and only if a cycle is reachable |
| `Events.LinksMean` | src/advanced_features.cpp:247-255 | the graph searched has each stored event's own children |
| `Events.RunsHaveNoCycles` | src/advanced_features.cpp:174-261 | after every run the detector answers false for every event |
| `Events.EventSystem.RaiseEvent` | src/advanced_features.cpp:174-205 | the new state, the returned id or 0 at the cap, the invariant kept |
| `Events.EventSystem.RegisterHandler` | src/advanced_features.cpp:207-217 | the new handler behind the old ones, its number returned, everything else unchanged, the invariant kept |
| `Events.EventSystem.ProcessEvents` | src/advanced_features.cpp:219-241 | the state after processing; queue empty, each event the same but for being processed, all processed, other fields unchanged |
| `Events.EventSystem.CallHandlers` | src/advanced_features.cpp:231-235 | calls every handler of the type once, in handler order |
| `Events.EventSystem.DetectCycle` | src/advanced_features.cpp:243-261 | terminates on any visited set and restores it when the answer is false |
| `Lexing.ScanExtends` | src/sql_lexer.cpp:11-16 | a following newline changes no token and no error of a whole token; a line comment at the end takes the newline |
| `Lexing.LexComposes` | src/sql_lexer.cpp:9-16 | tokenize(s1, newline, s2) is tokenize(s1) without its end marker followed by tokenize(s2), error of s2 included, each token at its place |
| `Lexing.ErrorLastsIff` | src/sql_lexer.cpp:11-16 | an error of s1 is the error of s1, newline, s2 for every s2 if and only if it is an invalid number or an unexpected character |
| `Lexing.ScanPrinted` | src/sql_lexer.cpp:12-15 | a printed token is read back as that token, up to the newline after it |
| `Lexing.PrintRoundTrip` | src/sql_lexer.cpp:12-16 | printing the tokens of any NUL-free input and lexing again gives the same types and values |
| `Lexing.LexableIff` | src/sql_lexer.cpp:12-16 | a type and text are produced by some NUL-free input if and only if they are lexable |
| `Lexing.ScanFront` | src/sql_lexer.cpp:16 | every scan that does not fail shortens the input |
| `Tokens.WordMeans` | src/sql_lexer.cpp:14 | a word, as far as it goes, is one token with its text; its type is that of the entry whose text it is with small letters made capital, else Identifier |
| `Tokens.KeywordAlone` | src/sql_lexer.cpp:14 | a word that matches an entry in any mixture of cases lexes to that entry's type |
| `Tokens.IdentifierAlone` | src/sql_lexer.cpp:14 | a word that matches no entry lexes to Identifier |
| `Tokens.SelectIsSelect` | src/sql_lexer.cpp:6-14 | SELECT in any mixture of cases lexes to the keyword SELECT |
| `Tokens.StatementEntries` | src/sql_lexer.cpp:6 | fifteen entries of the keyword table, word by word, SELECT to MODIFY |
| `Tokens.SchemaEntries` | src/sql_lexer.cpp:6 | the entries for constraints and indexes, word by word |
| `Tokens.ClauseEntries` | src/sql_lexer.cpp:6 | the entries for clauses and operators, word by word |
| `Tokens.JoinEntries` | src/sql_lexer.cpp:6 | the entries for joins, word by word |
| `Tokens.CaseEntries` | src/sql_lexer.cpp:6 | the entries for case expressions, aliases and directions, word by word |
| `Tokens.TypeEntries` | src/sql_lexer.cpp:6 | the entries for types, word by word |
| `Tokens.TableMeans` | src/sql_lexer.cpp:6 | the keyword table is the union of those six parts, each word with the type it has in its part |
| `Tokens.NumberMeans` | src/sql_lexer.cpp:13 | digits with at most one dot are one token; one that starts with a zero and goes on without a dot is an error |
| `Tokens.StringMeans` | src/sql_lexer.cpp:12 | a string is one token with what its characters and escapes stand for |
| `Tokens.OpenStringMeans` | src/sql_lexer.cpp:12 | a string without its closing quote is an error |
| `Tokens.QuotedMeans` | src/sql_lexer.cpp:16 | anything in double quotes is an identifier, without escapes |
| `Tokens.OpenQuotedMeans` | src/sql_lexer.cpp:16 | without the closing quote it is an error |
| `Tokens.LineCommentMeans` | src/sql_lexer.cpp:11 | a line comment is passed over through its newline |
| `Tokens.LastLineCommentMeans` | src/sql_lexer.cpp:11 | or up to the end of the input |
| `Tokens.BlockCommentMeans` | src/sql_lexer.cpp:11 | a block comment is passed over through its first closing |
| `Tokens.OpenCommentMeans` | src/sql_lexer.cpp:11 | a block comment without a closing is an error |
| `Tokens.SymbolMeans` | src/sql_lexer.cpp:15-16 | each operator and delimiter, the longest that the input allows, is a token of its own type |
| `Tokens.SpaceMeans` | src/sql_lexer.cpp:10 | the six space characters are passed over |
| `Tokens.UnexpectedMeans` | src/sql_lexer.cpp:16 | a character that starts no token is an error |
| `Tokens.EndMeans` | src/sql_lexer.cpp:16 | at the end, and at a NUL, there is only the end marker |
| `Lexer.SQLLexer.constructor` | src/sql_lexer.cpp:6-7 | the cursor at the start, with the keyword table |
| `Lexer.LineMeans` | src/sql_lexer.cpp:9 | the line is one more than the number of newlines before the place |
| `Lexer.ColumnMeans` | src/sql_lexer.cpp:9 | the column is the distance from the start of the line, counted from 1 |
| `Lexer.SQLLexer.Advance` | src/sql_lexer.cpp:9 | moves one character unless at the end, keeping line and column those of the offset |
| `Lexer.SQLLexer.SkipWhitespace` | src/sql_lexer.cpp:10 | stops before a non-space without changing what the rest lexes to |
| `Lexer.SQLLexer.SkipLineComment` | src/sql_lexer.cpp:11 | leaves what follows the next newline |
| `Lexer.SQLLexer.SkipBlockComment` | src/sql_lexer.cpp:11 | leaves what follows the closing, or reports that there is none |
| `Lexer.SQLLexer.ReadString` | src/sql_lexer.cpp:12 | the unescaped text and the rest, or failure at the end of input |
| `Lexer.SQLLexer.ReadQuoted` | src/sql_lexer.cpp:16 | the quoted identifier's text and the rest, or failure |
| `Lexer.SQLLexer.ReadNumber` | src/sql_lexer.cpp:13 | digits with at most one dot; a leading zero without a dot is refused |
| `Lexer.SQLLexer.ReadIdentifier` | src/sql_lexer.cpp:14 | the longest word, typed by the keyword table in upper case |
| `Lexer.SQLLexer.ReadComparison` | src/sql_lexer.cpp:15 | the longest of the comparison operators |
| `Lexer.SQLLexer.ReadFront` | src/sql_lexer.cpp:16 | one round of the loop does what the scan of the front says |
| `Lexer.SQLLexer.Tokenize` | src/sql_lexer.cpp:16 | the tokens of the whole input, each with the line and column of its first character, or the error |
| `Ordering.KeyLessMeans` | src/query_executor_engine.cpp:260-283 | a key ranks null first, numbers by size and strings as in the dictionary; DESC is the exact reverse |
| `Ordering.RowLessMeans` | src/query_executor_engine.cpp:253-286 | the keys rank rows lexicographically: the first key under which one row's own value comes before the other's decides |
| `Ordering.SingleKeyIff` | src/query_executor_engine.cpp:260-283 | on one key, a strict weak order if and only if the values are of one type or none differ |
| `Ordering.WeakOrderIff` | src/query_executor_engine.cpp:252-287 | for any keys and any rows, a strict weak order if and only if every three rows are settled: a row straddled on the first key that tells them apart is placed by the later keys |
| `Ordering.ComparatorIsWeakOrder` | src/query_executor_engine.cpp:252-287 | a strict weak order whenever each ORDER BY column of the rows is of one type or without differences |
| `Ordering.ColumnsIff` | src/query_executor_engine.cpp:252-287 | if and only if so, on rows that may exchange their values in the ORDER BY columns, for any number of keys |
| `Ordering.MixedTypesBreakOrder` | src/query_executor_engine.cpp:266-279 | with mixed types it need not be one: three concrete rows |
| `Ordering.CheckedSortIsStdSort` | src/query_executor_engine.cpp:252-287 | the promise asked of std::sort can be kept: a sorted permutation under every strict weak order, errors only where a comparison can raise one and wherever all do |
| `Queries.FilterMeans` | src/query_executor_engine.cpp:238-248 | filtering fails exactly when the clause fails on some row, and else keeps with multiplicity exactly the rows on which it holds |
| `Queries.FilterKeepsOrder` | src/query_executor_engine.cpp:238-248 | the kept rows are those at exactly the places where the clause holds, in table order |
| `Queries.WindowIsSlice` | src/query_executor_engine.cpp:290-298 | the loop bounds are drop-then-take; limit 0 is empty, a negative limit unlimited |
| `Queries.SelectMeans` | src/query_executor_engine.cpp:205-313 | if the comparator is a strict weak order on the rows that WHERE leaves, the answer's rows are, one by one, the rows of a sorted permutation of them behind the offset, as many as the limit allows, each with exactly the selected columns that its row has and that row's values; in table order without ORDER BY |
| `Queries.MissingKeyColumn` | src/query_executor_engine.cpp:250-258 | a missing ORDER BY column is an error for certain if it is the first and two rows remain, and never if no comparison can reach it |
| `Answers.StarMeans` | src/query_executor_engine.cpp:216-221 | an asterisk alone selects every column of the schema, in its order |
| `Answers.ColumnsMean` | src/query_executor_engine.cpp:216-234 | any other list selects the column names at exactly their places, in order, and fails exactly when one is unknown |
| `Answers.SelectErrors` | src/query_executor_engine.cpp:214-248 | an unknown selected column is the error before anything else, then the clause's first error |
| `Answers.FilterFails` | src/query_executor_engine.cpp:238-248 | a clause that fails reports the error of the first row on which it fails |
| `Queries.OnePage` | src/query_executor_engine.cpp:290-306 | a page is the slice of the unlimited answer |
| `Queries.PagesConcatenate` | src/query_executor_engine.cpp:290-306 | any number of successive pages concatenates to that much of the unlimited answer |
| `Queries.BuiltRowHasColumns` | src/query_executor_engine.cpp:139-188 | a new row has exactly the schema's columns |
| `Queries.BuiltRowMeans` | src/query_executor_engine.cpp:139-188 | under each given column stands its own literal converted, under any other the column's default or null |
| `Answers.BuildMeans` | src/query_executor_engine.cpp:133-173 | a row is built exactly when there are as many values as columns, each for a known column and a literal that converts, and every other column has a default or may be null; else the first thing wrong in that order is the error |
| `Answers.ValidatedMeans` | src/query_executor_engine.cpp:616-640 | a row is refused for a null in NOT NULL first, then for a printed non-null value that a stored row prints in a UNIQUE column |
| `Answers.InsertStores` | src/query_executor_engine.cpp:123-195 | behind the rows there were stand, unchanged, the rows built from the lists of values, each valid among those before it, up to the first list that cannot be built or validated, whose error is the answer |
| `Queries.InsertKeeps` | src/query_executor_engine.cpp:113-203 | INSERT, also when it fails part way, keeps the constraints and every stored row, and adds as many rows as it reports |
| `Queries.RemainingPlaces` | src/query_executor_engine.cpp:362-371 | DELETE leaves the rows at exactly the places where the clause does not hold, in order |
| `Queries.CompactedStands` | src/query_executor_engine.cpp:362-368 | at any moment of std::remove_if the kept rows stand in front in order and the rows not yet passed are untouched |
| `Queries.DeleteKeeps` | src/query_executor_engine.cpp:370-371 | leaving out the rows on which the clause holds keeps the constraints |
| `Queries.DeleteKeepsIff` | src/query_executor_engine.cpp:353-378 | DELETE keeps the constraints whatever moved-from rows are left as, if and only if no error of the clause interrupts the moving of rows |
| `Queries.RaisingDeleteBreaksTable` | src/query_executor_engine.cpp:362-371 | of three rows one is deleted, one kept and one raises an error: the table is left with an empty row |
| `Queries.DeleteComplementsFilter` | src/query_executor_engine.cpp:238-248 | what SELECT finds and what DELETE leaves are together the rows there were |
| `Answers.DeleteLeaves` | src/query_executor_engine.cpp:362-371 | without an error exactly the rows on which the clause does not hold are left, in order; after one, the failing row and all behind it stand untouched and in front the rows before it on which the clause does not hold |
| `Answers.DeleteAnswers` | src/query_executor_engine.cpp:353-378 | the answer is the number of rows that SELECT with the clause finds, or the same error |
| `Updates.AssignMeans` | src/query_executor_engine.cpp:332-340 | each column holds the last value assigned to it, computed on the row as the earlier assignments left it; other columns are as they were |
| `Updates.UpdateMeans` | src/query_executor_engine.cpp:315-351 | only rows on which the clause holds change, none behind the failing one; on success all of them hold their assignments and the count is theirs |
| `Updates.ReplaceKeepsIff` | src/query_executor_engine.cpp:342 | replacing a row keeps the constraints if and only if the new row has no null in NOT NULL and clashes with no other |
| `Updates.StopsIff` | src/query_executor_engine.cpp:325-344 | whether a round fails depends on its row alone: an error of the clause or the assignments, a null in NOT NULL, or any value in UNIQUE |
| `Updates.UpdateSucceedsIff` | src/query_executor_engine.cpp:315-351 | UPDATE succeeds if and only if it can get past every row of the table as it was |
| `Updates.FailedUpdateMeans` | src/query_executor_engine.cpp:325-344 | a failing UPDATE leaves assignments in the rows on which the clause holds up to the first that it cannot get past, that one included, and no other change |
| `Updates.UpdateKeepsIff` | src/query_executor_engine.cpp:315-351 | UPDATE keeps the constraints if and only if the rows before it say so: it gets past all, or the first that it cannot get past is not assigned, or is left without a null in NOT NULL and without a clash with an unassigned row |
| `Updates.UniqueNeverUpdates` | src/query_executor_engine.cpp:342 | an UPDATE of a row whose value in a UNIQUE column is then not null always fails |
| `Updates.NullBreaksTable` | src/query_executor_engine.cpp:337-342 | SET c = NULL on one row with NOT NULL c reports an error and leaves the null |
| `Answers.AssignFails` | src/query_executor_engine.cpp:332-340 | assignments fail exactly at the first with an unknown column or a failing expression, leaving the row as it is then |
| `Answers.StopErrorMeans` | src/query_executor_engine.cpp:325-344 | the error of a round is the clause's, the assignments' or the broken constraint's, in that order |
| `Answers.UpdateAnswers` | src/query_executor_engine.cpp:315-351 | the answer is the reason of the first row that cannot be got past, or the number of rows that SELECT with the clause finds |
| `Runs.ApplyKeeps` | src/query_executor_engine.cpp:95-378 | every statement that is clean on the tables before it, failed or not, keeps the constraints of every table |
| `Runs.RunKeeps` | src/query_executor_engine.cpp:17-378 | at every point of every run of clean statements: exactly the schema's columns, no null in NOT NULL, no shared non-null printed value in UNIQUE |
| `Answers.SchemaMeans` | src/query_executor_engine.cpp:30-42 | the three name sets of a schema, read from the column definitions |
| `Answers.TableOkMeans` | src/query_executor_engine.cpp:616-640 | the constraints kept over runs, spelled out on column definitions and rows |
| `Answers.ApplyMeans` | src/query_executor_engine.cpp:95-378 | a statement adds its table or changes the rows of the one it names, and nothing else |
| `Executor.QueryExecutor.ExecuteCreateTable` | src/query_executor_engine.cpp:95-111 | refused for an empty name, no columns or a known table, each with its error; else the table with its schema and no rows is added; constraints kept |
| `Executor.QueryExecutor.BuildSchema` | src/query_executor_engine.cpp:30-42 | the loop's three sets are those of the column definitions |
| `Executor.QueryExecutor.ExecuteInsert` | src/query_executor_engine.cpp:113-203 | the table and the answer after the statement, partial failure included; constraints kept |
| `Executor.QueryExecutor.InsertLoop` | src/query_executor_engine.cpp:123-195 | the loop over the lists of values: the rows before a failing one stay, and its error is the answer |
| `Executor.QueryExecutor.FillNamed` | src/query_executor_engine.cpp:141-159 | the loop over the given columns, with its first error |
| `Executor.QueryExecutor.FillDefaults` | src/query_executor_engine.cpp:162-173 | the loop over the missing columns, with its first error |
| `Executor.QueryExecutor.ValidateRow` | src/query_executor_engine.cpp:616-640 | refuses a row exactly for a null in NOT NULL or a printed non-null value already in UNIQUE |
| `Executor.QueryExecutor.ExecuteSelect` | src/query_executor_engine.cpp:205-313 | the answer or the error, leaving the tables as they are |
| `Executor.QueryExecutor.FilterLoop` | src/query_executor_engine.cpp:238-248 | the filtering loop stops at the clause's first error, else returns the filtered rows |
| `Executor.QueryExecutor.SliceLoop` | src/query_executor_engine.cpp:298-306 | the projected rows of the window, for any start and end |
| `Executor.QueryExecutor.SliceRows` | src/query_executor_engine.cpp:290-306 | the start and end that LIMIT and OFFSET give, negative ones and limit 0 included |
| `Executor.QueryExecutor.ExecuteUpdate` | src/query_executor_engine.cpp:315-351 | the table and the answer after the statement, failed or not; the constraints hold after it if and only if it is clean |
| `Executor.QueryExecutor.UpdateLoop` | src/query_executor_engine.cpp:325-344 | the loop over the rows up to the first error |
| `Executor.QueryExecutor.AssignLoop` | src/query_executor_engine.cpp:332-340 | the loop over the assignments up to the first error, with the row as it is then |
| `Executor.QueryExecutor.ExecuteDelete` | src/query_executor_engine.cpp:353-378 | the table and the answer after the statement, also when the clause raises an error; constraints kept if it is clean |
| `Executor.QueryExecutor.RemoveIf` | src/query_executor_engine.cpp:362-371 | the rows left and the number erased, or the half-compacted vector and the clause's first error |
| `Executor.QueryExecutor.Compact` | src/query_executor_engine.cpp:362-368 | the loop of std::remove_if, moving rows in place up to the first error |
| `Transactions.RunKeeps` | src/transaction_correctness.cpp:16-154 | over every interleaving each ACTIVE version's creator is active with that row in its write set, and each row in a write set holds an ACTIVE version of its transaction |
| `Transactions.CommitSucceedsIff` | src/transaction_correctness.cpp:16-32 | in every reachable state commit succeeds if and only if the transaction is active |
| `Transactions.EndsEveryVersion` | src/transaction_correctness.cpp:16-90 | commit and rollback succeed exactly for active transactions; they move every ACTIVE version of the transaction, wherever it is, to COMMITTED or ABORTED, change nothing else of any version and remove the transaction; refused they change nothing |
| `Transactions.InsertStores` | src/transaction_correctness.cpp:128-154 | an insert puts one ACTIVE version with the data behind the row's versions and the row into the write set; every other row's versions stay |
| `Transactions.InsertIsSeen` | src/transaction_correctness.cpp:128-154 | its transaction sees the inserted row at once, any other reader what it saw before |
| `Transactions.VisibleMeans` | include/dbx4/transaction_state.h:28-43 | a row is seen exactly when a version not marked deleted is COMMITTED, or ACTIVE and the reader's own |
| `Transactions.FinalStatesAreFinal` | src/transaction_correctness.cpp:34-83 | over every run versions stay in place with data and creator, and committed or aborted ones never change |
| `Transactions.VisibleIsShown` | include/dbx4/transaction_state.h:28-43 | a reader sees a row exactly when it is committed or pending for the reader |
| `Transactions.VersionsRefineLedger` | src/transaction_correctness.cpp:16-154 | after every interleaving every reader sees in every table exactly what a ledger of committed and pending rows shows |
| `Transactions.Isolation` | src/transaction_correctness.cpp:60-154 | begin by anyone, and insert or rollback by another, never change what a reader sees |
| `Transactions.AtomicCommit` | src/transaction_correctness.cpp:16-57 | commit changes every reader's visible set to its old set plus the whole write set, in one step |
| `Transactions.RollbackForgets` | src/transaction_correctness.cpp:60-90 | after rollback a transaction sees what a stranger sees |
| `Transactions.FlipVersionsLoop` | src/transaction_correctness.cpp:39-43 | moves exactly the transaction's own active versions to the final state |
| `Transactions.FlipRowsLoop` | src/transaction_correctness.cpp:37-45 | does so in the written rows, leaving the others |
| `Transactions.FlipTablesLoop` | src/transaction_correctness.cpp:35-46 | does so in the written tables, leaving the others |
| `Transactions.TransactionStore.BeginTransaction` | src/transaction_correctness.cpp:115-125 | a fresh identifier, active with an empty write set; tables and other transactions unchanged; invariant kept |
| `Transactions.TransactionStore.InsertInTx` | src/transaction_correctness.cpp:128-154 | appends one ACTIVE version and records the row, or nothing if the transaction is not active; invariant kept |
| `Transactions.TransactionStore.CommitTransaction` | src/transaction_correctness.cpp:16-57 | success if and only if active; then every ACTIVE version of the transaction is COMMITTED, else nothing changes; invariant kept |
| `Transactions.TransactionStore.RollbackTransaction` | src/transaction_correctness.cpp:60-90 | success if and only if active; then every ACTIVE version of the transaction is ABORTED, else nothing changes; invariant kept |
| `Transactions.TransactionStore.CountVisibleRows` | src/transaction_correctness.cpp:93-112 | the size of the reader's visible set |
| `Transactions.TransactionStore.SeesRow` | src/transaction_correctness.cpp:103-108 | whether some version of the row is visible and not deleted |
| `Mvcc.RunKeeps` | src/mvcc_locks.cpp:149-183 | over every run stamps never decrease along a row and stay at most the counter, ids increase, and a row's lock set has at most one member |
| `Mvcc.ReadsNewest` | src/mvcc_locks.cpp:84-95 | after every run a read finds the newest version with the greatest stamp not exceeding the snapshot, and nothing only if there is none |
| `Mvcc.ReadsStay` | src/mvcc_locks.cpp:84-95 | below the counter no later run changes the answer |
| `Mvcc.ReadCanChange` | src/mvcc_locks.cpp:167-171 | at or above the counter some run changes it |
| `Mvcc.SnapshotStableIff` | src/mvcc_locks.cpp:77-95 | the answer is fixed for every later run if and only if the snapshot is below the counter |
| `Mvcc.DeleteLeavesVersion` | src/mvcc_locks.cpp:172-177 | a successful delete leaves a readable, unmarked version with empty data |
| `Mvcc.WriteIsRead` | src/mvcc_locks.cpp:77-95 | after a write by the holder of the lock, every read at the counter or above finds exactly the version written; reads of other rows, locks and counter are as before |
| `Mvcc.RefusedWrites` | src/mvcc_locks.cpp:167-177 | without the lock a write and a delete change nothing |
| `Mvcc.IncrementMoves` | src/mvcc_locks.cpp:158 | the counter grows by one and nothing else changes |
| `Mvcc.AcquireTakes` | src/mvcc_locks.cpp:120-126 | a free row is given to whoever asks and then to nobody; other locks and all versions stay |
| `Mvcc.ReleaseFrees` | src/mvcc_locks.cpp:127-134 | released by its holder a row can be acquired by anyone; released by anyone else it stays locked |
| `Mvcc.LockLeaves` | src/mvcc_locks.cpp:127-134 | a lock that goes away was released by its holder, leaving none |
| `Mvcc.LockArrives` | src/mvcc_locks.cpp:120-126 | a lock that appears was successfully acquired |
| `Mvcc.LockDiscipline` | src/mvcc_locks.cpp:120-179 | successful writes are by the sole holder, and two by different transactions are separated by a release of the first and a later acquire of the second |
| `Mvcc.MVCCCoordinator.IncrementVersion` | src/mvcc_locks.cpp:158 | the counter moves by one, nothing else; invariant kept |
| `Mvcc.MVCCCoordinator.IsLocked` | src/mvcc_locks.cpp:135-140 | whether the transaction holds the row's lock |
| `Mvcc.MVCCCoordinator.WriteRow` | src/mvcc_locks.cpp:167-171 | succeeds exactly for the sole holder and appends one version with the next id, the counter's stamp and the data |
| `Mvcc.MVCCCoordinator.DeleteRow` | src/mvcc_locks.cpp:172-177 | succeeds exactly for the sole holder and appends one such version with empty data |
| `Mvcc.MVCCCoordinator.AcquireLock` | src/mvcc_locks.cpp:178 | succeeds exactly when nobody holds the lock, and then the caller does |
| `Mvcc.MVCCCoordinator.ReleaseLock` | src/mvcc_locks.cpp:127-134 | removes just that holder; invariant kept |
| `Mvcc.MVCCCoordinator.FindVersion` | src/mvcc_locks.cpp:84-95 | the scanning loop returns the last version at most the snapshot |
| `Page.ReadsHeldRows` | src/storage_complete.cpp:91-98 | read_row returns exactly the held rows and refuses every other index |
| `Page.PutAllRanges` | src/storage_complete.cpp:75-85 | slot, payload and header writes do not overlap one another or what earlier inserts wrote |
| `Page.InsertAppends` | src/storage_complete.cpp:70-88 | an accepted insert appends the row to those the page holds |
| `Page.TryInsertRefines` | src/storage_complete.cpp:70-88 | an attempt is accepted exactly when fewer than 256 rows are held and the payload fits in 5888 bytes |
| `Page.PageRefinesList` | src/storage_complete.cpp:70-98 | after any attempts read_row(i) is the i-th accepted row |
| `Page.HoldsMeans` | src/storage_complete.cpp:9-27 | where a page keeps its rows, byte by byte: counters at 8 and 10, slots of 8 bytes from 256, payloads from 2304; at most 256 rows and 5888 bytes |
| `Page.AcceptsIff` | src/storage_complete.cpp:70-73 | a row is accepted if and only if fewer than 256 are held and the payloads stay within 5888 bytes |
| `Page.ReadMeans` | src/storage_complete.cpp:91-98 | what read_row gives on any page, from the page's bytes |
| `Page.InsertLeaves` | src/storage_complete.cpp:75-85 | every byte outside the two counters, the new slot and the new payload stays, page number, type and checksum field included |
| `Page.ReservedIsZero` | src/storage_complete.cpp:75-78 | the reserved field of a new slot is zero |
| `PageChecksum.OnlyTheEndCounts` | src/storage_complete.cpp:45-57 | pages agreeing on their last 32 bytes have equal checksums |
| `PageChecksum.ByteChangeUnseenIff` | src/storage_complete.cpp:45-57 | a single-byte change of an accepted page goes unseen if and only if its changed bits are shifted out before the end |
| `PageChecksum.LateChangeDetected` | src/storage_complete.cpp:109-120 | any change of one of the last 25 bytes is detected |
| `PageChecksum.ChecksumChangeDetected` | src/storage_complete.cpp:109-120 | any change of the stored checksum is detected |
| `PageChecksum.PageSumLinear` | src/storage_complete.cpp:45-57 | the checksum of an XOR of pages is the XOR of the checksums |
| `PageChecksum.OneByteSum` | src/storage_complete.cpp:45-57 | the checksum of a page with a single byte, bit by bit: the byte moved up by its distance from the end, nothing for the checksum field |
| `PageChecksum.CorruptionUnseenIff` | src/storage_complete.cpp:109-120 | whatever is XORed into an accepted page goes unseen if and only if it would itself be accepted |
| `PageChecksum.SerializeRoundTrip` | src/storage_complete.cpp:101-120 | any serialized page is accepted, keeps every read and every held row, and serializes to the same bytes again |
| `PageChecksum.SerializedMeans` | src/storage_complete.cpp:101-120 | the sum stands in bytes 12 to 16 of a serialized page, zeros after reading back; every other byte is the page's own |
| `PageChecksum.FreshMeans` | src/storage_complete.cpp:60-67 | a fresh page is its number and type 1 in four bytes each, lowest first, and zeros |
| `PageChecksum.StoragePage.constructor` | src/storage_complete.cpp:60-67 | a numbered page that holds no rows |
| `PageChecksum.StoragePage.InsertRow` | src/storage_complete.cpp:70-88 | the bytes after the attempt; the held rows are those the list accepts |
| `PageChecksum.StoragePage.StoreRow` | src/storage_complete.cpp:75-85 | the four writes, and no other byte |
| `PageChecksum.StoragePage.ReadRow` | src/storage_complete.cpp:91-98 | the i-th held row, or none; reads outside the page are told apart |
| `PageChecksum.StoragePage.ComputeChecksum` | src/storage_complete.cpp:45-57 | the loop computes the shift-and-XOR sum of all bytes but the checksum field |
| `PageChecksum.StoragePage.Serialize` | src/storage_complete.cpp:101-106 | returns and keeps the page with its checksum filled in |
| `PageChecksum.StoragePage.Deserialize` | src/storage_complete.cpp:109-120 | refuses other sizes untouched; else answers whether the checksum fits and takes the bytes with the field cleared |
| `Crc.ShiftByteSplits` | src/storage_engine_production.cpp:190 | eight shifts are a table lookup on the low byte XOR a plain move |
| `Crc.TableEntry` | src/storage_engine_production.cpp:174-181 | entry b is what byte b shifts out to |
| `Crc.ShiftMeans` | src/storage_engine_production.cpp:177-178 | one shift bit by bit: each bit takes the next higher one, XORed with the constant's if the outgoing bit is set; a byte is eight of them |
| `Crc.ChecksumMeans` | src/storage_engine_production.cpp:186-193 | the checksum of nothing is 0; one more byte undoes the inversion, is mixed in, shifted out, and inverted again |
| `Crc.OnesChecksum` | src/storage_engine_production.cpp:186-193 | the byte FF has checksum FF000000 |
| `Crc.SevenBitsChecksum` | src/storage_engine_production.cpp:186-193 | the byte 7F has checksum E1DC6F41: the constant with its top byte inverted |
| `Words.ShiftMeans` | src/storage_engine_production.cpp:177-190 | the word operations << and >>, bit by bit |
| `Words.ByteOfBits` | src/storage_engine_production.cpp:189-190 | which bits a byte has when it is widened to a word |
| `CrcErrors.VanishesWithinThree` | src/storage_engine_production.cpp:177-178 | a register difference that survives three shifts survives any number |
| `CrcErrors.WindowIsWord` | src/storage_engine_production.cpp:189-191 | feeding up to four bytes is mixing them in as one word and shifting them out |
| `CrcErrors.CollideIff` | src/storage_engine_production.cpp:186-193 | two messages of one length have the same checksum if and only if their XOR leads a register that starts at zero back to zero |
| `CrcErrors.BurstUndetectedIff` | src/storage_engine_production.cpp:186-193 | a change within four adjacent bytes goes unseen if and only if its difference dies in three shifts, whatever surrounds it |
| `CrcErrors.ShortBurstDetected` | src/storage_engine_production.cpp:186-193 | every change of up to three adjacent bytes is seen |
| `CrcErrors.UnseenBurst` | src/storage_engine_production.cpp:186-193 | a four-byte difference that is never seen, in any message |
| `CrcErrors.ZerosCollide` | src/storage_engine_production.cpp:186-193 | 00 00 00 00 and 83 DE B8 3D are interchangeable anywhere |
| `CrcErrors.PolyIsTheConstant` | src/storage_engine_production.cpp:51 | the modelled constant has the bytes of 0x1EDC6F41 |
| `Crc.CRC32C.Initialize` | src/storage_engine_production.cpp:172-184 | fills the whole table, once |
| `Crc.CRC32C.ShiftOut` | src/storage_engine_production.cpp:175-179 | the inner loop does eight shifts |
| `Crc.CRC32C.Calculate` | src/storage_engine_production.cpp:186-193 | the byte-at-a-time result is the bit-at-a-time checksum, for every byte string |
| `Crc.CRC32C.Consume` | src/storage_engine_production.cpp:190 | one table lookup does eight shifts of the register mixed with the byte |
| `Crc.CRC32C.Verify` | src/storage_engine_production.cpp:195-197 | answers whether the bit-at-a-time checksum is the expected one |

## Left out

- Executor.QueryExecutor.ExecuteDelete: `std::remove_if` is taken to pass the rows once from front to back, moving each kept row once there is a gap; what a moved-from row is left as is any function.
- Runs.RunKeeps: holds up to the first statement that is not clean; after one that is not, `Updates.UpdateKeepsIff` and `Queries.DeleteKeepsIff` say that the constraints do not, or need not, hold.
- Queries.SelectMeans: asks for an offset of at least 0, because a negative one indexes below the rows, and for a comparator that is a strict weak order and raises no error, without which `std::sort` promises nothing.
- Executor.QueryExecutor.ExecuteSelect: `std::sort` is any function that keeps its promise; which pairs it compares, and so whether it meets a missing column behind the first key, is left open.
- Transactions.RollbackForgets: the stranger is a reader without an active transaction of its own.
- Events.RunKeeps: the depth of an event without a stored parent, unassigned in the source, is taken to be 0; handlers raise no events, since `process_events` holds the lock; `triggering_txn` and `timestamp` are not modelled.
- Lexing.PrintRoundTrip: input is NUL-free, because NUL doubles as the end-of-input marker; character classes are those of ASCII in the C locale.
- PRIMARY KEY, which is never checked, and DISTINCT, which the executor ignores.
- The expression and WHERE evaluators, `convert_to_type` and `Value::to_string`: the results hold for any functions in their places.
- Overflow of counters and of `offset + limit`, and narrowing of sizes to `int`: integers are unbounded except where the width is written out (log entries, pages, checksums).
- Floating-point rounding: doubles are real numbers.
- Files, streams, clocks, mutexes, logging and error message texts: files are byte sequences and locked methods atomic steps; byte order is little-endian.
- Reading through the coordinator (`read_row`) and `SnapshotManager`: the coordinator never creates a snapshot; `delete_version` and lock waiters, which the coordinator never uses.
- `verify()` on a page: after `deserialize()` the stored checksum is cleared.
- `Page` and `BufferPool` of src/storage_engine_production.cpp: no insert into that page can succeed.
- `TraversalPath`'s total cost and profit, which are never assigned, and node attributes.
- `DeclaredIntentTable`, `SchemaManager`, the parser stubs, the simpler codecs, indexing and monitoring: they would add only easy members.
