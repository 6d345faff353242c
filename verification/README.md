# tibero_fdw, modelled and proved in Dafny

tibero_fdw lets PostgreSQL read tables that live on a Tibero server. This project models the parts of it where a
mistake would silently change answers, leak a remote transaction or crash a backend, and proves what they promise.

**The push-down pipeline.** `Shippability` is the stateful walk that decides which WHERE clauses may run remotely;
`Classification` sorts clauses with it, once at size estimation and again at planning. `RemoteText` says what text each
part of the remote statement is meant to have, `Deparser` writes it into a buffer while counting parentheses
(`ParenScan` counts them independently in the finished text), and `TimeText` does the dates, times and zone offsets.
`SqlText` and `SqlGrammar` are a lexer and a parser for the printed language, written independently of the printer;
`RoundTrip` shows that they recover exactly what was meant. `Evaluation` gives clauses and statements a three-valued
meaning on both sides, `Pushdown` shows when the two meanings agree, `TupleLayout` and `EndToEnd` follow a row through
the select list and back, `StatementMeaning` says in the catalog's own terms what the statement asks of the server, and
`Planner` states the result: the printed statement, read and run by a server, decoded and
filtered locally, returns the rows that all the clauses select from the full table.

**The batched scan.** `ColumnBuffers` are the flat per-column buffers the driver fills, `TupleBuilder` turns a block
into tuples in arrays reused from row to row, `ScanCursor` is the scan state machine against a driver that cuts its
result into arbitrary blocks and may fail at any call.

`ForeignScan` joins the two halves: a plan carried out through the scan returns what its theorem promises.

**The connection cache.** `ConnectionState` holds the cached entries together with a history of every remote session
they ever had, and shows that each single step keeps them consistent. `TransactionEnd` says what the end of a local
transaction owes to any number of connections. `ConnectionCache` is the code itself - getting a statement with one
retry, invalidation, commit and abort callbacks - where every driver call may fail and throw.

**Options.** `OptionValidator` is the table-driven validator; `AppliedOptions` reads accepted options back, which
discharges the assertion on the connection strings and the batch size the scan relies on.

Objects that the source updates in place are classes, its loops are loops. Errors that the source raises are values
(`Result`, `Outcome`, `Verdict`, `Slot.Raised`). A hash table scan takes its order as a parameter, so every theorem
about a scan holds for every order.

What is assumed:

- On the operands that the rows of the table give it, each operation of a shipped clause means on the server, as it is
  printed, what it means locally (`Pushdown.SameOperations`). Nothing is assumed of other operators or other operands,
  so operators of one name may differ locally; the server tells them apart by their operands as written.
  `Pushdown.AgreementPossible` shows that the assumption can be met whatever the local operators mean, unless two
  different operations of the clauses are printed alike. Whether a given server meets it - one that divides integers
  exactly does not on `7 / 2` - is a fact about that server.
- Tibero reads the printed language as `SqlGrammar` does, an empty string being a null, and dates and times by the
  templates sent along: `TimeText.ReadTemplate` interprets whatever template the text carries, element by element
  (SYYYY, MM, DD, HH24, MI, SS, FF, TZH, TZM, other characters standing for themselves), with two liberties: a blank of
  the template need not be in the text, and an hour of TZH may have any number of digits.
- A catalog row's key always has the same hash (`hashValue`, for `GetSysCacheHashValue1`), and an invalidation carries
  the hash of the key it is about, or 0.
- The driver reports 0 rows at the end of the data (ODBC API Reference, SQLFetch Function, section "Rows Fetched
  Buffer"); quotes are doubled inside literals (section 5.3 of ISO/IEC 9075-2).
- PostgreSQL's `quote_identifier`, `contain_mutable_functions`, `pull_varattnos`, `parse_int` and `parse_bool` behave as
  written in `RemoteText`, `PgNodes`, `Evaluation` and `AppliedOptions`.

## Departures from what one would expect

The model follows the code in each of these.

- Some constants are printed as something else: an empty string as `NULL`; a numeric NaN or infinity bare, which reads
  as a name; a date or time whose year is not in 1..9999 in a form that `SYYYY` - a sign and four digits, no year 0, -N
  for N BC - does not match or reads as another year; and a zone offset that is not a whole minute, or lies in the first
  hour west of UTC, as another offset. `Pushdown.MeaningKeptExactly` shows that among the constant types with a
  deparser of their own these are exactly the constants for which a shipped clause can change its meaning, and that
  each of them does.
- A rescan in the middle of a batch returns that batch again before the new result (`ScanCursor.ScanState.ReScan`).
- The conflict branch of the collation comparison can never be taken, and the state "need inspection" never entered.
- Only the two operators 1055 and 530 are excluded as incompatible; other pattern operators are shipped.
- A statement obtained on the retry path carries whatever snapshot number it had before
  (`ConnectionCache.ConnectionCache.GetTbStatement`), but a scan through it sends the one in its entry's buffer.
- An invalidation in the middle of a transaction, or an error, closes the session at the next statement; the remote
  transaction is lost although the local one can still commit (`ConnectionState.ReplacedIsLost`,
  `ConnectionCache.ConnectionCache.CommittedTransaction`).
- A scan binds its entry's snapshot buffer, not the statement's copy, so a later fetch changes what a scan begun earlier
  sends (`ConnectionState.SentSnapshot`).
- PREPARE TRANSACTION forgets the open remote transactions without ending them (`TransactionEnd.NothingEnds`), and
  so does an abort in error recursion trouble (`TransactionEnd.AllAbandoned`).
- A table's `use_fb_query` option is validated but read nowhere.

## Model

| member | source | states |
|---|---|---|
| ForeignScan.ExecutePlan | tibero_fdw.c:431-653 | The whole scan: carrying out a correct plan through driver blocks of any size, flat buffers and reused arrays, and applying its local clauses, returns exactly the rows that every clause but the pseudoconstant ones selects from the full table, in order, equal on every used attribute, and every target of the query has on each of them the value it has on the full row; it fails exactly when the driver does |
| ForeignScan.ExecuteScan | tibero_fdw.c:634-653 | Calling the wrapper until the empty slot and keeping what the local clauses accept yields the remote result so filtered, however it is cut into blocks |
| ForeignScan.RowsAreTexts | tibero_fdw.c:626-632 | Block boundaries leave no trace in the tuples |
| ForeignScan.CarriedDecodes | tibero_fdw.c:599-616 | A tuple built from a row's texts is the row's decoded answer, attribute by attribute |
| Planner.PlanForeignScan | tibero_fdw.c:362-429 | End to end: for every clause list from the base restrictions planning succeeds and loses or copies no clause that is not pseudoconstant; what it fetches is what a target or a clause kept local mentions; its text, read back, asks for just those columns, by their column_name options, of the foreign table, under the snapshot clause if and only if flashback is wanted and the isolation level is not the transaction's, and applies the shipped clauses node for node; and - unless ctid is fetched - that text, run over any table by any server that agrees on the shipped clauses' operations, then decoded and filtered locally, gives the rows all clauses select from the full table, in order, and the value of every target on each |
| Planner.PlanIsCorrect | tibero_fdw.c:413-424 | The same correctness for any plan whose text and local clauses are the prescribed ones, from the printed text alone |
| Planner.GetForeignRelSize | tibero_fdw.c:302-310 | The clauses are split by shippability; an attribute is used if and only if a target or a clause that is not shipped mentions it |
| Planner.UsedIsNeeded | tibero_fdw.c:305-310 | The attributes collected are exactly those that a target or a clause that is not shipped mentions |
| Planner.PlannedMeets | tibero_fdw.c:391-396 | A tuple meets the planned clauses exactly if it meets every clause of the scan that is not pseudoconstant |
| Pushdown.MeaningKeptExactly | deparse.c:507-556 | A shipped operator clause has the same verdict on both sides, for all rows and all servers that agree on the clause's operations there, if and only if every constant in it is read faithfully: numbers finite, years 1 to 9999, strings non-empty, zone offsets whole minutes outside the first hour west of UTC |
| Pushdown.ReadFromEarlier | deparse.c:507-556 | The value of a constant that is not read faithfully is read from no printed constant, or only from one of the year before, itself unfaithful |
| Pushdown.ClauseMeaning | deparse.c:379-458 | On every remote row the printed clause has the value the local clause has on the row's local image, given only that the clause's own operations agree on that row |
| Pushdown.AgreementPossible | deparse.c:708-781 | Whatever the executor's operators mean, overloads of one name included, some server agrees with it on every row, unless two different operations of the clauses are printed alike |
| Pushdown.ReadConstIs | deparse.c:558-694 | A printed constant is read - a date or time by the template printed with it - as its local value if and only if it is faithful, for every value of every handled type that prints |
| Pushdown.ShippableIsPrintable | conditions.c:150-226 | Every accepted clause of the scanned relation prints: no unsupported node, no failed assertion, none of the deparse functions without a body |
| EndToEnd.ScanIsFilter | tibero_fdw.c:599-616 | Fetching the remote clauses' rows and filtering them locally equals filtering the table by all clauses, row for row |
| EndToEnd.SameRowsSameValues | tibero_fdw.c:305-306 | On rows equal in the used attributes, every expression over used attributes has the same value, whole-row uses included |
| EndToEnd.WhereIsAll | deparse.c:353-377 | The ANDed WHERE text is true of a row exactly when every shipped clause is true of its local image |
| EndToEnd.LocalSatisfied | tibero_fdw.c:305-310 | Columns not fetched, being null, never change a local clause: the attributes used cover its variables |
| EndToEnd.DecodeAgrees | tibero_fdw.c:599-616 | A decoded tuple shows every used attribute, and the whole row if used, as the full row does |
| EndToEnd.RetrievedExactly | deparse.c:195-235 | Without ctid the retrieved attributes are strictly increasing and exactly the live used ones (all live ones for a whole-row use) |
| EndToEnd.ItemsLineUp | deparse.c:198-234 | Result column k feeds attribute retrieved[k] and is the column its column_name option names, or else the one of its own name; the item count is max(1, number retrieved) and fits one column per attribute |
| Evaluation.EvalAgrees | tibero_fdw.c:305-310 | A tree's value depends only on the attributes `pull_varattnos` collects from it |
| Shippability.ExprInspectShippability | conditions.c:103-131 | A clause ships if and only if each node of its tree is a user column or ctid of the relation, a variable of another, a constant, or an immutable operator numbered below 10000 other than 530 and 1055, all with collation 0 or 100, or a list |
| Shippability.InspectionContext.StartInspection | conditions.c:141-203 | The walk computes the conjunction of the verdict so far and the tree's own; shippable never returns to true; NEED_INSPECTION is never entered; it terminates by expression size |
| Shippability.InspectionContext.InspectVar | conditions.c:205-226 | Of this relation's attributes only user columns and ctid pass |
| Shippability.InspectionContext.InspectParam | conditions.c:235-246 | A parameter keeps the state consistent and never restores shippability |
| Shippability.InspectionContext.InspectCall | conditions.c:263-326 | An operator passes exactly when it is built in, permitted and immutable, its arguments pass and its collations do |
| Shippability.InspectionContext.InspectList | conditions.c:369-382 | A list passes exactly when each element does, though inspection stops at the first failure |
| Shippability.InspectionContext.InspectAggref | conditions.c:384-428 | On every path through the guards - relation kind, split, compatibility (applied the wrong way round), mutability - an aggregate loses shippability, and the collation state is not touched |
| Shippability.InspectionContext.CompareCollation | conditions.c:430-493 | From a reachable state a collation passes exactly if it is invalid or the default |
| Shippability.AcceptsIsNodewise | conditions.c:141-226 | The recursive verdict is a test of each node of the tree on its own |
| Shippability.ArgumentOrderIrrelevant | conditions.c:278-281 | Permuting an operator's arguments cannot change the verdict |
| Shippability.AcceptedIsImmutable | conditions.c:272-276 | An accepted tree contains nothing mutable anywhere, so the whole-subtree check agrees with the per-node one |
| Classification.ClassifyConditions | conditions.c:84-101 | Remote and local lists are the shippable and the other clauses, each in input order, and interleave to exactly the input |
| Classification.SplitScanClauses | tibero_fdw.c:391-405 | At plan time every clause lands on the side a fresh inspection would give it, whether found by address or inspected anew; none is lost, copied or reordered, pseudoconstants aside |
| Sequences.FilterSplits | conditions.c:93-100 | Selecting by a test and by its negation is a stable partition |
| Sequences.SplitUnique | conditions.c:93-100 | It is the only one |
| RoundTrip.StatementRoundTrip | deparse.c:137-162 | Lexing and parsing the printed statement recovers exactly the select list, table, snapshot clause and conditions meant, at any nesting depth and whatever identifiers and strings contain |
| StatementMeaning.PrintedSays | deparse.c:137-377 | The statement, read back, fetches for each retrieved attribute the column its column_name option names or else the one of its own name, from the table of the table_name option or else the one of the relation's own name, with the snapshot clause as asked, and its conditions are the shipped clauses, node for node |
| StatementMeaning.ExprSays | deparse.c:708-781 | At each operator node the expression read has the catalog's name of that operator, LIKE for 1207, 1209 and 1211, and its operands in their order; at each variable ROWID for ctid, or the column as the options name it |
| StatementMeaning.HandledTypes | deparse.c:522-555 | The types whose constants are printed by a deparser of their own, by identifier |
| StatementMeaning.ConstSays | deparse.c:522-555 | By type identifier: what a printed constant is read as |
| RoundTrip.ParseExprTokens | deparse.c:708-781 | The tokens of a fully parenthesised expression parse back to that expression, whatever follows |
| RoundTrip.ReadsExpr | deparse.c:379-458 | An expression's text lexes to exactly its tokens in every context it is printed in |
| RoundTrip.ParseConditionTokens | deparse.c:353-377 | The AND list parses back to the clause list, in order |
| RoundTrip.LexSelect | deparse.c:164-351 | The whole statement lexes to the tokens meant |
| RoundTrip.NumericReadsExactly | deparse.c:558-564 | The output of a numeric type, printed bare, lexes and parses as that number if and only if it is finite; NaN and the infinities are read as names |
| SqlText.ReadDoubled | deparse.c:683-693 | Reading undoes the doubling of quotes and stops at the closing one, whatever the content |
| SqlText.ReadsSymbol | deparse.c:746-748 | An operator followed by its space is one token, even before a negative number |
| SqlText.GluedMinusIsComment | deparse.c:746-748 | Without that space a minus before a negative number would open a comment |
| Deparser.DeparseContext.DeparseSelectStmtForRel | deparse.c:137-181 | Appends exactly the statement meant or reports exactly the clauses' own error; depth is back to 0, so the unclosed-parenthesis error is unreachable |
| Deparser.DeparseContext.DeparseExpr | deparse.c:379-458 | Appends exactly the expression's text or reports its error; the depth counter equals the parentheses open outside quotes throughout, and is restored |
| Deparser.DeparseContext.DeparseOpExpr | deparse.c:708-781 | The same for operators, with the order of the checks |
| Deparser.DeparseContext.DeparseDatum | deparse.c:507-670 | The same for constants of every type |
| Deparser.DeparseContext.DeparseStringLiteral | deparse.c:672-694 | The character loop writes the quoted literal with quotes doubled, or NULL for the empty string |
| Deparser.DeparseContext.DeparseColumnRef | deparse.c:237-276 | Appends the quoted remote name, ROWID for ctid, or fails as the assertion and the catalog lookup do |
| Deparser.DeparseContext.AppendConditions | deparse.c:353-377 | Appends the parenthesised clauses joined by AND; parentheses inside constants do not disturb the depth |
| Deparser.DeparseContext.DeparseTargetList | deparse.c:183-235 | The list and the attribute numbers grow together: same attributes, same order |
| Deparser.DeparseContext.DeparseRelation | deparse.c:313-343 | Appends the remote table, qualified and with the snapshot clause if asked |
| Deparser.DeparseContext.OpenParenthesis | deparse.c:812-817 | Depth follows the text |
| Deparser.DeparseContext.CloseParenthesis | deparse.c:819-826 | Depth follows the text and never becomes negative |
| Deparser.DeparseContext.CheckSanity | deparse.c:828-836 | The counter decides for the text: the check passes if and only if every parenthesis written outside quotes has been closed |
| Deparser.DatumNeutral | deparse.c:558-694 | No constant's text opens or closes a parenthesis or a quote that it does not close or open itself |
| ParenScan.QuotedNeutral | deparse.c:683-693 | Whatever stands between quotes, counting parentheses around it is undisturbed |
| TimeText.OffsetRoundTrip | deparse.c:646-652 | Reading the printed offset back gives the offset truncated to a whole minute, sign lost in the first hour west |
| TimeText.OffsetExactness | deparse.c:651-652 | The printed offset is right exactly for whole minutes outside that hour; outside it the error is under a minute |
| TimeText.HalfHourWest | deparse.c:651-652 | Half an hour west of UTC is printed as half an hour east |
| TimeText.StampRoundTrip | deparse.c:614-619 | A printed timestamp reads back to the same fields if and only if its year is between 1 and 9999 |
| TimeText.StampReadsAs | deparse.c:614-619 | What the template makes of any printed timestamp |
| TimeText.DayRoundTrip | deparse.c:584-590 | A printed date reads back to the same fields if and only if its year is between 1 and 9999 |
| TimeText.DayReadsAs | deparse.c:584-590 | What the template makes of any printed date: nothing beyond four digits or around the turn of the era, a year too late before 1000 BC |
| TimeText.DayByTemplate | deparse.c:584-590 | Reading any printed date by the template SYYYY-MM-DD, element by element, gives its month and day in their places and the year as far as four digits and the era carry it |
| TimeText.StampByTemplate | deparse.c:614-621 | The same for a timestamp: each of the seven fields is read from the element printed for it |
| TimeText.InstantByTemplate | deparse.c:646-654 | The same with the zone: hours and minutes from TZH and TZM, the sign from TZH |
| TimeText.YearsMisread | deparse.c:584-590 | AD 10000, 1 BC and 44 BC are not read at all, 4712 BC is read as 4711 BC |
| ScanCursor.ScanState.RunScan | tibero_fdw.c:551-653 | For every result and every way to cut it into blocks the n-th call returns row n, then empty slots for ever, or the failure; one execute, and blocks + 1 fetches to the end |
| ScanCursor.ScanState.Iterate | tibero_fdw.c:634-653 | One call returns the next row of the remote result or the empty slot, and raises exactly when the driver refuses or fails with nothing buffered |
| ScanCursor.ScanState.NextTuple | tibero_fdw.c:646-648 | The same once the statement is executed |
| ScanCursor.ScanState.FetchTuples | tibero_fdw.c:626-632 | A fetch replaces the spent batch by the decoded next block, or notes the end |
| ScanCursor.ScanState.GetNextTuple | tibero_fdw.c:559-571 | When no fetch is due the index is inside the batch, so its assertion never fails |
| ScanCursor.ScanState.Execute | connection.c:435-445 | Starting the statement leaves the buffered batch untouched |
| ScanCursor.ScanState.ReScan | tibero_fdw.c:655-667 | The next pass is exactly the new result if and only if the counter is -1 or 0; otherwise the retained batch comes first |
| ScanCursor.ScanState.constructor | tibero_fdw.c:472-474 | A new scan has nothing buffered and nothing executed |
| ScanCursor.Driver.Fetch | connection.c:348-363 | The driver's side: a block fills the buffers, the end sets the counter to 0 |
| ScanCursor.DecodedAttribute | tibero_fdw.c:600-614 | A decoded attribute is what the input function of that attribute makes of its own cell's text; null for a null and for what was not retrieved |
| TupleBuilder.MakeTuples | tibero_fdw.c:573-624 | Though the arrays are reused, tuple i is remote row i spread over its attributes, unretrieved attributes are null in every tuple, and everything allocated by reference has been freed |
| TupleBuilder.FillRow | tibero_fdw.c:600-614 | After the inner loop the arrays stand for row i alone; no address of the row before survives |
| TupleBuilder.PlaceCell | tibero_fdw.c:602-613 | One cell changes one attribute |
| TupleBuilder.FormTuple | tibero_fdw.c:615 | The tuple is formed without following a dangling address |
| TupleBuilder.FreeRow | tibero_fdw.c:617-620 | Each by-reference value of the row is freed once, and none is left |
| ColumnBuffers.CellBounds | tibero_fdw.c:504-544 | Cells are inside the buffer and disjoint |
| ColumnBuffers.ReadsOwnPiece | tibero_fdw.c:544 | Reading a terminated cell never runs into the next |
| ColumnBuffers.Column.Read | tibero_fdw.c:544 | The wrapper reads what the driver stored for that row |
| ColumnBuffers.Column.Store | tibero_fdw.c:516-519 | The driver's write of a row changes no other row |
| ConnectionCache.ConnectionCache.Run | connection.c:132-346 | In every run of statements, driver calls on them, invalidations and transaction ends, any calls failing: for every statement handed out, no invalidation of hash 0, of the hash of the server or of the hash of the user mapping its session was opened from lies between the session's creation and the hand-out; snapshot statements of one session and one local statement agree, a scan sends the number its entry held at hand-out exactly as long as no fetch came between, and on every session each transaction begun is ended by exactly one event before the next begins, a lost one being the session's last |
| ConnectionCache.ConnectionCache.CommittedTransaction | connection.c:132-306 | When a local transaction commits, the work done through each of its statements is committed remotely if and only if the connection the statement was handed out on is still its entry's at the commit, and lost otherwise; if the commit fails it still has exactly one fate |
| ConnectionState.ReplacedIsLost | connection.c:164-168 | An entry found with its transaction begun that ends up on another session has lost that transaction |
| ConnectionState.HeldIsOpen | connection.c:276-281 | Within a local transaction a statement's connection is held exactly as long as its remote transaction is open |
| ConnectionState.SentSnapshot | tibero_fdw.c:508-511 | In every state of every run: what a scan sends is the number in its entry's buffer - on the retry path too, whatever the statement carries; it is the one its entry held when the statement was handed out, for every answer of the server, if and only if no fetch on that entry came between |
| ConnectionState.SameNumberExactly | connection.c:175-182 | Over any sequence of fetches and any answers to them, a buffer is sure to hold what it held at an earlier point if and only if nothing was fetched into it since |
| ConnectionCache.ConnectionCache.GetTbStatement | connection.c:132-210 | A normal return is on a connected, valid entry of that user mapping with its remote transaction begun, on the first try and on the retry; a new session is one to the mapping's server; the session found is replaced if and only if it was invalidated or the call retried, and a transaction begun there is then lost; otherwise one begun earlier goes on untouched, and one begun by this call is serializable if the local isolation is the transaction's and read committed if not; it retries exactly if the first try ended in an error of the wrapper's own; a snapshot is fetched exactly when asked for, isolation allows it and the time stamp (0 on a new session) differs; no other entry is touched and nothing is committed or rolled back |
| ConnectionCache.ConnectionCache.Obtain | connection.c:155-209 | The entry, found or created, and the two tries at its connection; only wrapper errors are retried |
| ConnectionCache.ConnectionCache.TryStatement | connection.c:162-185 | The first try: which session it uses, whether it fetches, and that a wrapper error has closed the connection |
| ConnectionCache.ConnectionCache.Reconnect | connection.c:164-168 | A session that was not invalidated is used as it is; otherwise a success is a new one to the mapping's server, with no transaction begun and time stamp 0 |
| ConnectionCache.ConnectionCache.Retry | connection.c:204-209 | The second try is on a new session with its transaction begun |
| ConnectionCache.ConnectionCache.MakeTbConnection | connection.c:212-257 | The not-connected assertion holds at every call, and the connection strings asserted present are; a success is a new session from the current catalogs, with their hashes, kept unless the last keep_connections option says otherwise; a failure leaves the entry without one |
| ConnectionCache.ConnectionCache.ConnectTbServer | connection.c:92-110 | Three calls fail as wrapper errors and the fourth as a failed connection; only success connects |
| ConnectionCache.ConnectionCache.DisconnectTbServer | connection.c:112-123 | However the calls end, the entry lets go of its session, both its flags are false, and an open transaction is lost; nothing else changes |
| ConnectionCache.ConnectionCache.ReportError | connection.c:49-67 | Any reported error closes an open connection, losing its transaction, and changes nothing on a closed one |
| ConnectionCache.ConnectionCache.BeginRemoteXact | connection.c:78-90 | The transaction is begun, at the level asked for, or the connection closed |
| ConnectionCache.ConnectionCache.FetchSnapshot | connection.c:175-182 | Number and time stamp are taken over together, or the connection is closed |
| ConnectionCache.ConnectionCache.InvalCallback | connection.c:322-346 | In any scan order exactly the connected entries whose server hash - for a server - or mapping hash - for a user mapping - is the one given, or all of them for 0, become invalid, and nothing else changes |
| ConnectionState.MatchesConcerns | connection.c:338-341 | The hashes an entry keeps recognise exactly the invalidations that are about the server and the user mapping its session was opened from |
| ConnectionCache.ConnectionCache.UseStatement | connection.c:348-363 | A call on a statement sends the number in its entry's buffer; if it fails it closes the connection |
| ConnectionCache.ConnectionCache.TbSQLEndTran | connection.c:378-388 | The remote transaction ends as told, or is lost with the connection |
| ConnectionCache.ConnectionCache.EndTurn | connection.c:272-301 | One entry's turn in each event, field by field: before a commit and at an abort a connection with its transaction begun is told once and stays open if and only if it was not invalidated and is to be kept; in trouble it is forgotten untold; the other events change nothing |
| ConnectionCache.ConnectionCache.XactCallback | connection.c:259-306 | A normal return before a commit or at an abort has ended every begun transaction on a connection alike, and left connected exactly those of them that were not invalidated and are to be kept; in trouble it has forgotten them untold; at other events nothing changes. A throw leaves the flag set, the entries before it done, the throwing one closed and those after it as they were |
| ConnectionCache.ConnectionCache.EndLocalTransaction | connection.c:259-306 | If pre-commit throws, re-running abort terminates; every remote transaction open at the start is committed, rolled back or lost, exactly once; those committed are those of a prefix of the scan order; none stays open; after a commit without error each connection that took part is open if and only if it was not invalidated and is to be kept |
| TransactionEnd.EndAllMeaning | connection.c:270-302 | A scan that returns has sent exactly one commit or rollback to each connected entry with an open transaction, disconnected those invalidated or not kept, and touched nothing else |
| TransactionEnd.AllFinished | connection.c:270-303 | The same on the fields: which connections are left open, and the one event each session has seen |
| TransactionEnd.AllEnded | connection.c:270-303 | Afterwards no connection has a transaction begun, and no session has one open but those abandoned earlier |
| TransactionEnd.StoppedFates | connection.c:276-281 | A scan that throws has committed a prefix and has strictly fewer connections left |
| TransactionEnd.StoppedEntries | connection.c:276-281 | Where a scan threw: entries before it done, its own without connection or transaction, those after it untouched |
| TransactionEnd.NothingEnds | connection.c:282-287 | The other events touch nothing, open transactions included |
| TransactionEnd.AllAbandoned | connection.c:290-293 | In error recursion trouble exactly the entries with a transaction begun lose their connection, whatever their other fields, and the remote side is told nothing |
| ConnectionState.CloseValid | connection.c:49-67 | Closing keeps every entry and session consistent |
| ConnectionState.ResolveValid | connection.c:378-388 | So does ending a transaction |
| ConnectionState.BegunValid | connection.c:78-90 | So does beginning one |
| ConnectionState.ConnectedValid | connection.c:225-232 | So does a new session, which nothing handed out refers to |
| ConnectionState.SnapshotValid | connection.c:175-182 | A new snapshot is for a later local statement than any the session served |
| ConnectionState.HandedOutValid | connection.c:184 | A statement handed out agrees with all earlier ones of its session and local statement |
| ConnectionState.InvalidatedValid | connection.c:333-343 | Invalidation leaves no valid entry on a stale session |
| OptionValidator.ValidateOptions | option.c:175-191 | A list is accepted if and only if every name is registered with a valid value and every required name occurs; otherwise the first bad option is reported, or all the missing names |
| OptionValidator.TiberoFdwValidator | option.c:92-173 | By name: which options each kind of object accepts, with which values - fetch sizes in 1..2147483646, booleans that can be read, nothing empty - which it requires, and which the hint of an unknown option lists |
| OptionValidator.AcceptableByName | option.c:122-173 | The declared tables accept exactly those lists |
| OptionValidator.VisibleNames | option.c:122-173 | The names that are not hidden, in order |
| OptionValidator.SearchForOptionInRegistered | option.c:193-210 | Marks the option's row and no other, and objects exactly to an invalid value |
| OptionValidator.CheckSufficientInputOptions | option.c:233-255 | Insufficient exactly if a required row is unmarked; the hint lists those rows |
| OptionValidator.EreportInvalidOption | option.c:212-231 | The hint lists the visible rows in table order |
| AppliedOptions.FetchSizeBounds | option.c:275-303 | Wherever an accepted server or table list gives a fetch size, its value is in 1..INT32_MAX - 1 |
| AppliedOptions.LastValueValid | option.c:193-210 | The value an accepted list gives for an option is valid for that option's row of the table |
| AppliedOptions.LastValueIsLast | connection.c:234-254 | The value kept is that of the option of the name which no other of that name follows |
| OptionValidator.DeclaredTables | option.c:122-173 | The four tables have distinct keywords and end where they should |
| AppliedOptions.CollectConnectionStrings | connection.c:234-254 | The loops keep the last value of each name, connections are kept unless the last keep_connections is not true; from accepted lists all five strings are present |
| AppliedOptions.StringsPresent | connection.c:92-98 | Accepted server and mapping options make all five connection strings non-null |
| AppliedOptions.EffectiveFetchSize | tibero_fdw.c:283-290 | The table's option overrides the server's, which overrides 100; from accepted lists the result is in 1..INT32_MAX - 1 |
| AppliedOptions.ApplyFetchSize | tibero_fdw.c:214-260 | One layer of options: the last occurrence wins |

## Left out

- Planner.PlanForeignScan: asks of each shipped clause - of a local one nothing is asked but that it mentions no dropped column - that its constants are of the handled types and read faithfully, because `Pushdown.MeaningKeptExactly` shows that the meaning changes otherwise, and its correctness excludes fetching ctid, whose negative attribute number the decoding would use as an index.
- RoundTrip.StatementRoundTrip: covers the constant types with a deparser of their own; constants of other types are printed from a pointer reinterpreted as a string, which has no modelled meaning, and infinite dates and times raise an error.
- ConnectionCache.ConnectionCache.GetTbStatement: is atomic with respect to invalidation callbacks; one that arrives while the entry is unconnected is skipped by the source, so the freshness of the session holds up to invalidations before the call.
- ConnectionCache.ConnectionCache.EndLocalTransaction: excludes error recursion trouble, in which a transaction is abandoned open (`TransactionEnd.AllAbandoned`).
- ConnectionCache.ConnectionCache.Run: excludes PREPARE TRANSACTION, after which transactions stay open although the flag is cleared (`TransactionEnd.NothingEnds`).
- ScanCursor.ScanState.RunScan: the driver's values fit their buffers; truncation by the driver, the width of its row counter and executing a statement whose cursor is still open are not modelled.
- ForeignScan.ExecutePlan: assumes that the text the driver delivers for a fetched cell is converted by the attribute's input function to the value the server answered with (`ForeignScan.Carried`); the type conversions themselves are foreign code.
- The offset by which PostgreSQL stores attribute numbers in bitmap sets.
- Case folding of unquoted identifiers by the server.
- Joins, upper relations, aggregates and EXPLAIN: the wrapper refuses or never reaches them.
- INSERT: its execution is gated on a flag that is not reset between rows.
- ODBC handles, their leaks on failed connection attempts, and error texts.
- The text of the connection string: the five values are shown to be present and the last given, not how they are joined
  and cut to the buffer's 512 bytes.
- Reading `use_fb_query` and the isolation level, which are parameters of planning and of getting a statement.
- Subtransactions, for which the source's callback does nothing.
- Signal handlers, cost estimates and the mapping between PostgreSQL and Tibero types.
- Memory contexts beyond the by-reference values of a batch.
