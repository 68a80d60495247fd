# WCDB: verified model of the vendored core

A Dafny model of the hard parts of the C code that WCDB ships: the SQL parser engine, ALTER TABLE RENAME and ATTACH
support of its SQLite, and the SQLiteRepairKit that recovers rows from damaged database files. Code that works in
place is modelled by classes, arrays and loops; each of their methods is proved equal to a function, and the theorems
are about those functions.

`dafny verify dfyconfig.toml` checks all of it.

## Parts

- **Parser engine** (`Lemon*.dfy`, `SelectLinks.dfy`). The Lemon push parser over abstract tables. Semantic values are
  derivations, so that conservation, soundness of acceptance and the equivalence of fused and plain actions can be
  stated. `LemonSoundness.Valid` looks at one table entry at a time, with an annotation of what lies under a state. It
  admits choices of terminals and unit rules that the generator has folded away, and is all that soundness, the absence
  of failed asserts and the termination of calls ask of the tables; `LemonConverse.Regular` is what the equivalence asks
  of them. `LemonExample` has tables that meet both. `lemon_annotation.py` computes the annotation for the tables of a
  parse.c and lists the clauses they violate.
- **ALTER TABLE RENAME** (`Rename*.dfy`). The linked lists of rename tokens and the edit loop that rewrites a statement
  from right to left inside one buffer, and how the tokenizer reads the names that it writes.
- **ATTACH** (`Fix*.dfy`). The mutually recursive walk that fixes a statement to one database. The tree is a value; the
  fields the walk overwrites are maps in the fixer object. `FixTree` says by the edges of the tree which nodes are met.
- **Keywords** (`KeywordHash.dfy`). The hash lookup against linear search, over any tables that meet a predicate.
- **SQLiteRepairKit** (`Repair*.dfy`), against sections 1.6, 1.7 and 2.1 of the SQLite Database File Format:
  - `RepairBytes`, `RepairRecord`, `RepairPayload`: numbers, records, overflow chains and leaf cells, each with a writer;
    `RepairChain`: what is read of them on any file;
  - `RepairPages`, `RepairWalk`: page statuses and the recursive walk, for every file and every callback; `RepairHead`:
    what its bytes make of a page;
  - `RepairStack`: the recursion stack at every moment of a run; `RepairEnds`, `RepairEndless`: when the walk ends and
    when it does not, with two files in `RepairLoop`; `RepairCancel`: what becomes of a callback that asks to stop;
  - `RepairTree`: intact trees, with a file that holds one in `RepairExample`; `RepairSafety`, `RepairDamage`: damaged
    files, and what is saved of them;
  - `RepairParser`: the same in the form of the source, with its arrays and loops;
  - `RepairOutput`, `RepairMaster`: transactions and counters of the output, and the backup of sqlite_master;
  - `RepairRecovery`: from the pages of an intact table to the statements that restore it.

## Where the code departs from its documentation

- A varint of nine bytes: the last byte contributes seven bits and may not have its high bit set, so that negative
  rowids cannot be read. `RepairBytes.StandardExactly` says on which inputs code and format agree.
- The cell pointers of an interior page of an index are read from byte 8, where its right-most child is, and not from
  byte 12 (`RepairHead.IndexInteriorIsMisread`).
- The right-most child of an interior page is read at byte 8 even on page 1 (`RepairTree.InteriorIsSeen`).
- The pager's header lists checking to discarded as a transfer of its own. The leaf page of a refused row does take it,
  but its end notification then sets it to invalid (`RepairSafety.StatusTellsResult`); only overflow pages stay
  discarded.
- Overflow pages ignore the answer that a page is being checked already. A chain through an interior page above its
  leaf takes that page out of checking, so that it may be entered again below itself, and without end if the leaves on
  the way round a loop of child pointers free all its pages (`RepairLoop.NeverEnds`, `RepairEndless.TrapHolds`). The
  walk ends if no loop is like that (`RepairEnds.WalkTerminates`).
- A cancelled callback stops the children of one interior page only and is not reported above it
  (`RepairCancel.CancelReportedExactly`). The output, which rolls back when the walk reports a cancel, therefore commits
  what it has, and goes on with the next table, when the root is an interior page (`RepairCancel.OutputStopsExactly`; an
  input is in `RepairCancel.CommitsDespiteCancel`).
- Default values of the columns that a row lacks are bound with a zero-based index, so that each comes to the parameter
  left of its own: the first one replaces the last stored value (`RepairOutput.DefaultOverwrites` has an input;
  `RepairOutput.StoredSurviveExactly` says when that does no harm).
- A NULL in a NOT NULL column is taken for damage before the code looks for the INTEGER PRIMARY KEY, which SQLite stores
  as NULL. A table whose key is declared NOT NULL as well is lost as a whole (`RepairOutput.RejectedExactly`,
  `RepairRecovery.KeyedTableIsLost`).
- The header's page size is read as a signed number: the two largest sizes of the format, 32768 and 65536, are taken for
  4096, and more than 127 reserved bytes for none (`RepairPages.LayoutIsFormatExactly`).
- The edit of ALTER TABLE RENAME puts nothing between a name that it quotes and what follows: a quoted alias right behind
  a renamed column becomes part of the name (`RenameRead.AliasIsSwallowed`; `RenameRead.SafeAsInSource` says when).
- The keyword look-up takes a DEL for an underscore (`KeywordHash.DeleteForUnderscore`); the tokenizer never passes one.
- The backup of sqlite_master admits names of up to 255 bytes each, but puts them together in a buffer that holds 508
  of them (`RepairMaster.InsideExactly`).

## Model

| member | source | states |
|---|---|---|
| `LemonTables.ChoiceIsLegal` | Example/Pods/WCDBOptimizedSQLCipher/parse.c:2127-2190 | The action found for a token is the entry of its row under the token itself, its fallback or the wildcard, or else the default of the state |
| `LemonTables.ActionIsExact` | Example/Pods/WCDBOptimizedSQLCipher/parse.c:2127-2190 | Which of these it is, for every state and token: the token's own entry if there is one, else the entry of its fallback, else the wildcard's unless the token is the end of the input, else the default; a pending action is returned as it is |
| `LemonTables.FindShiftAction` | Example/Pods/WCDBOptimizedSQLCipher/parse.c:2127-2190 | The look-up loop over the compressed tables computes the declarative choice, for any shaped tables, and ends because a fallback has no fallback |
| `LemonTables.FindReduceAction` | Example/Pods/WCDBOptimizedSQLCipher/parse.c:2196-2220 | The goto look-up yields the row entry of the left-hand side wherever the engine's asserts hold |
| `LemonMachine.RunIsStable` | Example/Pods/WCDBOptimizedSQLCipher/parse.c:5171-5289 | More passes than a call needs change nothing about it |
| `LemonMachine.RunComposes` | Example/Pods/WCDBOptimizedSQLCipher/parse.c:5171-5289 | A call that is interrupted after some passes and taken up again ends as if it had not been |
| `LemonMachine.OutcomeIsExact` | Example/Pods/WCDBOptimizedSQLCipher/parse.c:5171-5289 | How a pass ends, for every action number: shifted exactly by a shift with room left, overflow exactly by a push on 100 entries, a syntax error exactly by the error action, acceptance exactly by the accept action on two entries |
| `LemonMachine.ReduceConserves` | Example/Pods/WCDBOptimizedSQLCipher/parse.c:5020-5038 | A reduction keeps the tokens under the stack, in order, and adds its rule to the bottom-up traversal; it stops only by overflow or a failed assert |
| `LemonMachine.StepConserves` | Example/Pods/WCDBOptimizedSQLCipher/parse.c:5171-5289 | After one pass every token and every nonterminal made of tokens is on the stack, in the accepted tree or destroyed, for every action |
| `LemonMachine.RunConserves` | Example/Pods/WCDBOptimizedSQLCipher/parse.c:5135-5303 | The same after a whole call, for the list of rules by which it reduced |
| `LemonSoundness.PrefixSound` | Example/Pods/WCDBOptimizedSQLCipher/parse.c:5020-5038 | Popping entries keeps the stack invariant: every prefix of a sound stack is sound |
| `LemonSoundness.ReduceIsSound` | Example/Pods/WCDBOptimizedSQLCipher/parse.c:5020-5038 | For valid tables a reduction finds its right-hand side on the stack, up to folded unit rules, and a goto below it, keeps the stack sound and spends potential |
| `LemonSoundness.StepIsSound` | Example/Pods/WCDBOptimizedSQLCipher/parse.c:5171-5289 | For valid tables one pass keeps the stack sound, breaks no assert (nor reduces by an optimized-out rule), accepts parse trees only and at the end of the input only, and spends potential if it reduces |
| `LemonSoundness.RunIsSound` | Example/Pods/WCDBOptimizedSQLCipher/parse.c:5135-5303 | The same for a call with any number of passes |
| `LemonSoundness.CallEnds` | Example/Pods/WCDBOptimizedSQLCipher/parse.c:5171-5289 | For valid tables every call ends, within the height of its stack and the rank of its top state |
| `LemonUnfold.ParseTreeUnfolds` | Example/Pods/WCDBOptimizedSQLCipher/parse.c:4962-4998 | A parse tree up to the optimized-out rules comes from a parse tree of the whole grammar with the same tokens, from which it is obtained by leaving those rules out |
| `LemonParser.Parser.constructor` | Example/Pods/WCDBOptimizedSQLCipher/parse.c:1826-1850 | A fresh parser holds the bottom entry only |
| `LemonParser.Parser.PopParserStack` | Example/Pods/WCDBOptimizedSQLCipher/parse.c:2029-2042 | One entry leaves the stack and is destroyed once |
| `LemonParser.Parser.PopAll` | Example/Pods/WCDBOptimizedSQLCipher/parse.c:2047-2053 | Finalize and overflow leave the bottom entry and destroy every other entry exactly once, from the top down |
| `LemonParser.Parser.YyShift` | Example/Pods/WCDBOptimizedSQLCipher/parse.c:2270-2307 | Shift on the array stack: overflow at the fixed end, fused actions stored as pending reductions |
| `LemonParser.Parser.YyReduce` | Example/Pods/WCDBOptimizedSQLCipher/parse.c:3101-3115 | Reduce on the array stack, empty rules included, never leaves the array |
| `LemonParser.Parser.Pass` | Example/Pods/WCDBOptimizedSQLCipher/parse.c:5171-5289 | The loop body performs exactly one step of the machine, and reports which hook ran |
| `LemonParser.Parser.Loop` | Example/Pods/WCDBOptimizedSQLCipher/parse.c:5171-5289 | The driver loop over the array stack leaves the stack, the outcome and the destructor calls of the machine, for all tables |
| `LemonParser.Parser.Feed` | Example/Pods/WCDBOptimizedSQLCipher/parse.c:5135-5303 | With valid tables a call ends, fails no assert, does what the machine does and is ready for the next token; the top of stack stays inside the array throughout; a value is accepted at the end of the input only and is a parse tree |
| `LemonSession.EveryTokenAccountedFor` | Example/Pods/WCDBOptimizedSQLCipher/parse.c:2225-2244 | Over any run of tokens, with any tables, each token is in exactly one place: on the stack, in an accepted tree, destroyed, or unread after an overflow; and so is each nonterminal that a reduction has pushed, those of empty rules included |
| `LemonSession.RunsAreSane` | Example/Pods/WCDBOptimizedSQLCipher/parse.c:5135-5303 | Over any run of valid tables every accepted value is a parse tree and no assert of the engine fails |
| `LemonSession.RunsEnd` | Example/Pods/WCDBOptimizedSQLCipher/parse.c:5135-5303 | A valid parser gets through any list of tokens, with a fixed bound on the passes of a call |
| `LemonSession.FreshRun` | Example/Pods/WCDBOptimizedSQLCipher/parse.c:5135-5303 | All of this together for a fresh parser |
| `LemonSession.AcceptedIsDerived` | Example/Pods/WCDBOptimizedSQLCipher/parse.c:5171-5289 | LR soundness: if the tokens are shifted and the parser accepts, this is at the end of the input, the value is a parse tree of the start symbol whose leaves are those tokens in order, each as itself, its fallback or the wildcard, and with the folded rules put back it is a derivation by the grammar as written |
| `LemonFused.CatchUp` | Example/Pods/WCDBOptimizedSQLCipher/parse.c:2133 | A pending reduction is performed at the next token with the effect it would have had at once, whatever that token is |
| `LemonFused.StepAgrees` | Example/Pods/WCDBOptimizedSQLCipher/parse.c:2299-2305 | A step of the engine on a settled stack agrees with the step of a textbook LR machine that shifts and then reduces |
| `LemonFused.CallAgrees` | Example/Pods/WCDBOptimizedSQLCipher/parse.c:5173-5182 | A whole call agrees: same outcome, same values built, agreeing stacks afterwards |
| `LemonFused.RunsAgree` | Example/Pods/WCDBOptimizedSQLCipher/parse.c:5171-5289 | For any run of tokens that the textbook machine gets through, the engine with fused actions accepts the same values and reports the same errors and overflows at the same tokens |
| `LemonConverse.CallIsRun` | Example/Pods/WCDBOptimizedSQLCipher/parse.c:5173-5182 | The other direction for a call: if the engine's call ends on a stack that settles, the textbook machine ends in the same way on that |
| `LemonConverse.EngineIsPlain` | Example/Pods/WCDBOptimizedSQLCipher/parse.c:5171-5289 | The other direction for any run of tokens |
| `LemonConverse.FusedIsFaithful` | Example/Pods/WCDBOptimizedSQLCipher/parse.c:5171-5289 | From a fresh parser with regular tables: the engine gets through the tokens with certain outcomes, if and only if the textbook machine does |
| `LemonFaithful.EveryRunAgrees` | Example/Pods/WCDBOptimizedSQLCipher/parse.c:5135-5303 | For valid and regular tables both get through every list of tokens, with the same outcomes; nothing is assumed of the run |
| `LemonExample.SmallIsValid` | Example/Pods/WCDBOptimizedSQLCipher/parse.c:250-297 | The validity test can be met: tables of a grammar with a choice of terminals, an empty rule, a folded unit rule, a fallback and a wildcard pass it |
| `LemonExample.SmallIsRegular` | Example/Pods/WCDBOptimizedSQLCipher/parse.c:250-297 | And so can the condition on the actions |
| `LemonExample.SecondAction` | Example/Pods/WCDBOptimizedSQLCipher/parse.c:2127-2190 | In a state of these tables a token is shifted under its own entry, that of its fallback, or the wildcard's |
| `LemonExample.SmallAccepts` | Example/Pods/WCDBOptimizedSQLCipher/parse.c:5171-5289 | The engine accepts every sentence of two tokens of that grammar, with a tree in which the folded rule is missing |
| `SelectLinks.TermsAreDistinct` | Example/Pods/WCDBOptimizedSQLCipher/parse.c:97-112 | A chain of prior terms visits no term twice |
| `SelectLinks.DoubleLinkSelect` | Example/Pods/WCDBOptimizedSQLCipher/parse.c:97-112 | Afterwards every term's next pointer leads back to the term whose prior pointer leads to it, all are marked compound, and an error is reported exactly if the limit applies and is exceeded |
| `RenameText.SubstituteLength` | Example/Pods/WCDBOptimizedSQLCipher/src/alter.c:1036-1061 | The edited text is as long as the original plus the growth of every replacement |
| `RenameText.GrowthBound` | Example/Pods/WCDBOptimizedSQLCipher/src/alter.c:1021-1034 | The growth never exceeds the quoted name's length per token |
| `RenameText.EditOne` | Example/Pods/WCDBOptimizedSQLCipher/src/alter.c:1036-1061 | Replacing the leftmost token in a text whose later tokens are already replaced is one more step of the simultaneous substitution |
| `RenameText.RenameRoundTrip` | Example/Pods/WCDBOptimizedSQLCipher/src/alter.c:1036-1061 | Renaming bare tokens and renaming back restores the statement byte for byte, if and only if there is no token or the new name starts with an identifier character |
| `RenameList.Unlink` | Example/Pods/WCDBOptimizedSQLCipher/src/alter.c:775-788 | Unlinking a node removes exactly that node from the chain |
| `RenameList.RenameCtx.TokenNext` | Example/Pods/WCDBOptimizedSQLCipher/src/alter.c:852-864 | Takes out the first token that starts furthest to the right and keeps the others in order |
| `RenameList.Parse.TokenMap` | Example/Pods/WCDBOptimizedSQLCipher/src/alter.c:688-701 | Puts a new pair in front of the list |
| `RenameList.Parse.TokenRemap` | Example/Pods/WCDBOptimizedSQLCipher/src/alter.c:708-717 | Only the first token of the old element changes its owner |
| `RenameList.Parse.TokenFind` | Example/Pods/WCDBOptimizedSQLCipher/src/alter.c:775-788 | Moves the first token of the element, if there is one, to the context and counts it; all else stays |
| `RenameHistory.StepConserves` | Example/Pods/WCDBOptimizedSQLCipher/src/alter.c:688-717 | One map, remap or find step conserves the tokens of both lists |
| `RenameHistory.HistoryConserves` | Example/Pods/WCDBOptimizedSQLCipher/src/alter.c:688-717 | Over any sequence of map, remap and find steps the tokens of both lists are conserved, the counter agrees with the list, and with fresh elements no element owns two tokens |
| `RenameHistory.DrainDescends` | Example/Pods/WCDBOptimizedSQLCipher/src/alter.c:852-864 | Draining the context yields every token once, in descending source position, whatever the order of the list |
| `RenameEdit.NextIsLast` | Example/Pods/WCDBOptimizedSQLCipher/src/alter.c:852-864 | The token taken out next is the rightmost one not yet edited |
| `RenameEdit.InsideBuffer` | Example/Pods/WCDBOptimizedSQLCipher/src/alter.c:1032-1061 | At every round the text and the next replacement fit the buffer computed before the loop |
| `RenameEdit.Overwrite` | Example/Pods/WCDBOptimizedSQLCipher/src/alter.c:1046-1057 | The memmove and memcpy of one round replace exactly the token's bytes, inside the buffer |
| `RenameEdit.EditSql` | Example/Pods/WCDBOptimizedSQLCipher/src/alter.c:997-1071 | For any list order of disjoint tokens in range, the right-to-left edit in place yields the simultaneous substitution, and every write stays inside the buffer; in the place of each token is the new name, quoted if and only if that was asked for or the token does not start like an identifier, and it is read back as the new name if and only if what follows does not run on into it |
| `RenameRead.QuotedReadsBack` | Example/Pods/WCDBOptimizedSQLCipher/src/tokenize.c:390-414 | A quoted name is read by the tokenizer as that name, and ends at its closing quote, if and only if no double quote follows |
| `RenameRead.PlainReadsBack` | Example/Pods/WCDBOptimizedSQLCipher/src/tokenize.c:501-546 | A name written without quotes is read as that name if and only if it is an identifier and no identifier character follows, nor an apostrophe that makes a blob of it |
| `RenameRead.ReplacementReadsBack` | Example/Pods/WCDBOptimizedSQLCipher/src/alter.c:1023-1050 | What replaces a token is read as the new name exactly under the one or the other condition |
| `RenameRead.TokenReadsBack` | Example/Pods/WCDBOptimizedSQLCipher/src/alter.c:1036-1061 | The same for each token in its place in the edited statement |
| `RenameRead.SafeAsInSource` | Example/Pods/WCDBOptimizedSQLCipher/src/alter.c:1036-1061 | For a token with no other right behind it the condition is one on the text that follows it in the statement as it was |
| `RenameRead.AliasIsSwallowed` | Example/Pods/WCDBOptimizedSQLCipher/src/alter.c:1043-1057 | An input for which it fails: a column directly followed by a quoted alias |
| `FixWalk.WalkConcat` | Example/Pods/WCDBOptimizedSQLCipher/src/attach.c:485-628 | The walk over two parts is the walk over the second from where the first left off, or the first's failure |
| `FixWalk.Verdict` | Example/Pods/WCDBOptimizedSQLCipher/src/attach.c:485-628 | The walk returns 0 exactly if no visited node, judged before the walk, names another database or is a disallowed variable |
| `FixWalk.Failure` | Example/Pods/WCDBOptimizedSQLCipher/src/attach.c:485-628 | On failure the message is about the first offending node, and exactly the nodes before it have been fixed |
| `FixWalk.Effect` | Example/Pods/WCDBOptimizedSQLCipher/src/attach.c:485-628 | On success every visited item is unqualified and bound to the target schema unless in TEMP mode, every visited variable is NULL, and nothing else changes |
| `FixWalk.NoVariableLeft` | Example/Pods/WCDBOptimizedSQLCipher/src/attach.c:556-581 | No visited variable is left after success |
| `FixWalk.Idempotent` | Example/Pods/WCDBOptimizedSQLCipher/src/attach.c:485-628 | A second run succeeds and changes nothing |
| `FixDb.DbFixer.constructor` | Example/Pods/WCDBOptimizedSQLCipher/src/attach.c:452-469 | The fixer's target, with TEMP mode for database 1 |
| `FixTree.WalkIsPreorder` | Example/Pods/WCDBOptimizedSQLCipher/src/attach.c:485-628 | For every kind of part of a parse tree the walk meets the part's own node and then its parts in the order of the source: operands unless the expression is a token or leaf, all clauses of a SELECT with its prior terms, function arguments of table-valued functions only |
| `FixTree.MeetsExactly` | Example/Pods/WCDBOptimizedSQLCipher/src/attach.c:485-628 | A node is met if and only if a path of such edges leads to it from the root |
| `FixTree.WalkAchieves` | Example/Pods/WCDBOptimizedSQLCipher/src/attach.c:485-628 | Judged by these paths: the walk returns 0 if and only if no item below names another database and no variable is below, unless allowed; then exactly the items and variables below are fixed; and a message is about a node below that gives cause for it |
| `FixTree.NamesIgnoreCase` | Example/Pods/WCDBOptimizedSQLCipher/src/attach.c:497 | Database names are compared letter by letter without regard to case |
| `FixDb.DbFixer.FixExpr` | Example/Pods/WCDBOptimizedSQLCipher/src/attach.c:556-581 | The expression loop and recursion perform the walk of the expression, and achieve that for the tree below it |
| `FixDb.DbFixer.FixExprList` | Example/Pods/WCDBOptimizedSQLCipher/src/attach.c:582-595 | The same for an expression list |
| `FixDb.DbFixer.FixSelect` | Example/Pods/WCDBOptimizedSQLCipher/src/attach.c:518-555 | The same for a SELECT with its prior terms, clauses and WITH list |
| `FixDb.DbFixer.FixSrcList` | Example/Pods/WCDBOptimizedSQLCipher/src/attach.c:485-516 | The same for a source list, with its subqueries, ON clauses and function arguments |
| `FixDb.DbFixer.FixTriggerStep` | Example/Pods/WCDBOptimizedSQLCipher/src/attach.c:599-628 | The same for a chain of trigger steps with their upsert clauses |
| `KeywordHash.SameSlot` | Example/Pods/WCDBOptimizedSQLCipher/keywordhash.h:156-165 | An input that spells a keyword in any case falls into that keyword's hash slot |
| `KeywordHash.MaskIsCase` | Example/Pods/WCDBOptimizedSQLCipher/keywordhash.h:156-165 | Clearing the case bit gives a character of a keyword exactly for that character and the one 32 above, its lower case |
| `KeywordHash.DeleteForUnderscore` | Example/Pods/WCDBOptimizedSQLCipher/keywordhash.h:156-165 | So that a keyword with an underscore is also spelled with a DEL in its place |
| `KeywordHash.AnyCaseOfSelect` | Example/Pods/WCDBOptimizedSQLCipher/keywordhash.h:156-159 | The slot of one keyword, in two cases |
| `KeywordHash.Compare` | Example/Pods/WCDBOptimizedSQLCipher/keywordhash.h:156-180 | The inner loop accepts exactly the inputs that spell the keyword up to the case bit |
| `KeywordHash.KeywordCode` | Example/Pods/WCDBOptimizedSQLCipher/keywordhash.h:156-313 | For tables meeting the predicate the lookup ends and agrees with linear search, for every input |
| `KeywordHash.SqliteKeywordCode` | Example/Pods/WCDBOptimizedSQLCipher/keywordhash.h:314-318 | The keyword's code, or the identifier code |
| `RepairBytes.ParseVarint64` | Example/Pods/SQLiteRepairKit/repair/sqliterk_util.c:109-132 | The decoding loop computes the sum of seven-bit groups up to the first byte without continuation bit, and refuses nine continuation bytes |
| `RepairBytes.DecodeFits` | Example/Pods/SQLiteRepairKit/repair/sqliterk_util.c:109-132 | A decoded value fits 63 bits, so no shift loses a bit |
| `RepairBytes.NoVarintExactly` | Example/Pods/SQLiteRepairKit/repair/sqliterk_util.c:109-132 | Exactly nine continuation bytes are damaged, and exactly fewer of them up to the end of the buffer run out of it |
| `RepairBytes.VarintRoundTrip` | Example/Pods/SQLiteRepairKit/repair/sqliterk_util.c:109-132 | Every value below 2^56 is decoded from its section 1.6 encoding, with its length, whatever follows |
| `RepairBytes.StandardExactly` | Example/Pods/SQLiteRepairKit/repair/sqliterk_util.c:120-131 | The decoder agrees with section 1.6 exactly on varints of at most eight bytes, and on those of nine whose first eight carry only zeros and whose last has no high bit |
| `RepairBytes.IntIsBigEndian` | Example/Pods/SQLiteRepairKit/repair/sqliterk_util.c:44-88 | The case-by-case integer decoder is the big-endian two's-complement number for lengths 1, 2, 3, 4, 6 and 8, and refuses every other length |
| `RepairBytes.IntRoundTrip` | Example/Pods/SQLiteRepairKit/repair/sqliterk_util.c:44-88 | It inverts the encoder over the whole signed range of each of these lengths |
| `RepairRecord.ParseColumns` | Example/Pods/SQLiteRepairKit/repair/sqliterk_btree.c:423-483 | The record loop computes the recursive definition, for every payload |
| `RepairRecord.TypesAreFormat` | Example/Pods/SQLiteRepairKit/repair/sqliterk_btree.c:654-667 | For every serial type the reader takes the number of bytes and makes the value that the table of section 2.1 gives; types 10 and 11 are refused, negative ones are empty |
| `RepairRecord.FailureIsExact` | Example/Pods/SQLiteRepairKit/repair/sqliterk_btree.c:441-483 | For every payload and code: the loop fails with that code if and only if, after some trips, it stands where it cannot go on for that reason |
| `RepairRecord.AcceptedEnds` | Example/Pods/SQLiteRepairKit/repair/sqliterk_btree.c:441-483 | If the loop accepts, neither offset has passed its end |
| `RepairRecord.AcceptanceIsExact` | Example/Pods/SQLiteRepairKit/repair/sqliterk_btree.c:431-483 | The loop returns certain values if and only if the payload is a header size, serial types that fill the header exactly, and bodies of just the tabulated lengths that tile the rest, with those values |
| `RepairRecord.ReadingIsUnique` | Example/Pods/SQLiteRepairKit/repair/sqliterk_btree.c:431-483 | A record has one reading only |
| `RepairRecord.HeaderSizeIsFixed` | Example/Pods/SQLiteRepairKit/repair/sqliterk_btree.c:425-433 | The header size of the record writer counts its own varint correctly |
| `RepairRecord.RecordRoundTrip` | Example/Pods/SQLiteRepairKit/repair/sqliterk_btree.c:431-483 | Any record of at most 64MB written by section 2.1, with any storage class that may hold each value, is read back as its values |
| `RepairPages.LayoutIsSane` | Example/Pods/SQLiteRepairKit/repair/sqliterk_pager.c:185-276 | Whatever the header holds, the page size is at least 512 and at most 127 bytes of it are reserved |
| `RepairPages.LayoutIsExact` | Example/Pods/SQLiteRepairKit/repair/sqliterk_pager.c:185-243 | For every header: the defaults without the magic text, else the page size named if it is one of six and 4096 otherwise, and the reserved bytes named if fewer than 128 |
| `RepairPages.LayoutIsFormatExactly` | Example/Pods/SQLiteRepairKit/repair/sqliterk_pager.c:185-243 | On a header that the format allows the page size is the one it names if and only if that is at most 16384, and 4096 otherwise; the reserved bytes are those it names if and only if they are fewer than 128, and none otherwise |
| `RepairPages.TouchAllElsewhere` | Example/Pods/SQLiteRepairKit/repair/sqliterk_btree.c:387-400 | An overflow chain changes the statuses of its own pages only, and leaves none of them in checking, even one that was |
| `RepairPages.TouchAllIsExact` | Example/Pods/SQLiteRepairKit/repair/sqliterk_btree.c:387-400 | Each of them ends checked if it is a whole page, and invalid otherwise |
| `RepairPages.DiscardAllElsewhere` | Example/Pods/SQLiteRepairKit/repair/sqliterk.c:211-224 | Discarding a row sets all its overflow pages to discarded and no other page |
| `RepairPayload.LocalSizeBounds` | Example/Pods/SQLiteRepairKit/repair/sqliterk_btree.c:104-110 | The local part lies between the minimum and U-35 and is shorter than a spilled payload; in the surplus form the rest is a multiple of U-4; for every usable size a pager can have |
| `RepairPayload.FollowIsBounded` | Example/Pods/SQLiteRepairKit/repair/sqliterk_btree.c:382-421 | The chain loop touches at most ceil(rest/(U-4))+1 pages, all valid, even on a cyclic chain, and never copies past the payload |
| `RepairPayload.ChainRoundTrip` | Example/Pods/SQLiteRepairKit/repair/sqliterk_btree.c:382-421 | A chain laid out by section 1.7 is read back byte for byte, and the recorded pages are exactly the chain |
| `RepairPayload.SpillChains` | Example/Pods/SQLiteRepairKit/repair/sqliterk_btree.c:382-421 | The chain writer lays out any bytes on any distinct pages of the right number, and touches no other page |
| `RepairPayload.PayloadRoundTrip` | Example/Pods/SQLiteRepairKit/repair/sqliterk_btree.c:354-421 | Local bytes and chain together give back the payload |
| `RepairPayload.LeafCellRoundTrip` | Example/Pods/SQLiteRepairKit/repair/sqliterk_btree.c:292-324 | Parsing a written leaf cell returns its rowid and values and records exactly its overflow pages |
| `RepairChain.LocalIsFormat` | Example/Pods/SQLiteRepairKit/repair/sqliterk_btree.c:104-110 | For every payload size the number of local bytes is the one section 1.6 defines by its inequalities and congruence |
| `RepairChain.FollowIsExact` | Example/Pods/SQLiteRepairKit/repair/sqliterk_btree.c:382-421 | On any file the chain loop goes through exactly the pages that the links lead to, as long as they are pages of the file, can be read, and bytes are missing |
| `RepairChain.ChainBytesAreExact` | Example/Pods/SQLiteRepairKit/repair/sqliterk_btree.c:382-421 | And each byte of each page's share is copied to its place, and nothing else |
| `RepairChain.PayloadIsExact` | Example/Pods/SQLiteRepairKit/repair/sqliterk_btree.c:338-421 | On any file: when a payload is read, with which code it fails otherwise, and that it is made of local bytes, the chain's bytes, and zeros for what a broken chain does not deliver |
| `RepairChain.CellYieldsExactly` | Example/Pods/SQLiteRepairKit/repair/sqliterk_btree.c:292-324 | On any page of any file a cell yields certain values if and only if its two numbers can be read, its payload has at most 64MB and lies inside the page, and what is put together of it is a record of these values |
| `RepairWalk.DepthIsStable` | Example/Pods/SQLiteRepairKit/repair/sqliterk_btree.c:146-271 | A finished walk does not depend on how much recursion was allowed |
| `RepairHead.ViewIsExact` | Example/Pods/SQLiteRepairKit/repair/sqliterk_btree.c:163-227 | On every whole page, by its bytes: it is damaged if and only if its type is none of four or its number of cells is not positive or too large; otherwise which kind of page it is, with which cell pointers and which children |
| `RepairHead.DamagedHeadIsMarked` | Example/Pods/SQLiteRepairKit/repair/sqliterk_btree.c:172-191 | A page with a damaged head ends in status damaged with that code, with no rows, and nothing else changes |
| `RepairHead.SkippedLeafIsMarked` | Example/Pods/SQLiteRepairKit/repair/sqliterk_btree.c:238-249 | A leaf of an index, or of a system table other than sqlite_master, ends checked and gives no rows |
| `RepairHead.UnreadablePage` | Example/Pods/SQLiteRepairKit/repair/sqliterk_btree.c:146-170 | A page that the file cuts short ends invalid; a number outside of the file is refused and changes nothing |
| `RepairHead.IndexInteriorIsMisread` | Example/Pods/SQLiteRepairKit/repair/sqliterk_btree.c:183-227 | On an interior page of an index as the format has it the walk never sees the format's children: its array is read from two entries too early, so that it sees one child fewer, and those of the last two cells and the right-most one not at all |
| `RepairDamage.LeafIsExact` | Example/Pods/SQLiteRepairKit/repair/sqliterk_btree.c:275-333 | On any file and for every callback a leaf gives the rows of its cells in order up to the first cell that fails or row that is not taken, and answers with that one's code |
| `RepairDamage.StatusIsExact` | Example/Pods/SQLiteRepairKit/repair/sqliterk.c:197-224 | What a cell does to the status of every page: refused rows discard their pages, other overflow pages end checked or invalid, and nothing else changes |
| `RepairDamage.SurvivorsAreDelivered` | Example/Pods/SQLiteRepairKit/repair/sqliterk_btree.c:232-249 | Repair: from a tree in which any pages and cells are damaged, and overflow chains run anywhere, exactly the rows of all cells before the first bad one of their leaf are delivered, in order |
| `RepairWalk.PageKeeps` | Example/Pods/SQLiteRepairKit/repair/sqliterk.c:272-312 | On every file and for every callback, a finished page leaves the interior pages in checking as it found them, but for those that a leaf at or below it has in an overflow chain |
| `RepairStack.StackIsChecking` | Example/Pods/SQLiteRepairKit/repair/sqliterk.c:272-281 | At every moment of every run on every file, an interior page in checking is on the recursion stack or was so before the walk, and a page of the stack is in checking, and on it only once, unless a leaf that was walked since from a child further left has it in an overflow chain |
| `RepairStack.StackIsExact` | Example/Pods/SQLiteRepairKit/repair/sqliterk.c:272-281 | If no page of the stack is freed in this way, the interior pages in checking are exactly those of the stack, and none is on it twice |
| `RepairCancel.StackIsAllChecking` | Example/Pods/SQLiteRepairKit/repair/sqliterk.c:272-312 | The same for pages of all kinds, as long as the callback has not asked to stop |
| `RepairEnds.WalkTerminates` | Example/Pods/SQLiteRepairKit/repair/sqliterk_btree.c:146-271 | The walk terminates on arbitrary, even cyclic, child pointers, from any statuses and for every callback, if on each loop of child pointers is a page that no step of the loop frees, a step being able to free what the leaves below the children further left have in their overflow chains; with a bound on the levels |
| `RepairEnds.StackIsBounded` | Example/Pods/SQLiteRepairKit/repair/sqliterk_btree.c:232-237 | Under that condition the recursion is never deeper than the bound |
| `RepairEnds.LevelsOfPlainFiles` | Example/Pods/SQLiteRepairKit/repair/sqliterk_btree.c:232-237 | The bound is the number of interior pages if no loop of child pointers frees its first page |
| `RepairEndless.TrapHolds` | Example/Pods/SQLiteRepairKit/repair/sqliterk_btree.c:232-237 | A loop that frees all its pages, each of them once on it and with only leaves before its child, is never left if the callback takes all rows: no number of levels is enough, wherever the loop is in the file |
| `RepairEndless.EndsExactly` | Example/Pods/SQLiteRepairKit/repair/sqliterk_btree.c:146-271 | On files whose interior pages have at most one interior child each, and for a callback that takes all rows, the walks of all pages end if and only if the condition of the termination theorem holds |
| `RepairCancel.CancelReportedExactly` | Example/Pods/SQLiteRepairKit/repair/sqliterk_btree.c:232-239 | On any file the walk of a page reports a cancel if and only if the page is a leaf and the callback asked for one; it was then at the last row. An interior page that was begun always answers OK |
| `RepairCancel.CancelStopsSiblings` | Example/Pods/SQLiteRepairKit/repair/sqliterk_btree.c:232-237 | Behind a child that reports a cancel no sibling is walked |
| `RepairCancel.CancelledStaysChecking` | Example/Pods/SQLiteRepairKit/repair/sqliterk.c:284-312 | A leaf that was cancelled stays in checking, unless it has itself in an overflow chain |
| `RepairCancel.OutputStopsExactly` | Example/Pods/SQLiteRepairKit/repair/sqliterk_output.cpp:618-670 | With a callback that asks to stop, the output stops and rolls back if the table's root page is a leaf, and otherwise commits and goes on with the next table |
| `RepairCancel.CommitsDespiteCancel` | Example/Pods/SQLiteRepairKit/repair/sqliterk_output.cpp:618-670 | An input for that: two rows under an interior root, the second one cancelled; the first is committed and the output does not stop |
| `RepairLoop.NeverEnds` | Example/Pods/SQLiteRepairKit/repair/sqliterk_btree.c:387-400 | A three-page file on which the walk needs more than any number of levels, because an overflow chain takes an interior page out of checking that is its own child |
| `RepairLoop.LoopFreesItself` | Example/Pods/SQLiteRepairKit/repair/sqliterk_btree.c:387-400 | That file violates the condition of the termination theorem |
| `RepairLoop.OtherFileEnds` | Example/Pods/SQLiteRepairKit/repair/sqliterk_btree.c:387-400 | A file that has the same two children in the other order meets it, though the same chain runs through the same interior page, and its walk ends |
| `RepairSafety.WalkAddsGenuineRows` | Example/Pods/SQLiteRepairKit/repair/sqliterk_btree.c:275-333 | On any file a walk only adds rows, each the record of an actual cell of an actual leaf table page |
| `RepairSafety.RefusedRowDiscards` | Example/Pods/SQLiteRepairKit/repair/sqliterk.c:207-224 | A refused row discards its page and overflow pages and ends its leaf |
| `RepairSafety.StatusTellsResult` | Example/Pods/SQLiteRepairKit/repair/sqliterk.c:284-312 | Unless it was cancelled the status a page is left in tells the result of parsing it, even if a row of it was refused |
| `RepairTree.LeafIsSeen` | Example/Pods/SQLiteRepairKit/repair/sqliterk_btree.c:183-209 | On a leaf table page as the format has it the code sees the format's cell pointers |
| `RepairTree.InteriorIsSeen` | Example/Pods/SQLiteRepairKit/repair/sqliterk_btree.c:222-227 | On an interior page it sees the format's children exactly if bytes 8 to 11 name the right-most one, which holds for every page but the first |
| `RepairTree.TreeDelivers` | Example/Pods/SQLiteRepairKit/repair/sqliterk_btree.c:202-249 | On a well-formed tree of non-empty table pages the rows delivered are exactly the in-order concatenation of the leaf cells, and exactly the pages of the tree, overflow pages included, end up checked |
| `RepairTree.InOrderAscends` | Example/Pods/SQLiteRepairKit/repair/sqliterk_btree.c:232-237 | Rows of an ordered tree come in strictly ascending rowid order |
| `RepairTree.IntactTableRecovered` | Example/Pods/SQLiteRepairKit/repair/sqliterk_btree.c:146-271 | Both together, from the root of an intact table |
| `RepairTree.WrittenCellHolds` | Example/Pods/SQLiteRepairKit/repair/sqliterk_btree.c:292-324 | Cells written by the format are the cells such trees are made of |
| `RepairExample.ExampleRecovered` | Example/Pods/SQLiteRepairKit/repair/sqliterk_btree.c:146-271 | The assumptions of the tree theorem can be met: a concrete file with an interior root and two leaves, whose two rows are recovered in order |
| `RepairParser.Pager.constructor` | Example/Pods/SQLiteRepairKit/repair/sqliterk_pager.c:114-121 | All pages start unchecked |
| `RepairParser.Pager.SetStatus` | Example/Pods/SQLiteRepairKit/repair/sqliterk_pager.c:554-566 | Sets the status of a valid page and ignores all other numbers |
| `RepairParser.Pager.GetStatus` | Example/Pods/SQLiteRepairKit/repair/sqliterk_pager.c:568-575 | The status, or invalid for a number out of range |
| `RepairParser.Pager.GetParsedPageCount` | Example/Pods/SQLiteRepairKit/repair/sqliterk_pager.c:577-590 | The number of pages in status checked |
| `RepairParser.Parser.OnParseColumn` | Example/Pods/SQLiteRepairKit/repair/sqliterk.c:197-224 | The row callback and the discarding loop |
| `RepairParser.Parser.ReadChain` | Example/Pods/SQLiteRepairKit/repair/sqliterk_btree.c:382-421 | The chain loop fills the buffer from the local part on with the chain's bytes and leaves the rest of it alone |
| `RepairParser.Parser.LoadPayload` | Example/Pods/SQLiteRepairKit/repair/sqliterk_btree.c:348-421 | The payload buffer holds local bytes, chain bytes and zeros |
| `RepairParser.Parser.ParsePayload` | Example/Pods/SQLiteRepairKit/repair/sqliterk_btree.c:338-493 | Payload, record and callback in sequence, with the code of the first that fails |
| `RepairParser.Parser.ParseCellArray` | Example/Pods/SQLiteRepairKit/repair/sqliterk_btree.c:275-333 | The cell loop stops at the first error |
| `RepairParser.Parser.LoadCellPointers` | Example/Pods/SQLiteRepairKit/repair/sqliterk_btree.c:163-209 | Page type, cell count and pointer array with their error cases |
| `RepairParser.Parser.LoadChildren` | Example/Pods/SQLiteRepairKit/repair/sqliterk_btree.c:211-227 | The child page numbers, with the right-most one for table pages |
| `RepairParser.Parser.ParsePage` | Example/Pods/SQLiteRepairKit/repair/sqliterk_btree.c:146-271 | The recursive method leaves the statuses, rows and code of the walk, for every run that ends |
| `RepairOutput.OutputConserves` | Example/Pods/SQLiteRepairKit/repair/sqliterk_output.cpp:618-670 | Over any run BEGIN and COMMIT or ROLLBACK alternate and none is left open, every counted row and CREATE statement moves one counter, and all successes are durable unless a walk was cancelled, when at most 255 are lost |
| `RepairOutput.WholeOutputConserves` | Example/Pods/SQLiteRepairKit/repair/sqliterk_output.cpp:584-718 | The same for a whole output, the CREATE statements of the indexes included; it answers OK exactly if it was not cancelled and something is in the database |
| `RepairOutput.CancelledExactly` | Example/Pods/SQLiteRepairKit/repair/sqliterk_output.cpp:618-718 | The output is cancelled if and only if the flag is seen before some table, a walk reports a cancel, or the flag is seen before some entry of the index loop |
| `RepairOutput.LostExactly` | Example/Pods/SQLiteRepairKit/repair/sqliterk_output.cpp:541-549 | A cancelled walk costs exactly the rows of that table since the last commit, of which there is one whenever the number of successes is a multiple of 256 |
| `RepairOutput.TurnedAway` | Example/Pods/SQLiteRepairKit/repair/sqliterk_output.cpp:412-426 | The answers of the row callback, and that a row which the cancel flag or the user's callback turns away changes nothing |
| `RepairOutput.RejectedByValue` | Example/Pods/SQLiteRepairKit/repair/sqliterk_output.cpp:450-518 | A row is rejected if and only if it has too many values, a number for a column of text, or a NULL where none is allowed |
| `RepairOutput.WholeRowIsBound` | Example/Pods/SQLiteRepairKit/repair/sqliterk_output.cpp:457-518 | A row that lacks no column is inserted as it is stored, with the rowid for a NULL in the key column |
| `RepairOutput.Output.OnParseColumn` | Example/Pods/SQLiteRepairKit/repair/sqliterk_output.cpp:408-549 | The row callback: binding of stored values and defaults, rejection of misfits, counters, and a commit every 256 successes |
| `RepairOutput.Output.OutputTables` | Example/Pods/SQLiteRepairKit/repair/sqliterk_output.cpp:618-670 | The loop over the tables of sqlite_master |
| `RepairOutput.Output.OutputAll` | Example/Pods/SQLiteRepairKit/repair/sqliterk_output.cpp:584-718 | Both loops and the code returned |
| `RepairRecovery.IntactTableCounted` | Example/Pods/SQLiteRepairKit/repair/sqliterk_output.cpp:618-670 | Each row of an intact table in the file moves one counter of the output by one |
| `RepairOutput.StoredSurviveExactly` | Example/Pods/SQLiteRepairKit/repair/sqliterk_output.cpp:457-526 | All stored values of a row are inserted if and only if the default of the first column that the row lacks does not come to its last stored value, or is the same |
| `RepairOutput.BoundIsMeantExactly` | Example/Pods/SQLiteRepairKit/repair/sqliterk_output.cpp:457-526 | A row is inserted with the defaults of the columns it lacks if and only if, moreover, none of these columns has a default other than NULL |
| `RepairOutput.DefaultOverwrites` | Example/Pods/SQLiteRepairKit/repair/sqliterk_output.cpp:520-526 | An input for that: in t(a, b DEFAULT 5) the row (1), stored before b was added, is inserted as (5, NULL) |
| `RepairOutput.RejectedExactly` | Example/Pods/SQLiteRepairKit/repair/sqliterk_output.cpp:450-518 | A row that the definition of its table allows is rejected if and only if its INTEGER PRIMARY KEY, which is stored as NULL, is declared NOT NULL |
| `RepairRecovery.IntactTableWritten` | Example/Pods/SQLiteRepairKit/repair/sqliterk_output.cpp:408-549 | From the file to the database, for any definition of the table and whatever the database takes: of the rows of an intact table exactly those that pass the tests and are taken are inserted, once each and in rowid order; the others are counted as failed; none is rolled back |
| `RepairRecovery.IntactTableRestoredExactly` | Example/Pods/SQLiteRepairKit/repair/sqliterk_output.cpp:408-549 | In a database that takes all rows the table is restored as its definition has it if and only if its rows are allowed by the definition, have no key that is declared NOT NULL, and lack no column with a default; the last may be one that happens to be equal |
| `RepairRecovery.KeyedTableIsLost` | Example/Pods/SQLiteRepairKit/repair/sqliterk_output.cpp:487-500 | Of a table whose INTEGER PRIMARY KEY is declared NOT NULL no row is restored |
| `RepairMaster.InsideExactly` | Example/Pods/SQLiteRepairKit/repair/sqliterk_output.cpp:852-863 | The writes to the 520-byte buffer stay inside it if and only if the two names have at most 508 bytes together |
| `RepairMaster.LongNamesOverrun` | Example/Pods/SQLiteRepairKit/repair/sqliterk_output.cpp:844-863 | A row with two names of 255 bytes passes the length test and does not fit |
| `RepairMaster.SavesExactly` | Example/Pods/SQLiteRepairKit/repair/sqliterk_output.cpp:817-849 | Which rows are saved: complete ones whose name does not start with sqlite_ and whose type is table or index; and which of them stop the saving |
| `RepairMaster.EntityBytes` | Example/Pods/SQLiteRepairKit/repair/sqliterk_output.cpp:851-863 | The ten bytes in front of the texts of an entity |
| `RepairMaster.SaveMaster` | Example/Pods/SQLiteRepairKit/repair/sqliterk_output.cpp:817-957 | The file holds the kept rows in order and their number, put together in the buffer; what a failed save leaves behind is refused on loading |
| `RepairMaster.LoadMaster` | Example/Pods/SQLiteRepairKit/repair/sqliterk_output.cpp:1087-1134 | The loading loop computes the recursive definition |
| `RepairMaster.EntityRoundTrip` | Example/Pods/SQLiteRepairKit/repair/sqliterk_output.cpp:851-863 | An entity is read back from its layout, with what follows it untouched |
| `RepairMaster.MasterRoundTrip` | Example/Pods/SQLiteRepairKit/repair/sqliterk_output.cpp:1087-1134 | Loading a file that was saved without an overrun yields exactly the kept rows on the tables asked for, under their names, for any filter |
| `RepairMaster.LoadedExactly` | Example/Pods/SQLiteRepairKit/repair/sqliterk_output.cpp:1087-1134 | What is loaded from a saved file under a name: the last row of that name that was saved and asked for, or an empty entry if only the name was asked for, or nothing |
| `RepairMaster.UnreadableExactly` | Example/Pods/SQLiteRepairKit/repair/sqliterk_output.cpp:1093-1118 | When an entity cannot be read: it is cut short, or one of its texts is not terminated |
| `RepairMaster.SpoiltExactly` | Example/Pods/SQLiteRepairKit/repair/sqliterk_output.cpp:1087-1134 | A file is refused if and only if one of the entities that it counts cannot be read |
| `RepairMaster.SaveEndsExactly` | Example/Pods/SQLiteRepairKit/repair/sqliterk_output.cpp:844-863 | Saving goes through if and only if every row worth saving is short enough and fits the buffer; otherwise the first that is not decides how it ends |

## Left out

- The concrete tables: the LALR tables of parse.c and the 136 keywords are parameters; that the shipped literals meet `LemonSoundness.Valid`, `LemonConverse.Regular` and `KeywordHash.Valid` is not proved in Dafny, for `lemon_annotation.py` computes the first two outside of it.
- Semantic actions of the grammar: a value on the parser stack is its derivation, of which every action is a function. The growth of the stack for `YYSTACKDEPTH<=0` and the error-recovery variants are compiled out.
- LemonConverse.EngineIsPlain: asks that the last stack settles, that is, that its pending reduction leads to a state; for valid tables LemonFaithful.EveryRunAgrees asks nothing.
- RepairEnds.WalkTerminates: on files with branches of interior pages the condition is sufficient only: a loop that frees itself is harmless where the leaves that would free its pages are not reached in time. RepairEndless.EndsExactly has it exact for files without branches. The recursion is modelled with a depth limit, and the theorem says which limit is enough.
- RepairParser.Parser.ParsePage: for runs that end; the others have no result.
- Reads past the end of a buffer, which C leaves undefined, end the parse of that cell or page with the code `Outside`. A value the C program never wrote is `Unset`.
- RepairTree.TreeDelivers: non-empty table pages, cell pointers below 32768, and an interior root other than page 1, where the code departs from the format.
- Index b-trees: their pages give no rows; what the walk makes of a whole one, whose interior pages it misreads, is left to `RepairHead.ViewIsExact`.
- The loop of sqliterkParse over all pages, and the recursion into tables from rows of sqlite_master, which the output switches off.
- Widths: offsets, lengths and counters are unbounded except where the code truncates a value on purpose; a file of more than 2 GB, a statement whose edit buffer exceeds 32 bits and 2^32 counted rows are outside the model.
- RenameText.RenameRoundTrip: tokens of length zero, which no parser produces, are excluded. It is stated for any new name; the callers ask for quoting unless the new name was written without quotes, so that they do not meet the names for which it fails.
- RenameRead.PlainReadsBack: keywords are read like other names.
- RenameEdit.EditSql: the lists of tokens come from steps as in `RenameHistory`; the name resolution and walkers of alter.c that issue the steps are not modelled.
- RepairMaster.MasterRoundTrip: the deflate and RC4 layers are the identity, and the key-derivation salt in the header is not modelled.
- RepairOutput.OutputConserves: BEGIN, COMMIT and ROLLBACK are taken to succeed.
- RepairOutput.Output.OnParseColumn: takes the affinity of a column and the value of its DEFAULT clause as given; how `init_insert` gets them from the declaration is not modelled.
- The growable value array of sqliterk_values.c is a sequence; it would add only easy members.
- Running out of memory, logging, file I/O, SQLCipher, and the timing of the cancel flag, which is a parameter.
- Floating-point values are carried as their eight raw bytes.
- The Objective-C and Swift files of the SDK hold no logic of this kind.
