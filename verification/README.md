# Verified models of the placeholder tool, the Account persistence layer and the audit-exception checker

Dafny models of four parts of the repository, with proofs of what they promise. `dafny verify
dfyconfig.toml` checks everything.

**The SQL placeholder tool** (`backend/sql_placeholder_audit.go`). `Placeholders` holds the scanner
behind the regular expression, the rewrite of `$n` to `?`, and two meanings of a query text: arguments
bound by number and by position. `PlaceholderAudit` has the audit loop, `LiteralFolding` the constant
folding, the pruned walk over a syntax tree and the relation between rewriting the text of literals
(which the tool does) and rewriting the folded value (which the audit reasons about), `GoStrings` what
a literal's text stands for, `DynamicRewrite` the second mode and the laws of the two rewrites,
`Numerals` the captured numerals.

**Eager loading** (`backend/ent/account_query.go`, `backend/ent/authidentity_query.go`). `Selection`
and `NodeIndex` hold what all loaders share: rows filtered by an `IN` predicate and an index from ID to
node. `AccountQuery` loads the many-to-one and one-to-many edges of heap-allocated nodes,
`AccountGroups` the many-to-many edge (`GroupOrder` is about its order), `AuthIdentityQuery` the edge over a nullable foreign key, and
`AccountSqlAll` runs a whole query with its column projection.

**Creating accounts** (`backend/ent/account_create.go`, `backend/ent/account.go`). `AccountEntity`
reads rows into entities, `AccountCreate` has defaults, validation and the row that is written, and
`BulkCreate` specifies the chain of mutators behind a bulk insert as a function over explicit state,
with an event trace. `AccountBulk` is the mutable builder, proved to follow it. `BulkEdits` says what a
bulk insert and the mutations hold in terms of the builders that were saved, and `AccountSaves` says it
for accounts. `BulkChecks` is about which inserts are sure to have passed validation, `BulkMarks` about
which mutations are marked done, `BulkHonesty` about marks without an insert, and `BulkChoices` carries
these results over to hooks that decide by what they see.

**The audit-exception checker** (`tools/check_pnpm_audit_exceptions.py`). `ExceptionParser` is the line
parser, `ExceptionCheck` the normalisation, the list of findings and the verdict. `ExceptionVerdict`
states the verdict and the errors over the fields of the input alone, `ExceptionOrder` how the verdict
depends on the order of a report, with `Sequences` and `Reordering` for the theory of permutations and
first occurrences that this needs. `ExceptionRun` puts a whole run together.

## What the proofs found

Each of these is stated by lemmas, with the exact condition under which the code does meet its purpose.

- The audit does not see gaps: `$2` alone passes and is still bound wrongly after the rewrite. The
  missing condition is that the last index is the number of placeholders.
- `strconv.Atoi` saturates and its error is ignored, so a decrease between numerals beyond the 64-bit
  range is not flagged; nothing else escapes the audit.
- The audit looks at folded values and the rewrite at the text of single literals. They agree exactly
  when no placeholder straddles a boundary between literals and none is written with an escape or broken
  by a carriage return in a raw literal: `"$1" + "0"` leaves the 0 behind, and in `"$" + "1"` and
  `"\x241"` the placeholder is missed.
- `check()` runs before the builder adopts the mutation that arrives, so a hook that passes on another
  mutation can get it inserted unchecked. Whether it can is decided by what the hooks pass on: every
  insert is checked exactly when the chain never gets that far or, for every builder, the mutation that
  arrives is held by some builder that checks it after the same edits. Hooks that only answer or pass
  on what they got, by whatever criterion, are safe.
- A mutation can be marked done without any insert, as when a hook of an inner builder answers without
  an error. Over all contents, checks and databases it cannot exactly when no hooks of the builders but
  the first make a success of an outcome that can stop the run further in.
- An inserted account is read back as it was created exactly when the JSON codec reads back its own text
  of each JSON field of that account.
- The groups of an account come in the order of the whole batch. They differ from the account's own
  query exactly when some row brings the account a group that stands before one it already has.
- When several node objects share an ID, only the last one receives the one-to-many and many-to-many
  edges.
- A vulnerability leaves no trace exactly when its `via` names no id, whatever its severity.
- Severities are compared at the first finding of each key, so the verdict can depend on the order of
  the report. Over all reorderings of the report, the lemmas say exactly when it can pass, when it can
  fail, and when both; for distinct packages only the order of the advisories can matter. A report that lists
  its advisory as high and as critical is a case.
- A dash alone on its line starts no record: a list written that way is read back as empty.

## Model

| member | source | states |
|---|---|---|
| Placeholders.FindAllCorrect | backend/sql_placeholder_audit.go:17 | the scanner's result is a leftmost, greedy, non-overlapping match list of the words of the regular expression |
| Placeholders.MatchListUnique | backend/sql_placeholder_audit.go:17 | every text has at most one such match list, so the search is fully determined |
| Placeholders.RewriteReplacesMatches | backend/sql_placeholder_audit.go:40 | the rewrite puts `?` for exactly the matches and keeps all other text; the captures are the numerals of the matches, in order |
| Placeholders.InOrderIsFaithful | backend/sql_placeholder_audit.go:40 | without a `?` of its own and with placeholders numbered 1, 2, 3, ..., binding the rewritten text by position equals binding the original by number, for arguments of every type and every count |
| Placeholders.FaithfulExactly | backend/sql_placeholder_audit.go:40 | that sufficient condition is also necessary: the two bindings agree on all argument lists if and only if it holds |
| Numerals.ValueInjective | backend/sql_placeholder_audit.go:17 | numerals without leading zeros denote equal numbers only if they are equal texts, so counting captures as text counts indices |
| PlaceholderAudit.Audit | backend/sql_placeholder_audit.go:66-69 | the loop over `seen`, `last` and `bad` flags a list if and only if some numeral text repeats or some neighbour pair decreases as Atoi sees it |
| PlaceholderAudit.AuditVerdict | backend/sql_placeholder_audit.go:66-69 | for numerals of every size: not flagged if and only if strictly increasing up to the int range and distinct beyond it |
| PlaceholderAudit.AuditRefinesStrictIncrease | backend/sql_placeholder_audit.go:66-69 | for numerals that fit an int: not flagged if and only if strictly increasing, although only neighbours are compared |
| PlaceholderAudit.AuditMissesExactly | backend/sql_placeholder_audit.go:66-69 | the previous row without its bound: the verdict is strict increase if and only if the list is not one that increases up to the int range and then decreases beyond it |
| PlaceholderAudit.HugeDecreaseIsNotFlagged | backend/sql_placeholder_audit.go:68 | a concrete such pair |
| PlaceholderAudit.RewriteIsFaithfulExactly | backend/sql_placeholder_audit.go:40-69 | the rewrite keeps the meaning of a text for all argument lists if and only if it has no `?`, is not flagged, and its last index is its number of placeholders |
| PlaceholderAudit.FlaggedIsNotFaithful | backend/sql_placeholder_audit.go:66-69 | a flag is never idle: for every flagged text some argument list shows the difference |
| PlaceholderAudit.GapIsNotFlagged | backend/sql_placeholder_audit.go:66-69 | the audit alone is not enough: `$2` is not flagged and not kept |
| LiteralFolding.MatchMonotone | backend/sql_placeholder_audit.go:28 | a match in either part survives concatenation |
| LiteralFolding.NothingBelowUnmatched | backend/sql_placeholder_audit.go:65-66 | descending below a foldable expression without a match audits nothing |
| LiteralFolding.WalkAuditsMaximalExactly | backend/sql_placeholder_audit.go:63-70 | the pruned walk audits exactly the foldable expressions that have a match and no foldable ancestor |
| LiteralFolding.AuditedAreDisjoint | backend/sql_placeholder_audit.go:63-70 | no audited expression contains another |
| LiteralFolding.AuditedOnce | backend/sql_placeholder_audit.go:63-70 | no expression is audited twice |
| LiteralFolding.LeafAuditedOnce | backend/sql_placeholder_audit.go:63-70 | every foldable node that holds a placeholder lies in exactly one audited expression |
| LiteralFolding.OccurrenceIsAudited | backend/sql_placeholder_audit.go:63-70 | every expression that occurs in the tree, folds and holds a placeholder stands inside an audited one |
| LiteralFolding.AuditedOccurs | backend/sql_placeholder_audit.go:63-70 | everything audited occurs in the tree, folds and holds a placeholder |
| LiteralFolding.FoldsExactly | backend/sql_placeholder_audit.go:19-33 | an expression folds if and only if nothing occurs in it but additions and string literals that can be unquoted |
| LiteralFolding.FoldsToLiterals | backend/sql_placeholder_audit.go:19-33 | its folded text is what its literals stand for, put together from left to right |
| LiteralFolding.AuditFile | backend/sql_placeholder_audit.go:63-71 | the recursive inspection with the audit loop prints exactly the lines of the specification, in its order; the indices it prints are those that a plain recursion over the fields of the syntax tree gives |
| LiteralFolding.ReportsExactly | backend/sql_placeholder_audit.go:63-71 | a line is printed if and only if its expression is maximal foldable and its captures are flagged |
| LiteralFolding.RewriteConcat | backend/sql_placeholder_audit.go:28-40 | two texts can be rewritten apart when no placeholder straddles the seam; otherwise rewriting them apart leaves a longer text |
| LiteralFolding.RewriteInsideQuotes | backend/sql_placeholder_audit.go:40 | rewriting a source file rewrites the body of a quoted literal as if it stood alone |
| LiteralFolding.FileIsRewrittenByLiterals | backend/sql_placeholder_audit.go:39-40 | rewriting a whole file rewrites every literal, and everything between them, on its own |
| GoStrings.TextOfUnits | backend/sql_placeholder_audit.go:23 | the body of a double-quoted literal is the concatenation of the characters and escapes it is read as |
| GoStrings.UnitsOfText | backend/sql_placeholder_audit.go:23 | and it can be read in no other way |
| GoStrings.LettersExactly | backend/sql_placeholder_audit.go:23 | the nine letters that can stand behind a backslash, each with its character, and no others |
| GoStrings.NumericEscapes | backend/sql_placeholder_audit.go:23 | for every code: the hexadecimal escapes with 2, 4 and 8 digits and the octal one stand for the character with that code; octal ends at 255, surrogates are refused |
| GoStrings.HexDigitsExactly | backend/sql_placeholder_audit.go:23 | the hexadecimal digits, in both cases |
| GoStrings.RewriteOfText | backend/sql_placeholder_audit.go:40 | the rewrite of a literal's text replaces exactly the placeholders written without escapes and leaves every escape whole |
| GoStrings.RewriteUnitsExactly | backend/sql_placeholder_audit.go:23-40 | what the rewritten text stands for is the rewritten value if and only if no placeholder of the value is written with an escape; otherwise it is longer |
| GoStrings.RewriteRawExactly | backend/sql_placeholder_audit.go:23-40 | for a raw literal, whose carriage returns are not part of its value: the same if and only if no placeholder of the value has one inside it |
| LiteralFolding.LiteralRewritesExactly | backend/sql_placeholder_audit.go:23-40 | for whole literals in both kinds of quotes: the rewritten text is a literal again, with the rewritten value under exactly these conditions |
| LiteralFolding.FoldCommutesExactly | backend/sql_placeholder_audit.go:19-40 | folding the rewritten literals equals rewriting the folded value if and only if no placeholder straddles a literal boundary, is written with an escape or is broken by a carriage return |
| LiteralFolding.CutNumberIsLeftOver | backend/sql_placeholder_audit.go:19-40 | the concrete sum `"$1" + "0"` folds to `$10` and is rewritten to `?0` |
| LiteralFolding.EscapedPlaceholderIsMissed | backend/sql_placeholder_audit.go:23-40 | the concrete literal `"\x241"` stands for `$1` and is not rewritten |
| LiteralFolding.CutPlaceholderIsMissed | backend/sql_placeholder_audit.go:19-69 | the concrete sum `"$" + "1"` is unflagged and without a gap, and still loses its meaning |
| LiteralFolding.ExpressionIsFaithfulExactly | backend/sql_placeholder_audit.go:19-69 | for a foldable expression with its literals rewritten one by one: meaning kept for all argument lists if and only if seam-free, with placeholders written plainly, without `?`, unflagged, and last index equal to the count |
| LiteralFolding.UnreportedExpressionKeepsItsMeaning | backend/sql_placeholder_audit.go:19-71 | scanner, folding, walk, audit and rewrite together: an expression missing from the report, seam-free, with placeholders written plainly and without a gap, binds after the rewrite as it did before |
| DynamicRewrite.VerbIsMarked | backend/sql_placeholder_audit.go:54 | text without a dollar sign stays as it is, and every `$%d` becomes `?/*%d*/` |
| DynamicRewrite.DynamicIdempotent | backend/sql_placeholder_audit.go:52 | the dynamic rewrite leaves no occurrence behind and is idempotent |
| DynamicRewrite.DynamicUndoneExactly | backend/sql_placeholder_audit.go:52 | the reverse replacement restores the text if and only if it did not contain the marked form |
| DynamicRewrite.RewriteIdempotent | backend/sql_placeholder_audit.go:40 | the numbered rewrite leaves no match behind and is idempotent |
| DynamicRewrite.RewritesCommute | backend/sql_placeholder_audit.go:40-52 | the two modes give the same text in either order |
| DynamicRewrite.DynamicKeepsVerbs | backend/sql_placeholder_audit.go:52 | the format directives of the text, with their modifiers and verbs, and their order do not change; only an invalid verb `$` can become an invalid `?` |
| DynamicRewrite.DirectiveParsed | backend/sql_placeholder_audit.go:54 | the directives that the previous row speaks of are read as they are written: flags, width, precision, verb |
| Selection.BatchedIsNaive | backend/ent/account_query.go:648-650 | the rows of the batched query that belong to one parent are those of its own query, in the same order |
| Selection.EveryRowHandedOutOnce | backend/ent/account_query.go:655-662 | conservation: the lists handed out have together as many rows as the batch |
| NodeIndex.IndexById | backend/ent/account_query.go:636-644 | the loop yields every ID for the IN predicate and an index that holds the last node of each ID |
| NodeIndex.RoutedExactly | backend/ent/account_query.go:635-664 | routing the batch through the index gives the last node of an ID exactly its own query's rows in order, and the nodes it replaced nothing |
| AccountQuery.QuerySpecColumns | backend/ent/account_query.go:708-727 | the ID comes first and once, then the requested columns in their order, then the foreign key that the proxy edge needs; which fields are selected is given exactly, all of them when none is asked for |
| AccountQuery.LoadProxy | backend/ent/account_query.go:603-634 | every node, also among several with one ID or key, ends with the proxy that its own lookup finds and is untouched otherwise; no error return is reached |
| AccountQuery.KeysRequestedOnce | backend/ent/account_query.go:604-615 | the request names exactly the keys of the nodes, each once |
| AccountQuery.ProxyByKeyFinds | backend/ent/account_query.go:619-623 | under a primary key the lookup finds a row if and only if it is visible and has the key |
| AccountQuery.LoadUsageLogs | backend/ent/account_query.go:635-664 | in place: the last node of each ID ends with exactly its own query's rows in order, replaced nodes with none; no error return is reached |
| AccountQuery.LoadAccountGroups | backend/ent/account_query.go:665-694 | the same for the rows of the join table as an edge of their own |
| AccountGroups.WrappedAssignAligned | backend/ent/account_query.go:566-585 | with the extra leading column cut off on both sides, columns and values stay aligned and both keys are read from the right places |
| AccountGroups.ReadRows | backend/ent/account_query.go:566-590 | reading the join through the wrapped Assign yields every group once, in order of first appearance, and for each group exactly the accounts with a row for it |
| AccountGroups.LoadGroups | backend/ent/account_query.go:542-602 | in place, for every iteration order of the waiting set: the last node of each ID ends with the distinct groups joined to it in first-appearance order of the stream; no error return is reached |
| AccountGroups.BatchedGroupsAgree | backend/ent/account_query.go:542-602 | that list has every group once and is a permutation of what the account's own query finds, even with duplicate join rows |
| GroupOrder.OrderCanDiffer | backend/ent/account_query.go:592-600 | a concrete join on which the two orders differ |
| GroupOrder.OrderDiffersExactly | backend/ent/account_query.go:592-600 | the two lists differ if and only if there are rows i, j, k in this order such that k is the account's first row of its group, i is of that group, and j is a row of the account whose group does not occur before i |
| GroupOrder.OrderedBatchedGroupsEqual | backend/ent/account_query.go:592-600 | so when the rows of each group are adjacent in the stream, the lists are equal, order included |
| AccountSqlAll.SqlAll | backend/ent/account_query.go:480-540 | every field of every node is what its row stores where it is selected, and nil or zero otherwise; for every selection of fields all four edges of every node are the same function of the stored rows, and no error is reached |
| AccountSqlAll.KeysSurviveProjection | backend/ent/account_query.go:716-727 | the ID and foreign key read through any projection that selects them are the stored ones |
| AccountSqlAll.RowKeysStored | backend/ent/account.go:168-387 | those keys are the integers in the cells of the row |
| AccountSqlAll.ProxyOrErrAfterLoading | backend/ent/account.go:113-122 | after loading, the accessor never says NotLoaded and says NotFound if and only if the key is nil or no row with it is visible |
| AccountSqlAll.ProxyOrErrExactly | backend/ent/account.go:113-122 | for a node of any query: NotLoaded if and only if the edge was not asked for; a proxy is found if and only if it was and the lookup of the stored key finds that proxy, under a primary key the visible one with that ID |
| AuthIdentityQuery.LoadAdoptionDecisions | backend/ent/authidentity_query.go:559-591 | over a nullable key: neither error is reachable and every node ends with its own query's rows in order |
| AuthIdentityQuery.AssignDecisions | backend/ent/authidentity_query.go:578-589 | for any answer: the loop fails if and only if some row has no node, with the error of the first such row and with exactly the rows before it handed out |
| AuthIdentityQuery.DecisionsConserved | backend/ent/authidentity_query.go:559-591 | every decision of the batch is handed out once |
| AccountEntity.AssignValues | backend/ent/account.go:168-387 | assigning column by column in place gives the specified entity and selected values, or the specified error |
| AccountEntity.SelectedHoldsLast | backend/ent/account.go:382-383 | a dynamically selected name keeps what was scanned for its last column, and no other name is kept |
| AccountEntity.ScanTargetsAreExpected | backend/ent/account.go:143-387 | the two switches agree: each column is scanned into the type that its assignment demands |
| AccountEntity.DecodeReadsSelectedColumns | backend/ent/account.go:143-387 | reading never meets a type mismatch, for any columns in any order, and sets exactly the selected fields to what the row stores |
| AccountEntity.FieldIsRead | backend/ent/account.go:20-387 | field by field: the stored value where the column is selected and not NULL; otherwise a pointer is nil and another field has the zero value of its type |
| AccountEntity.ScanTargetsFitTheStruct | backend/ent/account.go:22-92 | each scan target takes exactly the values that the field of the struct can hold |
| AccountEntity.ColumnsInOrder | backend/ent/account.go:22-92 | every field is a column of the query, once, in the order of the struct |
| AccountEntity.UnreadableStops | backend/ent/account.go:225-247 | a text that cannot be unmarshalled ends the reading with an error |
| AccountCreate.Defaults | backend/ent/account_create.go:472-526 | the fields after defaults(), also when it stops early at a nil default function, and exactly when it does |
| AccountCreate.DefaultsSetExactly | backend/ent/account_create.go:472-526 | set fields stay, every other field with a default gets it, nothing else changes, and only a missing default function can stop it |
| AccountCreate.DefaultsByColumn | backend/ent/account_create.go:472-526 | column by column: four fields with a default function, each behind the ones before it, and six with a default value behind all of them |
| AccountCreate.CheckReportsFirst | backend/ent/account_create.go:529-595 | the error is the violation of the first violated rule in the order of the source |
| AccountCreate.CheckExactly | backend/ent/account_create.go:529-595 | the first-violation cascade passes if and only if every required field is set and every set field with a validator is valid |
| AccountCreate.CheckPassesExactly | backend/ent/account_create.go:529-595 | column by column: passes if and only if the thirteen required fields are set and the five validated ones are valid where they are set |
| AccountCreate.CheckReportsInOrder | backend/ent/account_create.go:529-595 | the error is that of the first column, in the order of the schema, that is missing or invalid |
| AccountCreate.CheckCoversDefaults | backend/ent/account_create.go:472-595 | ignoring the error of defaults() is safe: what passes check() has every field that has a default |
| AccountCreate.CreateSpec | backend/ent/account_create.go:615-773 | node and spec are written from the same mutation, set fields only, in column order |
| AccountCreate.EveryColumnIsWritten | backend/ent/account_create.go:615-740 | createSpec leaves no settable column out |
| AccountCreate.SpecFieldsInOrder | backend/ent/account_create.go:615-740 | the fields of the insert are what the mutation has set, the proxy aside, in the order of the schema |
| AccountCreate.RowStores | backend/ent/account_create.go:615-773 | the inserted row is exactly the encoded mutation and the id, unset columns NULL |
| AccountCreate.CreateReadRoundTrip | backend/ent/account_create.go:615-773 | reading the inserted row through all columns in any order yields the node that createSpec returned if and only if the codec reads back each JSON field of the mutation |
| AccountCreate.RowDecodes | backend/ent/account.go:143-387 | reading an inserted row fails if and only if the codec cannot read the non-empty text of some JSON field |
| AccountCreate.SomeCodecReadsBack | backend/ent/account_create.go:615-773 | for every mutation there is a codec that reads back its JSON fields |
| BulkCreate.InsertAtMostOnce | backend/ent/account_create.go:1976-2018 | from any place of the chain and for any hooks that call inward at most once: at most one batch insert, issued if and only if all hooks deliver an account mutation and no check rejects one |
| BulkCreate.NoInsertNothingDone | backend/ent/account_create.go:1985-2012 | with hooks that report failures: without a successful insert the call fails and no mutation is marked done |
| BulkCreate.InsertedThenDone | backend/ent/account_create.go:1991-2012 | after a successful insert the call fails only if some hook turns an inner success into an error, and every builder from there on is marked |
| BulkCreate.InsertIsComplete | backend/ent/account_create.go:1988-1997 | whenever the insert is issued, every spec is filled, in the order of the builders, from the fields that the trace records for it |
| BulkCreate.InsertedWasChecked | backend/ent/account_create.go:1985-1990 | when every builder's own mutation, or none, comes out of its hooks, everything that is filled in has passed check() |
| BulkCreate.InsertIsNested | backend/ent/account_create.go:1990-2017 | the trace of a success: all places from the outside in, one insert, the same places in exactly the reverse order |
| BulkCreate.InsertedIsSaved | backend/ent/account_create.go:2006-2012 | after a successful insert every node carries the ID that the database gave its spec and every mutation is done |
| BulkCreate.SwappedMutationIsNotChecked | backend/ent/account_create.go:1985-1990 | a hook that passes another mutation gets it inserted whether or not it would pass check() |
| BulkChecks.SaveByStages | backend/ent/account_create.go:1979-1997 | for any hooks that deliver: the insert is issued if and only if every builder's own mutation passes check() behind its hooks, and then holds the fields of the mutations that came out of the hooks |
| BulkChecks.InsertIsCheckedExactly | backend/ent/account_create.go:1985-1997 | for any number of builders: over all contents, edits and checks, everything inserted has passed check() if and only if the hooks never deliver or each arriving mutation is held by a builder that checks it after the same edits |
| BulkChecks.UncheckedInsert | backend/ent/account_create.go:1985-1997 | otherwise there are contents, edits and a check under which something unchecked is inserted |
| BulkChecks.LaterBuilderVouches | backend/ent/account_create.go:1985-1997 | another builder's mutation arriving is harmless when that builder checks it unedited |
| BulkMarks.SaveResults | backend/ent/account_create.go:1979-2024 | for all hooks and contents: the outcome of Save, whether the insert succeeds, and exactly which builders are marked done, folded from the inside out over the hooks |
| BulkMarks.MarkedWithoutInsertExactly | backend/ent/account_create.go:1991-2012 | for given contents: something is marked done without a successful insert if and only if there is none and the run gets to a builder after the first whose hooks fold what stops it to a success |
| BulkMarks.AnswerMarksOutside | backend/ent/account_create.go:1991-2012 | the concrete chain of two builders whose inner hook answers: Save succeeds, nothing is inserted, the outer mutation is marked |
| BulkHonesty.MarksAreHonestExactly | backend/ent/account_create.go:1979-2012 | for given hooks, over all contents, edits, checks and databases: nothing is ever marked without a successful insert if and only if no outcome that can stop the run comes out of the hooks of a builder after the first as a success |
| BulkHonesty.ReportingHooksAreHonest | backend/ent/account_create.go:1991-2012 | hooks of the inner builders that report every failure meet that condition; those of the first builder are free |
| BulkChoices.RunIsFixed | backend/ent/account_create.go:1976-2018 | from any place of the chain: when every hook decides what to do by the mutation and all that has happened when the run gets to it, the run is that of one fixed chain of their decisions |
| BulkChoices.SaveIsFixed | backend/ent/account_create.go:1969-2024 | so whatever holds of Save for all fixed chains holds for hooks that decide by what they see |
| BulkChoices.ChosenInsertIsCheckedExactly | backend/ent/account_create.go:1985-1997 | for hooks that choose whether to answer and which mutation to pass on: every insert is checked if and only if every chain of possible choices is vouched for |
| BulkChoices.ChosenMarksAreHonestExactly | backend/ent/account_create.go:1979-2012 | for hooks that also choose their answers and what they make of the inner outcome: nothing is marked done without a successful insert if and only if every chain of possible choices is honest |
| BulkChoices.ValidatingHooksAreSafe | backend/ent/account_create.go:1985-1997 | hooks that answer or pass on what they got, by whatever criterion, get nothing unchecked inserted |
| AccountBulk.AccountCreateBulk.Run | backend/ent/account_create.go:1980-2017 | the in-place mutator, over the shared slots, does what the specification function says |
| AccountBulk.AccountCreateBulk.Save | backend/ent/account_create.go:1969-2024 | a pending error is returned and nothing changes, nor does an empty bulk change anything; otherwise defaults for every builder with errors ignored, then the chain from the first mutator: the whole new state and the outcome |
| AccountBulk.SaveInsertsOnceAndCompletely | backend/ent/account_create.go:1969-2024 | per Save at most one insert, exactly when all hooks deliver and nothing is rejected, with every builder's spec in order |
| AccountBulk.FailedSaveMarksNothing | backend/ent/account_create.go:1969-2024 | with hooks that report failures: a rejection means no insert, and without a successful insert Save fails and nothing is marked, also when other hooks fail after a success |
| AccountBulk.SaveSucceedsExactly | backend/ent/account_create.go:1969-2024 | with hooks that also keep successes: Save succeeds if and only if the insert did |
| AccountBulk.SuccessfulSaveIsComplete | backend/ent/account_create.go:1969-2024 | after success every builder has a done mutation and its node under the ID that the database gave, 0 where it gave none, and a mutation that only it holds points to that node |
| BulkEdits.InsertHoldsTheBuilders | backend/ent/account_create.go:1976-2018 | end to end: with hooks that pass on the mutation they got and a mutation object per builder, the insert holds for every builder, in order, the spec of its own fields with its defaults and the edits of its hooks, hook 0 first |
| BulkEdits.MutationsAreEdited | backend/ent/account_create.go:1976-2018 | after a successful insert the mutation of every builder has the edits of its own hooks, those before and those after the inner call, and no others |
| AccountSaves.AccountsAreSaved | backend/ent/account_create.go:1969-2024 | for accounts, end to end: every node is that of the fields that were set, the defaults and the edits of the hooks, under its ID; its mutation is done, points to it and has all edits |
| AccountSaves.AccountsAreInserted | backend/ent/account_create.go:1976-2018 | the insert holds the specs of exactly these accounts, in order |
| AccountSaves.AccountsAreChecked | backend/ent/account_create.go:1985-1990 | and each of them has passed check() |
| AccountSaves.SavedAccountsReadBack | backend/ent/account_create.go:615-773 | reading the inserted row of an account gives the node that Save returned if and only if the codec reads back its JSON fields |
| AccountBulk.InsertedFieldsAreComplete | backend/ent/account_create.go:1979-1990 | though Save ignores the error of defaults(), when every builder's own mutation comes out of its hooks everything filled in passes check() and has every field with a default |
| ExceptionParser.StripPadded | tools/check_pnpm_audit_exceptions.py:29 | stripping removes exactly the white space around a trimmed text |
| ExceptionParser.SpacesExactly | tools/check_pnpm_audit_exceptions.py:29 | the 29 characters that are white space |
| ExceptionParser.ParseExceptions | tools/check_pnpm_audit_exceptions.py:23-48 | the loop over `current` and `exceptions` computes the specified parse, including the ValueError for a line without a colon |
| ExceptionParser.TextParsesAsLines | tools/check_pnpm_audit_exceptions.py:27-29 | a file is parsed as the lines it was written from, line ends aside |
| ExceptionParser.LineEndsAlike | tools/check_pnpm_audit_exceptions.py:27-29 | LF, CR and CR LF each end a line |
| ExceptionParser.QuotesAreStripped | tools/check_pnpm_audit_exceptions.py:12-20 | a key and its value are read the same with the value bare, in single quotes and in double quotes |
| ExceptionParser.RoundTripExactly | tools/check_pnpm_audit_exceptions.py:12-48 | parsing the file of the rendered records gives them back, single-line values with colons included and in three quoting styles, if and only if no key after the first of a record is reserved |
| ExceptionParser.IgnoredLinesHaveNoEffect | tools/check_pnpm_audit_exceptions.py:30-33 | blank lines, comments, headers and text that is no field can stand anywhere |
| ExceptionParser.BareDashIsIgnored | tools/check_pnpm_audit_exceptions.py:34-43 | a dash alone on its line, once stripped, is such a line |
| ExceptionParser.DashedRecordsAreLost | tools/check_pnpm_audit_exceptions.py:34-43 | a list with every dash on a line of its own is read back as the empty list, so it comes back if and only if it is empty |
| ExceptionParser.DashedHoldsAll | tools/check_pnpm_audit_exceptions.py:34-43 | although its text holds every field of every record |
| ExceptionCheck.IterVulns | tools/check_pnpm_audit_exceptions.py:64-111 | the generator's loops yield the specified findings in order |
| ExceptionCheck.ListedExactly | tools/check_pnpm_audit_exceptions.py:64-111 | a finding is listed if and only if it is that of an advisory, with the first usable of seven sources as its id, or one that an item of a `via` names, by the first usable of five fields, all read off the report |
| ExceptionCheck.AdvisoriesComeFirst | tools/check_pnpm_audit_exceptions.py:64-79 | the findings of the advisories come first, one each, in their order |
| ExceptionCheck.ViaIdsConcat | tools/check_pnpm_audit_exceptions.py:82-111 | the ids of a `via` keep the order of its items |
| ExceptionCheck.UnnamedVulnerabilityIsSilent | tools/check_pnpm_audit_exceptions.py:110-111 | a vulnerability can be removed from the report without any effect if and only if it names no id |
| ExceptionCheck.PicksFirstUsable | tools/check_pnpm_audit_exceptions.py:51-61 | the picked advisory id is the first usable one of the seven sources, or the last source when none is usable |
| ExceptionCheck.IndexHoldsFirst | tools/check_pnpm_audit_exceptions.py:175-186 | the index has a key if and only if some sound exception has it, and then holds the first of them |
| ExceptionCheck.Check | tools/check_pnpm_audit_exceptions.py:156-243 | the two loops over the index, `seen` and the error lists give the specified report and exit code |
| ExceptionCheck.VerdictExactly | tools/check_pnpm_audit_exceptions.py:156-243 | exit code 0 if and only if every exception is complete, dated and unique, every named high or critical finding has an unexpired exception, and the severities at first occurrences agree |
| ExceptionVerdict.VerdictInFull | tools/check_pnpm_audit_exceptions.py:114-243 | the same over the fields of the records and findings alone: the five required fields, the two severities, stripped names, lower-cased ids and dates, without index, loop or set of seen keys |
| ExceptionVerdict.ErrorsExactly | tools/check_pnpm_audit_exceptions.py:163-219 | an error is listed if and only if an exception is incomplete, undated, blank or a duplicate, or a severe finding has no id or another severity than the first exception that matches it |
| ExceptionVerdict.NumberIsItsText | tools/check_pnpm_audit_exceptions.py:128-133 | an id that is a number is compared by its decimal text |
| ExceptionCheck.MissingExactly | tools/check_pnpm_audit_exceptions.py:203-210 | reported as missing are exactly the first findings of their key for which there is no sound exception |
| ExceptionCheck.ExpiredExactly | tools/check_pnpm_audit_exceptions.py:203-219 | reported as expired are exactly the first findings of their key whose first sound exception is out of date |
| ExceptionCheck.VerdictIsMonotone | tools/check_pnpm_audit_exceptions.py:216 | what is accepted on a day was accepted on every earlier day |
| ExceptionOrder.ReorderedPermutes | tools/check_pnpm_audit_exceptions.py:64-111 | putting the advisories, the vulnerabilities and the items of each `via` of a report in another order permutes its findings |
| ExceptionOrder.CanPassExactly | tools/check_pnpm_audit_exceptions.py:192-215 | some order of the report passes if and only if everything is covered, each key that an advisory has agrees with the exception for some advisory, and the vulnerabilities never get stuck on the other keys |
| ExceptionOrder.CanFailExactly | tools/check_pnpm_audit_exceptions.py:192-215 | some order fails if and only if something is uncovered, or an advisory disagrees, or a vulnerability does on a key that no advisory has |
| ExceptionOrder.OrderMattersExactly | tools/check_pnpm_audit_exceptions.py:192-215 | the exact case in which the verdict depends on the order of the report |
| ExceptionOrder.OrderMattersForDistinctPackages | tools/check_pnpm_audit_exceptions.py:192-215 | for distinct package names: all vulnerabilities agree on the keys that no advisory has, some advisory agrees on each of the others, and some advisory does not |
| ExceptionOrder.TwiceListedMatters | tools/check_pnpm_audit_exceptions.py:192-215 | a concrete report, one advisory listed as high and as critical, that passes in one order and fails in the other |
| ExceptionOrder.OrderDoesNotMatter | tools/check_pnpm_audit_exceptions.py:192-215 | when severities agree per key, every reordered report has the same verdict |
| Reordering.SomeOrderGood | tools/check_pnpm_audit_exceptions.py:204-206 | for findings that can be ordered freely, as those of the advisories: some order makes every first occurrence good if and only if each key has a good one |
| Reordering.SomeOrderBad | tools/check_pnpm_audit_exceptions.py:204-206 | and some order has a bad first occurrence if and only if some counted finding is bad |
| Reordering.BlocksHaveOrder | tools/check_pnpm_audit_exceptions.py:110-111 | for findings that stay together, as those of one vulnerability: the blocks have a good order if and only if, whatever part of them has been placed, some block of the rest can come next |
| ExceptionRun.RunChecker | tools/check_pnpm_audit_exceptions.py:142-243 | parser, generator and decision loops run one after the other give the exit code of the specification |
| ExceptionRun.ParsingFailsExactly | tools/check_pnpm_audit_exceptions.py:14-41 | the run ends with a ValueError if and only if some line of the file starts a record with text that has no colon |
| ExceptionRun.ExitCodeExactly | tools/check_pnpm_audit_exceptions.py:142-243 | from the text of the file and the report: exit code 0 if and only if the file can be parsed and the report is acceptable under its exceptions |
| ExceptionRun.WrittenRecordsDecide | tools/check_pnpm_audit_exceptions.py:142-243 | for a file rendered from records without reserved keys the exit code is decided by those records |

## Left out

The placeholder tool:

- Walking, reading, parsing and writing files, and the positions in the printed lines: input and output. The model starts from texts and a syntax tree.
- Escapes for single bytes above 127, which are taken as characters.
- Texts are sequences of characters where the tool works on bytes; the placeholders are ASCII, so the matches are the same.
- Binding takes `?` and `$n` at face value everywhere, also inside quoted SQL strings and comments, as the tool does; SQL itself is not parsed.
- DynamicRewrite.DynamicKeepsVerbs: takes no explicit argument indexes (`%[1]d`) as modifiers.
- PlaceholderAudit.RewriteIsFaithfulExactly: takes texts up to the largest Go int in length, which every Go string is.

Loading:

- Query construction, drivers, transactions, interceptors and ordering: a table is a sequence of rows, and a query filters it by its IN predicate and one arbitrary visibility predicate.
- `Limit` and `Offset` on edge queries, which would apply to the whole batch.
- `loadChannels` and `loadUser`: the same shapes again.
- `Account.UsageLogs` and its siblings hold copies of rows. In the original several accounts share one `*Group` or `*Proxy`; sharing of neighbours is not modelled, sharing and identity of the accounts themselves is.
- The decoding of groups is reduced to their ID and cells; proxies and usage logs arrive decoded. The group's other edges and the edges of proxies and usage logs are not followed.
- The group query is taken to select its ID first, as the generated `querySpec` of every entity does; `backend/ent/group_query.go` itself is not part of this model.

Creating:

- `mutation.go`, the schema's validators and default functions are not part of this model: a mutation is a map of set fields, validators are an arbitrary predicate, defaults arbitrary values.
- The field blocks of defaults(), check() and createSpec(), alike except for their column, are loops or recursion over one list of columns each, in the order of the source.
- AccountCreate.CreateSpec: does not write the edges other than the proxy (groups and usage logs go to other tables) or the conflict clause. Database defaults for unset columns are left out too.
- Times and floats are opaque values and reals: no rounding or time zones. The JSON codec is arbitrary; `encoding/json` itself is not part of this model.
- A hook is taken to call its inner mutator at most once, and to edit the mutation that it got, before and after that call. Contexts and constraint-error wrapping are left out, and so is the single-row `Save`.

The checker:

- ExceptionCheck.IterVulns: does not yield the titles, which only go into the wording of messages.
- Reading JSON and the files, arguments and printing. Exceptions that Python raises for records of unexpected types (a severity that is no string, an advisory that is no dictionary) are left out, and so are JSON floats and booleans as identifiers.
- `str.lower` and `date.fromisoformat` are arbitrary functions; dates are day numbers and today's date is a parameter.
- The messages are modelled as structured problems, in their order; their wording is not.
