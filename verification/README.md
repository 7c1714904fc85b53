# Verified model of the semantic data core

This project models five linked parts of the repository in Dafny and proves what the
rest of the system relies on them for.

* **Strict canonical JSON.** Nearly every identity in the system is a hash of this text.
  `CanonicalJson` defines the text, `Es6Number` and `Utf16` the number layout and the
  member order, `CanonicalEncoder` the encoder that appends to an output list,
  `JsonDecoder` an independent reader, and `CanonicalRoundTrip` proves that text and
  value determine each other; `JsonSafety` says which Python values are accepted.
* **Calculated fields.** `CalculatedFields` gives expressions a meaning on rows with
  NULLs, `SqlText` and `SqlLexicon` give SQL text a reader and a meaning, `Expansion` and
  `MongoExpansion` prove that both compiled forms mean the expression, and
  `ExpansionContract` says what is accepted and which policies are supported.
* **Bundle catalog.** `CatalogModel` is the state machine, `Catalog` the object with its
  four mutable collections, proved to do what the state machine does.
  `CatalogInvariant`, `CatalogRuns`, `CatalogMoves`, `CatalogStack`, `CatalogAudit`,
  `CatalogRetention` and `CatalogTrail` hold what every operation and every run keeps,
  `CatalogOutcomes` what each answers and which labels it leaves.
* **Assembly drafts.** `AssemblyDraft` and `AssemblyLifecycle` are the review protocol,
  `AssemblyContract` the exact answer of each of its operations,
  `DraftStore` the compare-and-swap store, `DraftProtocol` the interleaving of clients,
  `Manifest` and `Alignment` the derived manifest and the rediscovery diff.
* **Value resolution and audit paging.** `ValueSemantics`, `AuditEvidence`, `AuditPaging`.

`Options`, `Ordering` and `Numerals` are shared. Classes and methods with loops stand where
the source updates objects and lists; everything else is functions and lemmas.

How values are represented: a fingerprint or hash is the hashed value itself or a text
from which it can be read back; the `repr` of a float is its decimal text; numbers in SQL
and MongoDB are exact integers and rationals; the time, the operator and the verdicts of
checks outside the model are parameters.

Where the code does something other than a reader may expect, the code is modelled and the
exact condition is proved:

* An integer of magnitude 10^21 or more keeps all its digits, so it and a float of the same
  value have different texts, unlike section 3.2.2.3 of RFC 8785
  (`CanonicalRoundTrip.IntBesideFloat`).
* A physical column whose name is written like an integer has the text of that constant
  (`Expansion.TextsIdentifyTrees`, `Expansion.NumericColumnCollides`).
* The identifier pattern admits names that the compiler leaves unquoted and SQL reads as
  something else: `unit-price`, `7`, `1.5`, `null`, `Select`, and on PostgreSQL every name
  with a capital such as `Total`.  Meaning is preserved exactly over the names that the
  dialect reads as that column (`SqlLexicon.CompiledReferenceIff`,
  `Expansion.MeaningIffLexical`).
* On SQLite the error policy would agree with the expression exactly where nothing is
  divided by zero (`Expansion.SqliteErrorPolicyIsUnenforceable`).
* Event ids leave tenant and operator out, so an activation, a rollback or a publication can
  raise after its change was made (`CatalogAudit.PointerMoveRecordedIff`,
  `CatalogAudit.PublishRecordedIff`, `CatalogAudit.PointerCanMoveUnrecorded`).
* Retirement is not permanent (`CatalogAudit.RetirementEndsIff`).
* Forward supersession links are sound but can be lost, by an activation or by a rollback
  (`CatalogMoves.ForwardLinkEndsIff`, with two runs that lose one).
* A cursor whose entry was pruned restarts the trail and repeats entries, and one whose id
  was recorded again skips entries (`AuditPaging.PagingIsExact`,
  `AuditPaging.PrunedCursorRepeats`, `AuditPaging.RerecordedCursorSkips`).
* Resolving resolved filters again can change them when a stored text is a business term
  that means something else (`ValueSemantics.ResolveTwiceIff`).

## Model

| member | source | states |
|---|---|---|
| Es6Number.TextIsRender | src/nl2data_core/canonical.py:131-177 | the layout of a float depends on its exact decimal value alone, not on how `repr` wrote it |
| Es6Number.TextKeepsValue | src/nl2data_core/canonical.py:131-177 | in all four layouts the canonical text is a numeral of exactly the given value |
| Es6Number.TextIsCanonical | src/nl2data_core/canonical.py:131-177 | two decimal texts get the same canonical text if and only if they denote the same number |
| Es6Number.ExponentExactlyOutside | src/nl2data_core/canonical.py:161-176 | an exponent is written if and only if the magnitude is at least 10^21 or below 10^-6 |
| Es6Number.IntTextIsLayout | src/nl2data_core/canonical.py:207-210 | the plain digits of an integer are the ES6 layout of its value if and only if its magnitude is below 10^21 |
| Es6Number.CountLeadingZeros | src/nl2data_core/canonical.py:156 | the number of leading zeros that are stripped |
| Es6Number.DropTrailingZeros | src/nl2data_core/canonical.py:159-160 | the loop removes trailing zeros but keeps one digit |
| Es6Number.StripDigits | src/nl2data_core/canonical.py:154-162 | digits without outer zeros and the moved decimal point |
| Es6Number.Es6Text | src/nl2data_core/canonical.py:131-177 | the renderer with its stripping loop gives the canonical text |
| Es6Number.TextShape | src/nl2data_core/canonical.py:163-177 | read back from the canonical text of a nonzero number: with an exponent one nonzero digit stands before the point and the power is signed and without leading zero, otherwise the whole part is `0` or has no leading zero, and no fraction ends in zero |
| Es6Number.ZeroText | src/nl2data_core/canonical.py:139-140 | the text is `0` if and only if the number is zero, whatever its sign |
| Es6Number.IntTextShape | src/nl2data_core/canonical.py:207-208 | the text of an integer is its digits without leading zero, signed exactly when it is negative |
| Utf16.ByteOrderIsUnitOrder | src/nl2data_core/canonical.py:221 | comparing UTF-16 big-endian bytes is comparing UTF-16 code units |
| Utf16.KeyOrderIsTotal | src/nl2data_core/canonical.py:221 | names and keys determine each other, the keys are ordered as UTF-16 code units, and of two distinct names exactly one comes first |
| Utf16.KeyOrderIsTransitive | src/nl2data_core/canonical.py:221 | with that, the member order is a strict total order |
| Utf16.CodeUnitOrderIsNotCodePointOrder | src/nl2data_core/canonical.py:221 | the order differs from code-point order beyond the basic plane |
| Utf16.UnitsAreCodes | src/nl2data_core/canonical.py:221 | the units of a text in the basic plane are its code points |
| Utf16.SurrogateUnits | src/nl2data_core/canonical.py:221 | every other character has two units, a high and a low surrogate, from which its code point is computed back |
| Utf16.UnitsOfConcat | src/nl2data_core/canonical.py:221 | the units of a text are those of its parts in order |
| CanonicalRoundTrip.ReadQuoted | src/nl2data_core/canonical.py:180-194 | every string, with every escape, is read back from its quoted text |
| CanonicalRoundTrip.TextReads | src/nl2data_core/canonical.py:197-233 | every nested value is read back from its text in any context |
| CanonicalRoundTrip.DecodeText | src/nl2data_core/canonical.py:236-241 | canonical text is uniquely decodable |
| CanonicalRoundTrip.MeaningFixesText | src/nl2data_core/canonical.py:218-228 | permuting members at any depth never changes the text |
| CanonicalRoundTrip.TextIsIdentity | src/nl2data_core/canonical.py:236-241 | two payloads have the same text if and only if they are the same value |
| CanonicalRoundTrip.IntBesideFloat | src/nl2data_core/canonical.py:207-210 | an integer and a float of one value share their text if and only if the magnitude is below 10^21 |
| CanonicalRoundTrip.LargeIntBesideFloat | src/nl2data_core/canonical.py:207-210 | 10^21 and the float `1e+21` are one value with two texts |
| CanonicalRoundTrip.NamesAreInOrder | src/nl2data_core/canonical.py:218-228 | the member names read in sequence from the text of a mapping increase strictly by UTF-16 code units and are exactly its keys |
| CanonicalRoundTrip.EscapeTable | src/nl2data_core/canonical.py:180-194 | the exact escape of every character: seven short ones, `\u00xx` in lower case for the other control characters, every other character as itself |
| CanonicalRoundTrip.EscapeOfConcat | src/nl2data_core/canonical.py:180-194 | a text is escaped character by character |
| CanonicalEncoder.EncodeString | src/nl2data_core/canonical.py:180-194 | the fast path without escapes and the slow path both give the quoted text |
| CanonicalEncoder.EncodeEscaped | src/nl2data_core/canonical.py:186-194 | the piecewise slow path gives the quoted text |
| CanonicalEncoder.Encode | src/nl2data_core/canonical.py:197-233 | the recursive encoder appends exactly the canonical text of the value to the output |
| CanonicalEncoder.EncodeList | src/nl2data_core/canonical.py:211-217 | the list loop appends the bracketed, comma-separated items |
| CanonicalEncoder.EncodeMapping | src/nl2data_core/canonical.py:218-228 | the mapping loop appends the members in sorted order |
| CanonicalEncoder.RenderJson | src/nl2data_core/canonical.py:239-241 | joining the output gives the canonical text |
| JsonSafety.AcceptedIff | src/nl2data_core/canonical.py:83-128 | validation accepts a value if and only if nothing that can be reached in it is an enumeration, a non-finite number, a mapping with a non-string key or another object |
| JsonSafety.RefusalPoints | src/nl2data_core/canonical.py:83-128 | a refusal names a refused value or key and the path that leads to it |
| JsonSafety.FirstItemRefused | src/nl2data_core/canonical.py:120-123 | a list is refused for its first refused item |
| JsonSafety.FirstEntryRefused | src/nl2data_core/canonical.py:110-119 | a mapping is refused for its first refused entry, the key before the value |
| JsonSafety.StrictCanonicalJson | src/nl2data_core/canonical.py:236-241 | the payload is refused with that violation, or its canonical text is returned |
| JsonSafety.AcceptedTextsIdentify | src/nl2data_core/canonical.py:236-241 | accepted payloads have the same text if and only if they are the same value |
| JsonSafety.TextDenotesPayload | src/nl2data_core/canonical.py:236-241 | the text of an accepted payload is read as exactly that payload: constants, strings, items in order, entries by name and the exact value of every number |
| CalculatedFields.EvalHasType | src/nl2data_core/views/models.py:297-352 | on typed rows every value has the type that the inference table derives |
| CalculatedFields.NullPolicyNeverRaises | src/nl2data_core/compilation/expansion.py:94-103 | under the null policy no row raises |
| CalculatedFields.DivisionFree | src/nl2data_core/compilation/expansion.py:106-114 | without a division the policy is irrelevant and nothing raises |
| CalculatedFields.RaisesIffDividesByZero | src/nl2data_core/compilation/expansion.py:94-103 | the error policy raises if and only if some division has two operands and a zero denominator, and elsewhere both policies agree |
| SqlText.ParsePrint | src/nl2data_core/compilation/expansion.py:203-223 | printed SQL parses back to the same tree under every lexicon that takes its words for what they are |
| SqlLexicon.ReadsAsColumnIff | src/nl2data_core/adapters/sql/compile.py:92-96 | for each dialect and every keyword list, a word is read as the column of that name if and only if it is dotted names without leading digit, hyphen or keyword, or quoted ones, and on PostgreSQL the unquoted ones are in lower case |
| SqlLexicon.PlainReferenceIff | src/nl2data_core/adapters/sql/compile.py:92-96 | an unquoted name is read as its lower case on PostgreSQL and as itself on SQLite |
| SqlLexicon.MeansItselfIff | src/nl2data_core/adapters/sql/compile.py:92-96 | a word means the column of that name on every row if and only if it is such a reference |
| SqlLexicon.CompiledReferenceIff | src/nl2data_core/adapters/sql/compile.py:584-603 | the compiler's possibly qualified reference to names of the identifier pattern is read as that column if and only if each name is reserved, hence quoted, or itself a reference |
| SqlLexicon.HyphenIsDifference | src/nl2data_core/planning/models.py:16-32 | a hyphenated physical name is read as a difference of two columns |
| SqlLexicon.NumbersAndNull | src/nl2data_core/planning/models.py:16-32 | digits are read as a constant, digits around a point as a fraction, the keyword `null` in any case as NULL |
| SqlLexicon.HyphenatedName | src/nl2data_core/planning/models.py:16-32 | the admitted name `unit-price` is read as `unit` minus `price` |
| SqlLexicon.NumberedNames | src/nl2data_core/planning/models.py:16-32 | the admitted names `7` and `1.5` are read as numbers |
| SqlLexicon.NullName | src/nl2data_core/planning/models.py:16-32 | the admitted name `null` is read as NULL |
| SqlLexicon.UppercaseKeywordName | src/nl2data_core/adapters/sql/compile.py:74-96 | the admitted name `Select`, which is not quoted, is no expression |
| SqlLexicon.MixedCaseName | src/nl2data_core/adapters/sql/compile.py:92-96 | the admitted name `Total`, which is not quoted, is read by PostgreSQL as the column `total` |
| Expansion.RenderIsPrint | src/nl2data_core/compilation/expansion.py:203-223 | the concatenated text is the printed form of a tree |
| Expansion.ExpandedTextParses | src/nl2data_core/compilation/expansion.py:180-223 | over references that SQL reads as columns, the expanded text parses to the cast of the expression's tree |
| Expansion.TreeMeaning | src/nl2data_core/compilation/expansion.py:203-223 | the tree has the meaning of the expression wherever the policy is enforceable |
| Expansion.ExpandedSqlMeaning | src/nl2data_core/compilation/expansion.py:180-223 | over such references, parsing and evaluating the expanded text gives the cast of the expression's meaning on every row with NULLs |
| Expansion.MeaningIffLexical | src/nl2data_core/compilation/expansion.py:180-223 | for each dialect and every keyword list, the expansion preserves the meaning of every calculated field over some columns if and only if the dialect reads each of them as that column |
| Expansion.ExpandedSqlIsExact | src/nl2data_core/compilation/expansion.py:180-223 | with the inferred output type the final CAST changes nothing |
| Expansion.SqliteErrorPolicyIsUnenforceable | src/nl2data_core/adapters/sql/compile.py:537-556 | on SQLite the error policy holds on a row if and only if no division there has two operands and a zero denominator |
| Expansion.TextsIdentifyTrees | src/nl2data_core/compilation/expansion.py:203-223 | distinct expressions have distinct texts if and only if columns are distinct and none is written like an integer |
| Expansion.NumericColumnCollides | src/nl2data_core/compilation/expansion.py:203-223 | a column written like an integer has the text of that constant |
| MongoExpansion.ExpandedMongoMeaning | src/nl2data_core/compilation/expansion.py:226-259 | the MongoDB expression means the calculated field under both policies |
| MongoExpansion.BackendsAgree | src/nl2data_core/compilation/expansion.py:180-259 | SQL text and MongoDB expression denote the same result on every row, null operands and guarded divisions included |
| ExpansionContract.ContainsDivisionIff | src/nl2data_core/compilation/expansion.py:106-114 | a division is contained if and only if some position of the expression holds one |
| ExpansionContract.LeavesIff | src/nl2data_core/views/models.py:356-447 | the leaves are exactly the fields at some position |
| ExpansionContract.InferIff | src/nl2data_core/views/models.py:297-352 | the inferred type is float if and only if some position holds a division or a float field |
| ExpansionContract.DepthIff | src/nl2data_core/views/models.py:356-447 | the depth is within a bound if and only if every path in the expression is |
| ExpansionContract.NodesAreListed | src/nl2data_core/views/models.py:356-447 | the node count is the length of the list of all subexpressions |
| ExpansionContract.ValidIff | src/nl2data_core/views/models.py:356-447 | re-validation accepts a field if and only if it has at most 16 levels and 64 nodes and declares exactly the fields at its positions |
| ExpansionContract.SqlAnswers | src/nl2data_core/compilation/expansion.py:180-223 | the SQL expander rejects invalid fields, other dialects and unbound leaves, in this order, and nothing else |
| ExpansionContract.MongoAnswers | src/nl2data_core/compilation/expansion.py:226-259 | the MongoDB expander rejects invalid fields and unbound leaves and nothing else |
| ExpansionContract.SupportedIff | src/nl2data_core/compilation/expansion.py:94-103 | a policy is supported on an SQL dialect if and only if every field with that policy means itself there on every row |
| ExpansionContract.SupportedBackends | src/nl2data_core/compilation/expansion.py:94-103 | the error policy is supported on PostgreSQL and MongoDB only, the null policy everywhere |
| ExpansionContract.ArithmeticTexts | src/nl2data_core/compilation/expansion.py:203-223 | the exact SQL of sums, differences and products of two columns with the type names of both dialects |
| ExpansionContract.DivisionTexts | src/nl2data_core/compilation/expansion.py:203-223 | the exact SQL of a guarded and of an unguarded division |
| ExpansionContract.MongoDocuments | src/nl2data_core/compilation/expansion.py:226-259 | the exact documents of a difference and of both divisions |
| AuditEvidence.TrimIsBounded | src/nl2data_core/bundles/catalog.py:1370-1397 | trimming leaves an order-preserving subsequence whose size is the larger of limit and undroppable count |
| AuditEvidence.TrimProtects | src/nl2data_core/bundles/catalog.py:1370-1397 | trimming keeps every entry of a live publication and its present predecessors, and adds nothing |
| AuditEvidence.TrimUnique | src/nl2data_core/bundles/catalog.py:1370-1397 | trimming keeps event ids unique |
| AuditEvidence.TrimDropsOldest | src/nl2data_core/bundles/catalog.py:1370-1397 | the oldest go first: up to some position every droppable entry is gone, from there on everything is kept |
| AuditEvidence.ProtectedIff | src/nl2data_core/bundles/catalog.py:1370-1397 | an id is protected if and only if an entry of a live publication has it or names it as predecessor |
| AuditEvidence.PointerEventIdInjective | src/nl2data_core/bundles/catalog.py:1298-1317 | a pointer event id tells direction, bundle id and both fingerprints, and nothing else |
| AuditPaging.PageIsValid | src/nl2data_core/assembly/audit_evidence.py:391-442 | a page is built if and only if the limit is legal, and every page satisfies the page validity rules |
| AuditPaging.EntryOrderIs | src/nl2data_core/assembly/audit_evidence.py:403-407 | the earlier time first, then the smaller event id by code points |
| AuditPaging.PageContents | src/nl2data_core/assembly/audit_evidence.py:403-442 | a page holds the first entries, up to the limit, of exactly those that follow the cursor, in order, with their total count, the onward cursor and whether some are left; an unknown cursor restarts |
| AuditPaging.FollowNeverRepeats | src/nl2data_core/assembly/audit_evidence.py:403-442 | while each page starts past the entry its cursor named, following cursors over logs that change in any way returns entries in strictly increasing order |
| AuditPaging.FollowReturnsIff | src/nl2data_core/assembly/audit_evidence.py:403-442 | and then, after the last page, an entry present throughout has been returned if and only if no request skipped it |
| AuditPaging.FollowOnwardIff | src/nl2data_core/assembly/audit_evidence.py:425-434 | following cursors goes onward if and only if each page starts past the entry its cursor named |
| AuditPaging.PrunedCursor | src/nl2data_core/assembly/audit_evidence.py:425-434 | a cursor whose entry was pruned skips nothing and goes onward if and only if the whole log is past it |
| AuditPaging.PrunedCursorRepeats | src/nl2data_core/assembly/audit_evidence.py:425-434 | three entries read two at a time: pruning the cursor's entry returns the first one again |
| AuditPaging.RerecordedCursorSkips | src/nl2data_core/assembly/audit_evidence.py:425-434 | recording the cursor's id again with a later time skips an entry that was present throughout |
| AuditPaging.TrailIsFollowed | src/nl2data_core/assembly/audit_evidence.py:410-442 | requests to the trail itself are the requests that the paging theorems speak of |
| AuditPaging.PagingIsExact | src/nl2data_core/assembly/audit_evidence.py:403-442 | for requests to the trail over any logs with unique ids: strictly increasing if and only if the cursors are safe, and then an entry present throughout is returned if and only if it is never skipped |
| AuditPaging.PagingIsComplete | src/nl2data_core/assembly/audit_evidence.py:403-442 | over logs that never change an entry nothing is skipped, so everything present throughout is returned |
| AuditPaging.FixedLogIsReadOut | src/nl2data_core/assembly/audit_evidence.py:410-442 | on a fixed log paging ends after boundedly many pages that concatenate to the rest of the sorted list |
| AuditPaging.FixedLogFromStart | src/nl2data_core/assembly/audit_evidence.py:410-442 | reading a fixed log from the start returns exactly its sorted list |
| CatalogInvariant.ExtendKeeps | src/nl2data_core/bundles/catalog.py:549-578 | appending a version keeps chain, links, labels and remembered copies of its key |
| CatalogInvariant.ReplaceKeeps | src/nl2data_core/bundles/catalog.py:1140-1153 | writing a possibly stale copy back keeps the chain and changes only labels and forward links |
| CatalogInvariant.RepointKeeps | src/nl2data_core/bundles/catalog.py:907-920 | moving the pointer keeps the key's invariant whichever remembered records form the history |
| CatalogInvariant.RelabelKeeps | src/nl2data_core/bundles/catalog.py:1101-1118 | deprecating or retiring a version keeps the key's invariant |
| CatalogInvariant.DependenciesStayMet | src/nl2data_core/bundles/catalog.py:869-885 | a dependency once met stays met, because versions are unique and never leave |
| CatalogRuns.PublishKeeps | src/nl2data_core/bundles/catalog.py:502-607 | publishing keeps the invariant, only appends, and leaves other keys alone |
| CatalogRuns.ActivateKeeps | src/nl2data_core/bundles/catalog.py:815-923 | so does activation |
| CatalogRuns.RollbackKeeps | src/nl2data_core/bundles/catalog.py:925-1038 | so does rollback, although it rechecks no dependency |
| CatalogRuns.ApplyKeeps | src/nl2data_core/bundles/catalog.py:502-1178 | every operation with any outcome keeps the invariant, is append-only, and leaves publications, pointer and history of other keys untouched |
| CatalogRuns.RunKeeps | src/nl2data_core/bundles/catalog.py:502-1178 | over every run the invariant holds, publications only grow, and a key that no operation works on stays as it is |
| CatalogRuns.ReachableInv | src/nl2data_core/bundles/catalog.py:502-1178 | every reachable state satisfies the invariant |
| CatalogRuns.ReachableDependencies | src/nl2data_core/bundles/catalog.py:869-885 | every active bundle and every rollback target has all dependencies published in its scope with the declared fingerprint |
| CatalogRuns.ReachablePointer | src/nl2data_core/bundles/catalog.py:564-577 | at most one record per key is labelled ACTIVE, it is the pointer's, and the pointer's record is published and not retired |
| CatalogRuns.ReachableChain | src/nl2data_core/bundles/catalog.py:549-578 | fingerprints and versions are unique per key, predecessor links are exactly the chain, a set successor link names the next publication |
| CatalogMoves.TargetPerforms | src/nl2data_core/bundles/catalog.py:815-1080 | when the checks before the move pass, the operation performs the move and its outcome is that of recording it |
| CatalogMoves.NoTargetNoChange | src/nl2data_core/bundles/catalog.py:815-1080 | otherwise a pointer operation changes nothing: it is refused, raises with its gate, or rolls back to what is active |
| CatalogMoves.ForwardLinkAfter | src/nl2data_core/bundles/catalog.py:907-1033 | the exact forward link of every record after every operation, told from the state before it |
| CatalogMoves.ForwardLinkEndsIff | src/nl2data_core/bundles/catalog.py:907-1033 | a forward link ends if and only if the pointer moves and the copy written over the record, restored by rollback or the old pointer's, has none; else it stays |
| CatalogMoves.ActivationCanLoseLink | src/nl2data_core/bundles/catalog.py:907-913 | publish, activate, publish, activate loses the first version's forward link |
| CatalogMoves.RollbackCanLoseLink | src/nl2data_core/bundles/catalog.py:1022-1035 | two versions, the second and then the first activated, a third published, rollback: the restored version loses its forward link and the other keeps its own |
| CatalogStack.StackRefined | src/nl2data_core/bundles/catalog.py:907-1080 | pointer plus history is a stack: activation and rollback to another fingerprint push, rollback pops, everything else leaves it |
| CatalogStack.RollbackUndoesActivation | src/nl2data_core/bundles/catalog.py:907-1038 | an accepted rollback right after an accepted activation restores pointer and history of every key |
| CatalogStack.PointerMovesToLive | src/nl2data_core/bundles/catalog.py:828-833 | no operation moves a pointer to a record that is retired at that moment |
| CatalogOutcomes.LabelAfterIs | src/nl2data_core/bundles/catalog.py:564-1124 | the exact label of every record after every operation, told from the state before it |
| CatalogOutcomes.NewRecord | src/nl2data_core/bundles/catalog.py:549-578 | a permitted publication appends one record, AVAILABLE, linked backwards and not forwards |
| CatalogOutcomes.RetirementTakesEffect | src/nl2data_core/bundles/catalog.py:1082-1124 | retiring any version but the active one is accepted and leaves it RETIRED; the active one is refused |
| CatalogOutcomes.RetiredOverRun | src/nl2data_core/bundles/catalog.py:1082-1124 | over every run a version stays RETIRED until an operation of the run frees it |
| CatalogOutcomes.RetiredIsRefused | src/nl2data_core/bundles/catalog.py:828-833 | after an accepted retirement every request to activate the version answers `bundle_retired` until then |
| CatalogOutcomes.PermittedIff | src/nl2data_core/bundles/catalog.py:512-548 | a publication is permitted if and only if its gate passes and neither its fingerprint nor its version is published |
| CatalogOutcomes.PublishAnswers | src/nl2data_core/bundles/catalog.py:502-607 | the exact answer of publish in every case, with its error codes |
| CatalogOutcomes.ReusedIff | src/nl2data_core/bundles/catalog.py:512-539 | a publication is reused if and only if its content is published and it asks for no verification that the stored record lacks |
| CatalogOutcomes.DependenciesMetIff | src/nl2data_core/bundles/catalog.py:869-885 | the dependency check passes if and only if each dependency is published in the scope with its version and fingerprint |
| CatalogOutcomes.FirstPublication | src/nl2data_core/bundles/catalog.py:1334-1351 | the recorded publication entry is the first of its scope and fingerprint |
| CatalogOutcomes.ActivationAnswers | src/nl2data_core/bundles/catalog.py:724-923 | the exact answer of activation by version and by fingerprint, check by check, and the pointer it leaves |
| CatalogOutcomes.RollbackToAnswers | src/nl2data_core/bundles/catalog.py:1040-1080 | the exact answer of rollback to a fingerprint |
| CatalogOutcomes.RollbackAnswers | src/nl2data_core/bundles/catalog.py:925-1038 | the exact answer of rollback, which checks no dependency, and the pointer and history it leaves |
| CatalogOutcomes.RelabelAnswers | src/nl2data_core/bundles/catalog.py:1082-1124 | the exact answer of deprecation and retirement, which change the label of one record and nothing else of the key |
| CatalogOutcomes.MoveEntryFacts | src/nl2data_core/bundles/catalog.py:1234-1296 | every fact of a recorded pointer change: scope, direction, both ends, operator, time, reference and link |
| CatalogOutcomes.PublicationEntryFacts | src/nl2data_core/bundles/catalog.py:578-596 | every fact of a recorded publication, linked to the recorded entry of the version before whenever there is one |
| CatalogAudit.PointerMoveRecordedIff | src/nl2data_core/bundles/catalog.py:886-1038 | a scoped pointer change of any kind moves the pointer; it raises, and is not recorded, if and only if another entry has its event id |
| CatalogAudit.PublishRecordedIff | src/nl2data_core/bundles/catalog.py:578-607 | a permitted publication is appended; it raises, and is not recorded, if and only if another entry has its event id |
| CatalogAudit.RaisesIff | src/nl2data_core/bundles/catalog.py:502-1080 | a publication or pointer operation raises if and only if its gate is reached and raises or its entry clashes with a stored one |
| CatalogAudit.RecordingRaisesIff | src/nl2data_core/bundles/catalog.py:1157-1178 | recording offered entries raises if and only if one is foreign or tampered, before anything is stored, or one clashes with the store that it meets |
| CatalogAudit.MovesClashIff | src/nl2data_core/bundles/catalog.py:1298-1317 | two moves clash if and only if they go the same way between the same versions and differ in tenant, source scope, reference, operator or linked entry |
| CatalogAudit.RepeatedMoveRaises | src/nl2data_core/bundles/catalog.py:907-1038 | once a move is recorded, the same move by another tenant or operator raises with the pointer moved and unrecorded |
| CatalogAudit.PointerMoveIsRecorded | src/nl2data_core/bundles/catalog.py:886-923 | every scoped pointer operation that returns normally leaves an entry with its exact fingerprints before and after |
| CatalogAudit.PublicationIsRecorded | src/nl2data_core/bundles/catalog.py:578-596 | an accepted publication leaves its entry, linked only to the recorded entry of the version before |
| CatalogAudit.RefusalChangesNothing | src/nl2data_core/bundles/catalog.py:724-792 | a refused or repeated operation changes nothing |
| CatalogAudit.LiveEntriesSurvive | src/nl2data_core/bundles/catalog.py:1353-1397 | an operation keeps every entry of a live publication and its present predecessors |
| CatalogAudit.RunKeepsLiveEntries | src/nl2data_core/bundles/catalog.py:1353-1397 | over a run an entry whose publication stays live stays recorded with its predecessors |
| CatalogAudit.PointerCanMoveUnrecorded | src/nl2data_core/bundles/catalog.py:1298-1317 | a run in which a tenant's pointer moves and no entry of that tenant exists |
| CatalogAudit.RetirementEndsIff | src/nl2data_core/bundles/catalog.py:564-577 | an operation takes the RETIRED label off a record if and only if it deprecates it, or it is the newest and a publication with new fingerprint and version passes its gate |
| CatalogRetention.AppendSize | src/nl2data_core/bundles/catalog.py:1353-1397 | the exact size of the store after one more entry |
| CatalogRetention.LiveIff | src/nl2data_core/bundles/catalog.py:1370-1397 | a fingerprint is live if and only if some scope has a record with it that is not retired |
| CatalogRetention.AppendedAtEnd | src/nl2data_core/bundles/catalog.py:1353-1397 | a new entry goes to the end and the oldest unprotected ones make room, none below 4096 entries |
| CatalogRetention.HostEntriesStored | src/nl2data_core/bundles/catalog.py:1157-1178 | host entries under new ids are stored in the order given where there is room |
| CatalogRetention.ConflictStops | src/nl2data_core/bundles/catalog.py:1157-1178 | a conflict stops the recording: exactly the entries before it are stored, and it differs from a stored entry with its id |
| CatalogRetention.ChangedStoreIsTight | src/nl2data_core/bundles/catalog.py:1353-1397 | an operation that changes the store leaves it within the limit or without anything to drop |
| CatalogRetention.TightIff | src/nl2data_core/bundles/catalog.py:1370-1397 | that is, no larger than the limit or made of protected entries only |
| CatalogRetention.ReachableStoreIsBounded | src/nl2data_core/bundles/catalog.py:1353-1397 | over every run the store is as an operation left it that kept it within this bound |
| CatalogRetention.RetirementWaits | src/nl2data_core/bundles/catalog.py:1082-1124 | a retirement drops nothing and can leave droppable entries above the limit until the next append |
| CatalogTrail.SingleOffer | src/nl2data_core/bundles/catalog.py:1353-1368 | an operation that records at most one entry satisfies the condition of the next row |
| CatalogTrail.StepFaithful | src/nl2data_core/bundles/catalog.py:1353-1397 | no operation alters a stored entry, also when entries are offered again or conflict, unless a batch drops an id and appends it anew |
| CatalogTrail.RunStoresAreImmutable | src/nl2data_core/bundles/catalog.py:1180-1232 | what requests select from the stores of a run is immutable where no dropped id is recorded again, within a batch or later |
| CatalogTrail.PagingDuringRun | src/nl2data_core/bundles/catalog.py:1180-1232 | the paging theorem for reading the trail during any run of the catalog, and that nothing is skipped where no dropped id is recorded again |
| Catalog.InMemoryCatalog.constructor | src/nl2data_core/bundles/catalog.py:365-377 | a new catalog is the initial state |
| Catalog.InMemoryCatalog.PublicationByFingerprint | src/nl2data_core/bundles/catalog.py:1126-1138 | the search loop returns the first record with the fingerprint |
| Catalog.InMemoryCatalog.PublicationByVersion | src/nl2data_core/bundles/catalog.py:609-620 | the search loop returns the first record with the version |
| Catalog.InMemoryCatalog.FindPublicationEntry | src/nl2data_core/bundles/catalog.py:1334-1351 | the search loop returns the recorded publication entry of a scoped fingerprint, none without a scope |
| Catalog.InMemoryCatalog.ReplacePublication | src/nl2data_core/bundles/catalog.py:1140-1153 | exchanges the record with the same fingerprint and nothing else |
| Catalog.InMemoryCatalog.TrimAuditEntries | src/nl2data_core/bundles/catalog.py:1370-1397 | the loop with its decreasing overflow retains exactly the trimmed store |
| Catalog.InMemoryCatalog.AppendAuditEntry | src/nl2data_core/bundles/catalog.py:1353-1368 | idempotent append, or a conflict that leaves the store |
| Catalog.InMemoryCatalog.Publish | src/nl2data_core/bundles/catalog.py:502-607 | the whole new state and outcome of the state machine's publish |
| Catalog.InMemoryCatalog.CheckDependencies | src/nl2data_core/bundles/catalog.py:869-885 | the loop accepts if and only if every dependency is met |
| Catalog.InMemoryCatalog.BuildPointerEntry | src/nl2data_core/bundles/catalog.py:1234-1296 | the pointer entry, or none for global or malformed ones |
| Catalog.InMemoryCatalog.ActivatePublication | src/nl2data_core/bundles/catalog.py:815-923 | the whole new state and outcome of activating a record |
| Catalog.InMemoryCatalog.Activate | src/nl2data_core/bundles/catalog.py:724-763 | the whole new state and outcome of activation by version |
| Catalog.InMemoryCatalog.ActivateFingerprint | src/nl2data_core/bundles/catalog.py:765-792 | the whole new state and outcome of activation by fingerprint |
| Catalog.InMemoryCatalog.Rollback | src/nl2data_core/bundles/catalog.py:925-1038 | the whole new state and outcome of rollback |
| Catalog.InMemoryCatalog.RollbackTo | src/nl2data_core/bundles/catalog.py:1040-1080 | the whole new state and outcome of rollback to a fingerprint |
| Catalog.InMemoryCatalog.SetVersionState | src/nl2data_core/bundles/catalog.py:1082-1124 | the whole new state and outcome of deprecation and retirement |
| Catalog.InMemoryCatalog.RecordAuditEntries | src/nl2data_core/bundles/catalog.py:1157-1178 | foreign and tampered entries are refused before any write, then entries are appended until one conflicts |
| AssemblyDraft.BindReview | src/nl2data_core/assembly/models.py:401-420 | a decision is bound to the current payload and leaves id and payload alone |
| AssemblyLifecycle.ApplyAdvances | src/nl2data_core/assembly/models.py:535-639 | an accepted operation presented the current revision, gives a valid draft, and advances the revision by one unless it repeats the plan |
| AssemblyLifecycle.RunGoverned | src/nl2data_core/assembly/models.py:597-639 | over every run APPROVED implies that all assertions are reviewed, and an approver's name implies APPROVED |
| AssemblyLifecycle.FrozenSinceApproval | src/nl2data_core/assembly/models.py:543-639 | an approved draft has changed nothing but its revision since the start or since a step that approved a reviewed draft |
| AssemblyLifecycle.ApprovedRuns | src/nl2data_core/assembly/lifecycle.py:122-327 | from a fresh draft, APPROVED means bound reviews of the current payloads, the current plan's fingerprint, and unchanged content since approval |
| AssemblyLifecycle.PlanChangeRevokes | src/nl2data_core/assembly/models.py:550-595 | an accepted plan change always revokes approval, also when the fingerprint stays |
| AssemblyLifecycle.ChangeNeedsApproval | src/nl2data_core/assembly/models.py:543-639 | content that differs between two approvals was approved again in between |
| AssemblyLifecycle.ReviewOrigin | src/nl2data_core/assembly/lifecycle.py:156-203 | every review was there at the start, was supplied to a mutation, or is an authorized decision on exactly this payload |
| AssemblyLifecycle.DecideTouchesOne | src/nl2data_core/assembly/lifecycle.py:122-203 | a decision changes one review and no id, payload or other assertion, and its record says so |
| AssemblyLifecycle.EditReopens | src/nl2data_core/assembly/lifecycle.py:206-245 | an edit leaves its assertion pending under manual provenance and touches no other |
| AssemblyContract.ValidIff | src/nl2data_core/assembly/models.py:485-520 | a draft is valid if and only if its bounds hold, assertion ids are derived and distinct, bindings name the content, deployments differ, and an approved plan is bound |
| AssemblyContract.IdIff | src/nl2data_core/assembly/models.py:228-238 | two assertions have the same id if and only if type and identity agree |
| AssemblyContract.TransitionAnswers | src/nl2data_core/assembly/models.py:597-639 | the exact answer of a state transition: the four legal moves, approval without pending assertions only, each error in its order |
| AssemblyContract.SubmitAnswers | src/nl2data_core/assembly/lifecycle.py:248-304 | the exact answer of a submission, the stored author and the record |
| AssemblyContract.ApproveAnswers | src/nl2data_core/assembly/lifecycle.py:248-327 | an approval is accepted if and only if it is authorized, at the current revision below the maximum, in review and without pending assertions; the approver and the plan fingerprint are stored |
| AssemblyContract.MutateAnswers | src/nl2data_core/assembly/models.py:535-595 | the exact answer of a mutation and the draft it gives |
| AssemblyContract.DecideAnswers | src/nl2data_core/assembly/lifecycle.py:122-203 | the exact answer of a review decision, the bound review and the record |
| AssemblyContract.EditAnswers | src/nl2data_core/assembly/lifecycle.py:206-245 | the exact answer of an edit and the pending assertion it gives |
| AssemblyContract.UnknownTarget | src/nl2data_core/assembly/lifecycle.py:113-119 | decisions and edits on an unknown assertion are refused |
| DraftStore.InMemoryDraftStore.CreateDraft | src/nl2data_core/assembly/store.py:45-56 | refuses duplicates and overflow, otherwise adds one draft |
| DraftStore.InMemoryDraftStore.Get | src/nl2data_core/assembly/store.py:58-64 | the stored draft of the tenant, or none |
| DraftStore.InMemoryDraftStore.ReplaceDraft | src/nl2data_core/assembly/store.py:66-82 | compare-and-swap on the revision; a conflict leaves the store |
| DraftStore.OpenStore | src/nl2data_core/assembly/store.py:39-43 | a store opens if and only if the capacity is positive |
| DraftStore.InsertIff | src/nl2data_core/assembly/store.py:45-56 | a draft is created if and only if its key is free and there is room, which is the only change; each refusal has its error |
| DraftStore.CompareAndSwapIff | src/nl2data_core/assembly/store.py:66-82 | a draft is replaced if and only if it is stored at the expected revision and the replacement has the next one; a conflict reports both revisions |
| DraftProtocol.RunKeeps | src/nl2data_core/assembly/store.py:45-82 | under any interleaving the wins of a key form a chain and every draft held is on it |
| DraftProtocol.NoLostUpdate | src/nl2data_core/assembly/store.py:66-82 | the stored draft is the created one after all winning operations in order, revisions rise by one per win, one win per revision |
| DraftProtocol.OfferWinsIff | src/nl2data_core/assembly/store.py:66-82 | an offer wins if and only if the operation advances the draft and the stored draft is still the one that was read |
| DraftProtocol.StoredApproval | src/nl2data_core/assembly/store.py:66-82 | a stored approved draft is completely reviewed and frozen since the approving win, however clients interleave |
| Manifest.ManifestIsAccepted | src/nl2data_core/assembly/manifest.py:99-124 | a manifest exists if and only if the draft is approved without pending assertions, and holds exactly its accepted ones in strict id order |
| Manifest.ApprovedRunsHaveManifests | src/nl2data_core/assembly/manifest.py:99-124 | a draft reached by a run has a manifest if and only if it is approved |
| Manifest.ManifestOrderFree | src/nl2data_core/assembly/manifest.py:111-119 | the order of assertions in the draft does not matter |
| Manifest.ManifestAnswers | src/nl2data_core/assembly/manifest.py:54-124 | the exact answer: the error of each refusal, else bundle id, fingerprint, and each accepted assertion with id, type, payload and payload hash, by strictly increasing id |
| Alignment.AlignAssertions | src/nl2data_core/assembly/alignment.py:61-150 | the two loops and the sort give exactly the changes called for, one per id, in strict id order; duplicates and overflow are errors |
| Alignment.ChangesAre | src/nl2data_core/assembly/alignment.py:94-145 | told from candidates and baseline: ADDED if and only if the id is new, MODIFIED if the hashes differ, PREVIOUSLY_REJECTED if a rejected one is rediscovered with replay on, DELETED or STALE by completeness if one that is not rejected is missing, each with the hash, review and candidate of that id, and nothing else |
| Alignment.BaselineItems | src/nl2data_core/assembly/alignment.py:70-92 | what a draft and a manifest each contribute to the baseline |
| Alignment.AlignedIsUnique | src/nl2data_core/assembly/alignment.py:61-150 | the result does not depend on the order of candidates or baseline |
| Alignment.PatchIsCorrect | src/nl2data_core/assembly/alignment.py:94-145 | applied to the baseline the changes give the candidates plus rejected assertions not rediscovered; incomplete discovery removes nothing |
| Alignment.ManifestDiffersOnRejected | src/nl2data_core/assembly/alignment.py:70-92 | draft and derived manifest give the same change at an id if and only if the id is not a rejected one that is rediscovered |
| ValueSemantics.ResolvedInDomain | src/nl2data_core/ai/value_semantics.py:137-153 | a value that is not a miss is in the stored domain, as a term's meaning or as the stored value it spells |
| ValueSemantics.ResolveTwiceIff | src/nl2data_core/ai/value_semantics.py:103-153 | resolving again is the identity if and only if no stored text is a term that means something else |
| ValueSemantics.DedupValues | src/nl2data_core/ai/value_semantics.py:156-162 | the loop keeps each value once, at its first occurrence |
| ValueSemantics.DedupOrdered | src/nl2data_core/ai/value_semantics.py:156-162 | the remaining values keep the order of their first occurrences |
| ValueSemantics.ResolveValues | src/nl2data_core/ai/value_semantics.py:231-284 | the inner loop resolves all values or stops at the first refused one, with an outcome for each value seen |
| ValueSemantics.ResolveIntentFilters | src/nl2data_core/ai/value_semantics.py:165-317 | all filters before the first failing one are resolved and logged in full, the failing one is logged up to its failure, nothing after it |
| ValueSemantics.ResolutionIs | src/nl2data_core/ai/value_semantics.py:165-317 | told from filters and mappings: it fails if and only if some filter has a disallowed operator or a rejected unknown value, at the first such filter; every filter before it is resolved as the next rows say and logged in full |
| ValueSemantics.SingleIs | src/nl2data_core/ai/value_semantics.py:103-153 | a term resolves to its meaning, a spelled stored value to that value, anything else to itself, and the status says which |
| ValueSemantics.DedupIsList | src/nl2data_core/ai/value_semantics.py:231-288 | a list resolves to everything that its values resolve to and nothing else, each once, in order of first occurrence |
| ValueSemantics.ResolvedIs | src/nl2data_core/ai/value_semantics.py:285-300 | `in` filters and lists give a list, other filters the one value, filters without a mapping stay, and nothing but the value changes |
| ValueSemantics.PassesIff | src/nl2data_core/ai/value_semantics.py:207-273 | a filter is accepted if and only if its operator is allowed and, under the reject policy, all values are known |
| ValueSemantics.FailureMeans | src/nl2data_core/ai/value_semantics.py:207-273 | the failing filter is logged up to its first unknown value, which the error names with its field |
| ValueSemantics.SuccessIsGoverned | src/nl2data_core/ai/value_semantics.py:165-317 | on success reject-policy values are in the governed domain and every input value has exactly one ordered outcome |
| ValueSemantics.MissIffUnknownValue | src/nl2data_core/ai/value_semantics.py:238-272 | a miss is recorded if and only if VS_001 is returned, and then it comes last |
| ValueSemantics.ResolutionIsIdempotent | src/nl2data_core/ai/value_semantics.py:165-317 | with stable mappings resolving resolved filters succeeds and changes nothing |
| ValueSemantics.UnstableChangesAgain | src/nl2data_core/ai/value_semantics.py:137-153 | with an unstable mapping some filter is changed by a second resolution |

## Left out

- Hashing: SHA-256, BLAKE2 and the truncation of digests in event ids are replaced by the hashed value or a text that identifies it.
- Lone surrogates in strings and the legacy NFC profile.
- The shortest `repr` of a float: its decimal text is an input.
- Rounding, 64-bit overflow and evaluation order in SQL and MongoDB engines: numbers are exact.
- Names in SQL: keywords are a parameter, so the lists of the dialects are not spelled out; quoted names hold letters, digits and underscores; words such as `1e5` are read as no expression; that SQLite takes names differing in case for one column is not part of a row.
- `validate_bundle`, `validate_publication_integrity`, the draft binding and the production check: one verdict per call (`Gate`), which may also raise; a retirement check comes before it as in the source.
- Threads and locks of the catalog: operations are atomic steps.
- The fingerprints of offered entries in `record_audit_entries`: whether one matches its facts is part of the offer.
- CatalogTrail.RunStoresAreImmutable: an entry that was trimmed and is recorded again carries a new time, so runs that do this are excluded; `CatalogTrail.PagingDuringRun` covers them.
- JsonSafety.StrictCanonicalJson: does not model the interpreter's limit on the digits of an integer's text, beyond which `str` raises.
- Filters of `audit_entries`: paging takes the selected entries as its log.
- Text bounds, patterns, safety scans and time stamps of the pydantic models, beyond uniqueness, revision, assertion and change limits; whether a pointer entry passes them is the request's `wellFormed`.
- Payload structure of assertions: identity and remaining facts are two opaque parts of a payload.
- Authorization: its verdict is a parameter of the lifecycle operations.
- Loading drafts from files: runs start from drafts as the adapters make them.
- Value outcomes beyond 1001 per filter and the unreachable copy failure in `resolve_intent_filters`, NaN and infinite filter values, and the wording of errors.
- Governance, model providers, intent resolver, facade, configuration, importer, join planner, SQL compiler and workflow runtime: outside the five parts.
