# Contiki components in Dafny

Models of eight parts of Contiki, each with the properties it is there for:

- **Antelope**, the small database in `apps/antelope`: WHERE clauses are read (`AqlScan`, `AqlGroups`)
  and compiled to prefix code (`AqlParser`), run on a logic engine (`LvmMachine`) that also derives
  value ranges (`LvmDerive`), and the ranges choose an index for a selection (`Relation`, `RelationSelect`) or a join (`Join`).
  The two index types are the bucket tree (`MaxHeapSpec`, `MaxHeap`) and the binary search in an
  increasing column (`InlineIndex`). `AqlSense` says what a clause means by its tokens and numbers alone,
  and `AqlSelect.SelectWhere` puts all this together: the text of a WHERE clause selects the rows whose
  fields satisfy it, whichever index is used. `Insert` says when the heaps agree with the rows,
  `RowBytes` how these are stored, and `HeapSearch` what that means for a query.
- **codeprop**: a sender, any number of receivers and a network that loses, duplicates and reorders.
- **Erbium CoAP**: the message codec (`Coap`, `CoapMessage`) with its work inside the packet buffers
  (`CoapBuffer`, `CoapWriter`) and the options by their numbers (`CoapByNumber`), block-wise transfer
  between server and client (`Block2`, `CoapExchange`), the generated resource list (`WellKnown`) and a
  reader of it (`LinkReader`), and retransmission (`Transactions`, `TransactionSteps`).
- **JSON**: the pull parser (`JsonSpec`, `JsonParser`) against a printer (`JsonProof`), and just which
  texts it accepts (`JsonAccept`).
- **tunslip**: the Internet checksum (`Checksum`) and SLIP framing (`Slip`).

Most components come in two layers: functions on values say what an operation does, and lemmas prove
the promises about these functions; classes and methods in the form of the source, with its loops,
cursors and updates in place, are proved to do what the functions say. Protocols are state machines,
and their theorems hold for all runs.

## Where the code does other than is expected

- `select_index` never keeps the range it has found, so it takes the last usable attribute and not the
  one with the smallest range (`Relation.SmallestRangeNotChosen`); the result of the query is the same.
- The MaxHeap index counts the items of a range anew for each key, and a SELECT takes a count of zero at
  the end for an error. So a search for a range ends with an index error whenever no row has the upper
  bound as its key, even after it has returned rows (`HeapSearch.SelectThroughHeap`). The inline index
  never ends that way: the error of its range search is compared as an unsigned number and not seen, so
  a miss counts as an item, and a caller that goes on gets rows (`InlineIndex.CallsAnswer`).
- The inline index reads behind the table if a bound is below the first value, which is the case for
  every condition that has an upper bound only (`InlineIndex.BinarySearch`).
- REMOVE through an index loses the rows outside the derived range (`Relation.RemoveThroughIndex`).
- Ranges are derived wrongly for a constant on the left and for an OR of different variables
  (`LvmDerive.ConstantOnTheLeft`, `LvmDerive.OneSidedOr`).
- AND and OR have the same precedence and group to the right (`AqlMeaning.ReadingsAgree`).
- A comparison that fails behind a connective is no error: parse_where then returns 0, and only a
  status from 3 on is an error to its callers. So what is left of `a = 1 AND b c` is taken as the
  condition (`AqlGroups.UnnoticedExample`), and running it fails; but `a = 1 AND b = c +` runs as
  `a = 1 AND b = c` (`AqlMeaning.RunBroken`).
- A clause put in parentheses behind another one, with no further closing parenthesis after it, is a
  syntax error, such as in `a = 1 AND (b = 2 OR c = 3)` (`AqlGroups.GroupIsError`,
  `AqlGroups.ErrorExample`): the side before the closing parenthesis has consumed it, and the parser then
  asks for another one. In a text that never closes more than it opens, and opens parentheses behind
  connectives only, one is accepted exactly if the comparison tried last in it fails right before a
  closing parenthesis (`AqlGroups.GroupAccepted`), such as in `a = 1 AND (b = 2 OR c d)`
  (`AqlGroups.AcceptedExample`). If from a side on never more is closed than opened, the side must not
  start with a parenthesis (`AqlScan.SideInParenthesesFails`); behind an arithmetic operator parentheses
  are compiled like the rest of the side (`AqlParser.Parser.ParseExpr`).
- In a side with more than one operator only the first one is put before the terms of the side. So
  `a + b + c = d` is read as `a + b = c + d`, and `d = a + b + c` as `d = a + b`
  (`AqlSense.ChainsAreMisread`). With `d = a + b + c AND ...` nothing can be read
  (`AqlMeaning.NothingReads`) and the execution fails (`AqlMeaning.RunWhere`).
- A failed insertion leaves its index entries to the row inserted next (`Insert.RunAgrees`), which is
  then listed twice (`HeapSearch.LeftOverIsListed`). The process that loads indexes never sets its row
  counter back, so a load that follows another one numbers the rows wrongly (`Insert.LoadAgrees`).
- A bucket in the MaxHeap cache is not updated by an insertion (`MaxHeapSpec.InsertAndCache`), and some
  of several pairs with one key are passed over (`MaxHeapSpec.HitsOfExact`).
- `send_nack` overwrites the packet that the caller goes on to test, so a transfer can start with any
  packet of an image, and another program be started than was sent (`CodeProp.ReceivedIsImage`,
  `CodeProp.WrongProgram`). A receiver never gives up an image that is not sent any more, though it may
  be unable to finish it (`CodeProp.CanFinishExactly`).
- A list value with a leading separator or an odd number of trailing ones does not survive
  serialization (`Coap.RejoinedIsSame`). With a header of exactly 62 bytes the payload marker
  overwrites a payload in the packet buffer (`CoapWriter.PayloadIsSent`).
- A confirmable message times out right after its last retransmission, without the wait of section 4.2
  of RFC 7252 (`Transactions.LivesAreProper`). The check of the timers ends when a transaction times out
  (`Transactions.CheckServesAll`), and a new transaction has an old callback
  (`Transactions.CallbackIsOwn`).
- The first answer to a blocking request is passed on even if it says that the server is busy, and the
  transfer then counts as complete (`Block2.BlockingRequest`).
- The JSON parser takes some texts that are not JSON: in an array a comma may come anywhere and a string or
  bracket needs no comma before it, and in an object a value may follow a value or a name a name. It
  refuses tabs and carriage returns, and a line that ends right behind null, true or false
  (`JsonAccept.NextExactly`). Unknown escapes are dropped (`JsonProof.UnknownEscapeIsDropped`).
- The incremental checksum update is right for every header length but 8, and the don't-fragment flag
  is tested in host byte order (`Checksum.RenumberKeepsVerdict`, `Checksum.FlagAsRead`).

## Model

| member | source | states |
|---|---|---|
| `MaxHeapSpec.LowByPosition` | apps/antelope/index-maxheap.c:225-260 | the interval of node i starts at its position in the level times the width of the level |
| `MaxHeapSpec.WidthByDepth` | apps/antelope/index-maxheap.c:225-260 | a node at depth d covers 2^(16-d) hash values |
| `MaxHeapSpec.Halves` | apps/antelope/index-maxheap.c:416-445 | the two nodes of a split cover the two halves of their parent, and neither is the empty node (0,0) |
| `MaxHeapSpec.InsertKeepsWellFormed` | apps/antelope/index-maxheap.c:447-492 | every insertion keeps the tree: prefix-closed, siblings in pairs, children only under full buckets, each stored hash within the interval of its node |
| `MaxHeapSpec.InsertPairs` | apps/antelope/index-maxheap.c:447-492 | a successful insertion adds just its pair to what is stored; a failed one changes no stored pair |
| `MaxHeapSpec.InsertFailsWhen` | apps/antelope/index-maxheap.c:262-292 | an insertion fails exactly if the path of its key has eight nodes with full buckets, because heap_find never returns a node of the last level |
| `MaxHeapSpec.PathComplete` | apps/antelope/index-maxheap.c:262-292 | every node whose interval has the hash value lies on the path that repeated heap_find calls follow |
| `MaxHeapSpec.LookupCorrect` | apps/antelope/index-maxheap.c:668-750 | the first get_next for a key finds something exactly if a pair with the key is stored |
| `MaxHeapSpec.HitsOfExact` | apps/antelope/index-maxheap.c:715-740 | which of several pairs with one key are returned: exactly those in a later slot than every occurrence in a deeper bucket, since the slot to start from is kept from bucket to bucket |
| `MaxHeapSpec.UniqueRangeComplete` | apps/antelope/index-maxheap.c:742-749 | with no key stored twice, a search over a range that fits 16 bits returns the stored pairs of the range and no others |
| `MaxHeapSpec.RangeHitsOnce` | apps/antelope/index-maxheap.c:668-750 | in a range that fits 16 bits no slot is returned twice, and keys come in the order of the range, even where it wraps around |
| `MaxHeapSpec.LookupAfterAnyRun` | apps/antelope/index-maxheap.c:447-492 | for any hash function and any insertions into a fresh heap: the first lookup misses exactly if no insertion of the key succeeded, and otherwise gives a value inserted under it |
| `MaxHeapSpec.InsertAndCache` | apps/antelope/index-maxheap.c:394-414 | the exact condition under which cached buckets are still right after an insertion |
| `MaxHeapSpec.StaleCopyMisses` | apps/antelope/index-maxheap.c:351-392 | a concrete stored pair that a search through a stale cached bucket does not see |
| `MaxHeap.Heap.constructor` | apps/antelope/index-maxheap.c:494-585 | a created heap has empty files with a root for all hash values |
| `MaxHeap.Heap.HeapInsert` | apps/antelope/index-maxheap.c:225-260 | a node is written to the first free place on its way down, which is the one for its interval |
| `MaxHeap.Heap.HeapFind` | apps/antelope/index-maxheap.c:262-292 | one step down the path of a key |
| `MaxHeap.Heap.BucketAppend` | apps/antelope/index-maxheap.c:394-414 | the pair goes into the next free slot of a bucket that is not full; the cache is not touched |
| `MaxHeap.Heap.BucketSplit` | apps/antelope/index-maxheap.c:416-445 | the two children of the bucket exist afterwards, and no pair moves |
| `MaxHeap.Heap.FindDeepest` | apps/antelope/index-maxheap.c:454-461 | the loop ends at the last node of the path |
| `MaxHeap.Heap.InsertItem` | apps/antelope/index-maxheap.c:447-492 | files and result are those of the insertion function, whatever the cache holds |
| `MaxHeap.Heap.GetCache` | apps/antelope/index-maxheap.c:157-168 | the first entry of the cache that holds the bucket, or none if no entry does |
| `MaxHeap.Heap.GetCacheFree` | apps/antelope/index-maxheap.c:170-181 | the first free entry of the cache, or none if all are used |
| `MaxHeap.Heap.InvalidateCache` | apps/antelope/index-maxheap.c:183-194 | the first used entry is freed, and nothing else changes |
| `MaxHeap.Heap.BucketLoad` | apps/antelope/index-maxheap.c:351-392 | the returned entry is a copy of the bucket, and with a cache that was right all entries still are |
| `MaxHeap.Heap.StartSearch` | apps/antelope/index-maxheap.c:691-707 | the whole path of the key is remembered |
| `MaxHeap.Heap.NextForKey` | apps/antelope/index-maxheap.c:691-740 | the next hit of the current key, or that there is none left; if another iterator was served in between, the search starts again and passes over as many occurrences as were returned |
| `MaxHeap.Heap.GetNext` | apps/antelope/index-maxheap.c:668-750 | call after call delivers the hits of the range in order, and then INVALID_TUPLE with an item count that is that of the last key alone |
| `MaxHeap.Heap.InterleavingDoesNotMatter` | apps/antelope/index-maxheap.c:691-740 | with distinct keys an iterator has the same items left whether others have been served since or not |
| `HeapSearch.IndexesAfterRun` | apps/antelope/index-maxheap.c:644-660 | after the entries of all rows have been accepted by a fresh heap, it indexes the column, and with distinct 16-bit keys no key is stored twice |
| `HeapSearch.IndexesAfterInsertions` | apps/antelope/relation.c:475-548 | the same after any run of insertions into a relation of which no failing one has reached the heap |
| `HeapSearch.EnumeratesRange` | apps/antelope/index-maxheap.c:668-750 | over a heap that indexes a column with distinct keys, the iteration over any range that the engine accepts lists each row of the range once, as the query engine requires |
| `HeapSearch.LeftOverIsListed` | apps/antelope/index-maxheap.c:668-750 | a row that has taken over the entry of a failed insertion is listed twice if the range covers both keys |
| `HeapSearch.EndsWithError` | apps/antelope/relation.c:756-768 | a search ends with an item count of zero, which is an index error, exactly if no row has the upper bound as its key |
| `HeapSearch.Collect` | apps/antelope/index-maxheap.c:668-750 | calling get_next of a heap to the end gives the tuple ids and the item count of these answers |
| `HeapSearch.SelectThroughHeap` | apps/antelope/relation.c:674-845 | a SELECT through such an index returns the rows of a scan, and ends with an index error exactly if no row has the upper bound as its key |
| `LvmSpec.ParseEncoded` | apps/antelope/lvm.c:165-298 | reading the prefix code of a predicate gives the predicate back and ends where its code ends |
| `LvmMachine.Machine.EvalExpression` | apps/antelope/lvm.c:165-219 | the value of the expression at ip with 32-bit wrap-around, or the first error from the left |
| `LvmMachine.Machine.EvalRelation` | apps/antelope/lvm.c:221-298 | the truth value of the predicate at ip, or the first error; both sides of a connective are evaluated |
| `LvmMachine.Machine.Execute` | apps/antelope/lvm.c:379-404 | the value of the predicate in the buffer, with exactly its code consumed; anything else gives an error |
| `LvmMachine.Machine.JumpToOperand` | apps/antelope/lvm.c:314-327 | room for an operator is left, or the error flag is set |
| `LvmMachine.Machine.ShiftForOperator` | apps/antelope/lvm.c:329-348 | the code from a place on moves up by one operator, or the error flag is set because the buffer is full or there is no code |
| `LvmMachine.Machine.SetEnd` | apps/antelope/lvm.c:356-370 | the end is set and the old one returned; beyond the buffer only the error flag is set |
| `LvmMachine.Machine.SetOperand` | apps/antelope/lvm.c:422-428 | the code of the operand is appended |
| `LvmMachine.Machine.InsertOperator` | apps/antelope/lvm.c:329-348 | shifting, setting the operator and returning to the end puts the operator before code emitted already; without such code the buffer is emptied, and if it is full then the end is not set |
| `LvmMachine.Machine.RegisterVariable` | apps/antelope/lvm.c:441-460 | a new name is added behind the others unless the table is full |
| `LvmMachine.Machine.SetVariableValue` | apps/antelope/lvm.c:462-473 | the variable of that name, or the next free one, takes the value; no other changes |
| `LvmMachine.Machine.SetVariable` | apps/antelope/lvm.c:475-488 | the operand of the variable is appended if the name has an id |
| `LvmMachine.Machine.CreateIntersection` | apps/antelope/lvm.c:496-537 | range by range the intersection; a range of one side only is kept |
| `LvmMachine.Machine.CreateUnion` | apps/antelope/lvm.c:539-580 | range by range the hull; a range of one side only is kept |
| `LvmMachine.Machine.DeriveRelation` | apps/antelope/lvm.c:582-684 | the ranges of the predicate at ip, or DERIVATION_ERROR for any predicate that is not built of comparisons of a variable by AND and OR |
| `LvmMachine.Machine.GetDerivedRange` | apps/antelope/lvm.c:692-709 | the derived range of a registered name, or an error |
| `LvmDerive.DerivesConstrained` | apps/antelope/lvm.c:582-684 | a range is derived for exactly the variables that the predicate compares |
| `LvmDerive.DerivationSound` | apps/antelope/lvm.c:582-684 | every assignment that makes such a predicate true lies in all derived ranges |
| `LvmDerive.DerivesWithoutInequality` | apps/antelope/lvm.c:582-684 | for such predicates ranges are derived exactly if no comparison is an inequality |
| `LvmDerive.DerivationExact` | apps/antelope/lvm.c:496-537 | for a conjunction that has no comparison that can never hold, the derived ranges hold exactly the assignments that make it true |
| `LvmDerive.UnionIsSmallest` | apps/antelope/lvm.c:539-580 | the range for an OR is the smallest one that covers both |
| `LvmDerive.ConstantOnTheLeft` | apps/antelope/lvm.c:633-677 | with the constant on the left the derived range is sound exactly for equality and at the ends of the number range |
| `LvmDerive.OneSidedOr` | apps/antelope/lvm.c:539-580 | for an OR of two different variables derivation is sound exactly if each range excludes nothing or the other side can never hold |
| `AqlSyntax.TokensAt` | apps/antelope/aql-parser.c:402-447 | the tokens of a clause whose parentheses all stand behind arithmetic operators are recognised as that clause wherever they stand |
| `AqlSyntax.CodeExample` | apps/antelope/lvm.h:75-102 | the words of the code for `a + 1 > b - 2`, and those of all operators |
| `AqlScan.ClauseScans` | apps/antelope/aql-parser.c:402-447 | every such clause is accepted as far as it goes, with a closing parenthesis behind it if there is one; what follows it is read by the loop of parse_where |
| `AqlScan.ExprEnded` | apps/antelope/aql-parser.c:290-348 | what is accepted as a side never opens more parentheses than it closes, those behind operators aside, and closes more unless a token follows at which a side ends |
| `AqlScan.SideInParenthesesFails` | apps/antelope/aql-parser.c:298-310 | a side that starts with a parenthesis is an error if from there on the text never closes more than it opens, parentheses behind operators aside |
| `AqlGroups.WhereStatus` | apps/antelope/aql-parser.c:402-447 | for every text: an error exactly if no comparison starts it or a parenthesised proposition that is reached is refused, and 0 exactly if a comparison fails behind a connective that is reached |
| `AqlGroups.PlainComparison` | apps/antelope/aql-parser.c:350-400 | without parentheses a comparison is read exactly where two sides with a relation between them stand; a side is operands with operators between them, and one token that is no operand may precede each operand but the first |
| `AqlGroups.PlainStatus` | apps/antelope/aql-parser.c:402-447 | without parentheses: an error exactly if no such comparison starts the text, and 0 exactly if none starts behind a connective that is reached |
| `AqlGroups.GroupAccepted` | apps/antelope/aql-parser.c:428-441 | in a text that never closes more than it opens, and opens parentheses behind connectives only, a proposition in parentheses is accepted exactly if the comparison tried last in it fails right before a closing parenthesis |
| `AqlGroups.GroupIsError` | apps/antelope/aql-parser.c:428-441 | any clause, a connective, and any clause in parentheses are a syntax error if no further closing parenthesis follows |
| `AqlGroups.BrokenGroupIsAccepted` | apps/antelope/aql-parser.c:428-441 | the same text is accepted once a connective and a comparison without a relation are added inside the parentheses |
| `AqlGroups.ErrorExample` | apps/antelope/aql-parser.c:428-441 | `a = 1 AND (b = 2 OR c = 3)` is a syntax error |
| `AqlGroups.AcceptedExample` | apps/antelope/aql-parser.c:428-441 | `a = 1 AND (b = 2 OR c d)` is accepted |
| `AqlGroups.UnnoticedExample` | apps/antelope/aql-parser.c:435-440 | `a = 1 AND b c` gives 0 |
| `AqlParser.Parser.ParseOperand` | apps/antelope/aql-parser.c:267-288 | a name is registered and its operand emitted; a number is emitted; strings and floats emit nothing |
| `AqlParser.Parser.ParseExpr` | apps/antelope/aql-parser.c:290-348 | accepts what the reference accepts, and as far; the code of a side of any length, with arguments in parentheses at any depth, is appended: the first operator stands before the first term, each later one before its own argument; a side that breaks off behind an operator leaves its code |
| `AqlParser.Parser.ParsePrimary` | apps/antelope/aql-parser.c:298-310 | accepts what the reference accepts; a term is appended |
| `AqlParser.Parser.ParseProposition` | apps/antelope/aql-parser.c:429-441 | accepts what the reference accepts; a comparison is appended, and one that fails gives 0 and leaves what it got to behind the code before it |
| `AqlParser.Parser.ParseRelation` | apps/antelope/aql-parser.c:350-400 | the operator goes into the room left before the left side |
| `AqlParser.Parser.ParseComparison` | apps/antelope/aql-parser.c:350-400 | the operator and the code of both sides are appended; a comparison that fails leaves empty room, or the code up to where it broke off |
| `AqlParser.Parser.ParseConjunct` | apps/antelope/aql-parser.c:415-442 | a connective is put before the comparison emitted last, and the next proposition follows |
| `AqlParser.Parser.ParseWhere` | apps/antelope/aql-parser.c:402-447 | status and position are those of the reference for every text; for a clause the buffer holds exactly its code, each connective before the comparison on its left, and its names are registered in the order of first use; if a comparison fails behind it, the code with one more connective, and what that comparison left |
| `AqlMeaning.TreeMeaning` | apps/antelope/aql-parser.c:402-447 | the value of the tree is the first error of its comparisons from the left, or their values combined from the right |
| `AqlMeaning.CodeReads` | apps/antelope/aql-parser.c:290-348 | the code of a clause with nothing left over of any right side but the last starts with the prefix code of its tree, and the leftovers of the last right side are what remains |
| `AqlMeaning.NothingReads` | apps/antelope/aql-parser.c:290-348 | in the code of any other clause no predicate can be read |
| `AqlSense.ChainsAreMisread` | apps/antelope/aql-parser.c:290-348 | a clause is read as it is meant exactly if no side and no pair of parentheses has more than one operator |
| `AqlSense.MeantIsVerdict` | apps/antelope/lvm.c:165-298 | the predicate of a clause, with operators grouped to the left, has the value that its tokens say: comparison of signed 32-bit numbers, sums, differences and products that wrap around, quotients towards zero, and MATH_ERROR exactly for a division by zero |
| `AqlSense.ReadIsVerdict` | apps/antelope/aql-parser.c:290-447 | the same for the predicate into which a clause is compiled, if no side and no pair of parentheses has more than one operator |
| `AqlMeaning.RunWhere` | apps/antelope/aql-parser.c:402-447 | compiling any clause whose parentheses stand behind operators and executing it gives what the tokens say of the numbers in the variables, if no side has more than one operator; otherwise it gives the value of its tree, and an error exactly where nothing can be read; the code is consumed exactly if nothing is left over of the last right side |
| `AqlMeaning.SideReads` | apps/antelope/aql-parser.c:290-348 | the code of a side is that of its first operator with both arguments, and of one operator with one argument each for all others |
| `AqlMeaning.RunBroken` | apps/antelope/aql-parser.c:435-440 | a text in which a comparison fails behind a connective is compiled without an error; executing what is left gives an error, unless the comparison broke off in its right side: then its last operator is dropped |
| `AqlMeaning.NoRelationExample` | apps/antelope/aql-parser.c:435-440 | `a = 1 AND b c` is such a text |
| `AqlMeaning.CompiledIsStronger` | apps/antelope/aql-parser.c:402-447 | whatever satisfies the clause as compiled satisfies it with AND binding more tightly than OR |
| `AqlMeaning.ReadingsAgree` | apps/antelope/aql-parser.c:402-447 | the two readings agree for all values exactly if no OR comes after an AND |
| `AqlSelect.TreeSearchable` | apps/antelope/aql-parser.c:350-447 | a clause of comparisons of names with numbers, with the same names on both sides of each OR, compiles into a predicate whose derived ranges are sound |
| `AqlSelect.Query` | apps/antelope/relation.c:674-732 | the query made of a compiled clause is a proper one: its variables are distinct, and its predicate uses no others |
| `AqlSelect.SelectWhere` | apps/antelope/relation.c:674-845 | from the text of the clause to the rows: they are just those whose fields satisfy the clause as its tokens say, once each, whichever index is searched, if no side has more than one operator; in any case they are the rows of a full scan; and the status at the end |
| `AqlSelect.RowsOfClause` | apps/antelope/relation.c:734-845 | the scan with the compiled predicate selects each row whose fields satisfy the clause once, and no other one |
| `Relation.LoadGivesNumber` | apps/antelope/relation.c:787-800 | a variable with a numeric column of its name takes the number in that field of the row |
| `Relation.IndexIsExact` | apps/antelope/relation.c:734-845 | a search over an index that lists no row twice selects the rows of a scan exactly if it lists every row that the scan selects |
| `Relation.SelectedInRange` | apps/antelope/relation.c:647-669 | a selected row has its value in the range for which the index is searched |
| `Relation.SearchEqualsScan` | apps/antelope/relation.c:630-672 | searching the chosen index selects the same rows as a scan, as a multiset |
| `Relation.Choose` | apps/antelope/relation.c:641-664 | the chosen attribute is the last one that has an index and a derived range |
| `Relation.PlannedBy` | apps/antelope/relation.c:641-669 | whether the index of that attribute is searched: it is loaded, and the range is one value, or its kind can search ranges, or there are 64 rows for each step of the range |
| `Relation.SmallestRangeNotChosen` | apps/antelope/relation.c:641-664 | a case in which the attribute with the smaller range is not chosen, against the comment in the source |
| `Relation.RemoveThroughIndex` | apps/antelope/relation.c:816-823 | REMOVE through an index keeps the right rows exactly if no row lies outside the derived range |
| `RelationSelect.Handle.SelectIndex` | apps/antelope/relation.c:630-672 | the index of the chosen attribute is searched if an iterator for its range is granted |
| `RelationSelect.Handle.Prepare` | apps/antelope/relation.c:674-709 | a search is set up exactly as planned, and otherwise none |
| `RelationSelect.Handle.IndexNext` | apps/antelope/index.c:304-330 | the answer of the index to this call: a tuple id, or INVALID_TUPLE with its item count |
| `RelationSelect.Handle.LoadRow` | apps/antelope/relation.c:786-814 | every registered variable has its number of the row, and the stored columns are copied into the result row |
| `RelationSelect.Handle.Process` | apps/antelope/relation.c:734-845 | one tuple id is taken: GOT_ROW with its fields if the predicate has the wanted value, OK if not; at INVALID_TUPLE an index error if the item count is zero, and FINISHED otherwise |
| `RelationSelect.Handle.ProcessAll` | apps/antelope/relation.c:734-845 | processing to the end returns the selected rows among the tuple ids in order, and the status that the last item count calls for |
| `RelationSelect.Handle.Run` | apps/antelope/relation.c:674-845 | a whole SELECT returns the rows of a scan, and ends with an index error exactly if the item count is zero when the search is over |
| `InlineIndex.BinarySearch` | apps/antelope/index-inline.c:102-151 | the search leaves the table exactly if it is empty or the target is below the first value; otherwise it ends at the row of the target or next to where it would be |
| `InlineIndex.HitsCover` | apps/antelope/index-inline.c:153-227 | a contiguous range of rows with every row between the bounds and one more at each end at most |
| `InlineIndex.ExactHit` | apps/antelope/index-inline.c:145-150 | a search for one value finds just the row that has it, if there is one |
| `InlineIndex.RepeatedValues` | apps/antelope/index-inline.c:32-42 | a search for one value in a column that may repeat values finds all its rows exactly if the value occurs once at most |
| `InlineIndex.EnumeratesRange` | apps/antelope/index-inline.c:201-227 | with no bound below the first value the iteration is what the query engine requires of an index |
| `InlineIndex.InlineIterator.RangeSearch` | apps/antelope/index-inline.c:153-181 | the rows of both bounds, unless a bound is below the first value; after a miss the old end stays |
| `InlineIndex.InlineIterator.GetNext` | apps/antelope/index-inline.c:201-227 | one step: a row between the static bounds, or INVALID_TUPLE; a miss counts as an item |
| `InlineIndex.CallsAnswer` | apps/antelope/index-inline.c:201-227 | what a new iterator answers call after call, also to a caller that goes on after a miss; its item count is never zero at the end |
| `InlineIndex.InlineIterator.Collect` | apps/antelope/index-inline.c:201-227 | a caller that stops at the first INVALID_TUPLE gets the hits |
| `Join.Handle.Process` | apps/antelope/relation.c:962-1056 | each call returns the first pair that is still to come, and starts over after DB_FINISHED |
| `Join.Handle.ProcessAll` | apps/antelope/relation.c:962-1056 | processing to the end gives the pairs of the nested loop in its order |
| `Join.JoinIsExact` | apps/antelope/relation.c:981-1053 | with an exact index the join consists of the pairs of rows with equal values, each once, left row by left row |
| `Join.JoinThroughInlineIndex` | apps/antelope/index-inline.c:201-227 | the inline index is exact for a join whose left values are not below the first right value |
| `Insert.Table.InsertRow` | apps/antelope/relation.c:475-548 | rows, heaps and status after an insertion that stops at the first attribute whose domain does not match or whose index refuses the value |
| `Insert.InsertAgrees` | apps/antelope/relation.c:475-548 | an insertion keeps the heaps in agreement with the rows exactly if it succeeds with the right row number, or fails before it has reached a heap, or there is none |
| `Insert.RunConserves` | apps/antelope/relation.c:475-548 | in every run a heap holds the entries that its rows call for and those that failing insertions have left, and no others |
| `Insert.RunAgrees` | apps/antelope/relation.c:475-548 | after any run the heaps agree with the rows exactly if no failing insertion has reached one |
| `Insert.LeftOverEntry` | apps/antelope/relation.c:536-541 | an insertion that fails later leaves an entry for the row inserted next |
| `Insert.RowIsGiven` | apps/antelope/relation.c:475-548 | an insertion adds no row or one with the given numbers: a LONG as it is, also if an INT was given, and an INT as it is exactly if it has 16 bits |
| `Insert.AddedByDomains` | apps/antelope/relation.c:490-498 | without heaps the row is added exactly if each value has the domain of its attribute or is an INT for a LONG |
| `RowBytes.ValueToPhy` | apps/antelope/result.c:117-148 | the bytes of a number from the most significant one on, or the string with a zero as its last byte, are written into the record |
| `RowBytes.WriteRecord` | apps/antelope/relation.c:475-548 | the record has in the place of each attribute the bytes of its value |
| `RowBytes.NumberReadBack` | apps/antelope/result.c:82-148 | a LONG is read back as the number that was written, and an INT as its low 16 bits |
| `RowBytes.RecordIsRow` | apps/antelope/relation.c:475-548 | the numbers that an insertion adds are those read back from the record that it stores |
| `RowBytes.RecordExample` | apps/antelope/result.c:117-148 | the bytes of a record with an INT, a LONG and a string |
| `Insert.Table.CreateIndex` | apps/antelope/index.c:82-161 | a number attribute without an index gets an empty one; anything else is an error |
| `Insert.Indexer.Load` | apps/antelope/index.c:359-433 | an index gets the values of its attribute with the numbers of a row counter that goes on from the last load, up to the first one it refuses |
| `Insert.LoadAgrees` | apps/antelope/index.c:359-433 | that gives it what the rows call for exactly if the counter started at a multiple of 2^16 or there are no rows |
| `CodeProp.SenderNode.SendData` | apps/codeprop/codeprop.c:198-222 | the packet with the image from the current address on |
| `CodeProp.SenderNode.StartBroadcast` | apps/codeprop/codeprop.c:426-434 | a new id and the first byte of the new image |
| `CodeProp.SenderNode.Run` | apps/codeprop/codeprop.c:224-263 | one call of the sending thread; a packet that comes with the call that sends leaves it yielded |
| `CodeProp.BroadcastIsComplete` | apps/codeprop/codeprop.c:224-263 | undisturbed, a broadcast sends all packets of 32 bytes of the image, in order and once each, and ends |
| `CodeProp.NackIsServed` | apps/codeprop/codeprop.c:240-255 | after a NACK the sender goes on at the missing byte, if that is not further than it has come |
| `CodeProp.SendNack` | apps/codeprop/codeprop.c:265-271 | the NACK is written over the packet in the shared buffer |
| `CodeProp.ReceiverNode.Write` | apps/codeprop/codeprop.c:314-315 | the data goes to the current address and nothing else changes |
| `CodeProp.ReceiverNode.Take` | apps/codeprop/codeprop.c:308-326 | one round of the receiving loop |
| `CodeProp.ReceiverNode.Run` | apps/codeprop/codeprop.c:273-354 | one call of the receiving thread, in which the loop around the first NACK is left because the address in the buffer has become zero |
| `CodeProp.PacketAnswered` | apps/codeprop/codeprop.c:308-326 | a receiving node that gets a data packet of its id in time sends a NACK for its own address, and changes nothing else, exactly if the packet lies ahead; at its address it stores the data and goes on, behind it nothing happens |
| `CodeProp.OtherwiseAnswered` | apps/codeprop/codeprop.c:273-306 | what every other call does: a NACK on a timeout, the opening of a transfer by a newer id, and nothing for any other packet |
| `CodeProp.NextKeeps` | apps/codeprop/codeprop.c:198-354 | every step of any node keeps the invariant of the system |
| `CodeProp.RunKeeps` | apps/codeprop/codeprop.c:198-354 | every run under loss, duplication and reordering keeps it |
| `CodeProp.ReceivedIsImage` | apps/codeprop/codeprop.c:287-297 | a transfer gives the image exactly if the packet that opened it has the bytes of the first one, so always for address 0 |
| `CodeProp.TransfersAreFaithful` | apps/codeprop/codeprop.c:293-352 | in every run a receiver whose transfer was opened at address 0 holds a prefix of the image of its id; a program started is the image exactly under that condition; and the ids started increase |
| `CodeProp.CanFinish` | apps/codeprop/codeprop.c:328-341 | while its image is still being sent, a receiver can get the whole of it, whatever was lost before |
| `CodeProp.CanFinishThroughGap` | apps/codeprop/codeprop.c:321-325 | once a packet behind a gap has been sent it can also do so without any of its timers: the NACK for the gap is enough |
| `CodeProp.WaitsForEver` | apps/codeprop/codeprop.c:328-341 | a receiver of an image that is not sent any more waits for ever if the packets sent do not lead from its address to the end |
| `CodeProp.OldPacketsSuffice` | apps/codeprop/codeprop.c:308-341 | if they do, it finishes when these packets arrive |
| `CodeProp.CanFinishExactly` | apps/codeprop/codeprop.c:308-341 | a receiver can still get its program exactly if the image is being sent, or the packets sent lead from its address to the end |
| `CodeProp.WrongProgram` | apps/codeprop/codeprop.c:287-297 | for every image longer than a packet there is a run in which a receiver starts a program with the data of the second packet in the place of the first |
| `Block2.CoapLog2` | apps/er-coap/er-coap.c:71-82 | the position of the highest bit |
| `Block2.SizeExponent` | apps/er-coap/er-coap.h:60-66 | the exponent that is coded for any chunk size is that of COAP_MAX_BLOCK_SIZE |
| `Block2.BlockRoundTrip` | apps/er-coap/er-coap.h:164-174 | a block option is read back with its number and flag, the block size both sides use, and the offset of the block |
| `Block2.ServerAnswers` | apps/er-coap/er-coap-engine.c:127-207 | the request for a block is answered with just that part of the representation and the right flag |
| `Block2.AnsweredByOption` | apps/er-coap/er-coap-engine.c:127-207 | whatever value the Block2 option of a request has, the answer is the part of the representation there with the smaller of both sizes, or 4.02 behind its end |
| `Block2.BlockingRequest` | apps/er-coap/er-coap-engine.c:376-442 | the chunks are the blocks in order, each once; if all requests are answered the transfer ends with the whole representation, unless it has more blocks than a block number can count; how it ends otherwise; and that the error of a server that is busy at first is passed on as the only chunk |
| `CoapExchange.BlockArrives` | apps/er-coap/er-coap.c:644-654 | a Block2 option put into a packet that is sent as a datagram arrives with its number, its flag and the size both sides count on |
| `CoapExchange.ExchangeOverDatagrams` | apps/er-coap/er-coap-engine.c:376-442 | a request for a block and its answer, serialized and parsed at the other end, give the client just what it counts on |
| `Block2.UnawareIsCut` | apps/er-coap/er-coap-engine.c:157-207 | a resource that does not know blocks is delivered whole exactly if its representation fits one chunk |
| `Block2.UnawareBlocks` | apps/er-coap/er-coap-engine.c:157-194 | a client that asks such a resource for blocks gets them as far as one chunk goes, and 4.02 behind that |
| `Coap.HeaderRead` | apps/er-coap/er-coap.c:109-133 | the delta and the length of an option header are read back, with extensions, and it is never taken for the payload marker |
| `Coap.IntRoundTrip` | apps/er-coap/er-coap.c:84-171 | an integer written without leading zeros is read back |
| `Coap.RejoinedIsSame` | apps/er-coap/er-coap.c:172-239 | a list value is read back unchanged exactly if it is empty, or does not start with a separator and ends with an even number of them |
| `CoapMessage.ParseLaid` | apps/er-coap/er-coap.c:466-686 | reading options laid out one after the other updates the fields with each of them |
| `CoapMessage.OptionRoundTrip` | apps/er-coap/er-coap.c:356-387 | each option is read back in its normal form |
| `CoapMessage.ParseUndoesSerialize` | apps/er-coap/er-coap.c:308-690 | parsing a serialized message gives the packet back, with options in normal form, whenever serialization succeeds |
| `CoapMessage.NormalizedIsSame` | apps/er-coap/er-coap.c:308-690 | the normal form is the packet itself exactly if no list value has leading or oddly many trailing separators and block sizes are powers of two |
| `CoapByNumber.HeaderByNumber` | apps/er-coap/er-coap.c:109-133 | an option header is a nibble for delta and length each, with one more byte from 13 and two from 269 on |
| `CoapByNumber.SettableByNumber` | apps/er-coap/er-coap.h:84-134 | what the packet can hold for each option number |
| `CoapByNumber.PartsByNumber` | apps/er-coap/er-coap.c:356-387 | for each option number the bytes that are written: opaque, empty, the shortest big-endian number, a plain string, the parts between slashes (8 and 11) or ampersands (15 and 20), or a block option |
| `CoapByNumber.SerializedByNumber` | apps/er-coap/er-coap.c:308-421 | a message is its header, token, options in the order of their numbers, each written by its number, and the payload behind its marker; it is not sent exactly if more than 62 bytes come before the payload |
| `CoapByNumber.EmptyMessage` | apps/er-coap/er-coap.c:336-340 | a message with the code 0 is sent as its header alone |
| `CoapByNumber.ParsedByNumber` | apps/er-coap/er-coap.c:423-690 | any message with options of known numbers is read with its fields, each option by its number: strings of 8 and 11 are joined by slashes, those of 15 and 20 by ampersands, of other options the last one counts; unknown even ones are ignored, and a payload is cut to a chunk |
| `CoapByNumber.RefusedByNumber` | apps/er-coap/er-coap.c:518-683 | the first other option decides the error: 5.05 for proxies, 4.02 for unknown odd numbers, and 4.00 above 60 |
| `CoapByNumber.WrongHeaderRefused` | apps/er-coap/er-coap.c:434-452 | another version or a token of more than 8 bytes is refused with 4.00 |
| `CoapByNumber.CutValueRefused` | apps/er-coap/er-coap.c:511-516 | so is a message that ends within the value of an option |
| `CoapBuffer.Parser.MergeMultiOption` | apps/er-coap/er-coap.c:220-239 | the part is joined to the string before it inside the datagram, no other string and no byte behind the option changes |
| `CoapBuffer.Parser.ParseInt` | apps/er-coap/er-coap.c:84-95 | the integer in the bytes |
| `CoapBuffer.Parser.TakeOption` | apps/er-coap/er-coap.c:529-683 | the option is entered into the packet, or the message is rejected with the code of its kind |
| `CoapBuffer.Parser.ParseNext` | apps/er-coap/er-coap.c:471-686 | one round of the loop; the bytes that are still to be read are those of the datagram as received |
| `CoapBuffer.Parser.ParseAll` | apps/er-coap/er-coap.c:471-686 | the outcome is that of reading the unchanged datagram |
| `CoapBuffer.Parser.ParseMessage` | apps/er-coap/er-coap.c:423-690 | status, header, token, options and payload are those of the parse function, with strings joined in place |
| `CoapWriter.SetOptionHeader` | apps/er-coap/er-coap.c:109-133 | the bytes of the header are written and nothing else |
| `CoapWriter.SerializeList` | apps/er-coap/er-coap.c:172-218 | the parts of a list are written as options |
| `CoapWriter.SerializeOption` | apps/er-coap/er-coap.h:137-174 | the parts of one option are written |
| `CoapWriter.SerializeHead` | apps/er-coap/er-coap.c:308-387 | everything before the payload is written, options in the order of their numbers |
| `CoapWriter.SerializeMessage` | apps/er-coap/er-coap.c:308-421 | length and bytes of the message, or 0 if the header is too long, wherever the payload lies |
| `CoapWriter.PayloadIsSent` | apps/er-coap/er-coap.c:391-399 | a payload in the packet buffer is sent unchanged exactly if the header does not reach it, or it is empty or starts with the marker byte |
| `WellKnown.Generator.AddChar` | apps/er-coap/er-coap-res-well-known-core.c:54-58 | the block shows its part of the text with the character |
| `WellKnown.Generator.AddString` | apps/er-coap/er-coap-res-well-known-core.c:60-74 | the block shows its part of the text with the string, or is full and the loop ends |
| `WellKnown.Generator.AddLink` | apps/er-coap/er-coap-res-well-known-core.c:165-176 | the block shows its part of the text with the entry of a resource, or is full with more to come |
| `WellKnown.GetHandler` | apps/er-coap/er-coap-res-well-known-core.c:116-204 | the first preferred_size bytes are the slice of the whole list at the offset, and the new offset is -1 exactly if that reaches the end |
| `WellKnown.ReadAll` | apps/er-coap/er-coap-res-well-known-core.c:196-203 | iterating from offset 0 gives the whole list and ends |
| `LinkReader.ListReadsBack` | apps/er-coap/er-coap-res-well-known-core.c:116-179 | a reader of RFC 6690 gets the paths and the attributes of all resources back from the list, if no path has a `>` and no attribute has an open quote or a comma outside of quotes |
| `WellKnown.Respond` | apps/er-coap/er-coap-res-well-known-core.c:187-204 | up to its end the list is a resource that knows blocks, as the transfer requires; behind it the error is the same but the offset says that this was the last block |
| `Transactions.Pool.NewTransaction` | apps/er-coap/er-coap-transactions.c:71-89 | the first free slot is taken and listed last; a full pool gives none; the callback in the slot is left |
| `Transactions.Pool.SendTransaction` | apps/er-coap/er-coap-transactions.c:97-148 | one sending, and the wait, the timeout or the freeing that follows |
| `Transactions.Pool.ClearTransaction` | apps/er-coap/er-coap-transactions.c:150-160 | the transaction leaves the list and its slot is free |
| `Transactions.Pool.AnswerTransaction` | apps/er-coap/er-coap-engine.c:247-260 | the first transaction with the message id is freed, and then its callback is called |
| `Transactions.Pool.CheckTransactions` | apps/er-coap/er-coap-transactions.c:175-187 | the walk over the list, which ends with a removed entry |
| `Transactions.NextKeeps` | apps/er-coap/er-coap-transactions.c:71-187 | every operation keeps the invariant |
| `Transactions.LivesAreProper` | apps/er-coap/er-coap-transactions.c:97-148 | in every run a packet is sent at most five times, with waits that double after each sending but the fifth; listed transactions are the allocated slots, and a transaction is freed once and before its callback |
| `Transactions.WalkSends` | apps/er-coap/er-coap-transactions.c:175-187 | the walk sends the packets of just the expired transactions in front of which none has timed out, and nothing happens to the others |
| `Transactions.CheckServesAll` | apps/er-coap/er-coap-transactions.c:175-187 | all packets whose timers have expired are sent again exactly if none of them has expired for the last time in front of another one |
| `Transactions.CallbackIsOwn` | apps/er-coap/er-coap-transactions.c:71-89 | in every run, a callback called for a transaction is its own exactly if one was registered for it while it was listed, and otherwise that of an earlier one |
| `Transactions.StaleCallback` | apps/er-coap/er-coap-transactions.c:71-89 | a run in which the second transaction in a slot is answered with the callback of the first |
| `TransactionSteps.CreatesTransaction` | apps/er-coap/er-coap-transactions.c:71-89 | in every run a transaction is created exactly if less than four are open; it is the last one and in no slot of another |
| `TransactionSteps.FirstSending` | apps/er-coap/er-coap-transactions.c:97-148 | a packet that is not confirmable is sent and freed at once, any other one is sent and waits for the time of its timer |
| `TransactionSteps.AnswerEnds` | apps/er-coap/er-coap-engine.c:247-260 | an answer frees the first transaction with its message id and then calls the callback; another one does nothing; no other transaction changes |
| `TransactionSteps.ClearIsQuiet` | apps/er-coap/er-coap-transactions.c:150-160 | clearing frees a transaction and calls nothing |
| `TransactionSteps.CheckServes` | apps/er-coap/er-coap-transactions.c:97-187 | an expired timer in front of which none has expired for the fourth time sends the packet again and doubles the wait, or after the fifth sending frees it and calls the callback; the others are left alone |
| `JsonSpec.WrittenMeans` | apps/json/jsonparse.c:269-298 | every text without zeros can be written as a string |
| `JsonProof.LetterRead` | apps/json/jsonparse.c:279-290 | the letters of the eight escapes of JSON stand for their bytes |
| `JsonProof.UnknownEscapeIsDropped` | apps/json/jsonparse.c:279-290 | any other escape is dropped from the copied text |
| `JsonProof.ReadString` | apps/json/jsonparse.c:76-86 | a string is one token, a name within an object, and its copied text is the bytes that are meant, however they are escaped |
| `JsonProof.ReadNumber` | apps/json/jsonparse.c:87-98 | a number is one token with its own text |
| `JsonProof.ReadLiteral` | apps/json/jsonparse.c:99-120 | null, true and false are one token each |
| `JsonProof.ReadValue` | apps/json/jsonparse.c:160-263 | a value is read as its tokens, at any depth, and the parser is no deeper behind it |
| `JsonProof.ReadDocument` | apps/json/jsonparse.c:160-263 | a printed tree is read as exactly its tokens, then its end without error at depth 0, and the stack holds no more than the nesting |
| `JsonAccept.NextExactly` | apps/json/jsonparse.c:160-263 | in every state that is reached without an error: just which token is accepted next, by the brackets that are open, the token before and the text, and that anything else is an error but for the end of a text whose brackets are closed |
| `JsonAccept.ErrorNamed` | apps/json/jsonparse.c:160-263 | which of the six error codes is reported |
| `JsonAccept.AcceptedIsLawful` | apps/json/jsonparse.c:160-263 | whatever the text is, the tokens given without an error have matching brackets, may follow each other and have texts of their kind; a text read to its end without an error has all brackets closed |
| `JsonAccept.SpacesDoNotMatter` | apps/json/jsonparse.c:126-134 | spaces and newlines in front of a token are skipped |
| `JsonAccept.OtherSpaceIsError` | apps/json/jsonparse.c:126-134 | tabs and carriage returns are syntax errors |
| `JsonParser.Parser.PushType` | apps/json/jsonparse.c:37-44 | the type is pushed and no value has been seen in it |
| `JsonParser.Parser.PopType` | apps/json/jsonparse.c:54-63 | the type popped is taken for that of a value |
| `JsonParser.Parser.PassAtomic` | apps/json/jsonparse.c:68-124 | position, extent and type of an atomic value, or a syntax error |
| `JsonParser.Parser.NextToken` | apps/json/jsonparse.c:160-263 | state and token are those of the function on states |
| `JsonParser.Parser.CopyValue` | apps/json/jsonparse.c:269-298 | the text without escapes, cut to the size less one |
| `JsonParser.ValuesAreComplete` | apps/json/jsonparse.c:68-124 | no value that the parser finds ends inside an escape |
| `JsonParser.ReadAll` | apps/json/jsonparse.c:160-298 | reading a printed text of allowed depth to its end and copying each value gives the tokens of the tree |
| `Checksum.SumIsTotal` | tools/tunslip.c:342-361 | the sum is congruent to the initial value and the words modulo 65535, and zero only for zeros |
| `Checksum.ComputeSum` | tools/tunslip.c:342-361 | the loop computes that sum |
| `Checksum.Check` | tools/tunslip.c:363-412 | the code of the first check that fails |
| `Checksum.FaultsInOrder` | tools/tunslip.c:363-412 | the code by the bytes of the packet: version, length, and sums, with even places counting 256 times, that are no multiple of 65535: of the header, of TCP and UDP with the pseudo header unless the UDP checksum is zero, and of ICMP |
| `Checksum.SegmentPasses` | tools/tunslip.c:382-409 | a TCP or ICMP packet with a good header passes if the complement of its sum has been put in place of a zero |
| `Checksum.NewSumIsLess` | tools/tunslip.c:643-649 | the updated checksum and the identification together are congruent to the old checksum, in either byte order |
| `Checksum.RenumberKeepsVerdict` | tools/tunslip.c:642-650 | a renumbered packet gets the verdict it had, except with a header length of 8, where it stays good exactly if the identification is 0 or 65535 |
| `Checksum.Prepare` | tools/tunslip.c:626-655 | packets that fail are dropped; those without identification and with the flag are renumbered in place; a good packet with a full header is sent |
| `Checksum.FlagAsRead` | tools/tunslip.c:642-642 | the flag tested is that of the packet only on a host with network byte order |
| `Checksum.RelayPacketPasses` | tools/tunslip.c:301-327 | every packet that the relay builds passes the check |
| `Checksum.RelayFields` | tools/tunslip.c:301-327 | its fields at their places in the headers of IP and UDP, and a checksum that is not zero |
| `Slip.ChunksDoNotMatter` | tools/tunslip6.c:171-337 | decoding does not depend on how the input is cut |
| `Slip.DecodePacket` | tools/tunslip6.c:171-337 | an encoded packet becomes one frame, which is the packet if it is shorter than the buffer and otherwise what follows the last full buffer; nothing left, no frame |
| `Slip.EncodeExample` | tools/tunslip6.c:415-478 | the bytes on the line for a packet with all bytes that are escaped, with and without flow control |
| `Slip.FramesAreThePackets` | tools/tunslip6.c:171-478 | a stream of packets, each with or without flow control escapes and however it is cut, is decoded into these frames, which are the packets exactly if none is empty or fills the buffer |
| `Slip.PacketsReachTun` | tools/tunslip6.c:199-281 | however a stream is cut, the tun device gets exactly its packets if and only if each is not empty, shorter than 2000 bytes, does not start with 0x21, 0x3f or 13, and has a byte behind the first that is not 0, 9, 10, 13 or from 32 to 126 |
| `Slip.UseByBytes` | tools/tunslip6.c:199-281 | which frames are obeyed, which are printed and which are written to tun, by their bytes |
| `Slip.PacketsAreSorted` | tools/tunslip6.c:199-281 | of a stream of packets that fit the buffer, those that start with 0x21 or 0x3f are obeyed, lines and texts are printed, and tun gets all others, each in order |
| `Slip.ReadStream` | tools/tunslip6.c:171-337 | the receiver does so with a stream in any chunks |
| `Slip.Sender.Send` | tools/tunslip6.c:376-384 | the byte is appended, or the buffer is full |
| `Slip.Sender.Flush` | tools/tunslip6.c:392-413 | partial writes lose and repeat nothing |
| `Slip.Sender.WriteToSerial` | tools/tunslip6.c:415-478 | the encoded packet is appended to the output, or the buffer is too small for it |
| `Slip.Receiver.SerialToTun` | tools/tunslip6.c:171-337 | frames, rest and an escape put back after a chunk; the buffer is never left full, and each frame has been written to tun, obeyed or printed by its use |
| `Slip.UseFrame` | tools/tunslip6.c:199-281 | a frame is a command, a debug line, text or a packet |
| `Slip.IsSensibleString` | tools/tunslip6.c:153-165 | a frame is shown as text exactly if all bytes but the first are printable |

## Left out

Antelope

- Storage, cfs files and allocation: reading and writing a row or bucket is assumed to succeed; MaxHeap reload after a restart is not modelled, and `transform_key` is any function to 16 bits.
- The bucket cache and the search state are shared by all heaps of the source; the model has those of one heap. index_get_next also stops after one item of a unique attribute, but no attribute is ever made unique.
- MaxHeap.Heap.NextForKey: requires that the cached buckets are not stale, and that the heap has not changed since the last call with the same iterator.
- MaxHeap.Heap.GetNext: with several pairs under one key it delivers those that the code delivers, not all; `MaxHeapSpec.HitsOfExact` says which. `HeapSearch.EnumeratesRange` is therefore stated for distinct keys.
- InlineIndex.InlineIterator.GetNext: when a search leaves the table, which is exactly when a bound is below the first value, the result depends on bytes that were never written, and only that is stated.
- LvmMachine.Machine.InsertOperator: requires room for one operator, because the code writes past the buffer otherwise.
- LvmMachine.Machine.Execute: `int` and `long` have 32 bits, overflow wraps around, code words behind the buffer read as zero, and the code is counted in words rather than bytes.
- The variable table has the four entries that its loops go over; the arrays of the source are one shorter.
- AqlParser.Parser.ParseWhere: accepted texts with strings or floats, with other skipped tokens behind operators, or with propositions in parentheses have their status and position stated, but not their code; strings and floats emit none, so that operators behind them are lost.
- AqlSelect.SelectWhere: requires a clause in whose code a predicate can be read; a SELECT with any other clause evaluates to an error for every row.
- The lexer (aql-lexer.c): a clause is a sequence of tokens.
- RowBytes.WriteRecord: attributes that have been removed and the relation's row length are not part of it; the record is as long as its fields.
- Aggregates, the relations of results, projection offsets of columns that are not stored, joined result rows as bytes, and the sharing of the static row buffers between queries.
- index-memhash.c: it is not among the registered index types.

codeprop

- The TCP upload: an image is stored at once when its broadcast starts, and its id is below 65535. Elapsed time: timers may expire at any call.

CoAP

- Block2.BlockingRequest: the resource follows the contract of resources that know blocks, and its representation is shorter than 2^31 bytes.
- CoapMessage.ParseUndoesSerialize: messages with a code of 0 carry nothing but four bytes, and proxy options are always rejected by the parser, so neither is read back.
- CoapBuffer.Parser.ParseMessage: what is behind the end of a datagram reads as zero; where the code looks there for an option header it rejects the message in any case.
- CoapWriter.SerializeList: the code compares a character behind the end of a string that ends with a separator; it is taken not to be a separator.
- Block1, observe, filters of the resource list, DTLS, and the setters and getters of options.
- Transactions: a transaction is sent once, in the same call that creates it (er-coap-engine.c:105-277 and 398-413), so the walk over the timers (er-coap-engine.c:358) meets none that has not been sent. Addresses, ports and packet contents are not part of it.

JSON

- JsonParser.Parser.NextToken: requires that the next token does not nest deeper than the stack, because the code writes past it.
- White space and numbers with exponents are not printed; `JsonAccept.SpacesDoNotMatter` says what white space does, and a number ends where an exponent begins.

tunslip

- Checksum.Prepare: requires a packet of at least 20 bytes whose header length is not longer than the packet; the code reads outside of it otherwise.
- The copying of DHCP options and the sockets: `Checksum.RelayPacketPasses` holds for any message contents.
- What the commands in SLIP frames do, and the echo at the other verbosity levels, which at 2, 3 and from 5 on drops lines of text from a frame; a read error or an overflow that ends the program is a result.
