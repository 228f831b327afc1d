# Verified models of the Contiki applications

This Dafny project models the parts of the repository's Contiki applications whose logic is closed and hard,
and proves what each part is for. Objects that the C code updates in place are classes, buffers are arrays,
and every loop of the modelled code is a loop here; each method is proved against a specification function,
and the properties below are proved of those functions, for all inputs or over all runs.

| file | component | main results |
|---|---|---|
| `Lvm`, `AqlParser` | the WHERE compiler and its bytecode machine | compiling in place and running means what the clause means |
| `Derivation` | range derivation | soundness, exactness, and exactly where it is unsound |
| `Storage`, `InlineIndex` | row files, binary search over them | rows read back; a range search encloses its rows |
| `Select`, `Join` | SELECT, REMOVE and JOIN as resumable handles | index-driven SELECT equals a scan; REMOVE partitions; JOIN equals a nested loop |
| `MaxHeap` | the bucket tree index | tree shape, insert and lookup |
| `Deluge`, `DelugeNetwork` | code dissemination | safety over all runs, and exactly which updates can spread |
| `CoapOptions`, `CoapBlocks`, `CoapMessage`, `CoapPrinter`, `CoapParser` | the CoAP message format | parsing undoes printing, with the exact condition; in-place merging |
| `LinkFormat`, `CoapBlockwise` | `.well-known/core` and block-wise transfer | windows tile the document; when a client gets all of it |
| `CoapTransactions` | retransmission | what exactly happens to every transaction in every run |
| `JsonTree`, `JsonParse` | JSON printer and parser | the stepper prints the rendering; the parser walks it back |
| `Slip` | SLIP framing | frames arrive intact over any splitting of the stream |
| `Checksum` | Internet checksum | one's-complement sums, incremental update, DHCP relay packets |
| `Bytes` | shared words and buffers | |

Choices that hold throughout:

* Machine widths are explicit. `int` and `long` are both 32 bits wide, so `long` wraps modulo 2^32; CoAP's 16- and
  32-bit fields, the 16-bit checksum, the signed 8-bit page number and the tuple identifiers of the binary search
  are subset types or written-out moduli.
* The cells of the LVM code array are slots (a type, an operator, an operand) and not bytes. The variable table has
  `AQL_ATTRIBUTE_LIMIT - 2` = 3 entries, since `db-options.h` defines `LVM_MAX_VARIABLE_ID` before the default in
  `lvm.c` can.
* Outside calls are parameters: how many bytes a write takes, whether memory is left, what a random choice gives,
  the two bytes behind a string in memory, the hash of a MaxHeap key, the index of a join.

What was found where the code does not do what it is for; each has a lemma or a method with the exact condition:

* Range derivation ignores on which side the constant stands, and joins intervals of different variables by OR,
  and derives one from two constants (`Derivation.ConstantOnTheLeft`, `Derivation.OrOfComparisons`,
  `Derivation.ConstantsOnly`).
* A SELECT whose clause uses an attribute that is not selected is refused (`Select.RelationSelect`), and the range
  that `select_index` prefers is the last one, not the smallest (`Select.Query.ChooseIndex`).
* A search of an inline index for a value below the first row, and any search of an empty relation, goes on behind the
  last row, because an unsigned bound wraps (`InlineIndex.StaysInside`).
* REMOVE also deletes the rows on which the clause divides by zero (`Select.RemovePartitions`, `Select.ZeroDivisor`),
  and in a relation with more than five attributes the columns from the sixth on (`Select.KeepsWholeRows`).
* A Deluge update reaches nobody unless its version is 1, it has at most 128 pages, and its profile fits into the
  packet buffer, which with the default of 128 bytes means at most 124 pages (`DelugeNetwork.SpreadsExactly`).
* A CoAP text option that begins with its separator, or ends with an odd number of them, is not received as it was
  sent (`CoapOptions.SplitExact`).
* With a chunk size that is not a power of two, a client can miss the end of a document (`CoapBlockwise.BlockingRequest`).
* A resource that does not know about blocks is served in blocks of its first chunk only (`CoapBlockwise.RestIsLost`).
* An option of an even number from 64 on is accepted, but has no bit in the bitmap of options
  (`CoapMessage.BehindTheBitmap`).
* A transaction whose caller registers no callback calls the one that the pool block held before
  (`CoapTransactions.Layer.FirstTransmission`).
* The variable `transaction` of `coap_receive` is static and survives the request it was set for. A datagram that
  `coap_parse_message` refuses, for example for an unknown critical option, therefore clears whatever transaction holds
  the block of the last request by then, without a timeout or a call (`CoapTransactions.SurvivesRefused` is the exact
  condition, `CoapTransactions.RefusedKills` such a run).
* An empty array or object as the value of a pair is printed, but not parsed (`JsonParse.EmptyValueFails`).
* tunslip tests the flag that forbids fragmentation in the host's byte order, and so another bit on a little-endian host
  (`Checksum.UnidentifiedIs`).
* The comment beside COAP_MAX_HEADER_SIZE in `er-coap-conf.h` says 65; its terms add up to 62, and the model follows the code.

`dafny verify dfyconfig.toml` checks the whole project.

## Model

| member | source | states |
|---|---|---|
| `Lvm.Instance.Execute` | contiki_app/src/apps/antelope/lvm.c:379-404 | Run on the prefix code of a clause, the machine gives the clause's truth value, or MATH_ERROR exactly when some division in it has a zero divisor (even one in a part that could not change the result), and without an error it stops exactly behind the code. |
| `Lvm.Instance.EvalExpr` | contiki_app/src/apps/antelope/lvm.c:165-219 | The value of the expression tree with 32-bit wrap-around and division toward zero, or MATH_ERROR iff a division by zero occurs anywhere below; it is what C promises of the operator on the values of the two sides, told without the evaluator; the instruction pointer ends behind the two operands. |
| `Lvm.Instance.Arithmetic` | contiki_app/src/apps/antelope/lvm.c:195-216 | What the switch over the operator computes: a long congruent modulo 2^32 to the sum, the difference or the product, or the quotient whose remainder is smaller than the divisor and zero or of the sign of the dividend (LONG_MIN / -1 wraps). |
| `Lvm.ValueComputes` | contiki_app/src/apps/antelope/lvm.c:195-216 | The value of every node is such a result of the values of its two sides. |
| `Lvm.Instance.EvalLogic` | contiki_app/src/apps/antelope/lvm.c:221-298 | After a header, the truth of the clause or MATH_ERROR iff one of its parts faults; AND and OR evaluate both sides, NOT one. |
| `Lvm.Instance.EvalConnective` | contiki_app/src/apps/antelope/lvm.c:221-298 | The connective half: no short circuit, an error of either argument wins over any truth value. |
| `Lvm.Instance.EvalComparison` | contiki_app/src/apps/antelope/lvm.c:221-298 | The comparison half: the six relations on two evaluated operands. |
| `Lvm.Instance.EvalOperands` | contiki_app/src/apps/antelope/lvm.c:165-219 | The operand loop shared by both evaluators reads exactly two operands, in order, each a leaf or a nested expression. |
| `Lvm.FaultsParts` | contiki_app/src/apps/antelope/lvm.c:221-298 | A clause faults exactly when one of its parts does. |
| `Lvm.ExprFaultsArith` | contiki_app/src/apps/antelope/lvm.c:165-219 | An expression faults exactly when an operand does or it divides by a zero value. |
| `Lvm.Instance.RegisterVariable` | contiki_app/src/apps/antelope/lvm.c:441-460 | A name gets one table entry, earlier entries keep their place and value, a new one starts at zero. |
| `Lvm.Instance.SetVariableValue` | contiki_app/src/apps/antelope/lvm.c:462-473 | Changes the assignment at one name only; a name that is not in a table with an unused entry leaves every variable alone. |
| `Lvm.PredCodeStable` | contiki_app/src/apps/antelope/lvm.c:441-460 | Registering more variables never changes the code of a clause whose variables are registered. |
| `Lvm.Instance.JumpToOperand` | contiki_app/src/apps/antelope/lvm.c:314-327 | Reserves the two slots of a header, or records an error and leaves the end where it was when the code array is full. |
| `Lvm.Instance.ShiftForOperator` | contiki_app/src/apps/antelope/lvm.c:329-348 | The in-place shift: the code behind a position moves up by one header, what is in front of it stays, and the end moves back to the gap. |
| `Lvm.Instance.SetEnd` | contiki_app/src/apps/antelope/lvm.c:356-370 | Moves the end and returns the old one, unless the new end is outside the array. |
| `AqlParser.Parser.ParseWhere` | contiki_app/src/apps/antelope/aql-parser.c:402-447 | For every clause of the flat grammar that fits, the emitted code is exactly the prefix code of its tree, with connectives grouping to the right whatever they are, and the variable table is the clause's variables in order of first use. |
| `AqlParser.Parser.ParseExpr` | contiki_app/src/apps/antelope/aql-parser.c:290-348 | Appends exactly the prefix code of `operand`, `operand op operand` or `operand op (expr)`, and consumes the closing parenthesis behind a nested expression. |
| `AqlParser.Parser.ParseComparison` | contiki_app/src/apps/antelope/aql-parser.c:350-400 | The header gap, the left expression, the relation filled in backwards and the right expression together are the prefix code of the comparison. |
| `AqlParser.Parser.ParseOperand` | contiki_app/src/apps/antelope/aql-parser.c:267-288 | Emits a constant or a registered variable; fails without emitting on an opening parenthesis. |
| `AqlParser.Parser.EmitOperation` | contiki_app/src/apps/antelope/aql-parser.c:290-348 | Operand, operator, operand: the operator header ends up in front of both operands. |
| `AqlParser.Parser.NextComparison` | contiki_app/src/apps/antelope/aql-parser.c:402-447 | One more comparison: the connective header is inserted in front of the last comparison, and the next one is compiled behind it. |
| `AqlParser.SpineCode` | contiki_app/src/apps/antelope/aql-parser.c:402-447 | Putting each connective in front of the comparison it follows gives, for any number of comparisons, the prefix code of the right-nested tree. |
| `AqlParser.SpineAppend` | contiki_app/src/apps/antelope/aql-parser.c:402-447 | Compiling one more comparison adds its connective header and its code to the finished part. |
| `AqlParser.SpinePrefix` | contiki_app/src/apps/antelope/aql-parser.c:402-447 | Variables that are registered later do not change the finished part. |
| `AqlParser.RegisterClauseGrows` | contiki_app/src/apps/antelope/aql-parser.c:267-288 | Compiling registers exactly the clause's variables, once each, behind those already in the table. |
| `AqlParser.ClauseTokensAt` | contiki_app/src/apps/antelope/aql-parser.c:402-447 | A printed clause is one that the token-level grammar recognises at its place, followed by an end. |
| `AqlParser.CompileAndExecute` | contiki_app/src/apps/antelope/aql-parser.c:402-447 | End to end: compiling a clause from its tokens, loading a row and running the code gives the clause's truth under that row, or MATH_ERROR iff a divisor is zero. |
| `AqlParser.LoadRow` | contiki_app/src/apps/antelope/relation.c:787-800 | Afterwards the machine's variables agree with the row on every variable the row mentions. |
| `AqlParser.LoadAndExecute` | contiki_app/src/apps/antelope/relation.c:787-833 | Running stored code on a row gives the clause's outcome under that row. |
| `AqlParser.SameOutcome` | contiki_app/src/apps/antelope/lvm.c:379-404 | Truth and faults depend on the values of the clause's own variables only. |
| `Derivation.DeriveRelation` | contiki_app/src/apps/antelope/lvm.c:582-687 | derive_relation fails exactly when the reference derivation does, and otherwise leaves exactly its box in the array. |
| `Derivation.CombineDerivations` | contiki_app/src/apps/antelope/lvm.c:496-580 | create_intersection and create_union combine two boxes interval by interval as Meet and Hull. |
| `Derivation.DeriveBounds` | contiki_app/src/apps/antelope/lvm.c:638-687 | The interval of one comparison, with the operand order ignored and the bounds of < and > wrapped by one. |
| `Derivation.DerivationSound` | contiki_app/src/apps/antelope/lvm.c:582-687 | Within the fragment, for all constants, every assignment that makes the clause true lies in every derived interval. |
| `Derivation.DerivationExact` | contiki_app/src/apps/antelope/lvm.c:496-537 | For clauses without OR the box contains no assignment that makes the clause false, iff no bound of a > or < has wrapped around or the box contains nothing. |
| `Derivation.DerivesConstrained` | contiki_app/src/apps/antelope/lvm.c:582-687 | Within the fragment the derivation succeeds, and a variable has an interval iff the clause compares it. |
| `Derivation.ConstantOnTheLeft` | contiki_app/src/apps/antelope/lvm.c:638-650 | With the constant on the left the interval is sound iff the relation is an equality, or an end of the range of long makes the clause never true or the interval everything; nothing is derived from <>. |
| `Derivation.ConstantsOnly` | contiki_app/src/apps/antelope/lvm.c:638-687 | A comparison of two constants constrains the variable whose number is the lowest byte of the second (on a little-endian host); for the first variable that is sound iff the comparison is never true or the interval is everything (from <> nothing is derived). |
| `Derivation.OrOfComparisons` | contiki_app/src/apps/antelope/lvm.c:543-552 | Two comparisons joined by OR are bounded soundly iff they constrain the same variable, or no interval leaves out what the other side can accept; nothing is derived from <>. |
| `MaxHeap.Index.InsertItem` | contiki_app/src/apps/antelope/index-maxheap.c:447-492 | Every reachable index stays valid (tree shape and every pair on its key's search path); the insert fails iff the last bucket on the path is full and is one of the nodes 127..254; then the tree may have grown, but no pair is added or lost. |
| `MaxHeap.Index.Lookup` | contiki_app/src/apps/antelope/index-maxheap.c:668-750 | A first lookup finds a value iff its key was inserted; for distinct keys it is exactly the inserted value. |
| `MaxHeap.Index.VisitedBuckets` | contiki_app/src/apps/antelope/index-maxheap.c:690-720 | The recorded way down is the key's search path and never overruns the array of NODE_DEPTH entries. |
| `MaxHeap.Index.HeapInsert` | contiki_app/src/apps/antelope/index-maxheap.c:225-260 | The search from the root finds the place of a half-range and stores the node there, or reports that it is there. |
| `MaxHeap.Index.HeapFind` | contiki_app/src/apps/antelope/index-maxheap.c:262-292 | Returns the child on the key's path if it is stored and its children are inside the array, and otherwise nothing, leaving the iterator. |
| `MaxHeap.Index.BucketSplit` | contiki_app/src/apps/antelope/index-maxheap.c:416-445 | Stores exactly the two halves of a bucket's range, or fails iff they are stored already; shape and balance are kept. |
| `MaxHeap.Index.BucketAppend` | contiki_app/src/apps/antelope/index-maxheap.c:394-414 | Fills the next free slot of one bucket, or fails iff it is full, and touches nothing else. |
| `MaxHeap.Index.MakeRoom` | contiki_app/src/apps/antelope/index-maxheap.c:447-492 | Splitting the last bucket on the path leads to a bucket on the path that has room, unless the path is full. |
| `MaxHeap.Index.ScanBucket` | contiki_app/src/apps/antelope/index-maxheap.c:725-750 | Finds a slot of the bucket with the key, or proves that none has it. |
| `MaxHeap.Span` | contiki_app/src/apps/antelope/index-maxheap.c:225-260 | A node at depth d spans exactly 2^(16-d) hashes. |
| `MaxHeap.NodeSpan` | contiki_app/src/apps/antelope/index-maxheap.c:225-260 | No node that fits in the array is deeper than 8. |
| `MaxHeap.ChildrenPartition` | contiki_app/src/apps/antelope/index-maxheap.c:416-445 | Each hash of a node belongs to exactly one of its two children. |
| `MaxHeap.SearchPathExact` | contiki_app/src/apps/antelope/index-maxheap.c:262-292 | Repeated heap_find visits exactly the findable nodes that accept the hash. |
| `MaxHeap.GrowthKeeps` | contiki_app/src/apps/antelope/index-maxheap.c:416-445 | Adding nodes takes no stored pair off its search path. |
| `MaxHeap.AppendKeeps` | contiki_app/src/apps/antelope/index-maxheap.c:394-414 | Appending a pair to a bucket on its path keeps every other pair where it can be found. |
| `MaxHeap.Index.NeverInserted` | contiki_app/src/apps/antelope/index-maxheap.c:668-750 | If no bucket on the key's path holds the key, it was never inserted. |
| `MaxHeap.Index.constructor` | contiki_app/src/apps/antelope/index-maxheap.c:494-585 | A new index is the valid tree with the root only. |
| `Storage.ValueRead` | contiki_app/src/apps/antelope/result.c:82-148 | Reading back an encoded value gives it modulo 2^16 for an INT and unchanged for a LONG. |
| `Storage.EncodedBytes` | contiki_app/src/apps/antelope/result.c:117-148 | The bytes of a value, the most significant first: two of an INT, four of a LONG. |
| `Storage.LowBytesNumber` | contiki_app/src/apps/antelope/result.c:117-148 | The big-endian bytes of a number denote it modulo the width. |
| `Storage.RowBytesAt` | contiki_app/src/apps/antelope/relation.c:131-147 | The bytes at an attribute's offset are those of its value, for any schema. |
| `Storage.RowRead` | contiki_app/src/apps/antelope/relation.c:418-432 | Every attribute of an encoded row reads back as its stored value. |
| `Storage.MaskedTwice` | contiki_app/src/apps/antelope/storage-cfs.c:440-490 | The change to the last byte of a row undoes itself. |
| `Storage.FlippedBits` | contiki_app/src/apps/antelope/storage-cfs.c:433-470 | All bits of the last byte of a row but bits 0 and 3 are changed. |
| `Storage.FileAt` | contiki_app/src/apps/antelope/storage-cfs.c:403-438 | Row k of the file, at k times the row length, is the k-th inserted row in its changed form. |
| `Storage.FileLength` | contiki_app/src/apps/antelope/storage-cfs.c:492-509 | The file is as long as the inserted rows together. |
| `Storage.Relation.Insert` | contiki_app/src/apps/antelope/relation.c:475-548 | Appends exactly one row to the relation's history and keeps the file and cardinality in step with it, however the writes are split. |
| `Storage.Relation.PutRow` | contiki_app/src/apps/antelope/storage-cfs.c:440-490 | However few bytes each write takes, exactly the changed row is appended. |
| `Storage.Relation.GetRow` | contiki_app/src/apps/antelope/storage-cfs.c:403-438 | Row k as it was inserted, or DB_FINISHED exactly from the number of inserts on. |
| `Storage.Relation.GetValue` | contiki_app/src/apps/antelope/relation.c:418-432 | The value of attribute j of the k-th inserted row, modulo its stored width. |
| `Storage.Relation.RowAmount` | contiki_app/src/apps/antelope/storage-cfs.c:492-509 | The number of rows in the file is the number of inserts. |
| `Storage.Relation.MakeRecord` | contiki_app/src/apps/antelope/relation.c:475-548 | The record of a row is its values one after the other. |
| `Storage.Relation.constructor` | contiki_app/src/apps/antelope/relation.c:275-317 | A new relation is empty. |
| `InlineIndex.BinarySearch` | contiki_app/src/apps/antelope/index-inline.c:103-151 | On a strictly increasing non-empty column and a target not below its first value the search ends inside the rows: an exact search finds nothing iff the value is absent; otherwise the result holds the target or is within one row of its insertion point. |
| `InlineIndex.StaysInside` | contiki_app/src/apps/antelope/index-inline.c:103-151 | On an increasing column the search reads, in any number of rounds, only tuples that are there, iff there is a row and the target is not below the first one; otherwise `max - 1` wraps. |
| `InlineIndex.SearchStep` | contiki_app/src/apps/antelope/index-inline.c:118-141 | In every round the unsigned arithmetic does not wrap, and the place of the target stays between the bounds. |
| `InlineIndex.RangeCovers` | contiki_app/src/apps/antelope/index-inline.c:153-181 | Two searched ends enclose every row whose value is in the range. |
| `InlineIndex.RangeIterator.RangeSearch` | contiki_app/src/apps/antelope/index-inline.c:153-181 | Fails iff the range is a single value that the column does not hold; otherwise start and end enclose all rows of the range. |
| `InlineIndex.RangeIterator.GetNext` | contiki_app/src/apps/antelope/index-inline.c:201-227 | Returns consecutive tuples; nothing of the range is before the first one or behind the last one. |
| `InlineIndex.RangeIterator.Next` | contiki_app/src/apps/antelope/index.c:304-330 | The early stop for unique attributes loses nothing. |
| `Select.SelectRows` | contiki_app/src/apps/antelope/relation.c:734-959 | A whole SELECT returns, as tuples, exactly the rows that a full scan with the clause finds, in the same order, projected to the asked attributes, whichever index select_index picks; DB_INDEX_ERROR only when there is no such row; the two refusals have exact conditions over the names. |
| `Select.Query.Run` | contiki_app/src/apps/antelope/relation.c:734-870 | The calls of process_select until they stop: the tuples returned, and for an assignment the bytes stored, are exactly those of the accepted rows in order, from a scan or from an index. |
| `Select.Query.Process` | contiki_app/src/apps/antelope/relation.c:734-870 | One call: the next accepted row with its projected bytes in the result buffer, or one rejected row, or the end; every row passed over is rejected. |
| `Select.Query.NextTuple` | contiki_app/src/apps/antelope/relation.c:754-769 | Moving along the index skips rejected rows only; DB_INDEX_ERROR only before the first row. |
| `Select.Query.CopyRow` | contiki_app/src/apps/antelope/relation.c:784-822 | The result buffer becomes the encoding of the projected row, and the predicate's variables get the row's stored values. |
| `Select.Query.Test` | contiki_app/src/apps/antelope/relation.c:784-833 | A row counts as found iff its clause gives the wanted truth value without a fault. |
| `Select.Query.ChooseIndex` | contiki_app/src/apps/antelope/relation.c:644-663 | The index that is picked is the last one with a derived range, because the smallest range seen is never recorded. |
| `Select.Query.Prepare` | contiki_app/src/apps/antelope/relation.c:674-709 | From a compiled clause to a query at the start of the relation whose index, if any, covers every row that it accepts. |
| `Select.Query.GetDerivedRange` | contiki_app/src/apps/antelope/lvm.c:695-712 | The derived interval of a named variable, or none. |
| `Select.Query.GetValue` | contiki_app/src/apps/antelope/result.c:46-80 | Value `col` of the result is what stands at its offset in the tuple; LIMIT_ERROR exactly beyond the last column. |
| `Select.GenerateAttributeMap` | contiki_app/src/apps/antelope/relation.c:592-628 | The map takes each attribute of the result from its column of the relation to its offset in the result. |
| `Select.RelationSelect` | contiki_app/src/apps/antelope/relation.c:872-959 | NAME_ERROR iff some attribute's name is not among the names of the relation's attributes; otherwise RELATIONAL_ERROR iff the clause needs an attribute that is not selected (the processing-only attribute makes the two counts differ); otherwise a query that is ready to run. |
| `Select.AttributeFind` | contiki_app/src/apps/antelope/relation.c:118-129 | The loop finds the first attribute of a name, and none iff no attribute has the name. |
| `Select.ColumnIs` | contiki_app/src/apps/antelope/relation.c:118-129 | The column of a name is the first one that has it; there is none iff no attribute has it. |
| `Select.ResultAttributes` | contiki_app/src/apps/antelope/relation.c:903-956 | The attributes of the result in order, and how many of them are not there for the predicate only. |
| `Select.MatchingIs` | contiki_app/src/apps/antelope/relation.c:734-870 | The scan finds a row iff the predicate accepts it, once, in file order. |
| `Select.MatchingMeans` | contiki_app/src/apps/antelope/relation.c:824-845 | A row is selected iff its clause is true and no division in it has a zero divisor, kept by a REMOVE iff it is false and none has, and always returned without a clause. |
| `Select.IndexLosesNothing` | contiki_app/src/apps/antelope/relation.c:630-672 | A row that satisfies a derivable clause has the indexed attribute inside the derived range. |
| `Select.RemovePartitions` | contiki_app/src/apps/antelope/relation.c:824-845 | Selected and kept rows are ordered and disjoint, and together they are all rows iff the clause divides by zero on none; a row whose evaluation fails is neither selected nor kept. |
| `Select.ZeroDivisor` | contiki_app/src/apps/antelope/relation.c:824-845 | With the clause 1 / a = 0 a row is neither selected by a SELECT nor kept by a REMOVE iff its value of a is zero. |
| `Select.Remove` | contiki_app/src/apps/antelope/relation.c:711-731 | REMOVE without an index leaves a file that holds, in order, exactly the rows on which the clause is false, each cut to its first five columns, and whose row count says so; with at most five attributes these are the whole rows. |
| `Select.KeepsWholeRows` | contiki_app/src/apps/antelope/aql-exec.c:136-147 | A REMOVE that keeps any row keeps whole rows iff the relation has at most five attributes; with more, every row that is kept loses its columns from the sixth on. |
| `Select.CopyAttributes` | contiki_app/src/apps/antelope/aql-exec.c:139-146 | The copied attributes are the first five, since aql_add_attribute refuses a sixth and its result is ignored. |
| `Select.AssignmentAt` | contiki_app/src/apps/antelope/relation.c:787-800 | Under the assignment of a row each attribute has the stored value of its column. |
| `Join.Handle.Run` | contiki_app/src/apps/antelope/relation.c:962-1056 | Repeated calls until DB_FINISHED return, and store if asked, exactly the rows of the nested loop in its order; jumping back into the inner loop loses and repeats nothing. |
| `Join.Handle.Process` | contiki_app/src/apps/antelope/relation.c:962-1056 | One call produces the first of the remaining pairs and leaves the others, or DB_FINISHED iff none remains; after that a further call would start again. |
| `Join.Handle.NextLeft` | contiki_app/src/apps/antelope/relation.c:988-1008 | The head of the outer loop starts a search for the value of the current left row, or ends behind the last one. |
| `Join.Handle.Emit` | contiki_app/src/apps/antelope/relation.c:1014-1051 | The inner loop's body turns the next pair into a row and advances by one. |
| `Join.Handle.CopyPair` | contiki_app/src/apps/antelope/relation.c:1033-1042 | The result row is the encoding of the joined values of the two rows. |
| `Join.PairsAre` | contiki_app/src/apps/antelope/relation.c:962-1056 | With a sound and complete index, a pair of rows is in the join iff their join values are equal, exactly once, in left-row order. |
| `Join.GenerateSources` | contiki_app/src/apps/antelope/relation.c:1058-1108 | Each attribute comes from the left relation if that has it, otherwise from the right; NAME_ERROR iff neither has the name of one of them. |
| `Join.RelationJoin` | contiki_app/src/apps/antelope/relation.c:1110-1193 | The four outcomes of starting a join, with exact conditions over the names of the attributes; on success the handle is ready and no pair has been produced. |
| `DelugeNetwork.Safety` | contiki_app/src/apps/deluge/deluge.c:225-579 | In every run of every network (loss, duplication, reordering, any timing): a page marked complete at the new version holds the source's bytes, all pages below the receive page are complete, a node has the new version iff all its pages are complete at it, and then its whole file is the new image. |
| `DelugeNetwork.PacketsGenuine` | contiki_app/src/apps/deluge/deluge.c:346-373 | Every data packet that is ever sent, relayed ones included, carries the source's bytes for its page and number. |
| `DelugeNetwork.NothingLost` | contiki_app/src/apps/deluge/deluge.c:430-579 | No step takes back a version or a complete new page. |
| `DelugeNetwork.SpreadsExactly` | contiki_app/src/apps/deluge/deluge.c:499-615 | From an initial network with a source, some run gives an old node the new version iff that version is 1, the image has at most 128 pages, and its profile (4 bytes and one for each page) and a data packet fit into the packet buffer: the dispatcher's length test multiplies by the version, the page number of a request is signed, and what does not fit is cut. |
| `DelugeNetwork.ArrivesWhole` | contiki_app/src/apps/deluge/deluge.c:581-615 | Which messages arrive with the length that their handler asks for: 4, 5 and 72 bytes, and for a profile 4 bytes and the number of pages times the first version. |
| `DelugeNetwork.NeverSpreads` | contiki_app/src/apps/deluge/deluge.c:581-615 | Otherwise no run ever changes an old node's version. |
| `DelugeNetwork.NextKeeps` | contiki_app/src/apps/deluge/deluge.c:225-579 | Every step keeps the network invariant. |
| `DelugeNetwork.SummaryKeeps` | contiki_app/src/apps/deluge/deluge.c:290-344 | Hearing a summary keeps the node's invariant. |
| `DelugeNetwork.RequestKeeps` | contiki_app/src/apps/deluge/deluge.c:397-428 | Hearing a request keeps the node's invariant. |
| `DelugeNetwork.PacketKeeps` | contiki_app/src/apps/deluge/deluge.c:430-497 | Hearing a packet keeps the node's invariant. |
| `DelugeNetwork.PageCompleted` | contiki_app/src/apps/deluge/deluge.c:456-490 | The packet that completes a page writes the source's page and marks it, and the last page makes the node updated. |
| `DelugeNetwork.ProfileKeeps` | contiki_app/src/apps/deluge/deluge.c:523-579 | Hearing a profile keeps the node's invariant: outdated pages are reset, current ones are not. |
| `DelugeNetwork.SendsOk` | contiki_app/src/apps/deluge/deluge.c:346-395 | Only a node that has the page sends it. |
| `Deluge.HighestAvailable` | contiki_app/src/apps/deluge/deluge.c:225-237 | The number of complete pages before the first incomplete one. |
| `Deluge.PagePacketsExact` | contiki_app/src/apps/deluge/deluge.c:346-373 | Exactly the requested packets of the page go out. |
| `Deluge.SendsWhatWasAsked` | contiki_app/src/apps/deluge/deluge.c:375-428 | Rules T.1 and T.2 over any time: while a node accepts no request for another page and no newer profile, its transmit timer sends packet k of the page, with the bytes of the file, iff k was pending or one of the requests accepted since asks for it. |
| `Deluge.PendingAfter` | contiki_app/src/apps/deluge/deluge.c:397-428 | What any single event does to the page and the packets that wait: an accepted request for the same page adds its bits, for another page replaces both, a newer profile empties the set, and nothing else touches them. |
| `Deluge.SummaryAsks` | contiki_app/src/apps/deluge/deluge.c:290-344 | A summary makes the node ask iff it is of the version being fetched, offers a missing page, is possible, and nothing was heard lately. |
| `Deluge.AsksTwice` | contiki_app/src/apps/deluge/deluge.c:239-266 | Rule R.2: two requests in a row, then back to maintaining with the receive timer stopped. |
| `Deluge.PacketStored` | contiki_app/src/apps/deluge/deluge.c:430-497 | Which byte, which bit, and which pages a packet changes; one with a wrong checksum completes nothing. |
| `Deluge.ProfileRenews` | contiki_app/src/apps/deluge/deluge.c:523-579 | A newer profile makes outdated exactly the pages whose version it raises, and the node asks from its first incomplete page on; without memory it only empties the set of packets to send. |
| `Deluge.TimersStop` | contiki_app/src/apps/deluge/deluge.c:103-121 | Whatever happens, leaving a state stops its timer, so the transmit timer runs in the transmit state only. |
| `Deluge.Node.constructor` | contiki_app/src/apps/deluge/deluge.c:190-223 | A new node holds every page of its file at its version and is in the maintain state. |
| `Deluge.Node.FindHighestAvailable` | contiki_app/src/apps/deluge/deluge.c:225-237 | The loop finds the first incomplete page. |
| `Deluge.Node.MoveTo` | contiki_app/src/apps/deluge/deluge.c:103-121 | A state change stops the timer of the state that is left. |
| `Deluge.Node.HandleSummary` | contiki_app/src/apps/deluge/deluge.c:290-344 | The new state of the node after a summary, as the reference transition says. |
| `Deluge.Node.HandleRequest` | contiki_app/src/apps/deluge/deluge.c:397-428 | The new state after a request: bits are added to the set of the page that is being sent, or another page takes its place (what is sent in the end is stated by SendsWhatWasAsked). |
| `Deluge.Node.HandlePacket` | contiki_app/src/apps/deluge/deluge.c:430-497 | The new state after a packet, including the page that is written and the version that is taken over at the last page. |
| `Deluge.Node.HandleProfile` | contiki_app/src/apps/deluge/deluge.c:523-579 | The new state after a profile, with a new page table. |
| `Deluge.Node.Dispatch` | contiki_app/src/apps/deluge/deluge.c:581-615 | For any number of bytes that have arrived, the dispatcher with its length tests hands each message to its handler or drops it. |
| `Deluge.Node.SendRequest` | contiki_app/src/apps/deluge/deluge.c:239-266 | The request asks for the missing packets of the receive page; after CONST_LAMBDA requests the node gives up and maintains. |
| `Deluge.Node.BroadcastPage` | contiki_app/src/apps/deluge/deluge.c:346-373 | The loop sends the requested packets in order. |
| `Deluge.Node.SendPage` | contiki_app/src/apps/deluge/deluge.c:375-395 | The transmit timer sends the page once and clears the request, or does nothing. |
| `Deluge.WrittenPage` | contiki_app/src/apps/deluge/deluge.c:123-134 | Writing one page changes that page and no other. |
| `CoapOptions.HeaderRead` | contiki_app/src/apps/er-coap/er-coap.c:96-130 | An option header reads back as its delta and length, and its first byte is below 0xF0, so that it is never taken for the payload marker. |
| `CoapOptions.HeaderDenotes` | contiki_app/src/apps/er-coap/er-coap.c:96-130 | The bytes of an option header as section 3.1 of RFC 7252 defines them: nibbles below 13 are the number, 13 and 14 announce one byte minus 13 or two minus 269. |
| `CoapOptions.ExtendDenotes` | contiki_app/src/apps/er-coap/er-coap.c:505-520 | What the parser makes of any nibble and the bytes behind it. |
| `CoapOptions.ScanReads` | contiki_app/src/apps/er-coap/er-coap.c:476-520 | In any datagram each option that the loop finds stands there as section 3.1 of RFC 7252 writes it, behind the one before; the loop ends at a first nibble of 15 or at the end. |
| `CoapOptions.PayloadMarked` | contiki_app/src/apps/er-coap/er-coap.c:388-400 | A payload is sent behind a byte of ones, an empty one without. |
| `CoapOptions.SetOptionHeader` | contiki_app/src/apps/er-coap/er-coap.c:108-130 | Writes exactly the header bytes of section 3.1 of RFC 7252 and returns their number. |
| `CoapOptions.IntRead` | contiki_app/src/apps/er-coap/er-coap.c:83-94 | An integer option reads back, and is as short as possible. |
| `CoapOptions.ParseIntOption` | contiki_app/src/apps/er-coap/er-coap.c:83-94 | The big-endian value of the bytes modulo 2^32. |
| `CoapOptions.SerializeIntOption` | contiki_app/src/apps/er-coap/er-coap.c:132-168 | Writes the option with the shortest bytes of the value. |
| `CoapOptions.SerializeArrayOption` | contiki_app/src/apps/er-coap/er-coap.c:170-215 | Writes one option with the whole value. |
| `CoapOptions.SerializeSplitOption` | contiki_app/src/apps/er-coap/er-coap.c:170-215 | Writes one option for every segment between separators, as the loop cuts them. |
| `CoapOptions.SplitExact` | contiki_app/src/apps/er-coap/er-coap.c:170-236 | Splitting and merging give the text back iff it does not begin with the separator and ends with an even number of separators (unless a separator happens to follow it in memory). |
| `CoapOptions.CutMerged` | contiki_app/src/apps/er-coap/er-coap.c:170-236 | What splitting and merging make of any text, beginning anywhere. |
| `CoapOptions.MergedIsJoined` | contiki_app/src/apps/er-coap/er-coap.c:217-236 | Merging any list of segments gives them joined by the separator, apart from empty ones at the start. |
| `CoapOptions.WireRead` | contiki_app/src/apps/er-coap/er-coap.c:476-520 | The option loop recovers exactly the options that were written and the payload behind the marker. |
| `CoapOptions.EncodeAppend` | contiki_app/src/apps/er-coap/er-coap.c:108-130 | Options are delta-coded: a list is encoded as its parts, the second from where the first ends. |
| `CoapOptions.IntBytesSelected` | contiki_app/src/apps/er-coap/er-coap.c:132-168 | The four tests of the serializer select exactly the shortest form. |
| `CoapBlocks.FindLog2` | contiki_app/src/apps/er-coap/er-coap.c:70-81 | The position of the highest bit. |
| `CoapBlocks.DecodedOffset` | contiki_app/src/apps/er-coap/er-coap.c:635-656 | A decoded block's offset is its number times its size, modulo 2^32. |
| `CoapBlocks.BlockBits` | contiki_app/src/apps/er-coap/er-coap.h:167-177 | The bits of a block option: the number without its top four bits, the more flag, and three bits of the exponent, whose fourth falls together with the flag. |
| `CoapBlocks.BlockRead` | contiki_app/src/apps/er-coap/er-coap.h:167-177 | Any size in 16..2048 is encoded as the greatest power of two not above it; number and flag survive. |
| `CoapBlocks.BlockReadExactly` | contiki_app/src/apps/er-coap/er-coap.h:167-177 | A block comes back as sent iff its number fits in 28 bits, its size is a power of two in 16..2048 and its offset agrees. |
| `CoapBlocks.MaxBlockSizeRounds` | contiki_app/src/apps/er-coap/er-coap.h:57-66 | COAP_MAX_BLOCK_SIZE is the greatest power of two not above the chunk size. |
| `CoapMessage.RoundTrip` | contiki_app/src/apps/er-coap/er-coap.c:307-679 | For every message with known options whose header fits, parsing what was printed gives no error, and gives back every field, option bit and payload byte iff the values are ones that come back (tags of at most 8 bytes, splittable texts, sendable blocks, payload of at most one chunk). |
| `CoapMessage.PrintedParsed` | contiki_app/src/apps/er-coap/er-coap.c:307-679 | In all cases parsing gives no error and exactly this: tags cut, texts split and merged again, sizes rounded, payload cut. |
| `CoapMessage.ReceivedExactly` | contiki_app/src/apps/er-coap/er-coap.c:307-679 | What the receiver gets equals what was sent iff the message is carried. |
| `CoapMessage.Step` | contiki_app/src/apps/er-coap/er-coap.c:540-672 | Taking the options printed for one number sets exactly its field and its bit. |
| `CoapMessage.TakeParts` | contiki_app/src/apps/er-coap/er-coap.c:217-236 | The segments of a text are merged into its field. |
| `CoapMessage.DecodedText` | contiki_app/src/apps/er-coap/er-coap.c:217-236 | In any accepted datagram a text field is the values of its options joined by the separator, if the first is not empty; empty ones at the start vanish. |
| `CoapMessage.DecodedStatus` | contiki_app/src/apps/er-coap/er-coap.c:436-674 | The status of any complete datagram: BAD_REQUEST iff the version is not 1; otherwise the first option decides that is a proxy option (35, 39) or odd and not one of the nine known numbers, which are written out; no error iff there is none. |
| `CoapMessage.DecodedFields` | contiki_app/src/apps/er-coap/er-coap.c:436-674 | Every field of an accepted datagram, told from its bytes and the numbers that RFC 7252, RFC 7641 and RFC 7959 give the options: the last option of the number for integers, tags and blocks, all of them merged for texts, and one bit for each number that occurs. |
| `CoapMessage.OtherVersion` | contiki_app/src/apps/er-coap/er-coap.c:436-463 | Of a datagram of another version only the header is taken, and a token of zeros. |
| `CoapMessage.EncodedLength` | contiki_app/src/apps/er-coap/er-coap.c:307-418 | Code zero gives four bytes; otherwise nothing is printed iff what precedes the payload needs more than 62 bytes; a payload follows a byte of ones. |
| `CoapMessage.BehindTheBitmap` | contiki_app/src/apps/er-coap/er-coap.h:76-79 | Whatever the header of a message, an empty option of number 64 behind it is accepted and has no bit in the bitmap. |
| `CoapMessage.PrintedInBitmap` | contiki_app/src/apps/er-coap/er-coap.c:307-418 | No printed message has an option outside the bitmap. |
| `CoapPrinter.SerializeMessage` | contiki_app/src/apps/er-coap/er-coap.c:307-418 | The in-place printer leaves exactly the specified datagram in the buffer, or nothing iff the header is too long. |
| `CoapPrinter.PrintOptions` | contiki_app/src/apps/er-coap/er-coap.c:345-392 | The options go out in ascending order of their numbers, each only if its bit is set. |
| `CoapPrinter.PrintBlock` | contiki_app/src/apps/er-coap/er-coap.h:167-177 | The block macro writes the option of the block's value. |
| `CoapPrinter.PrintText` | contiki_app/src/apps/er-coap/er-coap.h:161-166 | The string macro writes the segments of a text. |
| `CoapParser.Packet.ParseMessage` | contiki_app/src/apps/er-coap/er-coap.c:437-679 | The parser that merges segments inside the receive buffer returns the same status and fields as the reference parser on the untouched datagram; the status is the one that the first refused option decides (DecodedStatus), and each text field is the values of its options joined by the separator (apart from empty ones at the start), for every datagram that is not cut short and whose options have their bits in the bitmap. |
| `CoapParser.Packet.MergeOption` | contiki_app/src/apps/er-coap/er-coap.c:217-236 | Merging in place appends separator and segment to the field, changes no byte from the next unparsed option on, and keeps every other field's text. |
| `CoapParser.Packet.Append` | contiki_app/src/apps/er-coap/er-coap.c:217-236 | The writes stay between the end of the field and the end of the option. |
| `CoapParser.OthersKept` | contiki_app/src/apps/er-coap/er-coap.c:217-236 | No other field's text is touched by a merge. |
| `CoapParser.MergedInPlace` | contiki_app/src/apps/er-coap/er-coap.c:217-236 | The bytes that a merge leaves are the merged text of the reference parser. |
| `CoapParser.Packet.Round` | contiki_app/src/apps/er-coap/er-coap.c:482-675 | One round of the option loop follows the reference parser and moves forward. |
| `CoapParser.Packet.ParseHeader` | contiki_app/src/apps/er-coap/er-coap.c:438-476 | Version, type, token and message id, with the options and texts reset. |
| `CoapParser.Packet.TakePayload` | contiki_app/src/apps/er-coap/er-coap.c:484-503 | The payload is cut to one chunk, and the zero behind it destroys nothing that was parsed. |
| `LinkFormat.GetHandler` | contiki_app/src/apps/er-coap/er-coap-res-well-known-core.c:79-204 | The window of the link document at any offset; offset -1 exactly on the window that reaches the end; out of scope exactly beyond the end of a non-empty document. |
| `LinkFormat.AddString` | contiki_app/src/apps/er-coap/er-coap-res-well-known-core.c:62-74 | The string macro writes the part of the text that belongs into the window, and breaks out only when the window is full. |
| `LinkFormat.AddChar` | contiki_app/src/apps/er-coap/er-coap-res-well-known-core.c:54-60 | The character macro writes a character iff it is inside the window. |
| `LinkFormat.LinkText` | contiki_app/src/apps/er-coap/er-coap-res-well-known-core.c:146-185 | The pieces that are written for a resource are its link (section 2 of RFC 6690). |
| `LinkFormat.LinkBytes` | contiki_app/src/apps/er-coap/er-coap-res-well-known-core.c:146-185 | The characters of a link (section 2 of RFC 6690). |
| `LinkFormat.DocumentBytes` | contiki_app/src/apps/er-coap/er-coap-res-well-known-core.c:146-185 | A document is that of the resources but the last, a comma unless there is only one, and the link of the last. |
| `CoapBlockwise.Tiles` | contiki_app/src/apps/er-coap/er-coap-engine.c:178-191 | Windows at multiples of their size tile any text: k of them are its first k times size bytes. |
| `CoapBlockwise.GapsLose` | contiki_app/src/apps/er-coap/er-coap-res-well-known-core.c:54-74 | Windows smaller than their distance lose bytes. |
| `CoapBlockwise.WindowsConserve` | contiki_app/src/apps/er-coap/er-coap-res-well-known-core.c:54-74 | Windows at a distance of at least their size give the whole text iff the distance is the size or one window holds it all. |
| `CoapBlockwise.CollectWindows` | contiki_app/src/apps/er-coap/er-coap-res-well-known-core.c:79-204 | For every window size: the answers at offsets 0, s, 2s, ... until one gives -1, each cut to s bytes, concatenate to the document, and there are exactly as many as it has windows. |
| `CoapBlockwise.SliceIs` | contiki_app/src/apps/er-coap/er-coap-engine.c:123-176 | The reply for block k is block k of what coap_set_payload keeps of the handler's payload, with the more flag clear exactly on the last one, or BlockOutOfScope exactly beyond the end. |
| `CoapBlockwise.SlicesConserve` | contiki_app/src/apps/er-coap/er-coap-engine.c:123-176 | For every block and chunk size the replies to blocks 0, 1, 2, ... give exactly what one chunk holds of the payload, which is the handler's payload iff that fits into a chunk. |
| `CoapBlockwise.RestIsLost` | contiki_app/src/apps/er-coap/er-coap.c:1183-1192 | Of a longer payload no sequence of block requests gets more than the first chunk, and the request behind it is answered BlockOutOfScope. |
| `CoapBlockwise.SetBlockIs` | contiki_app/src/apps/er-coap/er-coap.c:1058-1079 | A block option is set only for sizes from 16 to 2048 and numbers of at most 20 bits. |
| `CoapBlockwise.Exchange` | contiki_app/src/apps/er-coap/er-coap-engine.c:102-205 | One request through handler and engine gives exactly the expected block of the document. |
| `CoapBlockwise.BlockingRequest` | contiki_app/src/apps/er-coap/er-coap-engine.c:358-424 | Whatever responses are lost and whichever wrong blocks come back, up to COAP_MAX_ATTEMPTS, the client has collected the document from its start on, and the transfer ends early only for a lost response or a fourth wrong block; over a reliable network all of it, iff it does not end between the rounded block size and the chunk size (a first request without Block2 is answered by a reply that clears the more flag too early). |
| `CoapTransactions.Unanswered` | contiki_app/src/apps/er-coap/er-coap-transactions.c:71-184 | In every run: a confirmable message first sent at f with initial interval I has, as long as no message with its id arrives and no datagram is refused while coap_receive remembers its block, exactly the sends at f, f+I, f+3I, f+7I, f+15I that are due; from f+15I on it has these five, was freed once, and the callback registered for it was called once with NULL, and nothing else. |
| `CoapTransactions.AnsweredOnce` | contiki_app/src/apps/er-coap/er-coap-engine.c:241-253 | In every run: a message with the id of a waiting transaction (and of no other one) ends it; it was sent as often as was due, is freed once, its callback is called once with the message, and in every later state nothing has been added. |
| `CoapTransactions.Fate` | contiki_app/src/apps/er-coap/er-coap-transactions.c:71-184 | In every run the record of a confirmable message says what it was sent with, and if it says that it was answered, then by a step that was a message with its id, before f+15I; if it says that it was cleared, then by a refused datagram, before f+15I, while coap_receive remembered its block. |
| `CoapTransactions.Lifetime` | contiki_app/src/apps/er-coap/er-coap-transactions.c:71-184 | In every state of every run, the events of every transaction ever opened, also of one that a refused datagram has cleared, are exactly those expected of its record at that time. |
| `CoapTransactions.FinishedForever` | contiki_app/src/apps/er-coap/er-coap-transactions.c:71-184 | Once a transaction is over, its record and its trace never change again. |
| `CoapTransactions.TracesGrow` | contiki_app/src/apps/er-coap/er-coap-transactions.c:71-184 | No step takes back an event of any transaction. |
| `CoapTransactions.RecordsMove` | contiki_app/src/apps/er-coap/er-coap-transactions.c:71-184 | Only four things change what is recorded of a transaction: its first transmission, being cleared instead, and, before the timeout, a message with its id or a refused datagram while coap_receive remembers its block. |
| `CoapTransactions.NextKeeps` | contiki_app/src/apps/er-coap/er-coap-transactions.c:71-184 | Every step, also a refused datagram, keeps the invariant: a block is listed iff it is allocated, listed transactions are on schedule with a counter below the limit, and all others are over. |
| `CoapTransactions.TickIs` | contiki_app/src/apps/er-coap/er-coap-transactions.c:172-184 | Timers that fire, and walks until nobody waits, send again exactly the transactions that are due, in one tick. |
| `CoapTransactions.TickKeeps` | contiki_app/src/apps/er-coap/er-coap-transactions.c:172-184 | One tick keeps the invariant. |
| `CoapTransactions.FiredSound` | contiki_app/src/apps/er-coap/er-coap-transactions.c:172-184 | The passing of time keeps the invariant of the pool. |
| `CoapTransactions.NextSend` | contiki_app/src/apps/er-coap/er-coap-transactions.c:89-145 | Sending again on time keeps a transaction on its schedule. |
| `CoapTransactions.LastSend` | contiki_app/src/apps/er-coap/er-coap-transactions.c:89-145 | The fifth send is at f+15I and completes exactly the trace of the timeout with this interval and this callback. |
| `CoapTransactions.EndsWithCall` | contiki_app/src/apps/er-coap/er-coap-transactions.c:128-141 | Whoever registered a callback is called once, with whether there was an answer, and nobody else is. |
| `CoapTransactions.DueExactly` | contiki_app/src/apps/er-coap/er-coap-transactions.c:89-127 | Transmission k is due at f, f+I, f+3I, f+7I and f+15I, and there is no sixth. |
| `CoapTransactions.AnswerEnds` | contiki_app/src/apps/er-coap/er-coap-engine.c:241-253 | An answer before the next send is due completes exactly the trace of an answer with this interval and this callback. |
| `CoapTransactions.Layer.AdvanceClock` | contiki_app/src/apps/er-coap/er-coap-transactions.c:172-184 | One tick of an exact timer, with the events that it posts, is the tick of the runs: what it adds to each transaction is exactly what is due. |
| `CoapTransactions.Layer.CheckTransactions` | contiki_app/src/apps/er-coap/er-coap-transactions.c:172-184 | A walk sends again, with all effects, every waiting transaction of the list up to the first that times out, and leaves all others alone. |
| `CoapTransactions.Layer.Retransmit` | contiki_app/src/apps/er-coap/er-coap-transactions.c:172-184 | The counter is raised; the transaction is kept with a doubled interval and one more send, or after the last one freed and its callback called with NULL. |
| `CoapTransactions.Layer.RunEvents` | contiki_app/src/apps/er-coap/er-coap-transactions.c:172-184 | As many walks as timers have fired leave no transaction waiting. |
| `CoapTransactions.Layer.SendTransaction` | contiki_app/src/apps/er-coap/er-coap-transactions.c:89-145 | All effects of one send: the timer, the counter, the freed block and the callback with NULL. |
| `CoapTransactions.Layer.FirstTransmission` | contiki_app/src/apps/er-coap/er-coap-transactions.c:89-145 | The first send of a new transaction; a callback that is not set is what the block held before. |
| `CoapTransactions.Layer.NewTransaction` | contiki_app/src/apps/er-coap/er-coap-transactions.c:71-87 | A free block if there is one, and nothing changes if there is none. |
| `CoapTransactions.Layer.ClearTransaction` | contiki_app/src/apps/er-coap/er-coap-transactions.c:147-157 | Frees a block once, stops its timer and takes it off the list. |
| `CoapTransactions.Layer.Discard` | contiki_app/src/apps/er-coap/er-coap-engine.c:264-271 | A transaction that was opened for a response and is cleared instead is over without a send. |
| `CoapTransactions.Layer.OpenResponse` | contiki_app/src/apps/er-coap/er-coap-engine.c:101-104 | For a request the new transaction, or none, is also what the static variable holds from then on. |
| `CoapTransactions.Layer.Refuse` | contiki_app/src/apps/er-coap/er-coap-engine.c:87-271 | For a datagram that is refused, whatever transaction holds the block of the static variable is stopped, unlisted and freed, and its callback is not called; with no such transaction nothing changes. |
| `CoapTransactions.SurvivesRefused` | contiki_app/src/apps/er-coap/er-coap-engine.c:77-271 | A waiting transaction is unchanged by a refused datagram iff coap_receive does not remember its block; otherwise it is freed at once without a call. |
| `CoapTransactions.RefusedKills` | contiki_app/src/apps/er-coap/er-coap-engine.c:77-271 | A run of five steps in which an unanswered confirmable message is sent once and freed at once, because a request was served from its block before and a datagram is then refused. |
| `CoapTransactions.KillEnds` | contiki_app/src/apps/er-coap/er-coap-engine.c:268-271 | Being cleared before the next send is due completes exactly the trace of a cleared transaction, which has no call. |
| `CoapTransactions.Layer.FindByMid` | contiki_app/src/apps/er-coap/er-coap-transactions.c:158-170 | A listed transaction with the message id, or none if there is none. |
| `CoapTransactions.Layer.Answer` | contiki_app/src/apps/er-coap/er-coap-engine.c:241-253 | A reply frees exactly the transaction that is found for its message id, then calls its callback; an unknown id changes no transaction; afterwards coap_receive remembers no block. |
| `JsonTree.Print` | contiki_app/src/apps/json/jsontree.c:130-213 | Calling the stepper until it returns 0 emits exactly the recursive rendering, in exactly as many calls as the tree takes. |
| `JsonTree.Printer.PrintNext` | contiki_app/src/apps/json/jsontree.c:130-213 | One step: output plus what is left to print stays the same, and the number of steps to go falls by one. |
| `JsonTree.Printer.WriteString` | contiki_app/src/apps/json/jsontree.c:66-79 | The quoted text; only quotes are escaped. |
| `JsonTree.Printer.WriteInt` | contiki_app/src/apps/json/jsontree.c:81-101 | The decimal text of any 32-bit int but the least one, which prints as "-(". |
| `JsonTree.IntTextDenotes` | contiki_app/src/apps/json/jsontree.c:81-101 | What is printed for an int reads back as the int: decimal digits, behind a minus sign iff it is negative; the least int is printed as "-(". |
| `JsonTree.DecimalDenotes` | contiki_app/src/apps/json/jsontree.c:81-101 | The digits denote the number, with no leading zero. |
| `JsonTree.EscapedDenotes` | contiki_app/src/apps/json/jsontree.c:66-79 | Taking the backslashes away gives back a text without backslashes, and no quote inside is unescaped. |
| `JsonTree.DownLeft` | contiki_app/src/apps/json/jsontree.c:140-175 | Going down to a child takes its opening, comma and label off what is left to print. |
| `JsonTree.UpLeft` | contiki_app/src/apps/json/jsontree.c:195-213 | Finishing a value takes its text off what is left and goes on behind it. |
| `JsonTree.Printer.CollectDigits` | contiki_app/src/apps/json/jsontree.c:81-101 | The digits of any non-negative int fit in the ten-character buffer. |
| `JsonParse.ParserReadsPrinter` | contiki_app/src/apps/json/jsonparse.c:111-186 | On the printed text of an object with readable strings and numbers: if the value of every pair closes, the parser yields exactly the tree's tokens and extents, ends with an empty stack at the end of the text and then reports the end, and the extents read in the text give the names, strings and integers of the tree; otherwise it fails. |
| `JsonParse.TokensMean` | contiki_app/src/apps/json/jsonparse.c:111-186 | Read in the printed text, the extents of the tokens give the punctuation, names, strings and integers of the tree in order. |
| `JsonParse.EmptyValueFails` | contiki_app/src/apps/json/jsonparse.c:111-186 | An empty container as the value of a pair makes the parser fail, for every name. |
| `JsonParse.WalkValue` | contiki_app/src/apps/json/jsonparse.c:111-186 | The same for any value inside any text: the walk ends behind it with the stack it began with. |
| `JsonParse.WalkFrom` | contiki_app/src/apps/json/jsonparse.c:111-186 | The same for the children of a container from any of them on. |
| `JsonParse.Parser.NextToken` | contiki_app/src/apps/json/jsonparse.c:111-186 | One call of the parser makes exactly the step of the reference parser, errors included. |
| `JsonParse.ErrorsAre` | contiki_app/src/apps/json/jsonparse.c:111-186 | When a step reports which error, by the next character, the innermost open level and whether a value was seen. |
| `JsonParse.NumberEnds` | contiki_app/src/apps/json/jsonparse.c:59-87 | A number goes on over digits and points and ends at the first other character. |
| `JsonParse.Parser.PushChar` | contiki_app/src/apps/json/jsonparse.c:37-44 | A level is entered with the remembered type cleared. |
| `JsonParse.Parser.AtomicString` | contiki_app/src/apps/json/jsonparse.c:59-87 | The scanning loop finds the closing quote and sets the extent. |
| `JsonParse.Parser.AtomicNumber` | contiki_app/src/apps/json/jsonparse.c:59-87 | The scanning loop finds the end of a number and sets the extent. |
| `JsonParse.Parser.SkipWhitespace` | contiki_app/src/apps/json/jsonparse.c:89-98 | The scanning loop stops at the next character that is not white space. |
| `Slip.Tunnel` | contiki_app/src/tools/tunslip6.c:158-427 | Any sequence of packets of 1..1999 bytes, encoded within the buffer, flushed in any pieces and read in any chunks, arrives as the same frames in order. |
| `Slip.EncodedBytes` | contiki_app/src/tools/tunslip6.c:380-427 | The frame of RFC 1055: 192 stands at its end only, and 219 only in front of 220 or 221. |
| `Slip.StuffedBytes` | contiki_app/src/tools/tunslip6.c:380-427 | 192 is sent as 219 220, 219 as 219 221, and every other byte as it is. |
| `Slip.ArrivesIntact` | contiki_app/src/tools/tunslip6.c:158-318 | A packet arrives as sent iff it has 1 to 1999 bytes. |
| `Slip.UnescapedBytes` | contiki_app/src/tools/tunslip6.c:158-318 | Behind an escape 220 and 221 stand for 192 and 219, and any other byte for itself. |
| `Slip.PacketRead` | contiki_app/src/tools/tunslip6.c:158-318 | What arrives of any packet, also of one that is too long or empty, and the decoder is ready for the next. |
| `Slip.AllRead` | contiki_app/src/tools/tunslip6.c:158-318 | The same for any sequence of packets. |
| `Slip.ReadInPieces` | contiki_app/src/tools/tunslip6.c:158-318 | Splitting the byte stream between calls anywhere, also inside an escape, changes nothing. |
| `Slip.Decoder.SerialToTun` | contiki_app/src/tools/tunslip6.c:158-318 | The goto-driven decoder computes the reference decoding of what is pending and what came in. |
| `Slip.Encoder.WriteToSerial` | contiki_app/src/tools/tunslip6.c:380-427 | Buffers exactly the encoding of the packet, and fails exactly when it does not fit. |
| `Slip.Encoder.Flush` | contiki_app/src/tools/tunslip6.c:357-378 | A partial write of any length moves exactly those bytes to the port and keeps the rest in order. |
| `Slip.Encoder.Send` | contiki_app/src/tools/tunslip6.c:341-349 | Appends one byte, or fails iff the buffer is full. |
| `Checksum.Ip4Sum` | contiki_app/src/tools/tunslip.c:342-361 | The loop computes the 16-bit number congruent modulo 65535 to the seed plus the big-endian words, which is zero only for a zero sum. |
| `Checksum.SumZero` | contiki_app/src/tools/tunslip.c:342-361 | The checksum is zero iff the seed and every byte are. |
| `Checksum.SumContinues` | contiki_app/src/tools/tunslip.c:342-361 | Sums over an even split can be continued. |
| `Checksum.WordSumSplit` | contiki_app/src/tools/tunslip.c:342-361 | The word sum of an even split is the sum of the parts. |
| `Checksum.NormUnique` | contiki_app/src/tools/tunslip.c:342-361 | There is one such number for each sum. |
| `Checksum.CheckPacket` | contiki_app/src/tools/tunslip.c:363-412 | check_ip gives exactly the first failing check of the reference, or zero. |
| `Checksum.CheckMeans` | contiki_app/src/tools/tunslip.c:363-412 | When each code is returned, over the bytes of the packet: the version, the length, the header sum, and the sum over the pseudo header (RFC 768, RFC 793) and the segment, where a UDP datagram without checksum passes. |
| `Checksum.TransportSumIs` | contiki_app/src/tools/tunslip.c:384-392 | The sum that is checked is that of the pseudo header and the segment, unless protocol and length together do not fit into 16 bits, where the lost carry makes it 2^16 less. |
| `Checksum.WordSumAdds` | contiki_app/src/tools/tunslip.c:342-361 | Two more bytes add 256 times the first and the second; an odd last byte adds 256 times itself. |
| `Checksum.UnidentifiedIs` | contiki_app/src/tools/tunslip.c:642-643 | A packet gets an identification iff it has none and bit 6 of byte 6 (on a big-endian host) or of byte 7 (on another) is set. |
| `Checksum.UpdatedId` | contiki_app/src/tools/tunslip.c:642-655 | The identification is written with its most significant byte first, and only bytes 4, 5, 10 and 11 change. |
| `Checksum.ReplyFields` | contiki_app/src/tools/tunslip.c:293-327 | Every field of the packet that is built around a DHCP message. |
| `Checksum.UpdateKeepsCheck` | contiki_app/src/tools/tunslip.c:642-655 | Filling in a zero identification and adjusting the checksum keeps an accepted packet accepted, for every identification and either byte order of the host. |
| `Checksum.UpdateBalances` | contiki_app/src/tools/tunslip.c:642-655 | The adjustment balances the new identification modulo 65535 (section 3 of RFC 1624), whichever byte order the host adds in. |
| `Checksum.Tunslip.Prepare` | contiki_app/src/tools/tunslip.c:626-655 | A packet that fails the check is dropped unchanged; one that passes is sent, rewritten iff it has no identification, and still passes. |
| `Checksum.Tunslip.WriteId` | contiki_app/src/tools/tunslip.c:642-655 | The rewrite changes the two fields only and takes the next identification. |
| `Checksum.BuildReply` | contiki_app/src/tools/tunslip.c:293-327 | The packet that is built around a DHCP message passes check_ip, and never has a UDP checksum of zero. |
| `Checksum.ReplyPasses` | contiki_app/src/tools/tunslip.c:293-327 | Any packet of that shape passes if its two sums are right. |
| `Checksum.ChooseUdpSum` | contiki_app/src/tools/tunslip.c:318-325 | The sum is accepted and is not the zero that means "none". |

## Left out

Antelope

- The lexer and syntax errors: clauses start as tokens of the flat grammar; three or more operands without parentheses, a leading parenthesis and parenthesised sub-clauses are what the code generator does not handle.
- Lvm.Instance.SetVariableValue: does not keep the value that an unknown name leaves in the first unused table entry, because no code refers to that entry; with a full table there must be no unknown name, since the original then looks and writes behind the table.
- Select.Query.Run: with three variables in the clause, the result has no attribute that the clause does not use, for the same reason.
- Lvm.Instance.RegisterVariable: is stated for a table that has room or holds the name; with a full table the original reads behind the table.
- Lvm.Instance.ShiftForOperator: is stated for code with room for a whole header; the guard of the original tests room for the operator only.
- Floats and strings in predicates, and float and string attributes.
- Derivation.DerivationSound: is stated for clauses whose variable stands on the left and whose ORs constrain the same variables on both sides; the two lemmas about the other cases show why.
- The hash of MaxHeap keys (any function into 16 bits), its reload from storage, the bucket cache, which an append does not refresh, range emulation, and later answers for a key that is stored more than once.
- Storage errors, removed attributes, string values, the catalogue of relations and indexes, and the memhash index, which is not registered.
- Storage.Relation.PutRow: every write takes at least one byte; a write that takes none makes the original repeat or fail.
- InlineIndex.RangeIterator.RangeSearch: has the conditions of BinarySearch, for both ends of the range.
- InlineIndex.BinarySearch: is stated for a strictly increasing, non-empty column and a target not below its first value, the condition of StaysInside; what is read behind the last row is not defined. So clauses with an upper bound only are not covered by an inline index whose first value is above the least long.
- Select.SelectRows: with an index, the clause must be in the fragment whose derivation is sound; the requirement is per indexed attribute and asks nothing of attributes for which no range is derived.
- Select.Remove: is stated without an index, since the range of an index is derived from the clause itself and not from its negation; at least one attribute, distinct attribute names, and a clause over the first five of them, since only these reach the machine's variables.
- Aggregates, and so results without any stored attribute; renaming the result relation after REMOVE.
- Join.Handle.Process: the index is a function from values to row numbers that is sound and complete, so the errors of an index that is not are not modelled.
- Join rows in the order of the right relation: they come in the order of the index.

CoAP

- Malformed and truncated datagrams, and proxy options in the round trip, since the parser refuses them.
- Messages with code zero, which are four bytes long, in the round trip.
- CoapParser.Packet.ParseMessage: is stated for datagrams that do not end inside their token or an option, in a buffer with one byte more, and whose options up to the first refused one have numbers below 64; what the write behind the bitmap hits is not modelled.
- CoapPrinter.SerializeMessage: the buffer has to hold the header even if that is too long, since it is written before its length is tested.
- CoapBlockwise.BlockingRequest: the document has at most 2^24 bytes, and a wrong block that comes back is a block of the same document; the pool of transactions is not exhausted.
- LinkFormat.GetHandler: is stated without the query filter and for a preferred size above zero.
- Block1, observers, separate responses, and resources other than the link directory.
- Observe is a bit pattern of 32 bits.
- CoapTransactions.Layer.AdvanceClock: an exact timer, and event handlers that run to their end; clock overflow, removal of observers at a timeout, packets that are lost before they are sent, and callbacks that open transactions themselves are not modelled.
- CoapTransactions.AnsweredOnce: is stated for a message id that no other open transaction has; among several with one id the first in the list is answered.

Deluge

- The times of summaries and profiles, their suppression and back-off: any node may send either at any time. Random delays, radio modes, object identifiers, changing page counts, more than two versions, and corrupted packets.
- Deluge.Node.Dispatch: a profile that was cut and still passes the length test has version 0 in its first entry; what a handler would read behind the cut is not modelled, and no profile of the new version is one of these.
- Deluge.Node.SendRequest: the page that the original reads behind its table after the last page has arrived is any page.
- DelugeNetwork.SpreadsExactly: is about what can happen in some run, since a network that loses everything delivers nothing.

JSON

- Callback values, path search, and the value accessors of the parser.
- JsonTree.Print: trees no deeper than JSONTREE_MAX_DEPTH, which the original does not check.
- JsonParse.ParserReadsPrinter: objects with strings without backslashes and with numbers that are not negative; the parser reads neither an escape nor a sign back.

Tunnels

- Control frames (`!`, `?`, carriage return, printable text), verbose levels above 1, and everything around the tunnel device.
- Slip.Tunnel: is about packets of 1 to 1999 bytes; what happens to others is stated by PacketRead.
- Checksum.CheckPacket: the header is not longer than the packet, which the original relies on.
- Checksum.UpdateKeepsCheck: the header has at least 12 bytes; the rewrite touches bytes 4, 5, 10 and 11.
- Checksum.BuildReply: the DHCP options are the given message, of at least 44 bytes.
