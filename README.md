# simpledb core in Dafny

A model of the core of simpledb, a teaching database written in Java. The model covers four parts.

- **Transactional page layer.** This has four pieces.
  - The lock table of `LockManager`: per-page lists of `(tid, pid, exclusive)` records and per-transaction page sets.
  - The wait-for graph of `DependencyGraph`, with Kahn's-algorithm deadlock detection.
  - The page cache of `BufferPool`: NO-STEAL eviction, flush on commit, discard on abort.
  - The paging policy of `HeapFile`: page offsets, `numPages`, `addTuple` page selection, `deleteTuple`, and the page iterator.
- **Value types.** `HeapPageId`, `RecordId`, `TransactionId`, `StringField`, `TupleDesc` and `Tuple`.
- **Operators.** These follow the look-ahead iterator protocol of `AbstractDbIterator`.
  - Pipeline operators: `Filter`, `Project`, `OrderBy`, `Insert`, `Query`.
  - Grouped aggregation: `Aggregator`, `IntAggregator`, `StringAggregator`, `Aggregate`.
- **Planning and statistics.** The integer bucketing of `IntHistogram` and `StringHistogram`, and the join nodes of the planner (`LogicalJoinNode`, `LogicalSubplanJoinNode`).

Each Java class keeps its own form in the model.

- **Objects whose fields change are Dafny classes.** Their methods have `modifies` clauses, and their loops carry invariants. Examples: the lock manager, the dependency graph, the buffer pool, pages, iterators, operators, aggregators and histograms.
- **Immutable values are datatypes with functions.** Examples: ids, fields, schemas, tuple rows and join nodes.
- **Each method is proved against specification functions.** Lemmas state the properties of those functions. Examples:
  - `Decide` gives the branch structure of `lockPage`.
  - `HasCycle` gives what Kahn's loop decides.
  - `FlushProgress` and `Completed` give what `transactionComplete` writes.
  - `Fold` gives what a group's running aggregate holds.

Java's semantics are written out where they matter (module `JavaLang`):

- **32-bit wrap-around:** `Wrap`.
- **Truncating division:** `Div` and `Quot`.
- **Exceptions and `System.exit`:** `Result` values, with one error kind per exception class, and `ProcessExit` for exit.
- **`null`:** `Option`.

The catalog, the disk, the predicate and the column lengths of `Type` are parameters of the model.

## Model

| member | source | states |
|---|---|---|
| PageIds.Serialize | src/simpledb/HeapPageId.java:63-70 | serialize returns a two-element array |
| PageIds.FromSerialized | src/simpledb/PageId.java:6-12 | an id is rebuilt exactly from a two-element array, and re-serializing the rebuilt id gives back the array |
| PageIds.SerializeRoundTrip | src/simpledb/HeapPageId.java:63-70 | rebuilding an id from its serialized ints yields the same id |
| PageIds.EqualsIsValueEquality | src/simpledb/HeapPageId.java:50-55 | equals holds iff the other object is a HeapPageId with the same table and page number; it is false for null or another class |
| RecordIds.Equals | src/simpledb/RecordId.java:39-44 | true iff the other object is a RecordId with equal page id and tuple number; a null page id makes the call throw; null or another class gives false |
| RecordIds.EqualsReflexive | src/simpledb/RecordId.java:42-43 | equals is reflexive for every record id with a non-null page id |
| TransactionIds.Equals | src/simpledb/TransactionId.java:20-22 | true iff the ids are equal; a null argument throws |
| TransactionIds.HashCode | src/simpledb/TransactionId.java:24-26 | the hash is the long id narrowed to an int: congruent to it mod 2^32, and equal to it when it fits |
| TransactionIds.HashCodeRespectsEquals | src/simpledb/TransactionId.java:20-26 | equal ids hash equally |
| TransactionIds.IdCounter.constructor | src/simpledb/TransactionId.java:9 | the counter starts at 0 with no id issued |
| TransactionIds.IdCounter.NewTransactionId | src/simpledb/TransactionId.java:9-14 | the new id is the old counter value, the counter grows by one, and the new id is distinct from and larger than every earlier id |
| Fields.TypeOf | src/simpledb/StringField.java:102-105 | a string field reports STRING_TYPE, and only a string field does |
| Fields.NewStringField | src/simpledb/StringField.java:23-30 | the value is s cut to its first maxSize characters: a prefix of s, at most maxSize long, and s itself when it fits; null s and negative maxSize throw |
| Fields.IntBytesRoundTrip | src/simpledb/StringField.java:56 | the four big-endian bytes writeInt emits read back as the same int |
| Fields.Encoding | src/simpledb/StringField.java:44-60 | what serialize writes is maxSize + 4 bytes long |
| Fields.Serialize | src/simpledb/StringField.java:44-60 | serialize's countdown padding loop writes exactly maxSize + 4 bytes, namely the length, the characters and zero padding; a negative maxSize throws |
| Fields.SerializeRoundTrip | src/simpledb/StringField.java:44-60 | reading back the serialized bytes gives the stored length and the characters' low bytes |
| Fields.CompareToSign | src/simpledb/StringField.java:72 | compareTo is 0 iff the strings are equal, negative iff the first is lexicographically smaller, positive iff larger |
| Fields.LexLessTotal | src/simpledb/StringField.java:72-91 | the lexicographic order underlying compare is total and asymmetric |
| Fields.LexLessTrans | src/simpledb/StringField.java:72-91 | the lexicographic order underlying the orderings is transitive |
| Fields.IndexOfFrom | src/simpledb/StringField.java:93-94 | indexOf returns the first position where the substring occurs, or -1 iff it occurs nowhere |
| Fields.StringCompare | src/simpledb/StringField.java:69-98 | each of the six orderings agrees with the lexicographic order of the two values; LIKE holds iff the argument's value is a substring; a null argument throws NullPointer and an int field ClassCast |
| Fields.StringEquals | src/simpledb/StringField.java:40-42 | equals holds iff the argument is a string field with the same value |
| Fields.EqualsIsCompareEquals | src/simpledb/StringField.java:40-42 | equals agrees with compare(EQUALS), errors included |
| TupleDescs.NewTupleDesc | src/simpledb/TupleDesc.java:56-66 | the arrays are copied; fewer than one type or a null name array ends in exit |
| TupleDescs.NewUnnamedTupleDesc | src/simpledb/TupleDesc.java:76-83 | unnamed columns of the given types; fewer than one type ends in exit |
| TupleDescs.GetFieldName | src/simpledb/TupleDesc.java:99-105 | NoSuchElement at or past numFields, null without names, IndexOutOfBounds for an index outside the name array, otherwise the i-th name |
| TupleDescs.GetType | src/simpledb/TupleDesc.java:136-140 | NoSuchElement at or past numFields, an index failure below 0, otherwise the i-th type |
| TupleDescs.UnqualifiedDropsTablePrefix | src/simpledb/TupleDesc.java:119-121 | "table.column" becomes exactly "column" when the table part has no dot |
| TupleDescs.UnqualifiedPlainName | src/simpledb/TupleDesc.java:119-121 | a name without a dot is kept unchanged |
| TupleDescs.NameToId | src/simpledb/TupleDesc.java:114-127 | the smallest index holding the unqualified name; NoSuchElement iff the name or the names are null or no index matches |
| TupleDescs.FindName | src/simpledb/TupleDesc.java:123-126 | the loop finds the first index holding the name, or reports that none holds it |
| TupleDescs.SizeAppend | src/simpledb/TupleDesc.java:146-152 | the size of concatenated columns is the sum of the sizes |
| TupleDescs.GetSize | src/simpledb/TupleDesc.java:146-152 | the loop computes the sum of the column lengths |
| TupleDescs.Equals | src/simpledb/TupleDesc.java:162-173 | the cast, the size check and the type loop give EqualsResult |
| TupleDescs.EqualsIgnoresNames | src/simpledb/TupleDesc.java:162-173 | with positive lengths, equals never throws and holds iff the other object is a TupleDesc with the same types; names play no part |
| TupleDescs.Combine | src/simpledb/TupleDesc.java:23-46 | the four copy loops build Combined(td1, td2), throwing IndexOutOfBounds at a name array shorter than its side's types |
| TupleDescs.CombinedColumns | src/simpledb/TupleDesc.java:23-46 | the combination has td1's columns, then td2's: types, and names with nulls for an unnamed side; numFields and getSize add up; it exists iff there is at least one column and each name array covers its side's columns, otherwise IndexOutOfBounds (or exit for no columns) |
| TupleDescs.DescribedIsJoin | src/simpledb/TupleDesc.java:187-196 | toString's text is the column entries joined by commas |
| TupleDescs.ToString | src/simpledb/TupleDesc.java:187-196 | the StringBuilder loop produces that text, or throws IndexOutOfBounds when the name array is shorter than the types |
| Tuples.EmptyRow | src/simpledb/Tuple.java:36-39 | a new tuple has numFields unset fields and no record id |
| Tuples.SetFieldOf | src/simpledb/Tuple.java:70-77 | NoSuchElement at or past numFields or on a type mismatch, and a null field throws; otherwise only field i changes and the tuple stays well typed |
| Tuples.GetFieldOf | src/simpledb/Tuple.java:84-88 | NoSuchElement at or past numFields, otherwise the stored field (null when unset) |
| Tuples.GetAfterSet | src/simpledb/Tuple.java:70-88 | getField after setField returns the value set at that index and the old value everywhere else |
| Tuples.FieldsText | src/simpledb/Tuple.java:99-107 | the text exists iff every field is set |
| Tuples.Tuple.constructor | src/simpledb/Tuple.java:36-39 | the array holds an empty row for td |
| Tuples.Tuple.SetRecordId | src/simpledb/Tuple.java:52-62 | getRecordId returns the id set; fields untouched |
| Tuples.Tuple.SetField | src/simpledb/Tuple.java:70-77 | writes the array exactly as SetFieldOf allows, and otherwise throws its error and changes nothing |
| Tuples.Tuple.GetField | src/simpledb/Tuple.java:84-88 | returns GetFieldOf of the current value |
| Tuples.Tuple.ToString | src/simpledb/Tuple.java:99-107 | each field's text and a tab, then a newline; an unset field throws NullPointer |
| Tuples.CopyFields | src/simpledb/Tuple.java:22-25 | the copy loop writes src into dst at the offset and leaves the rest, succeeding iff every field is set |
| Tuples.Combine | src/simpledb/Tuple.java:16-28 | schema TupleDesc.combine of the two, fields t1's then t2's; an unset field throws NullPointer |
| DbIterators.LookAhead.constructor | src/simpledb/AbstractDbIterator.java:9-24 | a fresh stream with nothing buffered |
| DbIterators.LookAhead.ReadNext | src/simpledb/AbstractDbIterator.java:30 | readNext yields the next tuple of the stream, or null at the end |
| DbIterators.LookAhead.HasNext | src/simpledb/AbstractDbIterator.java:9-12 | hasNext reads only when nothing is buffered, so repeated calls consume at most one tuple, and the tuples still to come are unchanged; true iff one remains |
| DbIterators.LookAhead.Next | src/simpledb/AbstractDbIterator.java:14-24 | the buffered tuple, or the next one read, is returned and the buffer is cleared; NoSuchElement iff none remains |
| DbIterators.LookAhead.Close | src/simpledb/AbstractDbIterator.java:35-38 | the buffered tuple is discarded |
| DbIterators.LookAhead.Rewind | src/simpledb/AbstractDbIterator.java:30 | an operator's open or rewind restarts its readNext from the first tuple |
| Filters.FirstKept | src/simpledb/Filter.java:50-61 | the index of the first tuple the predicate keeps: every earlier one fails it |
| Filters.FirstKeptIs | src/simpledb/Filter.java:52-58 | the skip loop stops at the index with no kept tuple before it that is kept itself, or at the end |
| Filters.Selected | src/simpledb/Filter.java:50-61 | the whole output is no longer than the child's |
| Filters.SelectedMembers | src/simpledb/Filter.java:50-61 | the filter hands out exactly the child tuples that satisfy the predicate |
| Filters.SelectedStep | src/simpledb/Filter.java:50-61 | one readNext hands out the first kept tuple, and the rest of the output comes from after it |
| Filters.Filter.constructor | src/simpledb/Filter.java:18-21 | stores the predicate and the child |
| Filters.Filter.GetTupleDesc | src/simpledb/Filter.java:23-25 | the output schema is the child's |
| Filters.Filter.ReadNext | src/simpledb/Filter.java:50-61 | the skip loop returns the first remaining kept tuple and consumes up to it; null iff none remains kept, with the child exhausted |
| Filters.Filter.Rewind | src/simpledb/Filter.java:27-39 | open and rewind restart the child |
| Filters.Filter.Close | src/simpledb/Filter.java:32-35 | closes the child |
| Projects.FirstBadName | src/simpledb/Project.java:24-28 | the first field id whose child name cannot be read |
| Projects.FirstBadNameIs | src/simpledb/Project.java:24-28 | the constructor's loop fails at the id with every earlier name readable and its own not |
| Projects.NewProject | src/simpledb/Project.java:21-31 | output name i is the child's name at fieldList[i], types are typesList; the first bad id throws, no types ends in exit |
| Projects.Project.constructor | src/simpledb/Project.java:21-31 | stores the child, the ids and the schema |
| Projects.Project.ReadNext | src/simpledb/Project.java:55-67 | null iff the child is exhausted; otherwise the next child tuple projected (or the first column's error) |
| Projects.ProjectRowMeaning | src/simpledb/Project.java:57-63 | a projected tuple exists iff every column fits; it is well typed, keeps the child's record id and holds the child's field at fieldList[i] in column i |
| Projects.ColumnError | src/simpledb/Project.java:57-63 | no error for a column iff its field id is in range, set, and of the output column's type |
| Projects.FirstColumnError | src/simpledb/Project.java:57-63 | no error iff every column from i on fits |
| Projects.ProjectedFieldsAt | src/simpledb/Project.java:57-63 | column j of the projected fields is the child's field at fieldList[j] |
| Projects.FirstColumnErrorIs | src/simpledb/Project.java:57-63 | the first failing column's error is the one setField throws |
| Projects.Project.Rewind | src/simpledb/Project.java:37-48 | open and rewind restart the child |
| Projects.Project.Close | src/simpledb/Project.java:42-44 | closes the child |
| OrderBys.Compare | src/simpledb/OrderBy.java:75-84 | the comparator returns -1, 0 or 1, and fails unless both fields are set and of one type |
| OrderBys.CompareMeaning | src/simpledb/OrderBy.java:75-84 | 0 on equal keys, otherwise the int or lexicographic order, flipped when descending |
| OrderBys.CompareFlip | src/simpledb/OrderBy.java:75-84 | swapping the arguments negates the result |
| OrderBys.CompareTrans | src/simpledb/OrderBy.java:75-84 | the comparator's order is transitive |
| OrderBys.InsertKeepsSorted | src/simpledb/OrderBy.java:39 | an insertion at the right place keeps a sorted list sorted |
| OrderBys.Insert | src/simpledb/OrderBy.java:39 | one insertion adds x to the multiset, keeps the list sorted, and puts x after every entry tied with it |
| OrderBys.SpliceKeepsRows | src/simpledb/OrderBy.java:39 | putting x into the list adds exactly x to its multiset and keeps every tuple keyed |
| OrderBys.InsertTies | src/simpledb/OrderBy.java:39 | inserting x after its ties appends x to the tuples tied with it and leaves every other tie class as it was |
| OrderBys.Sort | src/simpledb/OrderBy.java:39 | Collections.sort gives a permutation of the list, sorted by the comparator and stable: tuples with equal keys keep their order |
| OrderBys.OrderBy.constructor | src/simpledb/OrderBy.java:22-27 | empty list, no iterator, the child's schema |
| OrderBys.OrderBy.Open | src/simpledb/OrderBy.java:33-41 | the list becomes a sorted, stable permutation of the earlier list plus all child tuples (not cleared), and reading starts at its head |
| OrderBys.OrderBy.CollectChild | src/simpledb/OrderBy.java:37-38 | the loop appends every remaining child tuple to the list |
| OrderBys.OrderBy.CollectOne | src/simpledb/OrderBy.java:37-38 | one turn moves the child's next tuple to the list: list plus remaining is unchanged and remaining shrinks |
| OrderBys.OrderBy.ReadNext | src/simpledb/OrderBy.java:57-63 | the next sorted tuple; null at the end or after close |
| OrderBys.OrderBy.Rewind | src/simpledb/OrderBy.java:47-49 | reading restarts from the first sorted tuple |
| OrderBys.OrderBy.Close | src/simpledb/OrderBy.java:43-45 | drops the iterator, so readNext returns null |
| Inserts.CountRow | src/simpledb/Insert.java:28 | the count tuple: one INT field, "affected_rows" schema |
| Inserts.CountRowBuilt | src/simpledb/Insert.java:74-76 | building the count tuple with setField cannot fail |
| Inserts.Insert.constructor | src/simpledb/Insert.java:23-30 | the schema is the single affected_rows column; not yet read |
| Inserts.Insert.ReadNext | src/simpledb/Insert.java:62-78 | the first call inserts every remaining child tuple and returns their count; later calls return null and change nothing |
| Inserts.Insert.InsertAll | src/simpledb/Insert.java:68-73 | the loop inserts every remaining child tuple and counts them as an int |
| Inserts.Insert.InsertNext | src/simpledb/Insert.java:68-72 | one turn inserts exactly the child's next tuple |
| Inserts.Insert.Open | src/simpledb/Insert.java:36-38 | restarts the child |
| Inserts.Insert.Rewind | src/simpledb/Insert.java:44-47 | restarts the child and resets the once-flag |
| Inserts.Insert.Close | src/simpledb/Insert.java:40-42 | closes the child |
| Queries.Query.constructor | src/simpledb/Query.java:19-22 | not started |
| Queries.Query.Start | src/simpledb/Query.java:24-29 | opens the root and sets started |
| Queries.Query.HasNext | src/simpledb/Query.java:32-34 | asks the root regardless of started |
| Queries.Query.Next | src/simpledb/Query.java:43-47 | DbException before start, otherwise the root's next tuple or NoSuchElement |
| Queries.Query.Close | src/simpledb/Query.java:50-53 | closes the root and clears started |
| Aggregation.Ordinal | src/simpledb/Aggregator.java:10-11 | ordinals MIN=0 … COUNT=4 |
| Aggregation.GetOp | src/simpledb/Aggregator.java:29-31 | getOp(i) succeeds iff 0 <= i < 5, with the operator of ordinal i; otherwise an index failure |
| Aggregation.GetOpOrdinal | src/simpledb/Aggregator.java:29-31 | getOp inverts ordinal |
| Aggregation.ParseInt | src/simpledb/Aggregator.java:19-21 | Integer.parseInt: an int, or NumberFormat for null, empty or malformed text |
| Aggregation.ParseDecimal | src/simpledb/Aggregator.java:19-21 | parseInt reads back every int's decimal text |
| Aggregation.GetOpByName | src/simpledb/Aggregator.java:19-21 | getOp(s) is getOp(parseInt(s)), parse errors first |
| Aggregation.GetOpByOrdinalText | src/simpledb/Aggregator.java:19-31 | each operator is found by the text of its ordinal |
| Aggregation.KeyOfIsStringEquals | src/simpledb/StringAggregator.java:43-47 | two group fields share a hash-map key iff StringField.equals holds |
| Aggregation.KeyOf | src/simpledb/IntAggregator.java:58 | a missing group field gives the null key, and only it does |
| Aggregation.InitValue | src/simpledb/IntAggregator.java:35-51 | MAX_VALUE for MIN, MIN_VALUE for MAX, 0 otherwise |
| Aggregation.FoldMinMax | src/simpledb/IntAggregator.java:69-75 | MIN's running value is the least merged value, MAX's the greatest |
| Aggregation.FoldSum | src/simpledb/IntAggregator.java:76-82 | SUM and AVG hold the int-wrapped sum |
| Aggregation.FoldCount | src/simpledb/IntAggregator.java:83-85 | COUNT holds the int-wrapped number of values |
| Aggregation.TestGroups | test/simpledb/IntAggregatorTest.java:27-63 | the test's groups: SUM 12 and 2, MIN 2 and 2, MAX 6 and 2, AVG 4 and 2 |
| Aggregation.EntryOrder | src/simpledb/IntAggregator.java:110 | an entry iterator lists every key exactly once |
| AggregateSchemas.AggNameInjective | src/simpledb/Aggregate.java:55-69 | aggName gives different operators different names |
| AggregateSchemas.CreateAggregateTupleDesc | src/simpledb/Aggregate.java:71-85 | [INT] without a group type, [gbType, INT] with one, names in the same order |
| AggregateSchemas.AggregateColumnIsLast | src/simpledb/Aggregate.java:71-85 | the last column is the INT aggregate with its name; the group column comes first |
| AggregateSchemas.GroupRowShape | src/simpledb/IntAggregator.java:127-136 | the output is (value) without grouping and (group, value) with it; the second fails iff the group field is missing or of another type |
| IntAggregators.GroupOf | src/simpledb/IntAggregator.java:58 | the group key is the gb field, or IntField(-1) under NO_GROUPING |
| IntAggregators.AggValueOf | src/simpledb/IntAggregator.java:59 | the aggregate field's int; null throws NullPointer, a string field ClassCast |
| IntAggregators.FoldAppend | src/simpledb/IntAggregator.java:67-91 | merging one value folds one more step |
| IntAggregators.MergeStep | src/simpledb/IntAggregator.java:57-92 | one merge keeps the running values, counts, first keys and merged values consistent |
| IntAggregators.MergeFolds | src/simpledb/IntAggregator.java:67-91 | each group's running value is the fold of all its merged values |
| IntAggregators.MergeCounts | src/simpledb/IntAggregator.java:86-90 | each group's count is the int-wrapped number of its merged values |
| IntAggregators.MergedAfterMeaning | src/simpledb/IntAggregator.java:57-92 | after merging rows each group holds its old values plus exactly its rows' values, and exists iff it did before or some row belongs to it |
| IntAggregators.MergedPrefixMeaning | src/simpledb/Aggregate.java:87-95 | where open's merging stops: all rows consumed with MergedAfter's groups, or the failing row is the last consumed, the groups are those of the rows before it, and that row gives MergedAfter's error |
| IntAggregators.IntAggregator.constructor | src/simpledb/IntAggregator.java:25-33 | empty maps, the given fields and operator |
| IntAggregators.IntAggregator.Merge | src/simpledb/IntAggregator.java:57-92 | only the tuple's group changes, by one more value; a new group remembers its first key; failures change nothing |
| IntAggregators.IntAggregator.OutputMeaning | src/simpledb/IntAggregator.java:117-126 | the reported value is the minimum, maximum, wrapped sum, wrapped count, or truncated mean sum / count of the group's values |
| IntAggregators.IntAggregatorIterator.constructor | src/simpledb/IntAggregator.java:100-103 | schema createAggregateTupleDesc(gbfieldtype, null, null) |
| IntAggregators.IntAggregatorIterator.Open | src/simpledb/IntAggregator.java:109-115 | a fresh entry iterator over every group; after close it throws |
| IntAggregators.IntAggregatorIterator.ReadNext | src/simpledb/IntAggregator.java:117-137 | returns the next group's tuple and moves past it; null at the end |
| IntAggregators.IntAggregatorIterator.Close | src/simpledb/IntAggregator.java:139-142 | drops the aggregator |
| StringAggregators.CountedAfterMeaning | src/simpledb/StringAggregator.java:42-48 | after merging rows each group's count grows by the number of its rows |
| StringAggregators.CountedPrefixMeaning | src/simpledb/Aggregate.java:87-95 | where open's counting stops: all rows consumed with CountedAfter's counts, or the failing row is the last consumed, the counts are those of the rows before it, and that row gives CountedAfter's error |
| StringAggregators.CountStep | src/simpledb/StringAggregator.java:42-48 | one more tuple in a group keeps the count maps consistent |
| StringAggregators.NoGroupingFails | src/simpledb/StringAggregator.java:43 | under NO_GROUPING merge reads field -1, so any non-empty input fails |
| StringAggregators.NewStringAggregator | src/simpledb/StringAggregator.java:26-36 | any operator other than COUNT ends in exit |
| StringAggregators.StringAggregator.constructor | src/simpledb/StringAggregator.java:26-36 | empty counts, the given fields |
| StringAggregators.StringAggregator.Merge | src/simpledb/StringAggregator.java:42-48 | the tuple's group count grows by one, starting from 0; others unchanged; a failing getField changes nothing |
| StringAggregators.StringAggregator.CountMeaning | src/simpledb/StringAggregator.java:42-48 | a group's stored count is the number of tuples merged into it |
| StringAggregators.StringAggregatorIterator.constructor | src/simpledb/StringAggregator.java:55-58 | schema createAggregateTupleDesc(gbfieldtype, null, null) |
| StringAggregators.StringAggregatorIterator.Open | src/simpledb/StringAggregator.java:64-70 | a fresh entry iterator over every group |
| StringAggregators.StringAggregatorIterator.ReadNext | src/simpledb/StringAggregator.java:72-90 | the next group's (group, count) or (count) tuple |
| StringAggregators.StringAggregatorIterator.Close | src/simpledb/StringAggregator.java:92-95 | drops the aggregator |
| Aggregates.AggColumnNameInjective | src/simpledb/Aggregate.java:127-136 | the aggregate column name "aggName(childName)" determines both the operator and the child column's name |
| Aggregates.AggregateTupleDescShape | src/simpledb/Aggregate.java:127-136 | built iff the child's names, if any, reach the aggregate and group columns, else IndexOutOfBounds; the output schema: the child's group column type and name, then an INT column named aggName(child name) |
| Aggregates.DrainInto | src/simpledb/Aggregate.java:87-95 | open's loop merges every child tuple into the int aggregator; the first failure is the answer, that tuple is consumed and the groups merged before it stay, exactly as MergedPrefix says |
| Aggregates.DrainIntoStrings | src/simpledb/Aggregate.java:87-95 | the same for the string aggregator, with CountedPrefix |
| Aggregates.CountNext | src/simpledb/Aggregate.java:87-95 | one turn merges the child's next tuple: the rest of the fold continues from the new counts, or its failure is the loop's, with the counts left where CountedPrefix stops |
| Aggregates.Aggregate.constructor | src/simpledb/Aggregate.java:31-53 | an IntAggregator iff the aggregate column is INT_TYPE, a StringAggregator otherwise |
| Aggregates.NewAggregate | src/simpledb/Aggregate.java:31-53 | getType failures propagate; a string column with an operator other than COUNT ends in exit; otherwise the aggregate is built |
| Aggregates.Aggregate.GetTupleDesc | src/simpledb/Aggregate.java:127-136 | built on the first successful call, then cached; a column past the child's name array throws IndexOutOfBounds and leaves the cache empty |
| Aggregates.Aggregate.Open | src/simpledb/Aggregate.java:87-95 | every child tuple is merged before the aggregator's iterator is opened over every group; on a failing merge the groups merged before it stay for the next open and the failing tuple is consumed |
| Aggregates.Aggregate.ReadNext | src/simpledb/Aggregate.java:105-110 | one readNext of the aggregator's iterator |
| Aggregates.Aggregate.Rewind | src/simpledb/Aggregate.java:112-114 | the aggregator's iterator restarts over every group |
| Aggregates.Aggregate.Close | src/simpledb/Aggregate.java:138-142 | closes the child and the aggregator's iterator |
| IntHistograms.BucketWidth | src/simpledb/IntHistogram.java:36 | the width is an int |
| IntHistograms.CeilQuot | src/simpledb/IntHistogram.java:36 | Math.ceil of the exact quotient: the least q with x <= q * b |
| IntHistograms.CeilToInt | src/simpledb/IntHistogram.java:36 | the (int) cast of the ceiling is an int, and equal to it when it fits |
| IntHistograms.BucketWidthCovers | src/simpledb/IntHistogram.java:36 | the width is the least w >= 1 with w * buckets >= max - min + 1 |
| IntHistograms.BucketOf | src/simpledb/IntHistogram.java:47 | the int quotient (v - min) / width, truncated; a zero width throws |
| IntHistograms.BucketInRange | src/simpledb/IntHistogram.java:46-48 | every v in [min, max] falls in a bucket 0 .. buckets-1 |
| IntHistograms.IntHistogram.constructor | src/simpledb/IntHistogram.java:31-40 | every bucket 0 .. buckets-1 at 0, no value counted, the width above |
| IntHistograms.IntHistogram.AddValue | src/simpledb/IntHistogram.java:46-50 | exactly the value's bucket and valueCount grow by one; a missing bucket throws NullPointer and changes nothing |
| IntHistograms.IntHistogram.AddValueInRange | src/simpledb/IntHistogram.java:46-50 | addValue succeeds for every value in [min, max] |
| IntHistograms.IntHistogram.CountMeaning | src/simpledb/IntHistogram.java:46-50 | each bucket's count is the number of added values in it, and valueCount the number added |
| IntHistograms.Tally | src/simpledb/IntHistogram.java:46-50 | the number of added values in one bucket never exceeds the number added |
| IntHistograms.TallyStep | src/simpledb/IntHistogram.java:46-50 | counting a value in its bucket keeps every bucket's count equal to its tally |
| IntHistograms.IntHistogram.EqualityEstimate | src/simpledb/IntHistogram.java:52-58 | a bucket outside the histogram estimates 0 |
| IntHistograms.IntHistogram.StrictEstimate | src/simpledb/IntHistogram.java:60-86 | below the first bucket GT 1 and LT 0, past the last GT 0 and LT 1 |
| IntHistograms.IntHistogram.FlooredEstimatesMeaning | src/simpledb/IntHistogram.java:52-86 | with the floor applied, every value below min takes the out-of-range answers, and from min on the estimates equal the code's |
| IntHistograms.FlooredBelowMin | src/simpledb/IntHistogram.java:47 | with the floor applied, the bucket is negative iff v < min |
| IntHistograms.FlooredBucketOf | src/simpledb/IntHistogram.java:47 | the corrected bucket index fails iff the width is 0 |
| IntHistograms.FlooredAgreesFromMin | src/simpledb/IntHistogram.java:47 | from min upward the corrected and the as-written bucket agree |
| IntHistograms.IntHistogram.FlooredEqualityEstimate | src/simpledb/IntHistogram.java:52-58 | the corrected equality estimate fails iff the width is 0 |
| IntHistograms.IntHistogram.FlooredStrictEstimate | src/simpledb/IntHistogram.java:60-86 | the corrected strict estimate fails iff the width is 0 |
| IntHistograms.TruncatedBelowMin | src/simpledb/IntHistogram.java:47 | as written, v = -1 with min 0 and width 2 lands in bucket 0 instead of -1 |
| StringHistograms.StringToInt | src/simpledb/StringHistogram.java:20-30 | the loop computes the first four characters as a base-256 number, in int arithmetic |
| StringHistograms.AsciiFits | src/simpledb/StringHistogram.java:20-30 | for 7-bit strings the number fits an int unwrapped |
| StringHistograms.Base256Monotone | src/simpledb/StringHistogram.java:17-19 | lexicographically no-later strings map to no-larger numbers |
| StringHistograms.StringValueOrder | src/simpledb/StringHistogram.java:17-19 | a smaller number means a lexicographically smaller string (7-bit strings) |
| StringHistograms.MinVal | src/simpledb/StringHistogram.java:38-40 | stringToInt("") = 0 |
| StringHistograms.MaxVal | src/simpledb/StringHistogram.java:33-35 | stringToInt("zzzz") |
| StringHistograms.StringValueBounds | src/simpledb/StringHistogram.java:33-40 | strings of characters up to 'z' map into [minVal, maxVal] |
| StringHistograms.StringHistogram.constructor | src/simpledb/StringHistogram.java:13-15 | an IntHistogram over [minVal, maxVal] |
| StringHistograms.StringHistogram.AddValue | src/simpledb/StringHistogram.java:43-46 | hist.addValue(stringToInt(s)): succeeds iff the bucket of the string's number has a count, which then goes up by one; otherwise Arithmetic or NullPointer and nothing changes; succeeds for every string up to 'z' |
| StringHistograms.BraceMissesBuckets | src/simpledb/StringHistogram.java:43-46 | with 100 buckets, "{" lands in bucket 100, which has no count, so addValue throws |
| StringHistograms.StringHistogram.AddValueClamped | src/simpledb/StringHistogram.java:43-46 | the corrected addValue never throws, counts a string past the range at the nearest end, and adds a string in range exactly as addValue does |
| JoinNodes.Table2 | src/simpledb/LogicalSubplanJoinNode.java:12-17 | a subplan join has no t2 |
| JoinNodes.SwapOp | src/simpledb/LogicalJoinNode.java:36-46 | each ordering becomes the opposite direction of the other strictness; others unchanged |
| JoinNodes.SwapInnerOuter | src/simpledb/LogicalJoinNode.java:35-50 | t1 and t2, f1 and f2 swapped, the operator mapped by SwapOp; a subplan join is copied |
| JoinNodes.SwapInvolution | src/simpledb/LogicalJoinNode.java:35-50 | swapping twice restores the node |
| JoinNodes.SwapOpInvolution | src/simpledb/LogicalJoinNode.java:36-46 | the operator map is an involution |
| JoinNodes.JoinEqualsMeaning | src/simpledb/LogicalJoinNode.java:52-55 | equals holds iff the other node's tables are both among this node's; fields and operator ignored; a null t2 throws |
| JoinNodes.StringEquals | src/simpledb/LogicalJoinNode.java:52-55 | String.equals on a reference: a null receiver throws, otherwise true iff the strings are equal |
| JoinNodes.EqualsSwapped | src/simpledb/LogicalJoinNode.java:52-55 | a node equals its swapped node both ways |
| JoinNodes.SubplanEqualsMeaning | src/simpledb/LogicalSubplanJoinNode.java:23-29 | false for another class; otherwise t1, f1 and subPlan compared |
| JoinNodes.NewSubplanJoinNode | src/simpledb/LogicalSubplanJoinNode.java:12-17 | stores t1, f1, subPlan and p, t2 null; swapping returns the same node |
| JoinNodes.SwapInnerOuterMirrored | src/simpledb/LogicalJoinNode.java:35-50 | the corrected swap: sides swapped, operator mirrored |
| JoinNodes.MirroredAgrees | src/simpledb/LogicalJoinNode.java:36-46 | the mirrored operator on swapped operands gives the same answer as the original |
| JoinNodes.MirroredSwapInvolution | src/simpledb/LogicalJoinNode.java:35-55 | the corrected swap is an involution and a node equals its swap |
| JoinNodes.SwapOpChangesEqualRows | src/simpledb/LogicalJoinNode.java:36-46 | as written, 1 > 1 is false but the swapped 1 <= 1 is true |
| WaitForGraphs.LinkKeepsInvariant | src/simpledb/DependencyGraph.java:25-37 | adding a pair keeps the maps mirrored and adds exactly that edge |
| WaitForGraphs.PrunedKeepsEdges | src/simpledb/DependencyGraph.java:89-92 | pruning isolated nodes removes no edge |
| WaitForGraphs.PrunedKeepsMirror | src/simpledb/DependencyGraph.java:89-92 | pruning keeps the maps mirrored |
| WaitForGraphs.RemovePairEdges | src/simpledb/DependencyGraph.java:45-53 | removing a pair removes exactly that edge |
| WaitForGraphs.RemovePairKeepsMirror | src/simpledb/DependencyGraph.java:45-53 | removing from both maps keeps them mirrored |
| WaitForGraphs.RemoveDependencyEffect | src/simpledb/DependencyGraph.java:45-53 | _removeDependency removes exactly its edge and keeps the invariant |
| WaitForGraphs.RemoveAbsentPair | src/simpledb/DependencyGraph.java:45-53 | when the holder has no waitingOnMe entry nobody waits on it, so blockingMe is unchanged |
| WaitForGraphs.ReleaseRemovesEdges | src/simpledb/DependencyGraph.java:55-63 | releasing (pid, holder) removes exactly the edges into holder on pid |
| WaitForGraphs.ReleaseKeepsInvariant | src/simpledb/DependencyGraph.java:55-63 | releasing keeps the maps mirrored |
| WaitForGraphs.SubgraphKeepsAcyclic | src/simpledb/DependencyGraph.java:55-63 | removing edges never creates a cycle |
| WaitForGraphs.CyclicCore | src/simpledb/DependencyGraph.java:112 | nodes each with a predecessor among them hold a cycle: what Kahn's leftover means |
| WaitForGraphs.RankedIsAcyclic | src/simpledb/DependencyGraph.java:112 | a ranking that increases along every edge rules out a cycle |
| WaitForGraphs.CorrectedRollbackRestores | src/simpledb/DependencyGraph.java:39-42 | rolling back the added edge restores the acyclic graph |
| WaitForGraphs.AsWrittenRollbackKeepsNewEdge | src/simpledb/DependencyGraph.java:39-53 | the rollback as written never removes the edge that closed the cycle |
| WaitForGraphs.AsWrittenRollbackLeavesCycle | src/simpledb/DependencyGraph.java:39-53 | a two-transaction example in which the cycle survives the rollback as written |
| KahnFacts.KahnVerdict | src/simpledb/DependencyGraph.java:98-112 | when the loop stops, every node was visited iff the graph has no cycle |
| KahnFacts.KahnAcyclic | src/simpledb/DependencyGraph.java:98-112 | all nodes visited means no cycle |
| KahnFacts.KahnCyclic | src/simpledb/DependencyGraph.java:98-112 | an unvisited node means a cycle |
| KahnFacts.PrunedAmongAll | src/simpledb/DependencyGraph.java:85-96 | the pass drops exactly the isolated nodes and queues exactly the others with in-degree 0 |
| KahnFacts.FrontierPop | src/simpledb/DependencyGraph.java:100-102 | the polled node has in-degree 0 and popping it keeps the queue invariant |
| KahnFacts.FrontierDecrement | src/simpledb/DependencyGraph.java:103-109 | decrementing a child and queueing it at 0 keeps the queue invariant |
| KahnFacts.CountOneMore | src/simpledb/DependencyGraph.java:69-82 | counting one more edge raises its target's in-degree by one |
| KahnFacts.CountOneLess | src/simpledb/DependencyGraph.java:103-105 | uncounting an edge lowers its target's in-degree by one |
| KahnFacts.RankedPop | src/simpledb/DependencyGraph.java:100-102 | the polled node, with no pending incoming edge, takes the next rank |
| DependencyGraphs.DependencyGraph.constructor | src/simpledb/DependencyGraph.java:15-18 | both maps empty |
| DependencyGraphs.DependencyGraph.Link | src/simpledb/DependencyGraph.java:25-37 | exactly one edge added to both maps, nodes recorded |
| DependencyGraphs.DependencyGraph.RemoveDependency | src/simpledb/DependencyGraph.java:45-53 | the pair removed from blockingMe and its mirror from waitingOnMe; a missing holder entry throws |
| DependencyGraphs.DependencyGraph.RemoveDependencies | src/simpledb/DependencyGraph.java:55-63 | exactly the edges into the holder on pid removed from both maps, others kept |
| DependencyGraphs.DependencyGraph.ReleaseWaiters | src/simpledb/DependencyGraph.java:58-62 | the loop removes every waiter listed on pid |
| DependencyGraphs.DependencyGraph.InDegrees | src/simpledb/DependencyGraph.java:69-82 | every node's in-degree |
| DependencyGraphs.DependencyGraph.CountTargets | src/simpledb/DependencyGraph.java:74-81 | the inner loop counts each edge out of one source |
| DependencyGraphs.DependencyGraph.PruneIsolated | src/simpledb/DependencyGraph.java:85-96 | isolated nodes removed, the other in-degree-0 nodes queued once |
| DependencyGraphs.DependencyGraph.CountVisited | src/simpledb/DependencyGraph.java:98-112 | every node visited iff no cycle |
| DependencyGraphs.DependencyGraph.DecrementChildren | src/simpledb/DependencyGraph.java:103-109 | the popped node's children lose one in-degree, those at 0 queued |
| DependencyGraphs.DependencyGraph.DetectDeadlock | src/simpledb/DependencyGraph.java:66-113 | true iff the stored edges hold a cycle; isolated nodes pruned, no edge removed |
| DependencyGraphs.DependencyGraph.AddDependency | src/simpledb/DependencyGraph.java:20-43 | no-op for a self-wait; otherwise the edge stays iff it closes no cycle, and on a cycle it is removed and the call aborts; the graph stays acyclic |
| DependencyGraphs.DependencyGraph.AddDependencyAsWritten | src/simpledb/DependencyGraph.java:20-53 | the same verdict, but the rollback removes the reverse edge and throws NullPointer when nobody waits on the waiter |
| LockTables.DenyHasBlocker | src/simpledb/LockManager.java:49-77 | a denied request always has some other transaction to wait for |
| LockTables.HeldType | src/simpledb/LockManager.java:91-99 | null iff tid has no record on the page |
| LockTables.HeldTypeIsTheRecord | src/simpledb/LockManager.java:91-99 | with one record per tid, the reported type is that record's |
| LockTables.DecideKeepsPageLocks | src/simpledb/LockManager.java:47-89 | lockPage keeps the page invariant (all shared, or one exclusive; one record per tid) |
| LockTables.GrantedRequestIsHeld | src/simpledb/LockManager.java:49-86 | unless denied, tid ends up holding a lock that covers the request |
| LockTables.SharedGrantedIffNoExclusive | src/simpledb/LockManager.java:63-68 | a shared request from a non-holder is granted iff no record is exclusive, else denied |
| LockTables.ExclusiveBlockedByOtherHolder | src/simpledb/LockManager.java:74-77 | an exclusive request on a page another tid holds is denied |
| LockTables.UpgradeOnlyForSoleSharedHolder | src/simpledb/LockManager.java:61-62 | only the sole shared holder asking for exclusive is upgraded |
| LockTables.WithoutTidContents | src/simpledb/LockManager.java:113-119 | unlockPage's iterator loop keeps exactly the other tids' records, in order |
| LockTables.WithoutTid | src/simpledb/LockManager.java:113-119 | the remaining list is no longer than the original |
| LockTables.WithoutTidKeepsPageLocks | src/simpledb/LockManager.java:113-119 | the remaining list keeps the page invariant and has no record of tid |
| LockManagers.AddHeld | src/simpledb/LockManager.java:84-86 | the grant adds exactly pid to tid's set |
| LockManagers.RemoveHeld | src/simpledb/LockManager.java:120-121 | unlock removes exactly pid from tid's set |
| LockManagers.GrantKeepsHeldMatches | src/simpledb/LockManager.java:79-86 | a grant keeps records and tid sets in agreement |
| LockManagers.UpgradeKeepsHeldMatches | src/simpledb/LockManager.java:61-62 | an upgrade changes the kind of the only record, not who holds it |
| LockManagers.UnlockKeepsHeldMatches | src/simpledb/LockManager.java:107-122 | unlock keeps records and tid sets in agreement |
| LockManagers.UnlockKeepsPagesOk | src/simpledb/LockManager.java:107-122 | unlocking keeps every page's invariant and leaves tid no record on that page |
| LockManagers.BlockerStep | src/simpledb/LockManager.java:157-167 | one pass of the loop adds an edge exactly for a blocking record |
| LockManagers.LockManager.constructor | src/simpledb/LockManager.java:41-45 | empty tables and graph |
| LockManagers.LockManager.GetLockHeldType | src/simpledb/LockManager.java:91-99 | the type of tid's first record on the page, or null |
| LockManagers.LockManager.HoldsLock | src/simpledb/LockManager.java:101-105 | true iff tid has a record on the page |
| LockManagers.LockManager.GetPagesLockedByTx | src/simpledb/LockManager.java:139-141 | null iff tid has no set; the set is exactly the pages with a record of tid |
| LockManagers.LockManager.UpgradeLock | src/simpledb/LockManager.java:143-155 | the only record, if tid's, becomes exclusive in place |
| LockManagers.LockManager.AddDependencies | src/simpledb/LockManager.java:157-167 | a wait edge to every holder for an exclusive request, to exclusive holders for a shared one, added through the rollback as written: when an edge closes a cycle the call aborts (or throws NullPointer) and that edge stays in the graph; a graph that is already cyclic makes any wait abort; without an abort the graph ends acyclic |
| LockManagers.LockManager.LockPage | src/simpledb/LockManager.java:47-89 | already held: no change; sole shared holder asking exclusive: upgraded; empty, absent or compatible: one record appended and pid added to tid's set; otherwise false with the wait edges added and an acyclic graph, or the abort (or NullPointer) with the closing edge left in the graph; a graph that is already cyclic makes a denial abort; other pages unchanged |
| LockManagers.LockManager.AddLock | src/simpledb/LockManager.java:79-86 | the record is appended to the page's list (created when missing) and pid joins tid's set |
| LockManagers.LockManager.UnlockPage | src/simpledb/LockManager.java:107-122 | no page entry: no change; otherwise tid's records and its set entry for pid go, as do the wait edges into tid on pid |
| LockManagers.LockManager.UnlockAllPages | src/simpledb/LockManager.java:124-137 | tid's set removed, each of its pages unlocked, tid holds nothing anywhere |
| HeapStorage.RemoveFirst | src/simpledb/HeapFile.java:141 | deleting takes one copy of the tuple out |
| HeapStorage.HeapPage.constructor | src/simpledb/HeapFile.java:72 | a clean page holding the data's tuples |
| HeapStorage.HeapPage.AddTuple | src/simpledb/HeapFile.java:115 | t takes a free slot iff one exists; a full page throws DbException |
| HeapStorage.HeapPage.DeleteTuple | src/simpledb/HeapFile.java:141 | t's slot is emptied iff t is on the page; otherwise DbException |
| HeapStorage.HeapPage.MarkDirty | src/simpledb/HeapFile.java:116 | markDirty(true, tid) records tid, false clears it |
| HeapStorage.Disk.constructor | src/simpledb/HeapFile.java:61-92 | the disk holds the given files |
| HeapStorage.Offset | src/simpledb/HeapFile.java:65 | the offset is the int product pageNum * PAGE_SIZE |
| HeapStorage.OffsetsDisjoint | src/simpledb/HeapFile.java:65 | distinct pages below 2^19 occupy disjoint byte ranges |
| HeapStorage.FirstOverflowingPage | src/simpledb/HeapFile.java:65 | page 2^19 overflows to a negative offset |
| HeapStorage.ReadAfterWrite | src/simpledb/HeapFile.java:61-92 | reading back what was written returns it, everything else unchanged |
| HeapStorage.WriteAllImage | src/simpledb/BufferPool.java:207-218 | after a series of writes each page holds its last write |
| HeapStorage.OnlyWriteLands | src/simpledb/BufferPool.java:207-218 | a write no other write overlaps is what the file holds afterwards |
| HeapStorage.NumPages | src/simpledb/HeapFile.java:97-99 | floor(length / PAGE_SIZE), saturated to an int |
| HeapStorage.ReadPage | src/simpledb/HeapFile.java:61-78 | null pid: null; otherwise the page image at pageNum * PAGE_SIZE, a clean fresh page; a failure ends in exit |
| HeapStorage.WritePage | src/simpledb/HeapFile.java:81-92 | the page's data written at its offset; a negative offset ends in exit |
| HeapStorage.AppendedPage | src/simpledb/HeapFile.java:125-132 | a page appended at numPages is read back from there, and numPages grows by one |
| BufferPools.Exclusive | src/simpledb/BufferPool.java:63 | an exclusive lock iff perm is non-null READ_WRITE |
| BufferPools.BufferPool.constructor | src/simpledb/BufferPool.java:39-43 | empty cache, fresh lock manager |
| BufferPools.BufferPool.GetPage | src/simpledb/BufferPool.java:59-85 | lock first (a denial waits or aborts and changes no page, and never waits when the wait-for graph is already cyclic); then eviction when full, even on a hit, and hit or miss; the cache stays within numPages; other pages' locks unchanged |
| BufferPools.BufferPool.Fetch | src/simpledb/BufferPool.java:68-83 | eviction when full before the hit check, then hit or miss |
| BufferPools.BufferPool.Lookup | src/simpledb/BufferPool.java:71-83 | a hit returns the cached object; a miss reads the page from its file and caches it |
| BufferPools.BufferPool.ReleasePage | src/simpledb/BufferPool.java:95-97 | tid's lock on pid released |
| BufferPools.BufferPool.HoldsLock | src/simpledb/BufferPool.java:109-111 | true iff tid holds a lock on pid |
| BufferPools.BufferPool.EvictPage | src/simpledb/BufferPool.java:232-249 | exactly one clean page leaves iff one exists; all dirty: DbException, cache unchanged |
| BufferPools.BufferPool.FlushPage | src/simpledb/BufferPool.java:207-218 | a cached dirty page is written and marked clean; uncached or clean: no-op |
| BufferPools.BufferPool.FlushAllPages | src/simpledb/BufferPool.java:186-191 | every cached page flushed and clean, cache keys unchanged |
| BufferPools.Cleaned | src/simpledb/BufferPool.java:207-218 | after flushing, the pages flushed have no dirtier and all other markers are kept |
| BufferPools.BufferPool.FlushEach | src/simpledb/BufferPool.java:126-132 | every page of the set is flushed once, in the order listed, and nothing else changes |
| BufferPools.BufferPool.FlushStep | src/simpledb/BufferPool.java:126-132 | one turn flushes one more page of the set |
| BufferPools.BufferPool.DiscardPage | src/simpledb/BufferPool.java:198-200 | the entry removed, dirty or not |
| BufferPools.BufferPool.DiscardEach | src/simpledb/BufferPool.java:126-135 | abort drops exactly the dirty cached pages of tid's set |
| BufferPools.BufferPool.CompletePages | src/simpledb/BufferPool.java:124-136 | commit flushes tid's dirty pages, abort discards them, others untouched |
| BufferPools.BufferPool.TransactionComplete | src/simpledb/BufferPool.java:120-138 | no lock set: no change; otherwise the pages completed, every lock of tid released (`UnlockedAll`) and the wait-for graph reduced to `ReleasedEdges` |
| BufferPools.BufferPool.CompleteAndUnlock | src/simpledb/BufferPool.java:124-137 | tid's pages completed, tid's set gone, the lock table is `UnlockedAll` of the old one, the wait-for graph is `ReleasedEdges` of the old one, and tid holds no record on any page |
| BufferPools.BufferPool.Commit | src/simpledb/BufferPool.java:104-106 | the one-argument form commits: tid's pages flushed, its lock set, locks and wait-for edges released |
| BufferPools.BufferPool.FlushPages | src/simpledb/BufferPool.java:223-226 | the stub keeps the pool valid |
| BufferPools.FlushedPageOnDisk | src/simpledb/BufferPool.java:207-218 | each flushed page is on disk afterwards with the data it was flushed with |
| BufferPools.SmallFilesDoNotCollide | src/simpledb/HeapFile.java:82 | below 2^19 pages distinct pages never share an offset |
| HeapFiles.LockedPage | src/simpledb/HeapFile.java:111-114 | getPage as addTuple calls it: the cached page with a covering lock, or one of getPage's failures |
| HeapFiles.AddTuple | src/simpledb/HeapFile.java:103-133 | the first page with room gets t, dirty by tid under a write lock; the full pages before it were released; with no room a page numbered numPages gets t and is written to disk, not cached |
| HeapFiles.ScanPages | src/simpledb/HeapFile.java:108-121 | pages scanned in order up to the first with room; the full ones released |
| HeapFiles.ScanStep | src/simpledb/HeapFile.java:109-120 | one page: room gives the insert, none releases the lock |
| HeapFiles.ReleaseFull | src/simpledb/HeapFile.java:120 | a full page's lock is released |
| HeapFiles.AppendPage | src/simpledb/HeapFile.java:125-132 | the new page (table, numPages) holds [t] and is written at its offset, bypassing the cache |
| HeapFiles.AddToPage | src/simpledb/HeapFile.java:112-117 | the page is taken READ_WRITE, gets t and is marked dirty by tid |
| HeapFiles.DeleteTuple | src/simpledb/HeapFile.java:137-144 | exactly the page in t's RecordId is locked READ_WRITE, loses one copy of t and is marked dirty by tid; a null record id throws |
| HeapFiles.InsertTuple | src/simpledb/BufferPool.java:153-162 | the table's file adds t; an unknown table throws NoSuchElement |
| HeapFiles.PoolDeleteTuple | src/simpledb/BufferPool.java:176-180 | the tuple's table's file deletes it |
| HeapFiles.HeapFileIterator.constructor | src/simpledb/HeapFile.java:153-157 | no current page, nothing to return |
| HeapFiles.HeapFileIterator.Open | src/simpledb/HeapFile.java:160-164 | page 0 becomes current, its tuples to return |
| HeapFiles.HeapFileIterator.HasNext | src/simpledb/HeapFile.java:167-188 | pages visited in increasing order past empty ones; false only at or past the last page |
| HeapFiles.HeapFileIterator.NextPage | src/simpledb/HeapFile.java:176-183 | the next page number becomes current |
| HeapFiles.HeapFileIterator.Next | src/simpledb/HeapFile.java:191-199 | the next tuple of the current page; NoSuchElement when hasNext is false |
| HeapFiles.HeapFileIterator.Rewind | src/simpledb/HeapFile.java:202-204 | open again |
| HeapFiles.HeapFileIterator.Close | src/simpledb/HeapFile.java:207-212 | no current page, nothing left |

## Left out

- Concurrency: `synchronized` blocks, the `AtomicLong` counter's thread safety and the catalog-wide lock around a page append. Every operation is one sequential step.
- BufferPools.BufferPool.GetPage: the retry loop around `lockPage` is one attempt that reports `LockWait` when the lock is refused. Run sequentially, retrying without another transaction releasing could never succeed.
- BufferPools.BufferPool.EvictPage: `HashMap` entry order is unspecified. The evicted page is some clean page, chosen by a `:|` choice over the map.
- IntAggregators.IntAggregatorIterator.Open: the group order of the entry iterator is left open (`EntryOrder`). The test's "3 tuples, again after rewind" follows from `Enumerates` over the three keys; it is not stated as a concrete instance.
- `HeapPage` is not part of this model. A page is a class holding its tuple list, its slot count and its dirty marker. The byte layout and `getPageData` are abstract, and the disk maps a table id and an offset to the tuple list stored there.
- HeapStorage.ReadPage: a short read from `FileInputStream` is not modelled.
- HeapFiles.AddTuple: the record id a page assigns to an inserted tuple is not modelled.
- `Catalog` and `Database` are not part of this model. Each is a parameter, and an unknown table id gives `NoSuchElement`.
- The catalog's `getId`, a hash of the file's absolute path, is not modelled; a table id parameter stands for it.
- HeapFiles.DeleteTuple: a record id with a null page id ends in `ProcessExit`. This approximates the lock taken on the null id, which the model does not follow.
- HeapFiles.HeapFileIterator.Close: the `tid` and `hf` fields are not nulled, because they are immutable here.
- Inserts.Insert.ReadNext: `inserted` abstracts what `bufferPool.insertTuple` does with each tuple.
- OrderBys.OrderBy.Open: the sort requires every collected tuple to carry a set key field of one type. A comparator exception in the middle of `Collections.sort` is not modelled.
- IntHistograms.IntHistogram.EqualityEstimate: the in-range branch yields the bucket index in place of the floating-point selectivity.
- IntHistograms.IntHistogram.StrictEstimate: the in-range branch yields the bucket index in place of the floating-point selectivity. The bucket walk over neighbouring buckets is not modelled.
- StringHistograms.StringValueOrder: proved for strings of 7-bit characters only. Wider characters can wrap the int.
- `hashCode` of `HeapPageId` and `RecordId` is not modelled, because they hash strings. `TupleDesc.hashCode` is not modelled either, because it throws.
- `IntField`, `Predicate` and `Type` are not part of this model.
  - An int field is a datatype case compared by `Fields.IntCompare`.
  - A predicate is a function on rows.
  - Column lengths are a parameter `len`.
- `Parser`, `SimpleDb`, `TableStats`, `SeqScan`, `Delete`, `JoinPredicate` and `LogicalFilterNode` are not part of this model. They hold I/O, command-line plumbing, floating-point statistics, a pass-through or unimplemented stubs.
- `printStackTrace` and `System.exit` become the `ProcessExit` error.
- HeapStorage.NumPages: `Math.ceil` is applied after a `long` division, so the count is floored and a trailing partial page is not counted. The model follows the code.
- BufferPools.BufferPool.FlushPages: `flushPages(tid)` is an empty stub, and the model states only that it keeps the pool valid.
- LockManagers.LockManager.AddDependencies: it follows the rollback as written (`AddDependencyAsWritten`), so an abort can leave a cycle in the graph. The corrected `DependencyGraph.AddDependency` of the finding below is proved on its own and is not what the lock manager calls.
- Fields.NewStringField: a Java `String` is a sequence of UTF-16 code units, while the model's `string` is a sequence of Unicode scalar values. For a character outside the Basic Multilingual Plane, `length()` counts two units where the model counts one, and `substring(0, maxSize)` can split a surrogate pair.
- Fields.Serialize: one character is written per scalar value, not per UTF-16 unit, and the low byte of a supplementary character comes from its scalar value, not from its surrogates.
- Fields.CompareToSign: `String.compareTo` compares UTF-16 code units, while the model compares scalar values. The two orders differ between supplementary characters and characters U+E000 to U+FFFF.
- StringHistograms.StringToInt: `charAt` reads UTF-16 code units, while the model reads scalar values.
- Aggregation.ParseInt: `Integer.parseInt` also accepts non-ASCII Unicode decimal digits, while the model accepts only the ASCII digits '0' to '9'.
- TupleDescs.NameToId: `numFields()` is `|types|` throughout and has no member of its own.
- IntAggregators.IntAggregator.Merge: the `HashMap` lookup is modelled as total. In Java, when a null group key is already stored, a non-null key with hash 0 is compared with it by `equals(null)`. `StringField.equals` then throws `NullPointerException`, and `IntField`'s behaviour is not part of this model. The model returns `Ok` there. `MergedAfter`, `MergedPrefix`, `DrainInto` and `Aggregate.Open` inherit this.
- StringAggregators.StringAggregator.Merge: the same `HashMap` case is not modelled. A group string whose `String.hashCode` is 0, such as `""`, merged after a null group throws in Java, while the model returns `Ok`. `CountedAfter`, `CountedPrefix`, `DrainIntoStrings` and `Aggregate.Open` inherit this.
- TransactionIds.Equals: the argument is an `Option<TransactionId>`. An object of another class, which the unchecked cast would turn into `ClassCastException`, is not modelled.

## Findings

| source | as written | input that shows it | evidently intended | confidence | as-written member | corrected member |
|---|---|---|---|---|---|---|
| src/simpledb/DependencyGraph.java:39-53 | on a deadlock, `_removeDependency(waiter, runner, pid)` binds `waiter` to `finishedRunning` and `runner` to `waiting`, so it removes the reverse edge runner→waiter, or throws NullPointerException when nobody waits on the waiter | T1 waits for T2 on page 2; T2 then waits for T1 on page 1; the cycle is detected, the rollback keeps the new edge, and the graph stays cyclic | remove the edge just added (`waiter`→`runner` on `pid`), restoring the acyclic graph | not executed | DependencyGraphs.DependencyGraph.AddDependencyAsWritten, WaitForGraphs.AsWrittenRollbackLeavesCycle | DependencyGraphs.DependencyGraph.AddDependency, WaitForGraphs.CorrectedRollbackRestores |
| src/simpledb/LogicalJoinNode.java:36-46 | swapping sides maps GREATER_THAN to LESS_THAN_OR_EQ (and so on), which negates the predicate as well as swapping the operands | t1.f1 = 1 and t2.f2 = 1: `1 > 1` is false, but the swapped node tests `1 <= 1`, which is true | mirror the operator (GREATER_THAN becomes LESS_THAN), so the swapped join selects the same pairs | not executed | JoinNodes.SwapInnerOuter, JoinNodes.SwapOpChangesEqualRows | JoinNodes.SwapInnerOuterMirrored, JoinNodes.MirroredAgrees |
| src/simpledb/StringHistogram.java:43-46 | addValue passes stringToInt(s) straight to the IntHistogram built over [stringToInt(""), stringToInt("zzzz")]; a string past "zzzz", or one whose first character wraps the int negative, gets a bucket with no count, and unboxing that null count throws NullPointerException | with the 100 buckets of TableStats, "{" has the number 0x7b000000 and lands in bucket 100 | every string is counted, a number outside [minVal, maxVal] in the nearest end bucket | not executed | StringHistograms.StringHistogram.AddValue, StringHistograms.BraceMissesBuckets | StringHistograms.StringHistogram.AddValueClamped |
| src/simpledb/IntHistogram.java:47 | the bucket `(int) Math.floor((v-min)/bucketWidth)` divides ints first, which truncates toward zero, so Math.floor has nothing to do | min 0, width 2, v = -1: bucket 0, so the value counts as inside the first bucket | the floor of the exact quotient (bucket -1), so every value below min takes the out-of-range answers | not executed | IntHistograms.BucketOf, IntHistograms.TruncatedBelowMin | IntHistograms.FlooredBucketOf, IntHistograms.IntHistogram.FlooredEstimatesMeaning |
