# wwsearch in Dafny

A model of the parts of wwsearch that make its inverted index mean the right thing, with proofs. wwsearch keeps,
for every (table, field, term), a posting list: document ids in decreasing order, each present or deleted (a
tombstone). Every write appends a small list as a merge operand; the store merges operands whenever it likes. A
query reads the merged lists of its terms, runs a tree of And/Or iterators over them and collects a window of the
result.

The files follow that path.

| file | what it models |
|---|---|
| `Postings.dfy`, `HeapMerge.dfy`, `Compaction.dfy`, `MapMerge.dfy` | posting lists, the array-heap merge operator, merges at any time, the map-based merge of the test store |
| `Utf8.dfy`, `Documents.dfy`, `Database.dfy`, `Batches.dfy`, `BatchMeaning.dfy`, `SafeBatches.dfy`, `WritePath.dfy` | UTF-8 and suffix terms, fields as stored, the three columns, what a batch does and when it is safe, the writer classes |
| `Iterators.dfy`, `QueryEval.dfy`, `Sorting.dfy`, `Collector.dfy` | posting reader, intersection and union iterators, sort conditions, top-N collector |
| `Queries.dfy`, `Loading.dfy`, `EndToEnd.dfy` | what a query asks and what a scan limit lets it find, what filters and sorting see, a query from store to answer |
| `TicketQueue.dfy`, `QueueRefusals.dfy`, `QueueProgress.dfy` | the bounded queue as a state machine over its atomic steps, what a refused call saw, and what a call left alone does |
| `MergingCursor.dfy`, `CursorRuns.dfy` | the bidirectional cursor over several sorted children, and what runs of it come to |
| `Varint.dfy`, `Compression.dfy`, `Keys.dfy`, `Scan.dfy`, `Sequences.dfy` | integer and list encodings, row keys and their order, paged scans and removals, user numbers |
| `Basics.dfy` | optional values, bytes, tables, status codes |

What the proofs add up to:

- **Any compaction schedule reads the same.** The heap merge returns exactly the k-way merge (`HeapMerge`), a merge
  loses nothing exactly when its limits are not reached, and then a reader gets one full merge of everything ever
  written, whatever was merged when (`Compaction.ScheduleIndependent`). With tight limits it does not, and a
  concrete history shows it.
- **The three columns agree after any run of safe batches.** Agreement means that a document is listed under exactly
  the terms its stored fields expand to, suffixes included, and that its doc-value row is the projection of its
  stored fields. An accepted batch, in any of the modes and with ids repeated or not, keeps agreement if and only if
  it is `Safe`, a condition on its documents and on what is stored before it (`Batches.BatchAgreementExact`); failed
  batches and merges always do, so runs do (`Batches.AgreementOverRuns`). A batch is safe when its ids are distinct,
  the terms and values it gives are stored, and the mode that skips reading is only used for new documents; so runs
  of such batches agree (`SafeBatches.CarefulRunsAgree`). `WritePath.IndexWriter.InnerWriteDocuments`, the
  imperative writer, does exactly what `Batches.AfterBatch` says, and changes nothing when any document fails.
- **What a batch does is said of its documents.** When a batch is accepted, which status every document of it ends
  with, which fields and doc values are stored afterwards and which lists are written (`BatchMeaning.AcceptedMeans`,
  `RefusedMeans`, `OutcomeMeans`, `RowMeans`, `DocValueRowMeans`, `OperandsMean`) is stated by the ids, the mode and
  what was stored before, not by the functions the writer is proved against; so are the field as stored and the index
  terms it has (`Documents.StoredFormMeans`, `Documents.IndexTermsMean`).
- **A query returns what it should.** `EndToEnd.Search` returns the window of exactly the stored documents whose
  fields satisfy the query, in decreasing id order, or the best of them under sort conditions, filtered and sorted
  by the documents' own doc values; stopping early does not show. When a prefix query's scan reports its size limit
  the answer is that of the documents it found, and no scan misses a row without reporting it. What a query asks, a
  filter passes and a condition sorts first is stated by fields and values alone (`Queries.MatchesMeans`,
  `Collector.HitsMean`, `Sorting.OneCondition`), and so is the window (`Collector.WindowMeans`, `Collector.BestMeans`).
- **The queue is a bounded FIFO** for any number of threads and any interleaving, and a refused call saw the queue
  full, empty or the slot still in use at a moment inside the call (`QueueRefusals`); left alone, a call succeeds if
  there is room, or a published item, and is refused and changes nothing if not (`QueueProgress`). The **merging
  cursor** goes through the copies of its children's keys as one cursor over all of them would, if and only if it never
  turns at a key that a child ahead has too (`CursorRuns.WalkIsPlain`).

Where the code falls short of a property, the exact condition is proved instead:

- fields flagged to be indexed but not stored, or doc-valued but not stored, are where the columns stop agreeing
  (`SafeBatches.DistinctExact`);
- adding without reading agrees, in the index, only if no old term is lost, and in the doc values only if new ones are
  given or there were none (`SafeBatches.AddWithoutReadExact`; a row left over: `SafeBatches.AddWithoutReadLeavesRow`);
- an id repeated in a batch agrees in the index only if its documents fit the last of them
  (`SafeBatches.RepeatedIdExact`; a failing pair: `SafeBatches.RepeatedIdDisagrees`), and in the doc values only under
  the condition of `Batches.DocValuesAfterLast` (a row left over: `SafeBatches.RepeatedIdLeavesRow`);
- repeated new users lose a number (`Sequences.BijectionExact`);
- a tie on a descending sort condition ends the comparison (`Sorting.BeforeIsLexicographicUnless`);
- the test store keeps the first value of a key verbatim (`MapMerge.FirstValueVerbatim`);
- a merging cursor that turns drops the copies ahead of it (`CursorRuns.TurnExact`);
- a row too large for a page stops a scan (`Scan.ScanAll`);
- positions of tombstones that do not rise abort a decoding run (`Compression.DecodeMeans`);
- dropping a table misses id 2^64-1 and, in field 255, terms that begin with 256 bytes 0xFF (`Keys.DropStoredExact`,
  `Keys.DropInvertedExact`).

Conventions. Ids and counters are unbounded unless a width matters; 32- and 64-bit widths are written out where they
do (varints, keys, positions). Bit operations are written as arithmetic. An assertion that would end the process is
modelled as a refusal (`ok == false`, `Aborted`). Iteration over a map or set is in no particular order, because no
result depends on it. The tokenizer, failed reads, the batch size limit and a failed flush are parameters
(`Batches.Env`); so are failed reads of doc-value rows, the size of a serialised list and the size a write batch adds
per record.

## Model

| member | source | states |
|---|---|---|
| HeapMerge.OptimizeMerger.HeapShiftUp | wwsearch/src/virtual_db_rocks.cpp:102-112 | a heap of `pos` cursors plus one more is again a heap of the same cursors; the rest of the array is untouched |
| HeapMerge.OptimizeMerger.HeapShiftDown | wwsearch/src/virtual_db_rocks.cpp:114-150 | from any position whose cursor alone is out of place, sinking it leaves a heap of the same cursors |
| HeapMerge.RootIsNext | wwsearch/src/virtual_db_rocks.cpp:72-75 | with every cursor past the ids already output, the root carries the next entry of the merge: the largest id left, in the state of the newest list holding it |
| HeapMerge.OptimizeMerger.SkipDocument | wwsearch/src/virtual_db_rocks.cpp:208-214 | every cursor on the id just output steps over it, the array stays a heap, and something is consumed |
| HeapMerge.OptimizeMerger.Keep | wwsearch/src/virtual_db_rocks.cpp:171-206 | one entry is kept, dropped or ends the merge so that the output stays right for the entries seen, with both limits |
| HeapMerge.OptimizeMerger.OptimizeDocListMerge | wwsearch/src/virtual_db_rocks.cpp:152-220 | the merge returns the live entries up to the limit (full), or everything capped at both limits (partial), of the overlay of all lists |
| HeapMerge.OptimizeMerger.DoMerge | wwsearch/src/virtual_db_rocks.cpp:332-372 | the same for any number of lists, on the preallocated heap or a fresh one |
| HeapMerge.OptimizeMerger.FullMergeV2 | wwsearch/src/virtual_db_rocks.cpp:254-281 | existing value oldest, then the operands: the full merge of the stack |
| HeapMerge.OptimizeMerger.PartialMergeMulti | wwsearch/src/virtual_db_rocks.cpp:283-303 | the partial merge of a run of operands |
| Compaction.FullMergeMeaning | wwsearch/src/virtual_db_rocks.cpp:152-220 | a full merge is strictly decreasing, holds only live ids in their newest state, has min(limit, live) of them, and those are the largest |
| Compaction.CappedKeeps | wwsearch/src/virtual_db_rocks.cpp:187-205 | within the tombstone limit a partial merge keeps every tombstone and the first `max` live ids |
| Compaction.PartialMergeKeeps | wwsearch/src/virtual_db_rocks.cpp:187-205 | an entry of the overlay survives a partial merge if and only if at most 10000000 tombstones come before it and, unless it is one, fewer than `max` live entries do |
| Compaction.PartialMergeExact | wwsearch/src/virtual_db_rocks.cpp:186-205 | a partial merge means what its operands mean if and only if neither limit cuts it |
| Compaction.FullMergeExact | wwsearch/src/virtual_db_rocks.cpp:173-185 | a full merge shows what the lists show if and only if the live ids fit the limit |
| Compaction.MergeInvisible | wwsearch/src/virtual_db_rocks.cpp:254-303 | merging a run of operands, or an oldest prefix, changes nothing a reader can see |
| Compaction.WriteVisible | wwsearch/src/virtual_db_rocks.cpp:254-281 | a newly written operand overrides what was visible |
| Compaction.RunVisible | wwsearch/src/virtual_db_rocks.cpp:254-303 | after any mix of writes and merges, what is visible is the overlay of what was written |
| Compaction.ScheduleIndependent | wwsearch/src/virtual_db_rocks.cpp:254-303 | for every run within the limits, a read equals one full merge of all operands in order |
| Compaction.TightLimitBreaksIndependence | wwsearch/src/virtual_db_rocks.cpp:189-194 | with a limit of one, an early merge changes what is read later |
| Compaction.CellStaysWellFormed | wwsearch/src/virtual_db_rocks.cpp:254-303 | every merge leaves lists strictly decreasing and without id 0 |
| MapMerge.PartialRefinesMap | wwsearch/src/write_buffer_mock.cpp:140-213 | the heap's partial merge of two lists is the map merge of the test write buffer, if and only if nothing is cut |
| MapMerge.FullRefinesMap | wwsearch/src/virtual_db_mock.cpp:103-154 | the heap's full merge of value and operand is the map merge of the test store for a present key, if and only if the live ids fit |
| MapMerge.FirstValueVerbatim | wwsearch/src/virtual_db_mock.cpp:103-171 | after any number of merges of an absent key the test store shows what one full merge of them does, and holds the same list if and only if the live ids fit and a lone first list has no tombstone |
| MapMerge.MergeIntoBuffer | wwsearch/src/write_buffer_mock.cpp:154-191 | the loops over both lists and the map compute the map merge |
| MapMerge.MergeIntoStore | wwsearch/src/virtual_db_mock.cpp:103-171 | the store's merge case: the erasing loops for a present key, the value as it is for an absent one |
| TicketQueue.TicketUnique | wwsearch/include/lockfree_queue.h:109-111 | slot and turn together determine the ticket |
| TicketQueue.IdxTurnAreModDiv | wwsearch/include/lockfree_queue.h:109-111 | the lap counting used in the proofs is the code's remainder and quotient |
| TicketQueue.InitInv | wwsearch/include/lockfree_queue.h:109-111 | the empty queue satisfies the invariant |
| TicketQueue.StepInv | wwsearch/include/lockfree_queue.h:176-223 | every atomic step of every thread keeps it |
| TicketQueue.ClaimPush | wwsearch/include/lockfree_queue.h:176-194 | winning the head hands out a ticket whose slot is empty and nobody else's |
| TicketQueue.PublishPop | wwsearch/include/lockfree_queue.h:203-223 | finishing a pop frees the slot for the ticket one lap on and answers the pop with its push's item |
| TicketQueue.HolderAlone | wwsearch/include/lockfree_queue.h:176-223 | two threads never hold tickets of one slot |
| TicketQueue.HeldOccupy | wwsearch/include/lockfree_queue.h:176-223 | while a ticket is held, the slot's `occupy` is the value its holder waited for |
| TicketQueue.StepIsFifo | wwsearch/include/lockfree_queue.h:176-223 | a step that wins the head appends its value, one that wins the tail takes the oldest, any other leaves the contents alone |
| TicketQueue.RunSafe | wwsearch/include/lockfree_queue.h:176-223 | over every run: tail <= head <= tail + capacity, pop ticket k returns push ticket k's value or is still being answered, and no two threads touch one slot |
| TicketQueue.PushSeesRoom | wwsearch/include/lockfree_queue.h:176-194 | a push finds its slot ready if and only if the queue is not full and the pop one lap back has finished |
| TicketQueue.PopSeesItem | wwsearch/include/lockfree_queue.h:203-223 | a pop finds an item if and only if there is one and its push has been published |
| QueueRefusals.RefusedPush | wwsearch/include/lockfree_queue.h:176-194 | over every run: a push about to be refused found, at its last look inside the call, the queue full or the pop one lap back unfinished |
| QueueRefusals.RefusedPop | wwsearch/include/lockfree_queue.h:203-223 | a pop about to be refused found the queue empty or the push of its oldest item unpublished |
| QueueProgress.RefusesExactly | wwsearch/include/lockfree_queue.h:176-223 | a call without a ticket ends with a step if and only if that is a second load of the counter that finds it unchanged |
| QueueProgress.LooksAgain | wwsearch/include/lockfree_queue.h:176-223 | a call that looks again does so with the counter as it is then, and a push with its own value |
| QueueProgress.PushAlone | wwsearch/include/lockfree_queue.h:176-194 | left alone, a push into a queue with room appends its value and publishes it with the odd number of its turn |
| QueueProgress.PushRefusedAlone | wwsearch/include/lockfree_queue.h:176-194 | left alone, any other push is refused and changes nothing |
| QueueProgress.PopAlone | wwsearch/include/lockfree_queue.h:203-223 | left alone, a pop from a queue whose oldest item is published takes that item, answers with it and frees the slot for the next turn |
| QueueProgress.PopRefusedAlone | wwsearch/include/lockfree_queue.h:203-223 | left alone, any other pop is refused and changes nothing |
| Iterators.DocIterator.DocID | wwsearch/src/codec_doclist_impl.cpp:108-112 | the current id is the largest remaining one, 0 when there is none, for readers, intersections and unions alike |
| Iterators.DocIterator.Seek | wwsearch/src/codec_doclist_impl.cpp:121-173 | the binary search ends on the first id at or below the target, or past the end, as a linear scan would |
| Iterators.DocIterator.ReadNext | wwsearch/src/codec_doclist_impl.cpp:114-119 | a reader steps to its next id |
| Iterators.DocIterator.Advance | wwsearch/src/codec_doclist_impl.cpp:121-173 | advancing leaves exactly the remaining ids at or below the target: any target for a union, one not above the current id for readers and intersections |
| Iterators.DocIterator.NextDoc | wwsearch/src/codec_doclist_impl.cpp:114-119 | the largest remaining id is taken off, and the next is returned |
| Iterators.DocIterator.NextMatch | wwsearch/src/merge_iterator.cpp:38-93 | an intersection lands on the next id common to all children, whatever the nesting |
| Iterators.DocIterator.Leapfrog | wwsearch/src/merge_iterator.cpp:46-90 | moving children that are ahead to the smallest current id ends with all on one id and loses no common id; the loop ends |
| Iterators.DocIterator.FindMin | wwsearch/src/merge_iterator.cpp:47-69 | the smallest current id, and whether the children differ |
| Iterators.DocIterator.NextAny | wwsearch/src/or_iterator.cpp:46-71 | a union moves every child that is past the target, in heap order, and lands on the largest id left in any |
| Iterators.DocIterator.And | wwsearch/include/merge_iterator.h:47-52 | a fresh intersection stands before its first common id |
| Iterators.DocIterator.Any | wwsearch/include/or_iterator.h:52-57 | a fresh union stands on its largest id, with its children in heap order |
| QueryEval.MeaningIsFormula | wwsearch/src/and_weight.cpp:24-36 | the set a tree of iterators stands for is the set of ids that satisfy its boolean formula |
| QueryEval.Build | wwsearch/src/or_weight.cpp:24-36 | building iterators bottom up gives a tree whose remaining ids are that set |
| QueryEval.Evaluate | wwsearch/src/searcher.cpp:69-84 | repeated NextDoc enumerates exactly the ids that satisfy the formula, each once, in decreasing order |
| Sorting.BeforeIsStrict | wwsearch/include/sorter.h:147-165 | no two documents come before each other, for every list of conditions |
| Sorting.BeforeSplits | wwsearch/include/sorter.h:147-165 | if a comes before b, any third document comes after a or before b: with the above, a strict weak order |
| Sorting.InnerSplits | wwsearch/include/sorter.h:61-131 | the same for a single numeric or string condition, missing fields included |
| Sorting.InnerIsAhead | wwsearch/include/sorter.h:61-131 | a condition puts a document with the field before one without, the larger id first without it on both sides, then numbers by value and strings by their first different byte or length |
| Sorting.OneCondition | wwsearch/include/sorter.h:147-165 | what sorting by one condition in either direction says of two documents, by their fields and ids alone |
| Sorting.BeforeIsLexicographicUnless | wwsearch/include/sorter.h:152-160 | the comparison is the lexicographic one if and only if no descending condition is reached with a tie |
| Sorting.SecondDescIgnored | wwsearch/include/sorter.h:152-160 | a pair of documents on which two descending conditions do not sort by the second |
| Collector.Replace | wwsearch/src/collector_top.cpp:277-306 | pushing a document on a full queue and popping one that comes before none keeps the best documents |
| Collector.BestIsFirst | wwsearch/src/collector_top.cpp:109-123 | without conditions the best of decreasing hits are the first ones, in order |
| Collector.TopNCollector.Collect | wwsearch/src/collector_top.cpp:26-52 | an id is buffered after those before it, or ignored once total_limit + 1 have been; a full buffer is purged, and what the queue holds stays right for every batch size |
| Collector.TopNCollector.InnerPurge | wwsearch/src/collector_top.cpp:126-306 | the buffer is loaded, filtered and pushed: the queue then holds the best hits so far, and the hit count is right |
| Collector.TopNCollector.Load | wwsearch/src/collector_top.cpp:150-215 | the matching documents of the buffer, or failure exactly when one cannot be read |
| Collector.HitsMean | wwsearch/src/collector_top.cpp:308-333 | with a filter an id is a hit if and only if at least min_match rules pass on the document's own values, or all of them when min_match is 0 or more than there are |
| Collector.TopNCollector.PopTop | wwsearch/src/collector_top.cpp:277-296 | the priority queue gives up a document that comes before no other |
| Collector.TopNCollector.Enough | wwsearch/src/collector_top.cpp:55-63 | when a search may stop |
| Collector.TopNCollector.GetAndClearMatchDocs | wwsearch/src/collector_top.cpp:109-123 | the answer: an ordered best selection without its first `offset`, or without a sorter the window of the hits |
| Collector.TopNCollector.DropOffset | wwsearch/src/collector_top.cpp:117-122 | removing by value drops exactly the first `offset` ids |
| Collector.StoppedIsComplete | wwsearch/src/searcher.cpp:69-84 | the answer after stopping early is the answer of going on to the end |
| Collector.DoQuery | wwsearch/src/searcher.cpp:24-90 | for every iterator and option: window, order, count and errors are those of the first total_limit + 1 ids, and success means that all of them, or as many as suffice, can be read |
| Collector.WindowMeans | wwsearch/src/collector_top.cpp:109-123 | without a sorter the answer is the passing ids of the largest total_limit + 1 from `offset` on, at most `limit` of them, and the count is of all that pass |
| Collector.BestMeans | wwsearch/src/collector_top.cpp:109-123 | with a sorter it is a best selection of offset + limit passing ids, in order, without the first `offset`, compared by the values of their rows |
| Collector.FailureMeans | wwsearch/src/collector_top.cpp:150-215 | a search fails only if a filter or sorter makes it read a document that cannot be read, and succeeds with either only if the ids it looked at can be |
| MergingCursor.MergingIterator.FindSmallest | wwsearch/src/merger_iterator_rocks.cpp:180-195 | the current child is the first of those with the smallest key, or none if all are exhausted |
| MergingCursor.MergingIterator.FindLargest | wwsearch/src/merger_iterator_rocks.cpp:197-212 | the last of those with the largest key |
| MergingCursor.SmallestOfAll | wwsearch/src/merger_iterator_rocks.cpp:180-195 | of children that each stand at their first key in a part of the copies, the smallest is the first copy in it, and the others stand where that copy wants them |
| MergingCursor.EndsMean | wwsearch/src/merger_iterator_rocks.cpp:54-68 | seeking either end goes to the first or last copy of all, copies being ordered by key and then by child |
| MergingCursor.SeekMeans | wwsearch/src/merger_iterator_rocks.cpp:70-76 | a seek goes to the least copy at or above the target and faces forward |
| MergingCursor.SeekForPrevMeans | wwsearch/src/merger_iterator_rocks.cpp:78-84 | a backward seek goes to the greatest copy at or below the target and faces backward |
| MergingCursor.NextMeans | wwsearch/src/merger_iterator_rocks.cpp:86-111 | a step forward goes to the least copy beyond the current one, or after a turn to the least with a larger key |
| MergingCursor.PrevMeans | wwsearch/src/merger_iterator_rocks.cpp:113-140 | a step backward goes to the greatest copy short of the current one, or after a turn to the greatest with a smaller key |
| MergingCursor.MergingIterator.Seek | wwsearch/src/merger_iterator_rocks.cpp:70-76 | lands on the first copy of the first key at or above the target |
| MergingCursor.MergingIterator.SeekForPrev | wwsearch/src/merger_iterator_rocks.cpp:78-84 | lands on the last copy of the last key at or below the target |
| MergingCursor.MergingIterator.Next | wwsearch/src/merger_iterator_rocks.cpp:86-111 | moves to the next copy of any child's keys, or, right after moving backwards, to the next key |
| MergingCursor.MergingIterator.Prev | wwsearch/src/merger_iterator_rocks.cpp:113-140 | the same downwards |
| MergingCursor.MergingIterator.TurnForward | wwsearch/src/merger_iterator_rocks.cpp:89-107 | turning round puts every other child on its first key above the current one |
| MergingCursor.MergingIterator.TurnBack | wwsearch/src/merger_iterator_rocks.cpp:116-136 | turning round puts every other child on its last key below the current one |
| MergingCursor.Drive | wwsearch/src/merger_iterator_rocks.cpp:54-140 | any sequence of operations, over children that may share keys, visits exactly the copies that one cursor with a direction would |
| CursorRuns.TurnExact | wwsearch/src/merger_iterator_rocks.cpp:86-140 | a step goes to the neighbouring copy if and only if it does not turn at a key that a child ahead has too |
| CursorRuns.WalkIsPlain | wwsearch/include/merger_iterator_rocks.h:36-41 | the merging cursor is one cursor over all copies, through any operations, if and only if no step turns that way |
| CursorRuns.ForwardYieldsAll | wwsearch/include/merger_iterator_rocks.h:36-41 | going forward from the start yields every copy once, in order, and then ends |
| CursorRuns.EachKeyAsOften | wwsearch/include/merger_iterator_rocks.h:40-41 | so a key that K children have is yielded K times |
| CursorRuns.DisjointIsUnion | wwsearch/include/merger_iterator_rocks.h:36-37 | without common keys, the keys seen are those of one cursor over the union, turns included |
| Utf8.Append | wwsearch/include/checked.h:90-110 | writes the shortest form of a valid code point and refuses any other |
| Utf8.ValidateNext | wwsearch/include/core.h:231-280 | moves past one code point or stays, with the verdict of the pure reader |
| Utf8.GetSequence | wwsearch/include/core.h:163-229 | the first missing or wrong trail byte, or the number in the sequence |
| Utf8.DecodeIsExact | wwsearch/include/core.h:231-280 | a code point is read if and only if its encoding lies ahead: next inverts append, and nothing else is accepted |
| Utf8.FormJudged | wwsearch/include/core.h:125-135 | every complete 1- to 4-byte form is rejected as surrogate or out of range, as overlong, or read back |
| Utf8.BytesJudged | wwsearch/include/core.h:137-229 | a byte that begins no sequence is an invalid lead; of a sequence, the first byte missing or no trail byte decides the error |
| Utf8.EncodeMeans | wwsearch/include/checked.h:90-110 | the bits of a code point lie in one to four bytes as the length thresholds say |
| Utf8.UTF8SuffixBuilder.Next | wwsearch/src/utf8_suffixbuilder.cpp:27-45 | one code point on, and whether a long enough suffix is left; an invalid byte ends it, and after that it keeps answering true |
| Utf8.CollectSuffixes | wwsearch/src/document_writer.cpp:658-662 | the do/while over the builder yields the suffix list |
| Utf8.SuffixesAreExact | wwsearch/src/utf8_suffixbuilder.cpp:27-52 | for any bytes: exactly the suffixes that follow a whole number of code points and have min(min_len, size) bytes, and the term itself |
| Utf8.WellFormedSuffixes | wwsearch/include/utf8_suffixbuilder.h:33-46 | for well-formed terms: exactly the suffixes at code-point boundaries that are long enough |
| Documents.FieldTermsSurvive | wwsearch/src/index_field.cpp:142-241 | a field reads back with the same index terms, suffix length included, if and only if its terms are stored or empty |
| Documents.DocValueSurvives | wwsearch/src/index_field.cpp:142-241 | storing keeps a doc value if and only if the field is stored or holds the default |
| Documents.StoredFormStable | wwsearch/src/index_field.cpp:195-241 | storing what was read back changes nothing |
| Documents.StoredFormMeans | wwsearch/src/index_field.cpp:142-241 | a field as stored: id, flags and type as given, the value if it is flagged as stored and what an absent one reads back as otherwise, the terms unless flagged not to store them, and a suffix length that defaults to 5 |
| Documents.DocValueFormMeans | wwsearch/src/index_field.cpp:142-241 | a field of a doc-value row: the value if it is flagged as doc value, and no terms |
| Documents.DocValueFormsMean | wwsearch/src/document.cpp:61-93 | the doc-value fields of a document are its fields flagged so, in order |
| Documents.IndexTermsMean | wwsearch/src/document_writer.cpp:645-662 | a document has an index term if and only if one of its fields of that id has it as a term, or as a suffix of a term that is not too long, after whole code points and as long as the field asks, by default 5 |
| Documents.IndexTermsSurviveExactly | wwsearch/src/index_field.cpp:175-184 | with distinct field ids a document keeps its index terms if and only if every field does |
| Documents.DocValuesSurvive | wwsearch/src/document.cpp:61-93 | the doc-value projection survives storing if and only if every value does |
| Documents.MergedFieldsFrom | wwsearch/src/document_writer.cpp:806-825 | merging keeps the new fields in place and ends with a field for every old id |
| Documents.MergedFieldsMean | wwsearch/src/document_writer.cpp:806-825 | after the new fields come, in order, exactly the old ones whose id is neither among the new nor among the old ones before |
| Database.OpsMakeChange | wwsearch/src/document_writer.cpp:61-75 | stored puts, then any order of posting merges, then doc-value puts: together exactly the batch's change of the three columns |
| Database.LastRows | wwsearch/src/document_writer.cpp:473-613 | of changes with any ids, the last active one of an id decides its stored row, and its doc-value row if it has or had doc values |
| Database.RowsStay | wwsearch/src/document_writer.cpp:535-613 | when the changes of an id know of no old doc values, a row is there afterwards if and only if one was before or one of them puts one |
| Batches.ShowsExactly | wwsearch/src/document_writer.cpp:618-750 | after any number of changes of one id, a term they knew lists the document if and only if it did and all of them keep it, any other if and only if it did or one of them gains it |
| Batches.IndexAfterLast | wwsearch/src/document_writer.cpp:618-750 | the index agrees with a document's stored row if and only if its changes satisfy `IndexStays` |
| Batches.DocValuesAfterLast | wwsearch/src/document_writer.cpp:535-613 | its doc-value row is the projection of its stored row if and only if its changes satisfy `DocValuesStay` |
| Batches.OthersUntouched | wwsearch/src/document_writer.cpp:43-130 | documents and tables not in the batch are left alone in all three columns |
| Batches.BatchRows | wwsearch/src/index_writer.cpp:39-93 | what each mode leaves stored for an id, however often given: the last given fields, merged with old ones unless replacing or not reading, or nothing |
| BatchMeaning.AcceptedMeans | wwsearch/src/index_writer.cpp:225-320 | a batch succeeds if and only if every id is non-zero, what is to be written tokenizes, size and flush are fine, no read fails that the mode makes, adding finds none of its documents and updating all |
| BatchMeaning.RefusedMeans | wwsearch/src/index_writer.cpp:95-222 | the status each document ends with when ids or reads stop the batch: failed read, exists, does not exist, id zero, or another document failed |
| BatchMeaning.OutcomeMeans | wwsearch/src/document_writer.cpp:43-130 | the status each document ends with otherwise: tokenizer error for the first that has one, size and flush failures, and a removed document that was not there |
| BatchMeaning.RowMeans | wwsearch/src/index_writer.cpp:39-93 | what an accepted batch leaves stored of an id: the last given fields first, each as stored, then for updates the old fields of other ids; nothing when removing |
| BatchMeaning.DocValueRowMeans | wwsearch/src/document_writer.cpp:535-613 | what it leaves in the doc-value row: what those fields hold of doc values, or no row if they hold none and the mode read old ones |
| BatchMeaning.OperandsMean | wwsearch/src/document_writer.cpp:706-746 | the lists of a term gain, in order, the id with state 0 for each document that gains the term and with state 1 for each that loses it, and no other table's do |
| Batches.BatchAgreementAt | wwsearch/src/index_writer.cpp:225-320 | for each id of an accepted batch of any mode, repeated or not: index agreement if and only if `IndexStays`, doc-value agreement if and only if `DocValuesStay` |
| Batches.BatchAgreementExact | wwsearch/src/index_writer.cpp:225-320 | an accepted batch of any mode keeps all columns of all documents in agreement if and only if it is safe |
| SafeBatches.CarefulIsSafe | wwsearch/src/document_writer.cpp:43-130 | distinct ids, given terms and values that are stored, and reading whatever is there make a batch safe |
| SafeBatches.CarefulRunsAgree | wwsearch/src/document_writer.cpp:43-130 | the columns agree after every run of careful batches, accepted or failed, and merges |
| SafeBatches.DistinctExact | wwsearch/src/index_field.cpp:154-184 | with distinct ids and reading, per document: index agreement if and only if the given terms are stored, doc-value agreement if and only if the given values are |
| SafeBatches.AddWithoutReadExact | wwsearch/src/index_writer.cpp:84-93 | the mode that does not read: index agreement if and only if the given terms are stored and no listed term is lost; doc-value agreement if and only if the given values are stored and there are some or no row was there |
| SafeBatches.AddWithoutReadLeavesRow | wwsearch/src/document_writer.cpp:535-613 | a document's row is left over when it is added again, without reading, with no doc value |
| SafeBatches.RepeatedIdExact | wwsearch/src/index_writer.cpp:225-320 | an id given any number of times: index agreement if and only if no document of it gains a term the last lacks and each has the old terms the last keeps |
| SafeBatches.RepeatedIdDisagrees | wwsearch/src/index_writer.cpp:225-320 | adding one new id twice breaks it when the first has a term the second lacks |
| SafeBatches.RepeatedIdLeavesRow | wwsearch/src/document_writer.cpp:535-613 | and leaves a row when the first has doc values and the second none |
| Batches.CompactKeepsAgreement | wwsearch/src/virtual_db_rocks.cpp:254-303 | a merge of a term's lists keeps it |
| Batches.AgreementOverRuns | wwsearch/src/document_writer.cpp:43-130 | index and doc-value agreement after every run, from the empty store, of merges and of batches that fail or are safe |
| Batches.RunKeepsLists | wwsearch/src/document_writer.cpp:720-737 | every list ever written or merged stays strictly decreasing and without id 0 |
| WritePath.MarkTerms | wwsearch/src/document_writer.cpp:630-704 | flagging the terms of a document's fields marks exactly its expanded index terms |
| WritePath.FlagsTell | wwsearch/src/document_writer.cpp:706-746 | a flag of 1 means gained, 2 lost, 3 kept |
| WritePath.DocumentWriter.EmitTerms | wwsearch/src/document_writer.cpp:706-746 | one operand for each flag of 1 or 2, none for 3 |
| WritePath.DocumentWriter.WriteInvertedIndex | wwsearch/src/document_writer.cpp:618-750 | each posting key gets exactly the operands the batch's changes want for it, in order |
| WritePath.DocumentWriter.WriteStoredField | wwsearch/src/document_writer.cpp:473-516 | a put or a delete for each active document |
| WritePath.DocumentWriter.WriteDocValue | wwsearch/src/document_writer.cpp:535-613 | a put if the new fields have doc values, a delete if only the old ones had, nothing otherwise |
| WritePath.DocumentWriter.RunTokenizer | wwsearch/src/document_writer.cpp:780-803 | succeeds exactly when every document that needs it tokenizes; otherwise the first that does not says so |
| WritePath.DocumentWriter.MergeOldField | wwsearch/src/document_writer.cpp:806-825 | old fields not given are taken over, except when deleting or replacing |
| WritePath.MergeFields | wwsearch/src/document_writer.cpp:519-533 | the lookup loop appends each old field whose id is not there yet |
| WritePath.DocumentWriter.UpdateDocuments | wwsearch/src/document_writer.cpp:43-130 | all of the batch's changes reach the store, or none |
| WritePath.IndexWriter.UpdateDocumentStatus | wwsearch/src/index_writer.cpp:95-222 | goes on exactly when every read permits the mode, gives each document its status and old fields, and takes an old doc-value row only if it is marked as there, which no read does |
| WritePath.IndexWriter.Fill | wwsearch/src/index_writer.cpp:225-300 | goes on exactly when every id is non-zero and every read permits the mode; each updater then has its status and stands for the right change |
| WritePath.IndexWriter.InnerWriteDocuments | wwsearch/src/index_writer.cpp:225-320 | succeeds exactly when the batch is accepted, has exactly its effect, changes nothing otherwise, and leaves every document with the status that says what came of it |
| WritePath.IndexWriter.WriteDocuments | wwsearch/example/example.cpp:64-98 | called with a new updater for each document, as callers do, the same holds of any documents and modes, with nothing assumed |
| WritePath.VirtualDB.MultiGet | wwsearch/src/virtual_db_rocks.cpp:633-669 | present, absent or failed for each key, with the row when present and an empty one otherwise |
| EndToEnd.ReadTerm | wwsearch/src/bool_weight.cpp:35-104 | the merged list of a term is the stored documents that have it |
| Queries.InBlock | wwsearch/src/prefix_weight.cpp:52-90 | the rows of a prefix key's block are those of the table and field whose term has the prefix |
| Queries.FindsMatches | wwsearch/src/prefix_weight.cpp:64-94 | where the columns agree, a query of any nesting finds only documents that satisfy it, and all of them if every scan finds all its rows or no limit is reported |
| Queries.MatchesMeans | wwsearch/src/bool_weight.cpp:35-104 | what each query asks: a field with that term or with one it is a suffix of, some term with the prefix, all parts of at least one, or some part |
| Queries.AnyLimitedMeans | wwsearch/src/prefix_weight.cpp:64-74 | the limit is reported if and only if the scan of some prefix query among the parts stops on a row with its limit reached |
| Queries.NothingMissedSilently | wwsearch/src/prefix_weight.cpp:64-74 | a scan that misses rows reports the limit, for every nesting of queries |
| EndToEnd.CompilePrefix | wwsearch/src/prefix_weight.cpp:47-120 | the union of the rows the scan finds stands for the stored documents with such a term; the limit is reported exactly when the scan stood on a row with it reached |
| EndToEnd.Compile | wwsearch/src/and_weight.cpp:24-36 | the scorer tree of any nesting of term, prefix, And and Or queries stands for exactly the stored documents the query finds |
| EndToEnd.MatchingIds | wwsearch/src/searcher.cpp:69-84 | the stored documents that satisfy a query, listed once each in decreasing order |
| Loading.ProjectionValues | wwsearch/include/document.h:62-69 | what a sorter or filter looks up in a doc-value row is the document's own first doc-value field of that id |
| Loading.DocValuesMean | wwsearch/include/document.h:62-69 | a document has a value under an id if and only if a field of that id is flagged as doc value; it is the number, the text or a value of another type of the first such field |
| Loading.LoadedIsStored | wwsearch/src/searcher.cpp:99-146 | where the doc-value column agrees, a loaded document shows the stored one's doc values, and no row means there are none |
| EndToEnd.Search | wwsearch/src/searcher.cpp:24-90 | the answer is the window (or the best, or the count) of what the query finds, filtered and sorted by the stored documents' own doc values; of exactly the documents that satisfy it unless a limit is reported |
| EndToEnd.ListFits | wwsearch/src/virtual_db_rocks.cpp:173-185 | a term's list is read whole if and only if the documents that have the term fit the merge limit |
| EndToEnd.ReachedIsSearchable | wwsearch/src/searcher.cpp:24-90 | every store reached by a run agrees, and can be searched if and only if every term's documents fit the merge limit and ids are 64-bit |
| Varint.EncodeVarint32IsCode | wwsearch/src/coding.cpp:53-79 | the five branches write the code of the number, at most 5 bytes |
| Varint.EncodeVarint64 | wwsearch/src/coding.cpp:204-213 | the loop writes the same code, at most 10 bytes |
| Varint.RoundTrip | wwsearch/src/coding.cpp:82-116 | decoding code(v) followed by anything gives v and the rest, for every 32- and 64-bit v |
| Varint.GetVarint | wwsearch/src/coding.cpp:82-116 | the decoding loop, with shifts cut to the width |
| Varint.GetVarint32 | wwsearch/src/coding.cpp:192-201 | the one-byte shortcut gives what the loop would |
| Varint.TopBits | wwsearch/src/coding.cpp:204-213 | every byte of a code but the last has the top bit set |
| Varint.KnownCodes | wwsearch/src/coding.cpp:53-79 | low bits come first: four codes byte by byte |
| Varint.PartMeans | wwsearch/src/coding.cpp:82-116 | a byte contributes its low seven bits moved up by the shift, modulo the width |
| Varint.ReadEnds | wwsearch/src/coding.cpp:82-116 | nothing is read if and only if no byte within the width ends the code; otherwise what follows is what comes after the first that does |
| Compression.DocListCompressionEncoder.AddDoc | wwsearch/src/doclist_compression.cpp:24-82 | accepts an id exactly when it is below the last, and remembers its state |
| Compression.DocListCompressionEncoder.SerializeToString | wwsearch/src/doclist_compression.cpp:34-99 | header, tombstone positions as gaps, ids as gaps, for what was added |
| Compression.DecodeBuffer | wwsearch/src/doclist_compression.cpp:106-164 | the decoder's loops on any bytes, with every refusal |
| Compression.RefusedMeans | wwsearch/src/doclist_compression.cpp:106-138 | any bytes are refused if and only if they are empty, the version is not 1, or tombstones are announced and their number or a position cannot be read |
| Compression.DecodeMeans | wwsearch/src/doclist_compression.cpp:106-164 | otherwise every id that can be read comes out, marked at the positions before any that does not rise, and the run aborts if and only if an id is left after the mark that such a position follows |
| Compression.NextIdMeans | wwsearch/src/doclist_compression.cpp:140-147 | after an id that is not 0 a number is how far the next is below it, in 64 bits; otherwise it is the id |
| Compression.RecordMeans | wwsearch/src/doclist_compression.cpp:140-160 | a record is eight bytes of the id, low first, and the state |
| Compression.DecodeEncode | wwsearch/src/doclist_compression.cpp:61-164 | for every strictly decreasing list, tombstones anywhere: decoding gives the header byte and the fixed-width records |
| Compression.KnownLists | wwsearch/src/doclist_compression.cpp:34-99 | two lists, with and without a tombstone, byte by byte |
| Compression.PositionsBack | wwsearch/src/doclist_compression.cpp:34-45 | increasing positions come back from their gaps |
| Compression.RecordsAreExact | wwsearch/src/doclist_compression.cpp:140-160 | and those are the records of the fixed-width form if and only if every state is 0 or 1 |
| Keys.BigEndianOrder | wwsearch/src/coding.cpp:137-157 | byte order of fixed-width numbers is numeric order |
| Keys.StoredFieldKeyOrder | wwsearch/src/codec_impl.cpp:28-34 | stored keys are injective and ordered by table, then id |
| Keys.InvertedKeyOrder | wwsearch/src/codec_impl.cpp:79-86 | inverted keys are injective and ordered by table, field, then term |
| Keys.InvertedKeyPrefix | wwsearch/src/prefix_weight.cpp:52-90 | a key extends a prefix key if and only if table and field are the same and the term extends the prefix |
| Keys.KeyLayout | wwsearch/src/codec_impl.cpp:28-86 | which bytes of the keys are business, partition, id, field and term |
| Keys.DecodeInvertedKey | wwsearch/src/codec_impl.cpp:88-101 | succeeds exactly on ten bytes or more, with the parts that encode back to the key |
| Keys.Slice.EncodeInvertedKey | wwsearch/src/codec_impl.cpp:79-86 | appending piece by piece gives the key |
| Keys.SequenceKeysDistinct | wwsearch/src/codec_impl.cpp:176-189 | counter and user rows of all tables are distinct |
| Keys.DropStoredExact | wwsearch/src/document_writer.cpp:209-255 | the dropped range of stored fields and doc values covers every row of the table but id 2^64-1, and no other table's |
| Keys.DropInvertedExact | wwsearch/src/document_writer.cpp:225-240 | the dropped range of postings covers every key of the table but those of field 255 with a term beginning with 256 bytes 0xFF, and no other table's |
| Scan.BlockExact | wwsearch/src/prefix_weight.cpp:65-90 | the rows that extend a prefix are one block, beginning where seeking the prefix leads |
| Scan.CollectPrefix | wwsearch/src/prefix_weight.cpp:64-94 | the scan takes the block's rows until their sizes reach the limit, and reports it when it then stands on any row |
| Scan.FoundMeans | wwsearch/src/prefix_weight.cpp:64-94 | the rows found follow those below the prefix, extend it, and were each taken with the sizes before below the limit; they end at a row that does not extend it, the last row, or the limit |
| Scan.SumSizesMeans | wwsearch/src/prefix_weight.cpp:64-94 | the size of rows is that of their values, together |
| Scan.FoundExact | wwsearch/src/prefix_weight.cpp:64-94 | it finds the whole block if and only if the sizes before the last row stay below the limit, and reports the limit whenever it does not |
| Scan.ScanTableData | wwsearch/src/searcher.cpp:209-325 | a page takes the table's next rows as long as there are any, it has room for one more and the buffer for its size; it is an error if a row larger than the buffer stops it or there are rows and it holds none; the next start key is the last one read |
| Scan.ScanAll | wwsearch/src/searcher.cpp:209-325 | pages from an empty start key until it is empty again give every row of the table once, in order, and end; they succeed if and only if no row with the header is larger than the buffer |
| Scan.Column.DeleteTableData | wwsearch/src/index_writer.cpp:323-379 | a call removes the table's first rows up to the limit in one flush, or nothing |
| Scan.Column.DeleteAll | wwsearch/src/index_writer.cpp:323-379 | repeated calls remove exactly the table's rows, if and only if the flush works and no row shorter than the prefix follows them |
| Sequences.SequenceAllocator.AcquireCurrentSequence | wwsearch/src/document_writer.cpp:318-395 | the counter, or 0, and each user's number, or that it has none; a failed read changes nothing |
| Sequences.SequenceAllocator.AcquireNewSequence | wwsearch/src/document_writer.cpp:399-470 | every user is told its number, old or new, rows and counter are flushed together or not at all, and a failed read changes nothing |
| Sequences.NumberGivenMeans | wwsearch/src/document_writer.cpp:423-445 | a user without a number gets the counter's value plus one for each place up to its own whose user has none |
| Sequences.CounterMeans | wwsearch/src/document_writer.cpp:423-445 | the counter grows by the number of places whose user had none, and nothing changes if there are none |
| Sequences.BijectionExact | wwsearch/src/document_writer.cpp:423-445 | users and 1..max stay in one-to-one correspondence if and only if the new users of the call are distinct |
| Sequences.ReturnedIsStored | wwsearch/src/document_writer.cpp:423-445 | the number returned is the one stored |
| Sequences.MappingsStay | wwsearch/src/document_writer.cpp:399-470 | no number once given changes, in any table |
| Sequences.BijectionOverRuns | wwsearch/src/document_writer.cpp:399-470 | the correspondence holds for every table after every run of calls |
| Sequences.NumbersLast | wwsearch/src/document_writer.cpp:399-470 | a number given at any point of a run is the user's number at the end |
| Sequences.FailedCallsChangeNothing | wwsearch/src/document_writer.cpp:399-470 | calls that fail change nothing |
| Sequences.ReturnedNumbersLast | wwsearch/src/document_writer.cpp:399-470 | over any run, every number returned by a call that succeeded is the user's at the end |

## Left out

- RocksDB itself (opening, options, column families, snapshots, write queue, compaction filter): the store is maps
  and sorted rows with a merge operator that may be called on any run of operands.
- Generated message code: serialising a document is an exact copy except for what the field encoder drops; a stored
  row always parses, so the parse-error branches of the writer are absent.
- The dictionary tokenizer: what it makes of a document is a parameter; `numeric_list_` and
  `use_outer_segment_terms_` of a field, which are not stored, are absent.
- Write-batch calls (put, delete, merge into the buffer) do not fail; a batch over the size limit and a failed flush
  do. The `store_buffer` way of handing the batch back instead of flushing is absent.
- WritePath.IndexWriter.InnerWriteDocuments: assumes fresh, distinct updaters, since neither the status nor the old
  document of an updater is ever reset; `WritePath.IndexWriter.WriteDocuments` calls it with such.
- WritePath.DocumentWriter.WriteDocValue: assumes the old doc-value document is empty, which holds because no read
  ever has the status the code tests before filling it.
- Batches.AgreementOverRuns: assumes that accepted batches are safe, one constant longest suffix term, and merges
  within their limits; a batch that is not safe ends agreement, as `Batches.BatchAgreementExact` says.
- SafeBatches.CarefulRunsAgree: assumes distinct ids within a batch, given fields whose terms and doc values are
  stored, and the mode that skips reading only for documents that are not there.
- SafeBatches.RepeatedIdExact: for modes other than deleting, given that the last document's terms are stored; every
  other case is that of `Batches.BatchAgreementAt`.
- EndToEnd.Search: assumes no term's list exceeds the merge limit (`EndToEnd.ListFits` says when); the snapshot is the
  store value it is given, and the rows of the index hold lists of unmodelled serialised size.
- Iterators.DocIterator.Advance: for readers and intersections only targets not above the current id, or the largest
  id at start-up, which is all the iterators ask for; a reader's own `Seek`, which would rewind, takes any target.
- MergingCursor.Drive: a step from nowhere, which the code asserts away, is not taken; the going backward counterpart
  of `CursorRuns.ForwardYieldsAll` would be its mirror image.
- TicketQueue.StepInv: atomics are sequentially consistent steps and counters unbounded; `count_`, which the queue
  never updates, is absent, and so is the unbounded stack in the same file.
- Collector.TopNCollector.PopTop: the standard priority queue is taken by its contract, any greatest element first;
  the same holds for the standard heap calls of the union iterator.
- Scan.CollectPrefix: the running size is unbounded, where the code keeps it in 32 bits.
- Sequences.SequenceAllocator.AcquireNewSequence: assumes items with a clear status; stored numbers always have 8 bytes.
- HeapMerge.OptimizeMerger.constructor: the live-id limit is positive; with a limit of 0 the code would still output
  one live id in a full merge.
- The exclusive-or swap of heap items is a plain swap, and cursors are list suffixes instead of pointers.
- Field ids reported by iterators, score strategies, statistics, tracing, logging, ownership and the sharded locks of
  the write path; hex conversion, string splitting and the individual filters would only add easy members.
- Deprecated merge operators and the test doubles' range delete and write-batch reading.
