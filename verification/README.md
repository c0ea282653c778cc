# A verified model of the Joy runtime

Joy is a stack language with a hand-written runtime in C. This project models the runtime's hard parts in
Dafny and proves what they are for. `dafny verify dfyconfig.toml` checks all of it. Code that works in place is
modelled by classes, arrays and loops, and is proved against functions on values; the properties of interest are
then lemmas about those functions.

| layer | files |
|---|---|
| hash tables | `PackedFlags`, `Words`, `Probing`, `KhashTheory`, `Khash` (khash); `UsedBits`, `LinearProbing`, `Khashl` (khashl); `TableRuns` |
| moving heap | `HeapModel`, `CopyTheory`, `CopyOrder`, `CopyLayout`, `Spaces`, `Identities`, `Collector`; `FlatHeap`, `HeapRuns`, `HeapLimits`; `DeepCopy` on top of it |
| mark and sweep | `MarkSweep`, over the class of `Khash` |
| evaluator | `Joy` (the meaning of terms), `Nesting` (how deep they nest), `Machine` (registers, continuations, dumps), `RecursionLaws`, `CombinatorLaws` (the meaning as equations) |
| parallel combinators | `Preduce` |
| text | `JsonText`, `JsonGrammar`, `Json`; `TermText`, `TermLayout`, `Terms` |
| names | `Patterns`, `Scopes` |

The main results:

- **Tables.** Both tables answer every run of operations as a finite map does, whatever the hash function
  (`TableRuns.RunKhash`, `TableRuns.RunKhashl`). Behind that: triangular probing covers a table of 2^k buckets, the
  kick-out rehash keeps every entry exactly once while it overwrites the array that it reads, and backward-shift
  deletion leaves no unused bucket between a key and its home. The bit tricks (packed marks, round-up, masks) are
  proved on 32-bit words and related to the numbers that the words stand for.
- **Moving heap.** `Collector.Env.Gc1` keeps exactly what is reachable, with its meaning and its sharing, in exactly
  the slots needed, none of which the characters of a text run out of (`CopyLayout`), and says exactly when a write
  passes the end of the array. Live nodes have identities that a collection
  does not change (`GcCollect`); in these terms `EnsureCapacity` and `NewNode` say beforehand how much will be in use,
  how large the memory will be, and that a heap below its capacity is never given up, texts included, except for a
  long text. `HeapRuns.RunAll` keeps `memoryindex < memorymax <= slots` over every run without texts, with nodes
  overwritten in place, even while the current program dangles in memory that allocations write over.
  `DeepCopy.Deliver` copies a value between two heaps although every allocation may move what was copied so far.
- **Mark and sweep.** `MarkSweep.Context.Collect` keeps exactly the blocks that can be reached from the stack, while
  the sweep deletes from the very table it walks, and the statistics keep their balance.
- **Evaluator.** `Machine.Machine.ExecTerm` computes what plain recursive evaluation computes, gives `conts` and all
  six dumps back, and lets `conts` grow exactly as deep as the term nests, to which calls in last position add nothing.
  What each combinator does follows from the equations of `CombinatorLaws`, which speak of results of terms alone, for
  success, error and runs that never end alike; `ifte` is a condlinrec with two clauses, for instance.
  The recursion combinators agree with each other exactly as far as `RecursionLaws` says.
- **Parallel combinators.** The branches of `pmap` and of `pfilter`, for few and for many inputs, agree exactly under the
  conditions that `Preduce` states for every quotation, and for a quotation that replaces its operands by a function of
  them the results are spelled out; the reduction tree takes n - 1 applications and ceil(log2 n)
  levels and is the left fold of the reversed list if the operation is associative and no text comes in its way.
- **Text.** The JSON parser reads every text of a grammar, with white space anywhere between its parts, as it is meant
  (`JsonGrammar.SpelledReads`), and accepts nothing else but a string cut off at the end (`JsonGrammar.ValueSplit`);
  parsing undoes emitting, and it is said exactly when the parser steps over the end of its text or of an array. Terms
  are read as they are meant in every spelling, with comments and in three bases (`TermLayout.FormReads`), and scanning
  and parsing undo printing.
- **Names.** Matching is exactly being an instance of a pattern, and `match`, `cases` and `let` that end well leave
  every bound symbol as they found it and every other one as the action left it.

## Where the code differs from its comments or from itself

Each of these is stated as the code has it, with the exact condition under which the expected law holds.

- A collection reserves one slot more for a text than its allocation did, and does not write it, so a collection of a
  heap with texts may write behind the end of the array (`Collector.Env.Gc1` says when, `HeapLimits.TextsOutgrow` is a
  run that does, and `HeapLimits.TextsJustFit`, with one text less, one that does not).
- The collection that `ensure_capacity` runs may shrink the memory again below the request
  (`Collector.Env.EnsureCapacity` says when, `HeapLimits.ReservedTooLittle` is a run that does).
- `inimem1` keeps the current program; it leaves a well-formed heap only if that program is a definition
  (`Collector.Env.Inimem1`, and `HeapLimits.ProgramDangles` for a run). The allocator stays inside the memory all the
  same (`FlatHeap`, `HeapRuns`).
- In a task, `exec_term` keeps the node that it executes in a local variable while it copies the body of its name, and
  reads the next node from there afterwards; a collection in between moves the node away
  (`HeapLimits.StaleNode`). `pfilter` and `preduce` keep arrays of such indices while the parent heap allocates.
- A registered block without any bytes at the upper bound is not found even from the stack
  (`MarkSweep.EmptyBlockIsLost`, `MarkSweep.PointerExact`).
- A test that leaves an empty stack is an error to `linrec` but false to `condlinrec`
  (`RecursionLaws.LinrecExactly`, `RecursionLaws.EmptyTestDiffers`).
- With fewer than four inputs the quotation of `pmap` runs on the stack that is there, so a missing result is the value
  below, and an error only if there is none; with four or more, a task has a stack of its own and a missing result is
  dropped (`Preduce.MapsAgree`, `Preduce.LocalMapsAgree`, `Preduce.PopDiffers`).
- With fewer than four inputs `pfilter` looks at the 64 bits of a result, whatever its type. With four or more it looks at
  the type: negative zero is false, a list is true if its first node is not 0, although the other half of the 64 bits may
  hold old bits, and all other types are true, the empty set among them (`Preduce.FiltersAgree`).
- `preduce` with four values or more, and `pfilter` when it collects its inputs, take the characters of a text, which lie
  in its node, for a pointer; `pfilter` also when a test leaves a string. `pmap` copies texts. So a list of texts can be
  folded, and filtered, as long as it has fewer than four (`Preduce.TreeTexts`, `Preduce.TextsReduce`,
  `Preduce.FiltersAgree`, `Preduce.TextsAreLost`).
- An application that leaves nothing is an error in the fold of `preduce`; its tree goes on with the null node
  (`Preduce.Pairing`).
- The reduction tree applies the operation to the right neighbour first and the left one second
  (`Preduce.OrderMatters`).
- The first pass over a JSON string counts one character too many for each complete Unicode escape, but too few if a
  quotation mark stands behind the third digit, and then the second pass writes behind the end of its array; a backslash
  there can make the first pass step over the end of the text (`JsonText.CountCovers`, `JsonText.ShortCount`,
  `JsonText.SlashFourth`, `Json.Reader.StringValue`). The parser turns each such escape into a question mark
  (`JsonText.StringRoundTrip`).
- The JSON parser accepts a string without a closing quote at the end of the text (`JsonGrammar.ValueSplit`), numbers
  with leading zeros, or without digits behind the sign, the full stop or the exponent, and any character behind a
  backslash (`JsonGrammar.Fits`).
- The printer does not escape backslashes, and the scanner takes the largest integer for a floating-point number
  (`TermText.ChrRoundTrip`, `TermText.StringRoundTrip`, `TermText.NumberRoundTrip`).
- A `let` that runs out of values undoes its bindings in the order it made them, so that a repeated name may keep a
  value (`Scopes.FailedLetExactly`, `Scopes.FailedLetLeaks`).

## Model

| member | source | states |
|---|---|---|
| PackedFlags.MarkDeleted | include/khash.h:189 | setting the delete bit of one live bucket turns exactly that bucket into a tombstone, whatever shares its word |
| PackedFlags.MarkFilled | include/khash.h:185-186 | clearing the empty bit of an empty bucket makes exactly that bucket live |
| PackedFlags.MarkLive | include/khash.h:187-188 | clearing both bits makes exactly that bucket live, from any mark |
| PackedFlags.MarksAllEmpty | include/khash.h:288-289 | words of 0xaa bytes mark every bucket empty |
| PackedFlags.RoundUpBitsExact | include/khash.h:193-197 | the shift-and-or chain yields the power of two r with r/2 < x <= r, and wraps to 0 above 2^31 and for 0 |
| Words.RoundUpAgrees | include/khash.h:193-197 | the chain on 32-bit words stands for the same number as the rounding that the resize is specified with, for every word |
| Words.MaskIsRemainder | include/khash.h:256-258 | masking a word with a power of two less one is taking the remainder |
| Words.OneBitExactly | include/khashl.h:191-192 | n & (n - 1) is 0, for n other than 0, exactly for the powers of two |
| Words.ValueOrdered | include/khash.h:278-281 | words compare as the numbers they stand for |
| Probing.ProbesCoverTable | include/khash.h:65-66 | in a table of 2^k buckets the first 2^k triangular probes meet every bucket, and each only once |
| Probing.ReturnsAtEnd | include/khash.h:260-266 | a probe sequence is back at its start no earlier than after 2n - 1 steps, which is where the loops give up |
| Probing.ReturnsThen | include/khash.h:260-266 | after 2n - 1 steps it is back |
| KhashTheory.EmptyOnPath | include/khash.h:325-326 | with a bucket not filled every path meets an empty bucket within n steps, so the probe loops end |
| KhashTheory.AbsentAtEmpty | include/khash.h:260-267 | a search that ends at an empty bucket proves the key absent from the map |
| KhashTheory.AbsentAfterCycle | include/khash.h:264-265 | a search that passes the whole cycle proves the key absent |
| KhashTheory.InsertEntry | include/khash.h:414-424 | entering an absent key in a free bucket of its path adds that entry, keeps every other key findable and fills one bucket |
| KhashTheory.RemoveEntry | include/khash.h:429-435 | a tombstone removes exactly its entry from the map |
| KhashTheory.RemoveKeepsSearch | include/khash.h:429-435 | a tombstone keeps every path open |
| KhashTheory.TombstoneStep | include/khash.h:395-400 | one more probe keeps track of the last tombstone of the path |
| Khash.KickOut | include/khash.h:328-343 | swapping the carried entry with an old one keeps all entries, each once: those under old marks, under new marks and in hand |
| Khash.RoomForHand | include/khash.h:325-327 | while an entry is carried, the new marks have a free bucket |
| Khash.RehashBegins | include/khash.h:284-308 | fresh marks over extended arrays start a rehash that holds exactly the old entries |
| Khash.RehashDone | include/khash.h:354-365 | when nothing is live under the old marks, the new ones form a well-formed table of the same map without tombstones, even cut down |
| Khash.PutWellFormed | include/khash.h:414-424 | size counts the live and n_occupied the filled buckets after an insertion; a reused tombstone does not raise n_occupied |
| Khash.DelWellFormed | include/khash.h:429-435 | the table is well formed after a deletion, whose tombstone still counts as occupied |
| Khash.RoundAround | include/khash.h:373-379 | one below a table size rounds back to it and one above it to its double |
| Khash.Khash.constructor | include/khash.h:231-234 | a new table is valid and represents the empty map |
| Khash.Khash.Get | include/khash.h:252-270 | finds the bucket of a key exactly if the map has the key, and returns the number of buckets otherwise |
| Khash.Khash.FindFree | include/khash.h:323-326 | the first empty bucket on the path of a key under the new marks |
| Khash.Khash.Kick | include/khash.h:320-351 | one round of the kick-out keeps all entries and uses up one live old bucket unless it ends the chain |
| Khash.Khash.Settle | include/khash.h:312-352 | the kick-out chain ends, with every entry settled or still under its old mark |
| Khash.Khash.MoveAll | include/khash.h:310-353 | afterwards nothing is live under the old marks |
| Khash.Khash.Resize | include/khash.h:271-368 | growing, same-size or shrinking: the same map, every key on its own probe path, no tombstone, n_occupied equal to size; refused exactly if size is at least the new bound |
| Khash.Khash.MakeRoom | include/khash.h:372-384 | rehashes exactly when n_occupied has reached upper_bound, to the same size if less than half is live and to twice the size otherwise; then there is room |
| Khash.Khash.Walk | include/khash.h:395-405 | ends where the key lives or at the first empty bucket, and knows the last tombstone passed |
| Khash.Khash.FindSlot | include/khash.h:386-413 | the bucket where the key lives, else the last tombstone before the first empty bucket of its path, else that bucket |
| Khash.Khash.Enter | include/khash.h:414-424 | adds the key; 1 exactly for an empty bucket, and only then one more is occupied |
| Khash.Khash.Put | include/khash.h:369-428 | refines map insertion: a present key is left alone and 0 returned; an absent one takes the slot above, and its value is whatever the bucket held |
| Khash.Khash.Del | include/khash.h:429-435 | refines removal for a live bucket and does nothing for any other |
| Khash.Khash.SetValue | include/khash.h:617-622 | assigning the value of a live bucket updates that one entry |
| Khash.Khash.Exists | include/khash.h:600 | a bucket exists exactly if it is live, and then its key, in no other bucket, has its value in the map |
| Khash.Khash.SizeCounts | include/khash.h:214 | the size field is the number of entries |
| TableRuns.RunKhash | include/khash.h:252-435 | over every run of put, delete, find and resize the answers are those of a finite map, whatever the hash function |
| UsedBits.Marked | include/khashl.h:103-105 | setting or clearing a used bit changes that bucket and no other |
| UsedBits.AllUnused | include/khashl.h:199 | cleared words mark every bucket unused |
| LinearProbing.SearchEnds | include/khashl.h:167-172 | an unused bucket or a full turn ends the search of an absent key |
| LinearProbing.Enter | include/khashl.h:272-276 | entering a key where its search ended keeps all keys findable |
| LinearProbing.MoveTest | include/khashl.h:303 | the two cyclic comparisons hold exactly if the hole lies between the home of an entry and the entry |
| LinearProbing.HoleMove | include/khashl.h:302-304 | an entry moved into the hole leaves a hole that only later entries can mind |
| LinearProbing.HoleStay | include/khashl.h:302-304 | an entry with its home behind the hole may stay |
| LinearProbing.HoleDone | include/khashl.h:298-306 | at an unused bucket or after a turn the hole can be given up: no key has an unused bucket on its way |
| LinearProbing.FormsMove | include/khashl.h:304 | moving an entry into the hole keeps the map |
| LinearProbing.KickOut | include/khashl.h:226-240 | settling a carried entry and picking up the one it displaces keeps all entries, each once |
| LinearProbing.RoomForHand | include/khashl.h:222-224 | while an entry is carried an unused bucket is left |
| Khashl.Khashl.Get | include/khashl.h:158-173 | finds a key exactly if the map has it |
| Khashl.Khashl.Del | include/khashl.h:290-309 | removes exactly the entry of the bucket; every remaining key stays findable, across the wrap-around |
| Khashl.Khashl.Shift | include/khashl.h:298-305 | the shift ends with a hole whose release leaves all keys on open paths |
| Khashl.Khashl.ShiftOne | include/khashl.h:302-304 | moves the next entry into the hole exactly if it needs it |
| Khashl.Khashl.Clear | include/khashl.h:147-154 | forgets all entries |
| Khashl.Khashl.BitsFor | include/khashl.h:187-193 | the least bits, at least 2, whose power of two is no less than the request |
| Khashl.Khashl.FindUnused | include/khashl.h:222-224 | the first unused bucket from the home of a key |
| Khashl.Khashl.Kick | include/khashl.h:221-240 | one round of the kick-out keeps all entries |
| Khashl.Khashl.Settle | include/khashl.h:214-242 | the kick-out chain ends |
| Khashl.Khashl.Resize | include/khashl.h:183-249 | moves the same entries to the rounded size, unless they would take more than three quarters of it |
| Khashl.Khashl.MakeRoom | include/khashl.h:259-263 | a full table grows to 4 buckets or to twice as many, and then one more entry fits |
| Khashl.Khashl.FindSlot | include/khashl.h:265-271 | the bucket of the key or the first unused one from its home |
| Khashl.Khashl.Put | include/khashl.h:253-280 | refines map insertion; an entry that is there is not touched; the table doubles exactly when three quarters of its buckets are used, and never holds more |
| TableRuns.RunKhashl | include/khashl.h:158-309 | over every run khashl gives the answers of a finite map, and so those of khash |
| HeapModel.MoveInjective | src/utils.c:178-194 | two references lead to one new node only if they led to one old node: sharing is kept and none is created, texts of several slots included |
| HeapModel.MoveKeepsMeaning | src/utils.c:229-286 | an index denotes a nested value before a collection exactly if its image denotes it afterwards |
| HeapModel.DenotesUnique | src/utils.c:157-286 | an index denotes at most one value |
| HeapModel.LiveKeeps | src/utils.c:384-396 | the live nodes are the least closed set that holds the roots |
| CopyTheory.Reserve | src/utils.c:184-194 | the slots of a new copy overlap with no other, its mark being still to be set |
| CopyTheory.Mark | src/utils.c:229-230 | the forwarding mark extends the map from old to new nodes by one pair |
| CopyTheory.Link | src/utils.c:270-286 | linking the tail of a chain completes the copy of the last node |
| CopyLayout.NewSlotsHold | src/utils.c:512-514 | the slots of a text just hold its characters with the final 0, 8 bytes in the node and 16 in each further slot: one slot less would not |
| CopyLayout.NextCopy | src/utils.c:184-194 | behind the slots of each copy there is another copy or the next free slot |
| CopyLayout.CopiesDense | src/utils.c:184-194 | behind the copy of a text with exactly one slot more than just hold it, and behind that of any other node, there is the next copy or the next free slot |
| CopyOrder.OrderIsLive | src/utils.c:244-289 | the collector meets every live node, each once, and nothing else |
| CopyOrder.ExtentExactly | src/utils.c:180-194 | the copies are written behind the end of a memory exactly if they need more than one slot too many, or one and the last copy is no text: behind a text one slot more is reserved than written |
| Collector.Env.CopyOne | src/utils.c:157-235 | copies one node, and what its list holds, once, and forwards it; it writes behind the end of the array exactly if what it copies does |
| Collector.Env.Copy | src/utils.c:244-289 | copies a chain that may end in a definition, in 0 or in a node already copied; the image of its head is returned |
| Collector.Env.CopyRoots | src/utils.c:384-396 | every root is replaced by its image |
| Collector.Env.Flip | src/utils.c:358-368 | the new memory starts with the definitions, unchanged |
| Collector.Env.Gc1 | src/utils.c:329-400 | what survives is exactly what the roots and the parameters reach, moved isomorphically with its sharing; a text takes exactly one slot more than just hold its bytes, and any other node one; memoryindex is mem_low plus the slots of the distinct survivors; it writes behind the end of the array exactly if that is more than one slot too many, or one and the last copy is no text |
| Collector.Env.Gc2 | src/utils.c:402-421 | shrinks by a tenth below a tenth and doubles above nine tenths, in numbers; what is in use stays, and the slots that are there are told apart from the capacity |
| Spaces.AfterGc2Settles | src/utils.c:408-421 | afterwards at most nine tenths are in use, and only a memory that is still too large would be changed again |
| Collector.Env.Collect | src/utils.c:434-438 | a whole collection, from any memory in which what the roots reach is closed and without cycles; the copies lie as described above |
| Collector.Env.GcCollect | src/utils.c:434-438 | in terms of identities: each root denotes what it denoted, exactly the reached identities are left, and it fails exactly if their slots exceed the capacity by more than one, or by one that the last copy writes |
| Collector.Env.CollectTwice | src/utils.c:434-438 | a collection right after a collection finds nothing to drop: after both, memoryindex is what the first one left, mem_low plus the slots of what was reached at the start |
| Collector.Env.Count | src/utils.c:474-499 | the slots of a node, of the first node of its list contents, and so on down; nothing for what is not copied |
| Spaces.ShallowOfValue | src/utils.c:474-499 | the estimate never exceeds the head slots of the value that the node denotes, and equals them if there are no definitions |
| Spaces.DemandOfValues | src/utils.c:526-533 | before the first definition the estimate is the slots of the node, and the head slots of what its list holds and of what comes next |
| Collector.Env.Enlarge | src/utils.c:464-465 | the capacity becomes the one that doubling reaches |
| Spaces.GrownLeast | src/utils.c:464-465 | that is the least capacity above the need that comes by doubling |
| Collector.Env.EnsureCapacity | src/utils.c:448-469 | in terms of the state before: it fails exactly if it collects and what is reached outgrows the doubled capacity, which never happens to a heap that lies below its capacity, with or without texts; and after a collection the request fits exactly if what is reached and the request lie below the capacity that the collection leaves |
| Collector.Env.AllocateRun | src/utils.c:441-447 | nodes of any kind without text, referring to each other and to what is there, are allocated below memorymax without anything being moved: indices held elsewhere stay good |
| Collector.Env.MakeRoom | src/utils.c:516-548 | an allocation that needs room collects, into a capacity that the estimate decides, or during definitions extends the memory; it fails exactly if what is reached outgrows that capacity |
| Collector.Env.Allocate | src/utils.c:506-564 | the node stands where the room was made, and the next free slot behind it leaves a text just the slots that hold it; the end of the array is passed exactly if there is a collection and its copies outgrow the array it goes into, or what it leaves and the new slots the array after it |
| Spaces.OutcomeFits | src/utils.c:516-548 | the capacity is doubled before such a collection, so what is live fits, and so does one slot more |
| Collector.Env.NewNode | src/utils.c:506-564 | the node is new, the last one in use and as its parameters say, with the k slots for which 16(k - 1) < length + 1 + 8 <= 16k if it is a text, and all reachable identities are kept; when it leaves the array is said exactly in terms of the state before; a node of one slot never leaves it if the heap lies below its capacity, texts included |
| Collector.Env.Overwrite | include/parallel.h:199-208 | overwriting one reference of a node keeps the heap well formed and acyclic if what it leads to does not lead back |
| Collector.Env.Inimem1 | src/utils.c:90-109 | the memory at the start, and what a definition clears: a well-formed heap stays one exactly if the initial stack and the program are definitions |
| Collector.Env.Inimem2 | src/utils.c:115-123 | what is in use becomes the closed definition space |
| Identities.FitsAgain | src/utils.c:157-194 | what is kept fits in twice the slots that were in use, and without texts in those |
| Identities.IdentitiesMoved | src/utils.c:329-400 | a collection moves the places of the kept identities and changes nothing else about them |
| Identities.ReachedAgain | src/utils.c:384-396 | after a collection everything left is reachable |
| HeapLimits.TextsOutgrow | src/utils.c:188-194 | 551 short texts, in 552 slots of 1100: the collection writes the last one to slot 1101, behind the end of the array |
| HeapLimits.TextsJustFit | src/utils.c:184-194 | 550 of them: the collection reserves 1101 slots of 1100, of which the last is not written, and the capacity is doubled |
| HeapLimits.ReservedTooLittle | src/utils.c:412-413 | after a reservation of 2100 slots in an empty heap the capacity is 1980 |
| HeapLimits.ProgramDangles | src/utils.c:102-105 | a definition after an executed term leaves the current program above what is in use |
| HeapLimits.StaleNode | src/interp.c:314-323 | in a task, while the body of a name is copied: the first collection leaves the local variable of exec_term on a node without a next one, although the rest of the term is still on conts |
| FlatHeap.FlatNeeds | src/utils.c:329-400 | with a program left behind, a collection still needs no more than the slots below the high-water mark |
| FlatHeap.CopiesFill | src/utils.c:184 | without texts the copies fill the slots up to the next free one |
| FlatHeap.FlatCollected | src/utils.c:329-432 | a collection of such a heap leaves nothing behind, keeps references below the next free slot and makes no cycle |
| FlatHeap.FlatStored | src/utils.c:549-558 | an allocation over a slot left behind makes no cycle, although the program may still lead there |
| FlatHeap.FlatWritten | src/interp.c:242-243 | a reference of a node in use that is written in place makes no cycle if a set of nodes shows that no path leads back to it |
| FlatHeap.WrittenFlat | src/interp.c:242-243 | and there is such a set for every such write that makes none |
| FlatHeap.FlatReset | src/utils.c:102-107 | when a definition begins, what was in use is left behind |
| FlatHeap.FlatClosed | src/utils.c:115-123 | when it ends, what is in use refers to itself only |
| HeapRuns.Take | src/utils.c:90-564 | one step keeps the next free slot below the capacity: an allocation, a collection, a reservation, a move between roots, a reference written in place, the start of a program, an abort, the beginning or the end of a definition |
| HeapRuns.Write | src/interp.c:243 | a reference of a node in use is written in place, next node or list contents, and no other slot; nothing happens if it would make a cycle |
| HeapRuns.RunAll | src/repl.c:39-92 | over every run without texts, across everything executed and defined in any order, memoryindex < memorymax <= the slots of the array, and nothing is written behind its end |
| DeepCopy.BuiltSurvives | include/parallel.h:179-211 | a list under construction that is still held unfolds as before after any collection |
| DeepCopy.LinkLast | include/parallel.h:203-208 | a cell hung behind the last node is appended to the value |
| DeepCopy.BuiltDenotes | include/parallel.h:171-225 | a built list denotes its value in the receiving memory |
| DeepCopy.CopySingleNode | include/parallel.h:121-162 | copies a node with what its list holds and nothing behind it |
| DeepCopy.CopyStep | include/parallel.h:195-210 | one round keeps head and tail in the two protecting nodes, even if every allocation collects |
| DeepCopy.Protect | include/parallel.h:187-192 | two fresh empty lists on dump4 and dump5 |
| DeepCopy.Release | include/parallel.h:213-220 | the head is taken out and both dumps are as they were |
| DeepCopy.CopyNodeToParent | include/parallel.h:171-225 | the copy is made of new nodes and unfolds to the source value; every root of the receiving heap holds the identity it held; it never fails if the receiver lies below its capacity and every text of the value fits its node |
| DeepCopy.Deliver | include/parallel.h:171-225 | the head denotes the value in the receiver alone, every root there denotes what it denoted, the source is untouched, however often the receiver collects; it never fails if the receiver lies below its capacity and every text of the value fits its node |
| DeepCopy.CopyBodyFromParent | src/interp.c:116-165 | the body of a definition arrives in the heap of a task with the same meaning; without a parent nothing is copied; it never fails if the receiver lies below its capacity and every text of the value fits its node |
| MarkSweep.ReachableLeast | src/gc.c:135-166 | a set that marking closes, and that is in every closed set with the roots, is the set of reachable blocks |
| MarkSweep.PointerExact | src/gc.c:142-145 | a word counts as a pointer exactly if it is a registered address, except that an empty block at the upper bound does not |
| MarkSweep.EmptyBlockIsLost | src/gc.c:142-143 | that block is not found even from the stack |
| MarkSweep.FollowStep | src/gc.c:157-164 | one more word of a block keeps the set marked so far sound and closed up to there |
| MarkSweep.SumTake | src/gc.c:206-224 | the sum of the sizes does not depend on the order of the blocks |
| MarkSweep.SweptAll | src/gc.c:206-224 | a sweep that has seen all buckets keeps exactly the marked blocks and leaves none marked |
| MarkSweep.Context.MarkPtr | src/gc.c:135-166 | marks the block, and what its aligned words lead to, and nothing else; a leaf leads nowhere |
| MarkSweep.Context.MarkStack | src/gc.c:171-187 | marks exactly what can be reached from the words of the stack |
| MarkSweep.Context.Scan | src/gc.c:206-224 | frees exactly the blocks that are not marked, while it deletes from the table that it walks |
| MarkSweep.Context.Collect | src/gc.c:430-448 | keeps exactly the reachable blocks, none of them marked; memory_use - free_bytes still equals the sum of the registered sizes |
| MarkSweep.Context.Register | src/gc.c:229-244 | enters the block, unmarked, with its size modulo 2^30; the bounds grow by just the block |
| MarkSweep.Context.Remind | src/gc.c:229-256 | collects exactly if there are more blocks than max_items, and then sets max_items to twice what is left |
| MarkSweep.Context.Forget | src/gc.c:279-296 | takes out one block and tells its size and kind; an unknown one counts as collectable and empty |
| MarkSweep.Context.Realloc | src/gc.c:382-408 | the block is registered at its new place with its old kind; the sum of sizes is kept for sizes below 2^30 |
| Machine.Machine.ExecTerm | src/interp.c:207-402 | computes what recursive evaluation computes, errors included, gives back conts and all six dumps, and conts gets exactly as deep as the term nests: one for the term and what its combinators and its calls outside last position nest on top |
| Nesting.TailChain | src/interp.c:316-324 | a run nests at most k + 1 deep exactly if nothing outside last position nests more than k, however long the chain of calls in last position is |
| Nesting.TailsDoNotNest | src/interp.c:316-324 | a term of calls in last position only nests 1 deep |
| Machine.Machine.ExecNodes | src/interp.c:223-398 | up to a call in last position the loop follows the recursive meaning, and what is left nests as deep as the call |
| Machine.Machine.Call | src/interp.c:369 | every combinator does what it means, gives the registers back and gets as deep as it nests |
| Machine.Machine.CallI | src/builtin/control.c:113-121 | i on the machine |
| Machine.Machine.CallIfte | src/builtin/control.c:127-140 | ifte: the test leaves no trace on the stack |
| Machine.Machine.CallDip | src/builtin/combinators.c:125-134 | dip: the saved node comes back |
| Machine.Machine.CallWhile | src/builtin/combinators.c:368-388 | while: the loop that keeps its stack in the saved one agrees with the recursive meaning |
| Machine.Machine.CallStep | src/builtin/combinators.c:307-343 | step over a list |
| Machine.Machine.CallMap | src/builtin/combinators.c:242-300 | map over a list, linked at its tail, in order |
| Machine.Machine.CallFilter | src/builtin/combinators.c:140-205 | filter over a list |
| Machine.Machine.CallConstruct | src/builtin/combinators.c:97-119 | construct, which uses dump2 itself as a stack; a quotation that leaves nothing yields the null node |
| Machine.Machine.CallCleave | src/builtin/combinators.c:75-90 | cleave: both results on what was below X, the null node for a missing one |
| Machine.Machine.LinrecAux | src/builtin/recursion.c:174-191 | linrec |
| Machine.Machine.TailrecAux | src/builtin/recursion.c:263-280 | tailrec, by a loop |
| Machine.Machine.BinrecAux | src/builtin/recursion.c:24-45 | binrec: the second intermediate, or the null node, waits on dump2 |
| Machine.Machine.CallGenrec | src/builtin/recursion.c:128-136 | genrec, by three cons |
| Machine.Machine.CallGenrecAux | src/builtin/recursion.c:143-167 | one round of genrec, with the quotation that goes on |
| Machine.Machine.FindClause | src/builtin/recursion.c:91-97 | the clause that condnestrec takes |
| Machine.Machine.CondnestrecAux | src/builtin/recursion.c:85-110 | condnestrec, and condlinrec, with dump1 to dump3 restored |
| Machine.Machine.TreestepAux | src/builtin/recursion.c:371-382 | treestep, with the lists on the way kept on dump1 |
| RecursionLaws.FuelIrrelevant | src/interp.c:203-207 | the result of a run that ends does not depend on the depth allowed |
| RecursionLaws.TailrecIsLinrec | src/builtin/recursion.c:258-280 | tailrec is linrec with nothing to do after the recursion |
| RecursionLaws.CondlinrecIsLinrec | src/builtin/recursion.c:85-110 | two-clause condlinrec is linrec as long as the tests leave values |
| RecursionLaws.LinrecExactly | src/builtin/recursion.c:174-191 | linrec ends in a stack exactly if two-clause condlinrec does and every test left a value |
| RecursionLaws.EmptyTestDiffers | src/builtin/recursion.c:94 | a test that leaves nothing: linrec fails, condlinrec goes on |
| RecursionLaws.GenrecIsLinrec | src/builtin/recursion.c:143-167 | linrec and genrec with R2 prefixed by i have the same results, success and error alike |
| RecursionLaws.TreestepIsStep | src/builtin/recursion.c:371-382 | treestep over a tree is step over its leaves |
| RecursionLaws.EachConcat | src/builtin/combinators.c:317-324 | step over a concatenation is one step after the other |
| CombinatorLaws.OutConcat | src/interp.c:223-398 | a term made of two is the second one on what the first one leaves |
| CombinatorLaws.OutName | src/interp.c:258-324 | a name does what its definition does; without one it is an error or nothing |
| CombinatorLaws.BuiltinLaw | src/interp.c:369 | a builtin is its function of the stack |
| CombinatorLaws.ConsLaw | src/builtin/aggregate.c:103-107 | cons puts a node in front of a list |
| CombinatorLaws.ILaw | src/builtin/control.c:113-121 | [p] i is p |
| CombinatorLaws.DipLaw | src/builtin/combinators.c:125-134 | x [p] dip is p below x |
| CombinatorLaws.DipIsAfter | src/builtin/combinators.c:125-134 | for a value x it is p x |
| CombinatorLaws.IfteLaw | src/builtin/control.c:127-140 | [b] [t] [e] ifte: t on the stack that the test found if the test leaves a true top, e if a false one or nothing |
| CombinatorLaws.IfteIsCondlinrec | src/builtin/control.c:127-140 | [b] [t] [e] ifte is [[[b] [t]] [[e]]] condlinrec, for every result |
| CombinatorLaws.WhileLaw | src/builtin/combinators.c:368-388 | [b] [p] while is p and the loop again if the test holds, and nothing if not; a test that leaves nothing is an error |
| CombinatorLaws.StepLaw | src/builtin/combinators.c:307-343 | [n ...] [p] step is n p and the rest of the step |
| CombinatorLaws.MapLaw | src/builtin/combinators.c:242-300 | [n ...] [p] map: what p leaves on top of n, in front of the map of the rest |
| CombinatorLaws.FilterLaw | src/builtin/combinators.c:140-205 | [n ...] [p] filter: n, if the test holds for it, in front of the filter of the rest |
| CombinatorLaws.ConstructLaw | src/builtin/combinators.c:97-119 | [p] [... [q]] construct: what q leaves on the stack of p, on top of the results of the others |
| CombinatorLaws.CleaveLaw | src/builtin/combinators.c:75-90 | x [p1] [p2] cleave: what each leaves on x, the second one on top |
| CombinatorLaws.LinrecLaw | src/builtin/recursion.c:174-191 | [p] [t] [r1] [r2] linrec is t if the test holds, else r1, the whole again, and r2 |
| CombinatorLaws.TailrecLaw | src/builtin/recursion.c:263-280 | tailrec is linrec with an empty last quotation |
| CombinatorLaws.BinrecLaw | src/builtin/recursion.c:24-45 | binrec: t if the test holds, else r1, the whole on both results, the top one last, and r2 |
| CombinatorLaws.GenrecLaw | src/builtin/recursion.c:128-167 | genrec: t if the test holds, else r1, a quotation of the whole, and r2 |
| CombinatorLaws.CondnestrecLaw | src/builtin/recursion.c:85-110 | condnestrec: the actions of the selected clause, with the whole again between each two |
| CombinatorLaws.TreestepLaw | src/builtin/recursion.c:371-382 | item [p] treestep is the step over its leaves |
| CombinatorLaws.ParametersLaw | src/interp.c:369 | a combinator without its parameters on the stack is an error |
| Preduce.RunTasks | src/builtin/parallel.c:272-314 | each task of the schedule is run, and its result gets its own place |
| Preduce.MapByTasks | src/builtin/parallel.c:227-357 | the results in the order of the inputs, without those of tasks that left nothing, or the first error |
| Preduce.Pmap | src/builtin/parallel.c:193-401 | few inputs are mapped in order on the stack that is there, many by tasks on stacks of their own; a quotation that replaces x by g(x) gives g of each input, in order |
| Preduce.MapsAgree | src/builtin/parallel.c:341-355 | for any quotation the two branches of pmap agree exactly if both fail, or every task leaves the value that the sequential run finds on top |
| Preduce.MapsReplace | src/builtin/parallel.c:193-401 | for a quotation that replaces x by g(x) both branches of pmap give g of each input, in order |
| Preduce.LocalMapsAgree | src/builtin/parallel.c:341-355 | a quotation that does not look below its operand: they agree exactly if a task fails or all leave a value |
| Preduce.PopDiffers | src/builtin/parallel.c:383 | pop: the sequential branch gives the value below for every input, the tasks give nothing |
| Preduce.FilterByTasks | src/builtin/parallel.c:442-606 | the inputs whose task left something true, in order; a wild read if that was a string or an input to keep is a text |
| Preduce.Pfilter | src/builtin/parallel.c:409-654 | few inputs are filtered in order on the stack that is there, many by tasks; a test that replaces its operand by a truth value keeps those for which it is true, in order, unless the tasks keep a text |
| Preduce.FiltersDecide | src/builtin/parallel.c:562-654 | both branches keep the inputs for which such a test is true, but for texts |
| Preduce.FiltersAgree | src/builtin/parallel.c:562-606 | for a test that does not look below its operand the two branches of pfilter agree exactly if a task fails or every input is taken alike: by the 64 bits of the result in one, by its kind in the other, and no text is kept |
| Preduce.FlagsAgree | src/builtin/parallel.c:562-606 | for any test they agree exactly if both fail, or for each input the run on the stack and the task decide alike and no text is taken for a pointer |
| Preduce.FlagsTell | src/builtin/parallel.c:562-606 | the inputs kept by the two branches are the same exactly if the decisions are |
| Preduce.TextsAreLost | src/builtin/parallel.c:592-594 | a test that is always true keeps a list of texts in order, and by tasks takes them for pointers |
| Preduce.PopFilters | src/builtin/parallel.c:634-640 | pop on a false value: both keep nothing, although no task leaves a value |
| Preduce.LevelAt | src/builtin/parallel.c:835-846 | a level holds the pairs, right operand first, and the odd last value |
| Preduce.LevelKeepsFold | src/builtin/parallel.c:835-846 | for an associative operation a level does not change the fold of the reversed list |
| Preduce.ReduceLevel | src/builtin/parallel.c:717-846 | a level takes one application for each pair; a text among the operands is taken for a pointer |
| Preduce.Parallel | src/builtin/parallel.c:714-857 | the level loop takes n - 1 applications and ceil(log2 n) levels |
| Preduce.TreeIsFold | src/builtin/parallel.c:714-857 | for an associative operation the tree is the left fold of the reversed list, unless it takes a text for a pointer |
| Preduce.TreeTexts | src/builtin/parallel.c:762-778 | no tree over two values or more has a result if there is a text among them; if the operation makes no texts, the tree reads through a text only if there is one in the list |
| Preduce.ReduceCombines | src/builtin/parallel.c:714-857 | the tree is that of g, the right neighbour being the first operand, unless a text comes in its way |
| Preduce.FoldEitherWay | src/builtin/parallel.c:872-893 | with commutativity the direction of the fold does not matter |
| Preduce.Sequential | src/builtin/parallel.c:872-893 | the sequential branch is the fold on the stack that is there, an empty stack being an error; for a quotation that replaces x and y on top of it by g(x, y) it is the left fold of g |
| Preduce.FoldOnStack | src/builtin/parallel.c:872-893 | for a quotation that uses two values and leaves some it is the left fold, whatever lies below |
| Preduce.FoldCombines | src/builtin/parallel.c:872-893 | the fold on the stack leaves the left fold of g on what was below |
| Preduce.Preduce | src/builtin/parallel.c:664-894 | few values are folded on the stack, many reduced by the tree; for a quotation that replaces x and y on top of it by g(x, y) two values give g(x, y), three g(g(x, y), z), and four g(g(d, c), g(b, a)) for a, b, c, d; all branches agree for an associative and commutative operation on two values, unless the tree takes a text for a pointer, and then it has no result |
| Preduce.OrderMatters | src/builtin/parallel.c:765-778 | for the operation that takes its first operand the fold gives the first value and the tree the last |
| Preduce.TextsReduce | src/builtin/parallel.c:762-778 | an operation on texts folds them, but its tree takes them for pointers |
| JsonText.DigitsComplete | src/builtin/json.c:75-79 | escapes as section 7 of RFC 8259 has them are complete |
| JsonText.CountCovers | src/builtin/json.c:40-56 | the first pass counts every character that the second writes, one more for each Unicode escape, if escapes are complete: whatever the digits are, the fourth is neither a quotation mark nor a backslash |
| JsonText.ShortCount | src/builtin/json.c:40-56 | a quotation mark right behind the third digit of a Unicode escape: 1 counted, 3 decoded |
| JsonText.WrongDigits | src/builtin/json.c:75-79 | whatever the first three digits are, and any fourth but a quotation mark or a backslash: no harm is done and a question mark decoded |
| JsonText.SlashFourth | src/builtin/json.c:40-56 | a backslash in fourth place at the end of the text: the first pass steps over the end |
| JsonText.ValueFits | src/builtin/json.c:254-294 | if behind every quotation mark escapes are complete, reading never passes an end |
| JsonText.StringRoundTrip | src/builtin/json.c:364-389 | a written string is read as it was, but for control characters without an escape of their own |
| JsonText.IntRoundTrip | src/builtin/json.c:98-139 | every 64-bit integer is read as it was written |
| JsonText.RoundTrip | src/builtin/json.c:254-294 | parsing what was emitted, whatever follows, gives the value and stops there |
| JsonText.NormalIsSame | src/builtin/json.c:392-494 | a value comes back unchanged exactly if it is made of null, booleans, numbers, lists, dictionaries and strings of the plain kind |
| JsonGrammar.SpelledReads | src/builtin/json.c:254-294 | a text of the JSON grammar, with blanks, tabs and line ends anywhere between its parts, is read as it is meant, whatever follows |
| JsonGrammar.ValueSplit | src/builtin/json.c:254-294 | and nothing else is accepted: whatever the parser reads is white space and a text of the grammar with that meaning, but for a string without a closing quote at the end of the text |
| JsonGrammar.SpacedRoundTrip | src/builtin/json.c:392-494 | parsing what was emitted, with any white space put before and behind its values and between its brackets, gives the value and stops behind it |
| JsonGrammar.WritableEmits | src/builtin/json.c:392-494 | what is emitted is the spelling of the value in the grammar |
| JsonGrammar.NumberRead | src/builtin/json.c:98-139 | digits with an optional fraction and exponent are read as a number with that spelling, and without either as the integer they stand for, cut off at 64 bits |
| JsonGrammar.PutEntry | src/builtin/json.c:235-236 | entering a member replaces the value of its key and leaves all others |
| JsonGrammar.LastMemberCounts | src/builtin/json.c:195-251 | each key of an object has the value of the last member with it |
| Json.JsonBuf.Push | src/builtin/json.c:336-343 | appends one character, doubling the buffer when only one place is left |
| Json.JsonBuf.Finish | src/builtin/json.c:351-358 | the text that was pushed |
| Json.WriteString | src/builtin/json.c:364-389 | appends the escaped string |
| Json.WriteValue | src/builtin/json.c:392-494 | appends the text of a value of any kind |
| Json.Reader.FirstPass | src/builtin/json.c:40-56 | counts as specified, and steps over the end of the text exactly behind an escape that is cut off |
| Json.Reader.SecondPass | src/builtin/json.c:58-94 | decodes as specified; it passes an end exactly if an escape is cut off or more characters are decoded than were counted |
| Json.Reader.StringValue | src/builtin/json.c:28-95 | reads a string from quote to quote; it passes an end exactly if one of the passes is cut off or the count is too small |
| Json.Reader.Number | src/builtin/json.c:98-139 | reads a number, which is an integer exactly if it has no fraction and no exponent |
| Json.Reader.ArrayAt | src/builtin/json.c:151-192 | reads an array as the grammar says, passing an end exactly where the grammar says |
| Json.Reader.ObjectAt | src/builtin/json.c:195-251 | reads an object; a repeated key replaces its value; passes an end exactly where the grammar says |
| Json.Reader.ValueAt | src/builtin/json.c:254-294 | reads what the grammar says, fails where it fails, and passes an end exactly where the grammar says |
| TermText.NumberRoundTrip | src/scan.c:628-645 | a printed integer is scanned as itself exactly if its absolute value is below 2^63 - 1, and as a floating-point number otherwise |
| TermText.ChrRoundTrip | src/write.c:40-47 | a printed 7-bit character is scanned as itself exactly if it is not a backslash |
| TermText.StringRoundTrip | src/write.c:65-81 | the characters scanned for a printed string of 7-bit characters are its own exactly if it holds no backslash |
| TermText.NoExcess | src/scan.c:562-574 | no reading makes a printed string longer at its front |
| TermText.SetReturns | src/factor.c:85-92 | a printed set is read as itself |
| TermText.FactorReturns | src/factor.c:35-99 | a printed factor is read as itself, and reading stops behind it |
| TermText.TermRoundTrip | src/write.c:210-218 | a printed term of integers below 2^63 - 1, sets, lists, characters and strings without backslash is scanned and parsed as the same term |
| TermLayout.GapsPassed | src/scan.c:515-540 | blanks and comments of both kinds make no difference to the scanner |
| TermLayout.NumeralReads | src/scan.c:628-645 | digits after nothing, 0 or 0x are read in base 10, 8 or 16, with their sign; the largest number and what is beyond it turn into floating-point numbers |
| TermLayout.CharacterReads | src/scan.c:554-560 | a character, or an escape by a letter or by up to three digits, is read as the code it stands for |
| TermLayout.StringScans | src/scan.c:562-574 | a string is read as the characters that its parts stand for, up to the first 0 |
| TermLayout.FormReads | src/factor.c:35-99 | a factor in any spelling, with any white space and comments inside, is read as it is meant |
| TermLayout.PartsRead | src/factor.c:260-289 | so are the factors of a term, up to the character that ends it |
| TermLayout.FactorPrinted | src/write.c:12-87 | the printer writes the plain spelling, with one blank between two factors |
| Terms.Printer.WriteFactor | src/write.c:12-87 | prints a factor |
| Terms.Printer.WriteSet | src/write.c:53-63 | prints the members in order, a blank between two |
| Terms.Printer.WriteTerm | src/write.c:210-218 | prints the factors, a blank between two |
| Terms.Scanner.ReadSpecial | src/scan.c:254-294 | an escape is a letter, up to three digits, or the character itself |
| Terms.Scanner.ReadChars | src/scan.c:562-574 | the characters up to the closing quote |
| Terms.Scanner.ReadNumber | src/scan.c:628-652 | converts a number in base 8, 10 or 16 and puts back what could not be converted |
| Terms.Scanner.ReadWord | src/scan.c:594-627 | where a word ends, at a full stop too |
| Terms.Scanner.GetSym | src/scan.c:508-684 | the next token behind blanks and comments |
| Terms.Scanner.ReadFactorNow | src/factor.c:35-99 | parses a factor |
| Terms.Scanner.ReadTermNow | src/factor.c:260-289 | parses factors up to a closing token |
| Terms.Scanner.ToSet | src/factor.c:11-29 | the set of the members, or an error if one is not a small number |
| Patterns.InstanceMatches | src/builtin/pattern.c:182-233 | every instance of a proper pattern matches, with one binding for each occurrence of a variable |
| Patterns.MatchIsInstance | src/builtin/pattern.c:182-233 | every match comes from an instance |
| Patterns.MatchExactly | src/builtin/pattern.c:182-233 | a value matches exactly if the pattern is proper, has at most 64 variables and has the value as an instance |
| Patterns.NeverBad | src/builtin/pattern.c:71-83 | a proper pattern with at most 64 variables never leads to an error |
| Patterns.NamePatterns | src/builtin/pattern.c:182-233 | _ matches anything, a name is bound to what it stands for, unless there are 64 bindings, and [] matches the empty list only |
| Patterns.ConsPattern | src/builtin/pattern.c:88-149 | [h : t] binds h to the first node and t to the rest of a list that is not empty |
| Patterns.ListPattern | src/builtin/pattern.c:154-173 | [a b] matches lists of two and binds their nodes in order |
| Scopes.AppliedAt | src/builtin/pattern.c:238-246 | under the bindings a symbol stands for the value of its last occurrence |
| Scopes.RestoredAt | src/builtin/pattern.c:251-256 | afterwards each bound symbol has its first entry again, a repeated one too, whatever the action did |
| Scopes.NoTrace | src/builtin/pattern.c:238-256 | applying and restoring bindings leaves the table as it was |
| Scopes.LetRestores | src/builtin/combinators.c:495-498 | after a let each bound name has its old entry, a repeated one too, and the others are as the body left them |
| Scopes.FailedLetExactly | src/builtin/combinators.c:463-472 | a let that runs out of values restores the table exactly if every name bound more than once already stands for the value that its last binding but one gives it |
| Scopes.FailedLetDistinct | src/builtin/combinators.c:463-472 | which holds if no name is repeated |
| Scopes.FailedLetLeaks | src/builtin/combinators.c:463-472 | and fails for a repeated name without a definition |
| Scopes.Interpreter.FindColon | src/builtin/pattern.c:58-66 | the position of the first colon |
| Scopes.Interpreter.PatternMatch | src/builtin/pattern.c:182-233 | computes the match with all its bindings |
| Scopes.Interpreter.MatchCons | src/builtin/pattern.c:88-149 | matches the heads and the tail of a list |
| Scopes.Interpreter.MatchList | src/builtin/pattern.c:154-173 | matches lists of equal length node by node |
| Scopes.Interpreter.Apply | src/builtin/pattern.c:238-246 | applies the bindings in order |
| Scopes.Interpreter.Restore | src/builtin/pattern.c:251-256 | restores the saved entries in order |
| Scopes.Interpreter.RunScoped | src/builtin/pattern.c:301-303 | during the action each bound symbol has the value of its last binding; afterwards each has its old entry again, repeated ones too, and all others are as the action left them |
| Scopes.Interpreter.BindNames | src/builtin/combinators.c:456-490 | binds the names from the last to the first, one value each; with too few values the bindings are undone |
| Scopes.Interpreter.MatchOp | src/builtin/pattern.c:274-308 | match, on the symbol table alone: the action runs on the table before with the bindings of the match; if it ends well, every bound symbol has its old entry again, repeated ones too, and every other one what the action left it; without a match false is pushed and nothing else changes |
| Scopes.Interpreter.CasesOp | src/builtin/pattern.c:323-383 | cases: the patterns before the deciding one do not match, in the table as it was; the deciding one does as match does; without one it is an error |
| Scopes.Interpreter.LetOp | src/builtin/combinators.c:399-503 | let, on the symbol table alone: the body runs on the table before with each name at its value, the last value for the last name; if it ends well, every bound name has its old entry again and every other symbol what the body left it |

## Left out

- Failing allocations (`malloc`, `calloc`, `realloc`), `free` and the destructors of tables and collectors.
- Khash.Khash.Put: needs `CanPut`, which fails only for a table of 2^31 buckets that is at its bound and at least half live, because no larger word-sized table exists there.
- Khashl.Khashl.Put: needs `CanPut`, which fails only for a full table of 2^31 buckets.
- TableRuns.RunKhash: runs of fewer than 2^30 operations, so that `CanPut` always holds.
- TableRuns.RunKhashl: runs of fewer than 2^30 operations, and resize requests of at most 2^31 buckets, beyond which the shift by the number of bits is undefined.
- Key comparison is equality; `kh_clear`, the string tables, and the set and counting ensembles of khashl are not modelled.
- The bodies of the tables use the arithmetic forms (`%`, `/ 16`, rounding); `Words` relates the round-up chain, the mask and the power-of-two check to them, but the multiplicative hash of khashl is arithmetic modulo 2^32 only.
- HeapRuns.RunAll: for heaps without texts, because a collection outside an allocation can fail with them (`HeapLimits.TextsOutgrow`). No step but the start of a program and an abort lets the current program be another, as in the source. Steps write the references of nodes, and the bits of a node only when it is new.
- Collector.Env.Gc2: the percentages are compared exactly, without the rounding of the program's floating-point division.
- While the current program dangles, nothing is said about what it denotes.
- `newnode2`, variables as roots (`scan_roots`), dictionaries, native vectors and matrices, and cyclic heaps.
- The characters of a text are a value in its node; the bytes in its further slots are reserved but not modelled.
- The words of the C stack and of the heap blocks are parameters of the mark-and-sweep collector; registers saved by `setjmp`, static memory and the wrap-around of sizes and counters at 2^32 and 2^64 are left out, and a readable heap is required for the words that are followed.
- MarkSweep.Context.Realloc: the place of the moved block is a parameter; 0 means that there was no room.
- DeepCopy.CopyBodyFromParent: keeps what the roots hold, and nothing else; what `exec_term` holds in a local variable meanwhile is not kept (`HeapLimits.StaleNode`). The evaluator works on values, where that cannot happen.
- Machine.Machine.ExecTerm: depth is bounded by fuel, since the program has no bound; `RecursionLaws.FuelIrrelevant` shows that results do not depend on it. After an error the registers are those of the error handler.
- Values of the evaluator are trees: sharing, the update of the saved stack in `while_` when it is aliased, and running out of memory are left out.
- Machine.Machine.CallStep: lists only; strings and sets are other atoms here and count as an aggregate error. The same holds of map and filter.
- Where the C code would read a node of the wrong type (a clause or an action that is not a list, an element of a construct list that is not one, a hand-made argument of `#genrec`) the model has an error. The null node, which `construct`, `cleave` and `binrec` copy from an empty stack, is an atom here; executing it is left out.
- Other builtins are one abstract function of the stack; the symbol table is fixed during a run; debugging, tracing and the compiler branches are left out.
- primrec, treerec, treegenrec and the remaining combinators follow the same patterns.
- Preduce.RunTasks: workers are functions of their inputs; threads, and their heaps being created and destroyed, are left out. `pfork` is left out.
- Preduce.Preduce: values are trees, so that the array of indices that a level leaves, which are no roots while the next results are copied, cannot go stale; which values are texts is a parameter, and nothing is said about a run that takes one for a pointer.
- Preduce.Pfilter: a value is its type and its 64 bits, and the old half of a list's bits is part of the value; its array of inputs cannot go stale either, and nothing is said about a run that takes a text for a pointer.
- JsonText.RoundTrip: without floating-point numbers, which the model keeps as their spelling. `JsonGrammar.SpelledReads` covers them as such.
- JsonGrammar.SpelledReads: texts whose Unicode escapes have no quotation mark or backslash in fourth place and whose exponents have digits; `JsonGrammar.ValueSplit` covers the others.
- TermLayout.FormReads: integers, characters, strings, names, sets and lists; keywords, booleans and floating-point numbers are left out, and a name does not start like a number.
- A JSON dictionary is a list of entries in the order they were put; the order in a table, and the collector during parsing, are left out.
- Json.Reader.ValueAt: what the program does after it has stepped over an end is left out; `overrun` says that it does. `JsonText.ValueFits` shows that this takes an escape that is cut off or has a quotation mark or a backslash in fourth place, and `JsonText.DigitsComplete` that section 7 of RFC 8259 allows none of these.
- TermText.TermRoundTrip: names, keywords, booleans, floating-point numbers, string interpolation, vectors and matrices are not part of the round trip.
- Terms.Scanner.ReadTermNow: stops at the first error message, where the program goes on; module names, keywords and immediate definitions are not looked up, and the input ends with the text.
- Terms.Scanner.GetSym: a `$` is a token of its own kind, and the scanner's positions are left out.
- Scopes.Interpreter.PatternMatch: at most 64 nodes before a colon, because the program collects them in an array of that size without a check.
- Comparison of literals and the execution of actions are parameters; an error inside an action or a body leaves the bindings in force, which no contract describes.
