# Kopano Core, verified models

This project models the parts of Kopano Core whose correctness rests on invariants over whole runs,
and proves those invariants.

| module | models |
|---|---|
| RowOrder | the comparison of table rows by their sort columns |
| TableTree | in-order sequences, balance, ranks and blocks of the key table's tree, as values |
| TableDeletes | a delete with its rebalancing as a function on trees, and where it leaves the cursor |
| TableHeap | how row objects with parent, child and side pointers form such a tree |
| KeyTables | `ECKeyTable` as a class over row objects: the pointer tree, its id map, cursor and bookmarks |
| TableSpec, TableRuns | the table as a plain sorted list, and whole runs of calls |
| Base64 | `base64_encode` and `base64_decode` |
| ThreadPools | `ECThreadPool` as steps between lock and sleep |
| FifoBuffers | `ECFifoBuffer` as steps between lock and sleep |
| MemBlocks | `ECMemBlock` over arrays |
| Forests, Unknowns | `ECUnknown`: counting, parents and children, the cascade of frees, ancestry |
| NamedProps, Compaction, Dbadm | `np_repair_dups` and `np_defrag` over the names table and the six property tables |
| Settings, Configs | `ECConfigImpl`: defaults, files with includes, command line, reloads |

## The key table

A `KeyTable` holds row objects whose pointers, side flags, heights and counts the methods update in
place, and a ghost tree. `Shape` says the pointers form that tree under the sentinel, `Counted` that
every stored height and visible count is true, `Valid` adds balance, the id map and that cursor and
bookmarks are live. Methods take ghost arguments for the place in the tree they work at: a context
(what surrounds a hole) and the subtree in the hole. Where the code repeats a pointer update in
several branches, or a method was long, the model has one helper method for it; the three one-child
cases of a delete are one helper with the child as its argument.

`UpdateRow` is tied to a list with `InsertRow` and `RemoveKey` in `TableSpec`. Sorting claims assume
what the callers provide: `TotalPreorder` (compareSortKeys is a total preorder), and rows built to
one schema (`RowOk`): the same flags in each column of all rows, no NaN keys. `RowOrder` shows that
every NaN, and every difference in direction or in being a double, breaks the order. What does not depend on the
order (links, counts, balance, live cursor and bookmarks) is proved without these assumptions.

`Replay`, `Perform` and `ReadAll` (and `MemBlocks.Perform`) are drivers: they stand for an arbitrary
caller, so that a claim about every run is the contract of a loop over calls.

## Conventions

- Locks make a method or a step atomic. Waiting on a condition ends a step; a step can also follow a
  spurious wakeup. Which sleeper a notify picks, which threads the system creates, whether memory or
  a statement fails, and when the user asks to stop are parameters or free choices.
- Integers are unbounded. A 32-bit count compared with `threadCount() - 1` at 0 never matches in the
  code either, because the subtraction wraps to the largest 64-bit value.
- Floats are little-endian IEEE doubles read as bytes; `collate` stands for compareSortKeys; the
  environment, the numbers in texts, real paths and file contents are parameters of Settings.
- `delete this` takes an object out of the set `live`; every method requires its object to be in it.
- Table rows have row ids of their own (`RowId`), so that a row can be followed through an UPDATE.
  Equality of names is equality in the database, its collation included.

## Where the code and its documentation differ

- After a delete the comment at common/ECKeyTable.cpp:321 promises the next row, or the previous one if
  the last was deleted. The code computes a rank from the last pointers and counts of the row already
  unlinked, and goes one back and one on. `MovesOn` says when that keeps the promise, by the rank of the
  row, the number of visible rows left and how far the number falls short of the rank (`Setback`), all
  taken before the call. With no row hidden that is (`MovesOnPlainly`): the second row; a later one that
  is no right child and has at most one child; the last one if two others stay. So it fails for the
  first row of several, which passes over the next one, and for the third of five rows in
  `CursorGoesBack`, which goes back.
- `QueryRows` caps its count by the number of visible rows even when hidden rows are asked for
  (common/ECKeyTable.cpp:739); the model does the same.
- `GetPreviousRow` for the first visible row does not fail but reports the empty key of the sentinel
  (common/ECKeyTable.cpp:807-813).
- A reload is documented to touch reloadable settings only. A property map read during a reload can
  include a file, whose lines are then read with permission by group and the group of ordinary
  settings (common/ECConfigImpl.cpp:441-460), and they override settings given on the command line.
  `ReloadIsSafeExactly` gives the exact condition.
- A size taken out of the environment by a file or parameter is checked but stored as text, because
  the conversion looks at the flags of the line (common/ECConfigImpl.cpp:551).
  `SizesAreConvertedExactly` gives the exact condition, `EnvironmentSizeStaysText` a file.
- `ParseParams` leaves the other arguments in reverse order (common/ECConfigImpl.cpp:132-140).
- The statement under "Remove ambiguous props" (ECtools/dbadm.cpp:269-277) counts rows, not ids. An
  owner with several rows under one of the two ids loses them all, though nothing is ambiguous: the
  values of a multi-valued property (orderid is part of the key, provider/libserver/ECDBDef.h:85-99),
  several folders of tproperties, several chunks of lob. `OneIdLosesExactly` and `OneIdLosesInTheEnd`
  give the exact condition.
- A read that returns short tells its caller that the data has ended. If the writing end is closed
  from outside during a `Write`, the bytes of that `Write` still follow (common/ECMemStream.cpp:399-400).
  `EndIsTheEnd` gives the exact condition.
- `Write` reports no count when it ends because the reader closed, though bytes may have been taken
  (common/ECMemStream.cpp:436-437).
- A `Commit` or `Revert` that runs out of memory has freed the old copy or content first
  (common/ECMemStream.cpp:95-112).

## Model

| member | source | states |
|---|---|---|
| RowOrder.RowCompare | common/ECKeyTable.cpp:93-155 | The comparison loop computes the column order the rest is proved about: floats, nulls, strings by the collator, memcmp then length, descending columns, differing column counts |
| RowOrder.RowComparePrefix | common/ECKeyTable.cpp:157-163 | Comparing prefixes is comparing the rows cut to that many columns |
| RowOrder.MemcmpIsLex | common/ECKeyTable.cpp:126-142 | memcmp over the shorter key followed by the length test is the lexicographic order of byte strings |
| RowOrder.LexIsFirstDifference | common/ECKeyTable.cpp:126-142 | That order is decided at the first byte that differs, or by one string being the beginning of the other |
| RowOrder.DoublesByValue | common/ECKeyTable.cpp:108-117 | Finite keys compare as sign, exponent and fraction give their values, both zeroes equal |
| RowOrder.InfinitiesAreExtreme | common/ECKeyTable.cpp:108-117 | The infinities lie beyond every finite key and equal only themselves; a NaN compares with nothing |
| RowOrder.ColumnOrders | common/ECKeyTable.cpp:101-142 | One column against another of the same flags: doubles by value, else nulls first, strings by the collator and then by length, everything else by its bytes |
| RowOrder.RowLessExactly | common/ECKeyTable.cpp:93-155 | A row is less exactly if at the first column that differs it is less, or greater in a descending one, or if it ends there and the other goes on |
| RowOrder.RowLessAsymmetric | common/ECKeyTable.cpp:93-155 | With flags agreeing column by column and no NaN, two rows are never less than each other |
| RowOrder.RowNotGreaterTransitive | common/ECKeyTable.cpp:93-155 | Under the same conditions not-greater is transitive, so the comparison is a strict weak order, differing column counts included |
| RowOrder.PrefixMonotone | common/ECKeyTable.cpp:157-163 | Cutting two rows to a prefix never reverses their order, so rows equal on a prefix lie together |
| RowOrder.SelfLessExactly | common/ECKeyTable.cpp:101-117 | A row is less than itself exactly if the first column holding a NaN is a descending one |
| RowOrder.NaNBreaksTheOrder | common/ECKeyTable.cpp:101-117 | Every NaN key, in either direction, has two well-formed keys of its column with which the comparison is no strict weak order |
| RowOrder.NaNDecides | common/ECKeyTable.cpp:101-117 | Rows that agree up to a column where one of two doubles is a NaN: each is less than the other in a descending column, neither in an ascending one |
| RowOrder.OnlyNaNBreaksTheOrder | common/ECKeyTable.cpp:93-155 | Nothing but a NaN does: a column fits the order of its position exactly if it is not one |
| RowOrder.MixedFlagsBreakTheOrder | common/ECKeyTable.cpp:93-155 | Two sets of flags have columns that are each less than the other exactly if they differ in direction or in being a double; a difference in being a string only is left to the collator |
| TableTree.RotationsKeepOrder | common/ECKeyTable.cpp:819-891 | All four rotations leave the in-order sequence as it is |
| TableTree.LeftHeavyRepairs | common/ECKeyTable.cpp:906-917 | Restructuring a pivot whose left side is two levels too tall gives a balanced subtree, at most one level lower |
| TableTree.RightHeavyRepairs | common/ECKeyTable.cpp:918-927 | The mirror image |
| TableTree.RestructureStep | common/ECKeyTable.cpp:930-936 | One step of the restructuring walk: what is out of balance moves up one level or is gone |
| TableTree.InsertRepairs | common/ECKeyTable.cpp:444-457 | After a row is linked in at a leaf, the walk from that row up can repair the whole tree |
| TableTree.OnlyChildRepairs | common/ECKeyTable.cpp:247-274 | After a row with at most one child is cut out, the walk from its parent up can repair the whole tree |
| TableTree.FirstDeletePass | common/ECKeyTable.cpp:275-316 | After a two-child delete the walk from the moved predecessor repairs the tree if its left side is balanced, and else finds nothing to do |
| TableTree.SecondDeletePass | common/ECKeyTable.cpp:317-318 | In that other case the walk from the predecessor's old parent repairs the tree |
| TableTree.OnlyChildOrder | common/ECKeyTable.cpp:247-274 | Cutting out a row with at most one child takes exactly that row out of the in-order sequence |
| TableTree.DeleteOrder | common/ECKeyTable.cpp:275-309 | Putting the predecessor in the place of the row takes exactly that row out of the in-order sequence |
| TableDeletes.TwoPasses | common/ECKeyTable.cpp:315-318 | The walk from the predecessor's new place and that from its old parent together are the repair of the left side followed by one walk |
| TableDeletes.SpineWithoutMax | common/ECKeyTable.cpp:277-289 | Cutting the last row of the left side out and walking up its right spine is the recursive delete of the last row |
| TableDeletes.WithoutTopShrinks | common/ECKeyTable.cpp:246-319 | The functional delete of a top leaves a balanced tree at most one level lower, short of just that row |
| TableDeletes.RisenKeeps | common/ECKeyTable.cpp:906-936 | The walk up never takes apart the subtree that got lower: it stays below the same row on the same side, with the same rows before it |
| TableDeletes.LastLeftStays | common/ECKeyTable.cpp:303-309 | What is below the last left child of a deleted row after all rotations |
| TableDeletes.SetbackHere | common/ECKeyTable.cpp:696-720 | The setback of a row depends on its subtree and on the side it hangs on only |
| TableDeletes.LandsAsPromised | common/ECKeyTable.cpp:321-325 | Going one back and one on lands on the promised row exactly if MovesOn |
| TableDeletes.KeepsPromiseExactly | common/ECKeyTable.cpp:321-325 | MovesOn in a balanced tree without hidden rows, by rank, side and children |
| TableDeletes.CursorGoesBack | common/ECKeyTable.cpp:321-325 | Five rows, the third deleted: the cursor goes to the second though the fourth follows |
| TableTree.InsertOrder | common/ECKeyTable.cpp:444-451 | Hanging a row in a hole puts it at that place of the in-order sequence |
| TableTree.InsertPositionFits | common/ECKeyTable.cpp:407-422 | The descent ends between a row the new one is not less than and a row it is less than |
| TableTree.KeyBeforeIs | common/ECKeyTable.cpp:362-385 | What is reported as predecessor is the key of the entry before the place, or the empty key at the front |
| TableTree.FitsIsUpperBound | common/ECKeyTable.cpp:407-422 | In a sorted table that place is after every row the new one is not less than and before every row it is less than |
| TableTree.CountIsVisible | common/ECKeyTable.cpp:197-231 | The branch count of a subtree is the number of its rows that are not hidden |
| TableTree.AvlHasManyRows | common/ECKeyTable.cpp:893-936 | A balanced tree of height h has at least Fib(h + 2) - 1 rows |
| TableTree.BlockIsCategory | common/ECKeyTable.cpp:964-985 | In a sorted table the rows hidden are exactly those after the header equivalent to it on its columns, one contiguous block |
| TableTree.BoundsIsFirst | common/ECKeyTable.cpp:1033-1060 | In a sorted table the place the search stops at is the first row not less than the key |
| TableTree.FindIsComplete | common/ECKeyTable.cpp:1063-1088 | The test Find makes there succeeds exactly if some row is equivalent to the key, and that one is the first |
| TableTree.VisibleKeysDistinct | common/ECKeyTable.cpp:728-758 | Reading every visible row lists no key twice if the keys are distinct |
| TableTree.ReportedCount | common/ECKeyTable.cpp:739-754 | A page holds as many keys as asked for, or all that are left |
| TableTree.ReportedSlice | common/ECKeyTable.cpp:739-754 | A page of visible rows is the slice of the visible keys between the ranks of its ends |
| TableHeap.PlugLinked | common/ECKeyTable.cpp:819-891 | Links below a hole and around it make up the links of the whole tree |
| KeyTables.KeyTable.constructor | common/ECKeyTable.cpp:183-189 | A new table is valid and empty with the cursor on the sentinel |
| KeyTables.KeyTable.UpdateCounts | common/ECKeyTable.cpp:197-231 | With everything else counted, all stored heights and visible counts are true afterwards; started at a row cut loose, that row holds the sum of its children |
| KeyTables.KeyTable.RotateL | common/ECKeyTable.cpp:819-847 | The pointers, counts and heights become those of the rotated tree, the rows stay the same |
| KeyTables.KeyTable.RotateR | common/ECKeyTable.cpp:849-877 | The mirror image |
| KeyTables.KeyTable.RotateLR | common/ECKeyTable.cpp:879-884 | The pointer moves amount to the double rotation |
| KeyTables.KeyTable.RotateRL | common/ECKeyTable.cpp:886-891 | The mirror image |
| KeyTables.KeyTable.GetBalance | common/ECKeyTable.cpp:893-904 | Difference of the stored heights below a row, 0 for none |
| KeyTables.KeyTable.Restructure | common/ECKeyTable.cpp:906-928 | The pointers become those of the repaired subtree in the same context |
| KeyTables.KeyTable.RestructureRecursive | common/ECKeyTable.cpp:930-936 | Walking up terminates, gives the tree that the pass gives as a function, keeps the in-order sequence, and makes the tree balanced if the walk can repair it |
| KeyTables.KeyTable.Next | common/ECKeyTable.cpp:760-777 | The cursor moves one place on in the in-order sequence, hidden rows included, and ends past the last |
| KeyTables.KeyTable.Prev | common/ECKeyTable.cpp:779-797 | The cursor moves one place back; from the first row to the sentinel, from there past the end, from past the end to the last visible row |
| KeyTables.KeyTable.CurrentRow | common/ECKeyTable.cpp:696-720 | For null, the sentinel or a row of the table: the number of visible rows before it; for a row just unlinked, what its last pointers and counts come to, whatever the tree looks like now |
| KeyTables.KeyTable.GetRowCount | common/ECKeyTable.cpp:685-693 | The number of visible rows and the row number of the cursor |
| KeyTables.KeyTable.GetBookmark | common/ECKeyTable.cpp:529-544 | The rank of the marked row, a warning if it changed, an error for an unknown bookmark |
| KeyTables.KeyTable.SeekDown | common/ECKeyTable.cpp:651-682 | The descent terminates at a node with exactly `dest` visible rows before it, or past the end, for any mix of hidden rows |
| KeyTables.KeyTable.SeekRow | common/ECKeyTable.cpp:592-683 | Seeking puts the cursor where CurrentRow gives the clamped target back, and reports the distance moved; an empty table leaves it on the sentinel |
| KeyTables.KeyTable.NodeLess | common/ECKeyTable.cpp:82-90 | The sentinel is before every row, rows by their columns |
| KeyTables.KeyTable.FindParent | common/ECKeyTable.cpp:407-422 | The descent ends at the hole of the insert position |
| KeyTables.KeyTable.KeyAbove | common/ECKeyTable.cpp:427-437 | Walking up from a left child finds the key of the row before the new place |
| KeyTables.KeyTable.InsertRow | common/ECKeyTable.cpp:403-457 | The row comes to its place in the sequence, links, counts, balance and id map are right, and the key reported is that of its in-order predecessor |
| KeyTables.KeyTable.DeleteOneChild | common/ECKeyTable.cpp:247-274 | Exactly this row leaves the sequence; links, counts and balance are right again; the tree is the child risen in its place, and the row keeps its last pointers |
| KeyTables.KeyTable.Predecessor | common/ECKeyTable.cpp:277-280 | The walk finds the last row of the left subtree, the in-order predecessor |
| KeyTables.KeyTable.SwapInPredecessor | common/ECKeyTable.cpp:282-309 | The pointer moves put the predecessor in the place of the row and its left subtree in its own |
| KeyTables.KeyTable.RecountAfterSwap | common/ECKeyTable.cpp:311-314 | Both recounts together leave every stored count true, even if the first starts at the row just cut out |
| KeyTables.KeyTable.RebalanceAfterSwap | common/ECKeyTable.cpp:315-318 | The two walks together leave a balanced tree with the same sequence: the one that a single pass over the repaired left side gives |
| KeyTables.KeyTable.DeleteTwoChildren | common/ECKeyTable.cpp:275-319 | The same; both passes together give the functional delete of the top, and the row keeps the last pointers and counts the steps gave it |
| KeyTables.KeyTable.DeleteNode | common/ECKeyTable.cpp:246-319 | For a row with any children exactly this row leaves; its row number is then its old rank less its setback in the old tree |
| KeyTables.KeyTable.InvalidateBookmark | common/ECKeyTable.cpp:577-590 | Exactly the bookmarks on this row are dropped |
| KeyTables.WithoutRowExactly | common/ECKeyTable.cpp:577-590 | A bookmark stays as it was exactly if it is not on the row |
| KeyTables.KeyTable.MoveCursorOff | common/ECKeyTable.cpp:321-325 | A cursor on the deleted row goes one back and one on from its row number; any other cursor stays |
| KeyTables.KeyTable.DeleteRow | common/ECKeyTable.cpp:233-335 | Exactly the row of this id leaves sequence and id map, bookmarks on it go; a cursor on it lands by its old rank and setback, on the promised row exactly if MovesOn; an unknown id changes nothing |
| KeyTables.KeyTable.MovesOnPlainly | common/ECKeyTable.cpp:321-325 | With no row hidden the promise is kept exactly for the second row, for a later one that is no right child and has at most one child, and for the last one of three or more |
| KeyTables.KeyTable.NumberLeftBehind | common/ECKeyTable.cpp:696-720 | The number the walk finds for a deleted row, through pointers into a tree rebalanced since, is its old rank less its setback |
| KeyTables.KeyTable.PreviousKey | common/ECKeyTable.cpp:362-385 | The key of the in-order predecessor of a row that stays |
| KeyTables.KeyTable.ReplaceRow | common/ECKeyTable.cpp:389-462 | The old row of the id goes if there is one, the new one comes to its place among the others, and a cursor on the old one follows |
| KeyTables.KeyTable.ModifyRow | common/ECKeyTable.cpp:337-462 | A row of the id is there afterwards: with the old columns and nothing changed if neither old nor new is less than the other, else with the new ones; then it stands at its place, the cursor follows the id, and the predecessor is reported |
| KeyTables.KeyTable.UpdateRow | common/ECKeyTable.cpp:464-479 | Every update keeps the table valid and turns the list it stands for into what the same update makes of a sorted list; after a modify the row has the new columns, or the old ones if neither is less than the other |
| KeyTables.KeyTable.ListOfOrder | common/ECKeyTable.cpp:464-479 | The id map and the equality test of the code are those of the list |
| KeyTables.KeyTable.UpdatePartialSortKey | common/ECKeyTable.cpp:1123-1142 | One column replaced is a modify with the other columns and the hidden flag kept: columns, place, predecessor, cursor and bookmarks as there; a column too far is refused |
| KeyTables.KeyTable.SeekId | common/ECKeyTable.cpp:519-527 | The cursor goes to the row of the id |
| KeyTables.KeyTable.CreateBookmark | common/ECKeyTable.cpp:546-565 | A new id bound to the cursor and its rank, refused at the limit |
| KeyTables.KeyTable.FreeBookmark | common/ECKeyTable.cpp:567-575 | Exactly this bookmark goes |
| KeyTables.KeyTable.Clear | common/ECKeyTable.cpp:484-517 | The depth-first walk terminates and leaves an empty valid table |
| KeyTables.KeyTable.QueryRows | common/ECKeyTable.cpp:728-758 | Forward: the keys from the cursor on, as many as asked for, left, and counted; the cursor ends behind them or stays |
| KeyTables.KeyTable.ReadAll | common/ECKeyTable.cpp:728-777 | Page after page of any positive sizes from row 0 lists each visible row, in order, and no key twice |
| KeyTables.KeyTable.GetPreviousRow | common/ECKeyTable.cpp:799-817 | The key of the last row before this one that is not hidden, else the empty key; the cursor is restored |
| KeyTables.KeyTable.HideRows | common/ECKeyTable.cpp:964-996 | Hides exactly the category under the header and lists its keys, row by row, order unchanged, counts true; a cursor in it moves to the next row that is not hidden |
| KeyTables.KeyTable.UnhideRows | common/ECKeyTable.cpp:999-1031 | Shows exactly the rows of the block under the header with the first row's number of columns, and lists their keys; in a sorted table the block is the category |
| KeyTables.KeyTable.GetRowsBySortPrefix | common/ECKeyTable.cpp:944-962 | The keys of header and block, in a sorted table the category; the empty list if the header compares less than itself; the cursor is restored |
| KeyTables.KeyTable.LowerBound | common/ECKeyTable.cpp:1033-1060 | The cursor ends on the first row not less than the key |
| KeyTables.KeyTable.Find | common/ECKeyTable.cpp:1063-1088 | Succeeds exactly if an equivalent row exists, with the key of the first; the cursor is restored |
| TableSpec.PutRefines | common/ECKeyTable.cpp:407-451 | Inserting at the fitting place of what is left is the list's update |
| TableSpec.RunOrdered | common/ECKeyTable.cpp:464-479 | Every run of updates keeps the list sorted and every id at one place |
| TableSpec.RunKeys | common/ECKeyTable.cpp:464-479 | An id is there after a run exactly if the last update naming it put it there, or none did and it was there |
| TableSpec.PutPuts | common/ECKeyTable.cpp:337-462 | After a modify the row of the id is the one given, or the one that was there if neither is less than the other; no other row changes |
| TableSpec.DeleteDeletes | common/ECKeyTable.cpp:233-335 | After a delete there is no row of the id, and no other row changes |
| TableSpec.RunRows | common/ECKeyTable.cpp:464-479 | The row of an id after a run: the columns of the last modify naming it, as far as less can tell; none after a delete; the one there was if no update names it |
| TableSpec.HidingKeepsOrdered | common/ECKeyTable.cpp:964-1031 | Hiding and showing rows keeps the table sorted |
| TableRuns.Replay | common/ECKeyTable.cpp:464-479 | Any run of updates keeps the tree valid and shallow; on a sorted table, with rows of one schema, it equals the same run on a sorted list |
| TableRuns.Perform | common/ECKeyTable.cpp:464-1088 | Any run of any of these calls, on any rows, keeps the tree linked, counted, balanced and shallow, cursor and bookmarks on live rows; a sorted table stays sorted if what is brought in has its schema |
| Base64.Encode | common/stringutil.cpp:639-673 | The loops compute the 24-bit groups of section 4 of RFC 4648, zero-filled and padded at the end |
| Base64.Decode | common/stringutil.cpp:675-708 | The loops compute the bytes of the leading run of alphabet characters, i left-over digits giving i - 1 bytes |
| Base64.Split | common/stringutil.cpp:651-654 | The masks and shifts are the four base-64 digits of the group |
| Base64.Join | common/stringutil.cpp:688-690 | The masks and shifts are the bytes of the group, each as soon as its digits are known |
| Base64.CharsAreTheTable | common/stringutil.cpp:634-637 | The digits are the alphabet of table 1 in section 4 of RFC 4648, in order, and looking up undoes it |
| Base64.EncodedDigits | common/stringutil.cpp:639-673 | The four digits of each group, six bits of its bytes each from the top down, padding where there is no byte |
| Base64.DecodedBytes | common/stringutil.cpp:675-708 | Each byte decoded, out of the two digits it lies in |
| Base64.EncodedShape | common/stringutil.cpp:639-673 | The length is 4 * ceil(n / 3), digits first, then only padding |
| Base64.RoundTrip | common/stringutil.cpp:634-708 | Decoding an encoding gives the bytes back, also with anything appended after the padding |
| Base64.EncodingIsInjective | common/stringutil.cpp:639-673 | Different byte strings have different encodings |
| ThreadPools.ThreadPool.constructor | common/ECThreadPool.cpp:32-35 | The pool after its first setThreadCount, with as many of the threads the system has |
| ThreadPools.ThreadPool.Enqueue | common/ECThreadPool.cpp:54-62 | Does what the step says, and keeps the invariant |
| ThreadPools.ThreadPool.ThreadCount | common/ECThreadPool.cpp:84-87 | Threads less requests to terminate |
| ThreadPools.ThreadPool.SetThreadCount | common/ECThreadPool.cpp:96-138 | Up to its return or first sleep it does what the step says: the branches, the wakeups, no more threads created than wanted and no fewer than there are to be had; it returns at once exactly if it is not to wait or no more than `goal` threads are there |
| ThreadPools.ThreadPool.Resume | common/ECThreadPool.cpp:131-138 | Waking from the sleep it returns exactly if no more than `goal` threads are left, and else sleeps again |
| ThreadPools.ThreadPool.GetNextTask | common/ECThreadPool.cpp:151-174 | One worker: leaves and serves a request if there is one, else takes the first task, else sleeps |
| ThreadPools.ThreadPool.JoinTerminated | common/ECThreadPool.cpp:179-185 | Every terminated thread is joined and forgotten |
| ThreadPools.FetchIsSound | common/ECThreadPool.cpp:151-174 | A worker's step keeps the invariant and never changes threadCount() |
| ThreadPools.StepIsSound | common/ECThreadPool.cpp:54-215 | Every step keeps the invariant: a worker asleep unnotified means queued tasks plus requests do not exceed the workers already notified |
| ThreadPools.RunIsSound | common/ECThreadPool.cpp:54-215 | So does every run |
| ThreadPools.RunAsserts | common/ECThreadPool.cpp:96-138 | Over a run with one controller the closing assertions all hold exactly if no thread creation failed |
| ThreadPools.StepAsserts | common/ECThreadPool.cpp:96-138 | Only setThreadCount changes threadCount(), to its goal if every creation succeeds |
| ThreadPools.StepWaits | common/ECThreadPool.cpp:131-138 | setThreadCount sleeps exactly as long as it is to wait and there are more threads than its goal; nothing else wakes or stops it |
| ThreadPools.WaitEndsWithEnoughGone | common/ECThreadPool.cpp:96-138 | Over runs: a waiting setThreadCount that has returned did so when no more than its goal were left |
| ThreadPools.RequestsComeFirst | common/ECThreadPool.cpp:151-174 | A worker leaves exactly if a request is open, takes a task exactly if none is and there is one, and sleeps otherwise |
| ThreadPools.StepJoins | common/ECThreadPool.cpp:54-62 | Who joins leaves no ended thread behind, and one task or one request to end wakes at most one worker |
| ThreadPools.FirstInFirstOut | common/ECThreadPool.cpp:54-62 | Tasks taken followed by tasks queued are all that were enqueued, in order, each once |
| ThreadPools.WorkersFinish | common/ECThreadPool.cpp:151-215 | A run of awake workers is no longer than the work there was |
| ThreadPools.NobodyIsForgotten | common/ECThreadPool.cpp:151-174 | When no worker is awake the queue is empty, every request is served, and no controller waits unnotified |
| FifoBuffers.FifoBuffer.constructor | common/ECMemStream.cpp:371-373 | A new buffer is empty and open |
| FifoBuffers.FifoBuffer.BeginWrite | common/ECMemStream.cpp:397-407 | The tests before the lock |
| FifoBuffers.FifoBuffer.GoOnWriting | common/ECMemStream.cpp:408-438 | From the lock to return or sleep: what is accepted is the front of what was left, and asleep it has the rest left; success only with all of it, giving up only if the reader closed |
| FifoBuffers.FifoBuffer.WriteTimesOut | common/ECMemStream.cpp:416-420 | The call ends and keeps what it has accepted |
| FifoBuffers.FifoBuffer.ReadTimesOut | common/ECMemStream.cpp:479-483 | The call ends and keeps what it has returned |
| FifoBuffers.FifoBuffer.BeginRead | common/ECMemStream.cpp:461-471 | The tests before the lock |
| FifoBuffers.FifoBuffer.GoOnReading | common/ECMemStream.cpp:472-500 | From the lock to return or sleep: what is returned is the front of the store, and asleep it has that much less to read; short only if the writer closed and nothing is left, and then all there will ever be was returned exactly if no Write is under way |
| FifoBuffers.FifoBuffer.Close | common/ECMemStream.cpp:508-522 | Closing an end wakes the other |
| FifoBuffers.FifoBuffer.IsClosed | common/ECMemStream.cpp:543-556 | Whether the ends asked for are closed |
| FifoBuffers.StepIsSound | common/ECMemStream.cpp:390-522 | Every step keeps: accepted is returned followed by stored, the store is not overfull, who is under way has something left, an unnotified sleeper has its reason |
| FifoBuffers.RunIsSound | common/ECMemStream.cpp:390-522 | So does every run, and reader and writer never both sleep unnotified if there is any room |
| FifoBuffers.NoRoomDeadlocks | common/ECMemStream.cpp:408-492 | With a maximum of 0 any write and any read both do |
| FifoBuffers.NothingIsLost | common/ECMemStream.cpp:390-522 | While nobody closes the reading end or times out writing, bytes returned, stored and still to be written are all bytes offered, in order |
| FifoBuffers.ReadIsBounded | common/ECMemStream.cpp:461-500 | Over runs: while a Read is under way what it has returned and what it has left are together its count; it ends short only by a timeout or a closed writer with nothing stored |
| FifoBuffers.ReadReturnsCount | common/ECMemStream.cpp:461-500 | So a Read returns the next bytes accepted, never more than its count, and fewer only then |
| FifoBuffers.WriteIsInOrder | common/ECMemStream.cpp:390-438 | Over runs: what a Write has put in is the front of its data and the rest is what it has left; it ends short only by a timeout or a closed reader |
| FifoBuffers.StepCloses | common/ECMemStream.cpp:508-522 | Close and nothing else closes an end |
| FifoBuffers.ClosedForGood | common/ECMemStream.cpp:397-471 | From then on no call begins at that end and nothing gets through it, over any run |
| FifoBuffers.EndIsTheEnd | common/ECMemStream.cpp:474-475 | A read that finds the writer closed and the store empty tells of the end; no later byte is ever accepted exactly if no Write is under way or there is no room |
| FifoBuffers.LateBytes | common/ECMemStream.cpp:399-400 | A writer under way, its end closed or not, adds bytes to an empty store with room as soon as it goes on |
| FifoBuffers.EndCanBeWrong | common/ECMemStream.cpp:390-500 | With any room and data: the writing end closed from outside during a Write, and a read told of the end before it has had every byte |
| MemBlocks.MemBlock.constructor | common/ECMemStream.cpp:17-35 | The content is the buffer; with STGM_TRANSACTED so is the saved copy |
| MemBlocks.MemBlock.ReadAt | common/ECMemStream.cpp:57-66 | The bytes from the position on, as many as asked for or left |
| MemBlocks.MemBlock.WriteAt | common/ECMemStream.cpp:68-89 | The content becomes the overwritten byte sequence, gaps zero; without memory nothing changes |
| MemBlocks.MemBlock.Grow | common/ECMemStream.cpp:73-81 | A capacity too small grows by one block more than the whole blocks of the write, so it fits, with the same content and zero slack; without memory nothing changes |
| MemBlocks.MemBlock.Commit | common/ECMemStream.cpp:91-102 | The content becomes the saved copy, also if an earlier Commit lost it; without memory the old copy is lost |
| MemBlocks.MemBlock.Revert | common/ECMemStream.cpp:104-115 | The saved copy becomes the content, also if an earlier Revert lost it; without memory the content is lost |
| MemBlocks.MemBlock.SetSize | common/ECMemStream.cpp:117-128 | The content is cut or filled with zeros; without memory nothing changes |
| MemBlocks.MemBlock.GetSize | common/ECMemStream.cpp:130-134 | The length of the content |
| MemBlocks.OverwrittenAt | common/ECMemStream.cpp:68-89 | Byte by byte: the written bytes in place, the others untouched, zeros in the gap |
| MemBlocks.ResizedAt | common/ECMemStream.cpp:117-128 | Byte by byte: those that fit stay, what is new is zero |
| MemBlocks.RevertRestores | common/ECMemStream.cpp:91-115 | Whatever is tried after it but a Commit, failing or not, Revert gives back the content of the last Commit or of the creation |
| MemBlocks.RevertsToCreation | common/ECMemStream.cpp:17-35 | So a block created with STGM_TRANSACTED goes back to what it was created with |
| MemBlocks.SavedUntilCommit | common/ECMemStream.cpp:91-102 | Nothing but Commit changes the saved copy, whatever fails |
| MemBlocks.Perform | common/ECMemStream.cpp:17-134 | A run of calls, any of which may run out of memory, is the same run on a byte sequence with a saved copy; with memory every call succeeds |
| MemBlocks.FailedWritesDoNothing | common/ECMemStream.cpp:68-128 | A run is the run without the calls of Write and SetSize that failed |
| Unknowns.Unknown.Create | common/ECUnknown.cpp:18-31 | A published object: counted once, no children, no parent |
| Unknowns.Unknown.AddRef | common/ECUnknown.cpp:29-31 | The count goes up by one and is returned |
| Unknowns.Unknown.Release | common/ECUnknown.cpp:33-46 | One user less, and the cascade of frees that follows from it |
| Unknowns.Unknown.AddChild | common/ECUnknown.cpp:54-61 | Child and parent know each other |
| Unknowns.Unknown.SetParent | common/ECUnknown.cpp:80-86 | The parent is set, once |
| Unknowns.Unknown.RemoveChild | common/ECUnknown.cpp:63-78 | The child goes from the list, and the parent too if nothing else keeps it; terminates |
| Unknowns.Unknown.Suicide | common/ECUnknown.cpp:124-140 | The object is freed, then its parent told; terminates |
| Unknowns.Unknown.IsParentOf | common/ECUnknown.cpp:95-102 | The walk up finds proper ancestors, and terminates |
| Unknowns.Unknown.IsChildOf | common/ECUnknown.cpp:111-119 | The search down terminates and agrees with the walk up |
| Forests.ReleasedExactly | common/ECUnknown.cpp:33-46 | A release frees exactly the objects left without a count on themselves or on anything below them, and what is left is a forest |
| Forests.DestroyedExactly | common/ECUnknown.cpp:124-140 | The upward cascade frees exactly those |
| Forests.AdoptedIsRanked | common/ECUnknown.cpp:54-61 | Adoption keeps the forest free of cycles |
| Forests.StepIsForest | common/ECUnknown.cpp:29-86 | Every operation keeps a forest: links agree both ways, no cycles, everything counted or with children |
| Forests.RunIsForest | common/ECUnknown.cpp:29-140 | So does every run; nothing there has a freed parent or child, and everything there is needed |
| Forests.RunCounts | common/ECUnknown.cpp:29-86 | Over a run the count of an object is the users it had, plus those that came, less those that released it; its parent is who adopted it; and it is there as long as it has users |
| Forests.AncestorsAreAbove | common/ECUnknown.cpp:95-102 | What the walk up finds are the proper ancestors, and nothing is its own |
| Forests.AncestryAgrees | common/ECUnknown.cpp:95-119 | a.IsParentOf(b) exactly if b.IsChildOf(a), in every forest |
| NamedProps.MoveKeepsExactly | ECtools/dbadm.cpp:145-154 | Moving a name to a free id keeps what every row refers to exactly if no row has the tag of that id |
| NamedProps.MoveIsFaithful | ECtools/dbadm.cpp:145-154 | Such a move loses no row and leaves no row with the tag of a free id |
| NamedProps.MoveIsPlaced | ECtools/dbadm.cpp:151-154 | No name is lost and no two run into each other |
| NamedProps.TagsFit | ECtools/dbadm.cpp:133-150 | The tag of an id is 0x8501 above it, and those of the ids dealt with lie below 0xFFFF |
| NamedProps.MergedExactly | ECtools/dbadm.cpp:269-294 | In one table exactly the rows of either tag that are not the only ones of their owner are lost; the others stay, under the new tag |
| NamedProps.OneIdLosesExactly | ECtools/dbadm.cpp:269-277 | An owner with rows under one of the two ids only loses them exactly if there are two or more |
| NamedProps.OneIdLosesInTheEnd | ECtools/dbadm.cpp:255-341 | The same over the whole repair, for an owner with rows under one of all the ids of a name |
| NamedProps.MergedAllTags | ECtools/dbadm.cpp:255-341 | After all merges no row has the tag of an id merged away, and no owner two rows with the tag of one merged into |
| NamedProps.DoubleIsMerged | ECtools/dbadm.cpp:237-248 | Every id of a name that stands under several is merged away or merged into |
| NamedProps.DuplicatesComplete | ECtools/dbadm.cpp:237-248 | The query finds every id whose name occurs under a smaller one |
| NamedProps.LeastIsNoDuplicate | ECtools/dbadm.cpp:237-248 | No id merged into is itself merged away |
| Compaction.MoveDown | ECtools/dbadm.cpp:132-156 | Each move takes an id above the number of ids into the first gap |
| Compaction.Compacted | ECtools/dbadm.cpp:132-139 | Without a gap below the next id the ids are 1..n, and exactly those that started above n have moved |
| Compaction.WorkCounted | ECtools/dbadm.cpp:100-123 | The precomputed count is the number of ids above n |
| Dbadm.MergeTable | ECtools/dbadm.cpp:264-334 | One table, stopped or failing between any two statements: it is as before, without the rows of either tag that are not alone, or merged exactly; merged, and the temporary table gone, if neither happens. The user is heard between any two statements, no statement is run after that, and it fails only if one does |
| Dbadm.PruneTable | ECtools/dbadm.cpp:269-287 | The rows that are not alone go by way of the temporary table, which is gone afterwards unless it stops or fails on the way |
| Dbadm.StageKeeps | ECtools/dbadm.cpp:264-334 | In each of these stages the rows still there keep their names, and those gone had a rival of the same owner for a name that stands under two ids |
| Dbadm.MergeName | ECtools/dbadm.cpp:255-341 | The old name goes only after all six tables are merged and have no row with its tag, and it goes unless a statement fails or the user stops it |
| Dbadm.RepairDups | ECtools/dbadm.cpp:231-353 | Wherever it stops: rows still there keep their names, rows gone had a rival for a name under two ids, names gone have no rows left. It fails only if a statement does. At the end every table is the result of all the merges in turn, no two names in range are equal, and no owner has two rows of a name that stood under several ids |
| Dbadm.Survey | ECtools/dbadm.cpp:83-131 | The free ids, the ids from above, and the number of ids above n as what there is to move |
| Dbadm.MoveId | ECtools/dbadm.cpp:145-154 | One id in all tables, then in the names; if a statement fails, and only then, the names are as before and the new tag is in the first tables only |
| Dbadm.MoveNext | ECtools/dbadm.cpp:133-156 | The move goes to the least free id and keeps everything accounted for; it fails only if a statement does, and then moves no name |
| Dbadm.CloseGaps | ECtools/dbadm.cpp:132-156 | The loop over the ids from above: stopped by the user it is halfway, else no id below the next one is free, and it moves no more than were counted; it fails only in a move, whose rows alone may be in both states. A stop already asked for leaves everything as it is |
| Dbadm.Defrag | ECtools/dbadm.cpp:83-172 | No name is lost, whatever fails. Given no tags of free ids no row loses its name, wherever the user stops it, but for the rows of one move if a statement of it fails; it fails only if a statement does. At the end ids 1..n with as many moves as counted, never more |
| Dbadm.OneToCount | ECtools/dbadm.cpp:100-123 | So the ids in range are 1 to their number |
| Configs.ConfigImpl.constructor | common/ECConfigImpl.cpp:85-93 | Defaults and aliases loaded in order |
| Configs.ConfigImpl.InitDefaults | common/ECConfigImpl.cpp:307-327 | Defaults applied in order, aliases only at first |
| Configs.ConfigImpl.AddSetting | common/ECConfigImpl.cpp:485-567 | Permission, flags, environment, size check, errors and warnings as specified |
| Configs.ConfigImpl.MayStore | common/ECConfigImpl.cpp:501-536 | Permission by group, reload or overwrite, and the flags that result |
| Configs.ConfigImpl.Store | common/ECConfigImpl.cpp:538-566 | The value stored, out of the environment or not |
| Configs.ConfigImpl.InsertOrReplace | common/ECConfigImpl.cpp:221-245 | Exactly this key, value cut to 1023 characters |
| Configs.ConfigImpl.ReadConfigFile | common/ECConfigImpl.cpp:340-418 | Terminates on cyclic includes, opens no file twice and every one it reads that it can, restores the current file, and amounts to the flattened lines |
| Configs.ConfigImpl.HandleDirective | common/ECConfigImpl.cpp:420-439 | include, propmap, unsupported and unknown directives |
| Configs.ConfigImpl.HandleInclude | common/ECConfigImpl.cpp:441-454 | Relative paths beside the current file |
| Configs.ConfigImpl.HandlePropMap | common/ECConfigImpl.cpp:456-460 | Read in the property map group |
| Configs.ConfigImpl.InitConfigFile | common/ECConfigImpl.cpp:329-338 | A whole load of the file set |
| Configs.ConfigImpl.LoadSettings | common/ECConfigImpl.cpp:95-102 | A missing file may be passed over |
| Configs.ConfigImpl.ReloadSettings | common/ECConfigImpl.cpp:156-170 | Defaults, then the file set; unless both directives are supported no ordinary setting without RELOADABLE changes |
| Configs.ConfigImpl.ParseParams | common/ECConfigImpl.cpp:126-154 | The array becomes the long options in order followed by the others, last first; the options are applied in order |
| Configs.ParamsAreKept | common/ECConfigImpl.cpp:132-140 | The reordering is a permutation |
| Configs.ParamsAreSplit | common/ECConfigImpl.cpp:132-140 | Long options come first, everything else behind them |
| Settings.SizesAreConvertedExactly | common/ECConfigImpl.cpp:538-566 | An accepted value of a size setting is stored as a number exactly if it is not out of the environment, or its line says it is a size, or both are the same text |
| Settings.FileLinesHaveNoFlags | common/ECConfigImpl.cpp:400-416 | The lines of a file say nothing of the kind |
| Settings.EnvironmentSizeStaysText | common/ECConfigImpl.cpp:538-552 | A file with one line for which the text is stored |
| Settings.ReloadedExactly | common/ECConfigImpl.cpp:501-536 | A setting comes out of a reload exactly as it was, or with the last value given by a line that may override it: of its group out of a property map, else if it is reloadable; it never becomes reloadable or ceases to be |
| Settings.ReloadedValue | common/ECConfigImpl.cpp:156-170 | That value is the last one in the files; a reloadable setting they no longer name goes back to its last default |
| Settings.ReloadLeaves | common/ECConfigImpl.cpp:156-170 | Unless include and propmap are both supported, it comes out as it was if its group is not that of the property maps |
| Settings.BothDirectivesBreakIt | common/ECConfigImpl.cpp:441-460 | With both, a concrete set of files overrides such a setting in a reload |
| Settings.ReloadIsSafeExactly | common/ECConfigImpl.cpp:156-170 | So reloads are safe for all files exactly if not both directives are supported |
| Settings.CommandLineSurvives | common/ECConfigImpl.cpp:532-535 | A value from the command line survives any number of reloads, under that condition |
| Settings.FileModes | common/ECConfigImpl.cpp:340-460 | Every line of a reload is read to reload, as a property map, or out of a file a property map includes |
| Settings.FailsExactly | common/ECConfigImpl.cpp:340-418 | Reading fails exactly if it leaves a complaint, and that ends it |
| Settings.IncludedOnce | common/ECConfigImpl.cpp:368-371 | A file that has been read is passed over when it is included again, in whatever mode |
| Settings.DirectiveSays | common/ECConfigImpl.cpp:420-460 | A directive ends at the first blank; unknown and unsupported ones are warned of and passed over, one without an argument throws |
| Settings.NameAndValue | common/ECConfigImpl.cpp:395-416 | A line gives name and value without the blanks around them |
| Settings.NothingAssigned | common/ECConfigImpl.cpp:383-416 | A line without a name or a value gives nothing, and one that starts with # neither |
| Settings.IncludeIsBeside | common/ECConfigImpl.cpp:441-454 | An include without a leading slash is beside the file it is in |
| Settings.OptionAndValue | common/ECConfigImpl.cpp:126-154 | An option gives name and value without the blanks around them, dashes of the name read as underscores; without a value it is an error |
| Settings.WhoMaySet | common/ECConfigImpl.cpp:501-536 | The loads that may set a setting: the defaults all, files and command line the known ones, a reload the reloadable ones, a property map new ones and those of its group |
| Settings.LineIsStored | common/ECConfigImpl.cpp:485-567 | An accepted line replaces exactly the setting of its name or alias, with its flags but for RELOADABLE after a parameter and the mark of the default; a refused one changes nothing and leaves the error that fits |
| Settings.TextIsStored | common/ECConfigImpl.cpp:538-566 | What is stored is the text given, or the one the environment has for it, up to 1023 characters; a size setting takes numbers only |
| Settings.WarnedExactly | common/ECConfigImpl.cpp:494-546 | Exactly who is warned of an alias, an obsolete or unused setting, or a gap in the environment |

## Left out

- Backward QueryRows: its stop test compares with the top node of the tree, so it does not enumerate to the first row.
- GetRow, GetObjectSize and the destructor of the key table: plain lookups and accounting.
- UpdateRow: always reports a previous row; the code lets the caller pass no place for it. A delete reports the empty key where the code leaves the caller's value.
- Errors of CurrentRow for a missing output pointer, null buffers of the FIFO, and a Write that runs out of memory.
- ECFifoBuffer::Flush: its wait predicate already holds once the writer is closed. Several readers or several writers at once.
- BeginWrite: the test for a closed writer is its own step, as it is made before the lock is taken.
- Several threads calling setThreadCount at once, which can break its closing assertion; front_item_age, queue_length and thread_counts.
- ECMemStream on top of ECMemBlock: COM interfaces, callbacks, CopyTo.
- ReadAt: requires a position within the data; the code subtracts without a test.
- A Write, SetSize or Commit after a Revert without memory, and a Revert after a Commit without memory, read a buffer that is gone; the run of `MemBlocks.Perform` passes them over. The constructor of ECMemBlock throws without memory.
- WriteAt: does not model 32-bit wrap-around of position plus length.
- Release: requires a count above zero, as the assertion in the code does; AddChild requires a child without a parent that is not an ancestor.
- Destructors of derived classes that release other objects during the cascade of ECUnknown, and races between Release and AddRef.
- Defrag: its test for tags from 0xFFFF on cannot succeed for ids up to 31485 and is not modelled. Times and log messages are left out of it and of the repair.
- Ids above 31485, np_remove_unused, np_remove_xh and the other actions of the tool.
- ECConfigImpl: GetSetting and its variants, HasErrors, dump_config, the public AddSetting, and null strings among the defaults.
- ReadConfigFile: lines are given as fgets delivers them; read errors in the middle of a file are left out. An include without an argument at the end of a file throws in the code and ends the load as Thrown in the model.
- urlEncode and urlDecode, ECCache, calendar arithmetic, gateways, MAPI calls and the rest of the repository.
