# seqcomm sequence-storage pipeline in Dafny

This project models the storage pipeline of seqcomm, a C/MPI program that reads
the sequences named by a samtools `.fai` index out of a FASTA file, spreads them
over a square grid of processes, and shares them along grid rows and columns.
The model proves properties about each stage. The MPI transport is replaced by
its sequential meaning: every collective becomes a fold over the per-rank
values in rank order.

- **The `.fai` index** (`FaiFormat`, `ElbaFaidx`, `LegacyFastaIndex`, `Partition`).
  - The root process splits the index text at every newline and drops any
    unterminated tail.
  - It reads LENGTH, OFFSET and LINEBASES from each line and captures the
    line's name into a string table.
  - It grows its record table to `max(256, next_pow2(n + 1))` when the table
    is full.
  - It then deals the records out in linear blocks: `N / P` records per rank,
    with the remainder going to the last rank.
  - The current reader fails when a lower rank would get nothing. The older
    reader does not check, and the model proves what that lets through.
  - Writing an index and parsing it back gives the same records and names.
- **The packed sequence store** (`Nt4Code`, `PackedLayout`, `FastaChunk`,
  `ElbaSeqStore`, `LegacySeqStore`).
  - Each rank reads the byte span its records cover and unwraps each
    line-wrapped record: base j is at `pos + j + j / bases`.
  - `push` packs the bases 2 bits each through `nt4map`, and `get` decodes
    them.
  - Decoding a sequence of known bases gives back its canonical letters. The
    model also proves the case outside that: an unknown symbol (code 4)
    leaves a stray bit that turns the next base of the same byte from A to C,
    unless it sits in the last slot of the byte.
  - Global ids come from an exclusive scan of the per-rank record counts.
- **The row and column share** (`ElbaSeqShare`).
  - Each rank gathers the stores of its grid row and of its grid column.
    Lengths, gids and bytes are concatenated in rank order, and offsets are
    shifted by the bytes of lower ranks.
  - Main theorem: the result is a valid store, and its entry `displs[k] + i`
    decodes to entry i of rank k.
- **Growable containers** (`ElbaStr`, `ElbaStrStore`, `MString`).
  - These are the `elba_str_t` string, the `elba_str_store_t` string table,
    and the older `string_t`/`string_store_t`. They are classes whose methods
    update their fields in place.
  - Each method keeps the length below the capacity for `elba_str_t` and at
    most the capacity for `string_t`, and states the new contents.
  - The older string store's scatter sends each rank its block of strings
    with rebased displacements.
- **Power-of-two rounding** (`Size`).
  - `next_pow2` is modelled bit for bit on 64-bit words. It is the least
    power of two at or above x for 1 <= x <= 2^63, and it wraps to 0 above
    that.
  - `up2` (`MString`) agrees with it for x >= 2.
- **Grid arithmetic** (`CommGrid`).
  - The perfect-square check uses an integer square root.
  - A process's row and column follow from its rank.
  - The process's position inside its row and column groups is fixed by the
    rank-keyed split.

Return codes follow `inc/elba_error.h` (`ElbaError`). A C NULL argument is a
nullable reference, or `None` for strings. A NULL out argument is a `bool`
saying whether one was passed.

Where the code and its documentation disagree, the model follows the code:
- `up2(x)` of 0 or 1 is 4, not 2. The macro sets x to 2 and then smears and
  increments it (`MString.Up2Small`).
- `nt4map` gives 'N' and 'n' the code of 'A'. `bases[4]` ('N') can never be
  read back from two bits.

## Model

| member | source | states |
|---|---|---|
| Size.SafeInt | inc/size.h:23 | `safe_int` clamps a count to `INT_MAX`: the result is at most `INT_MAX` and at most its argument, and is either the argument or `INT_MAX` |
| Size.SafeIntExact | inc/size.h:23-24 | `is_safe_int(x)` holds exactly when `safe_int(x)` leaves `x` unchanged |
| Size.NextPow2Zero | inc/size.h:29-42 | `next_pow2(0)` is 1: the decrement is skipped and the smeared zero is incremented |
| Size.NextPow2IsPow2 | inc/size.h:29-42 | for 1 <= x <= 2^63 the 64-bit result of `next_pow2` is a power of two |
| Size.NextPow2AtLeast | inc/size.h:29-42 | for 1 <= x <= 2^63 the result is at least x |
| Size.NextPow2Smallest | inc/size.h:29-42 | the result is at most every 64-bit power of two that is at least x, so it is the least such power |
| Size.NextPow2Fixed | inc/size.h:29-42 | a power of two up to 2^63 is its own `next_pow2` |
| Size.NextPow2Idempotent | inc/size.h:29-42 | rounding twice equals rounding once on 1 .. 2^63 |
| Size.NextPow2Wraps | inc/size.h:31-41 | above 2^63 every bit is smeared on and the final `x+1` wraps to 0 |
| Size.SmearedAllOnes | inc/size.h:34-41 | once bit 63 of `x-1` is set the shifts fill all 64 bits and the increment gives 0 |
| Size.CeilPow2 | inc/size.h:26-42 | the capacity rounding used on unbounded counts: a power of two, at least n, and less than 2n for n >= 1 |
| Size.CeilPow2Smallest | inc/size.h:26-42 | `CeilPow2(n)` is at most every power of two that is at least n |
| Size.CeilPow2Fixed | inc/size.h:26-42 | a power of two is its own rounding |
| Collectives.ExclusiveScan | src/elba_seq_store.c:101-102 | what `MPI_Exscan` with `MPI_SUM` hands each rank: entry k is the sum of the contributions of ranks below k |
| Collectives.ExscanAt | src/elba_seq_store.c:101-102 | rank 0's exclusive sum is 0 (the value the code relies on after initialising `offset`), and a rank's sum plus its own contribution stays within the total |
| Collectives.ExclusiveScanStep | mstring.c:209-238 | the scan starts at 0 and each displacement is the previous one plus the previous count, as the `displs[i+1] = displs[i] + sendcounts[i]` loops build them |
| Collectives.ScanOfSteps | fasta_index.c:97-101 | any sequence built by that recurrence from 0 is the exclusive scan of its counts |
| Collectives.ScanAppend | src/elba_seq_store.c:287-296 | the scan of two concatenated contribution lists is the first scan followed by the second shifted by the first total |
| Collectives.ConcatLength | src/elba_seq_store.c:310-340 | gathering blocks yields as many items as their lengths add up to |
| Collectives.ConcatIndex | src/elba_seq_store.c:310-340 | item i of block k lands at the displacement of block k plus i in the gathered buffer |
| Collectives.ConcatAppend | src/elba_seq_store.c:310-340 | gathering two lists of blocks in sequence equals gathering their concatenation |
| Collectives.ConcatSlices | src/elba_faidx.c:125-136 | blocks cut from one buffer at increasing bounds concatenate back to the buffer's prefix up to the last bound |
| Mem.Realloc | src/elba_str.c:42 | growing a buffer keeps its old contents as a prefix and fills the new tail (zeros in this model) |
| Mem.CopyTerminated | src/elba_str_store.c:65-66 | `memcpy` followed by the terminating NUL: the destination starts with the string, then `'\0'`, and nothing after that changes |
| Mem.MemCpy | src/elba_seq_store.c:287-340 | copying into a buffer at an offset: the prefix before the offset is unchanged, the copied items follow it, and the tail is untouched |
| Mem.Resized | src/elba_faidx.c:96 | the shrinking `realloc` of the record table: the first m items survive and any new slot holds the fill |
| Partition.BlockCount | src/elba_faidx.c:107-119 | ranks below the last get `n / p` records and the last rank gets the remainder, so all counts add up to n |
| Partition.Counts | src/elba_faidx.c:107-119 | the `sendcounts` table: one count per rank, each the rank's `BlockCount` |
| Partition.CountsSum | src/elba_faidx.c:107-119 | the send counts add up to the number of records |
| Partition.DisplOfBlock | src/elba_faidx.c:107-110 | the displacement of rank r is `r * (n / p)` |
| Partition.PlanIsScan | fasta_index.c:97-103 | counts and displacements filled as the loop fills them are the block counts and their exclusive scan |
| Partition.Plan | fasta_index.c:88-103 | the unchecked plan loop fills `sendcounts` with the block counts and `displs` with their exclusive scan |
| Partition.Block | src/elba_faidx.c:125-136 | the records rank r receives: as many as its count |
| Partition.LowerBlock | src/elba_faidx.c:107-110 | a lower rank's block is the slice `[r * (n/p), (r+1) * (n/p))` |
| Partition.BlockAtDispl | src/elba_faidx.c:125-136 | the block is the slice of the root's table starting at the rank's displacement and as long as its count, as `MPI_Scatterv` cuts it |
| Partition.BlockIsSlice | src/elba_faidx.c:125-136 | the block lies between two consecutive partition bounds |
| Partition.Bounds | src/elba_faidx.c:107-119 | the partition bounds start at 0 and end at n |
| Partition.BoundsMonotone | src/elba_faidx.c:107-119 | the partition bounds never decrease |
| Partition.Blocks | src/elba_faidx.c:125-136 | one block per rank |
| Partition.BlocksConcat | src/elba_faidx.c:102-136 | the blocks of all ranks, in rank order, are exactly the records: nothing is lost or duplicated |
| FaiFormat.NextNewline | src/elba_faidx.c:60-63 | `memchr` for the next `'\n'`: None exactly when no newline follows `pos`; otherwise the first newline at or after `pos` |
| FaiFormat.LinesStep | src/elba_faidx.c:58-92 | when a newline ends the line at `pos`, the lines from `pos` are that line followed by the lines after the newline |
| FaiFormat.LinesNoNewline | src/elba_faidx.c:60-66 | no line the parser cuts out contains a newline |
| FaiFormat.LinesSplit | src/elba_faidx.c:58-93 | the lines, each followed by its newline, are exactly the front of the file, and what is left after them holds no newline (the unterminated tail the loop drops at line 63) |
| FaiFormat.LinesOfJoin | src/elba_faidx.c:58-93 | splitting newline-terminated lines followed by an unterminated tail gives back exactly those lines |
| FaiFormat.UpToNul | src/elba_faidx.c:65 | the line `sscanf` sees ends at the first NUL, which the loop writes over the newline |
| FaiFormat.NameOf | src/elba_faidx.c:81-87 | the name pushed for a line is its longest prefix without white space: no white space inside, and the line continues with white space or ends |
| FaiFormat.ScanNumber | src/elba_faidx.c:77 | a `%zu` conversion that succeeds consumes at least one character and stays within the line |
| FaiFormat.ScanField | src/elba_faidx.c:77 | a decimal field followed by a tab or the end of the line scans back to its value and ends right after its digits |
| FaiFormat.DecimalRoundTrip | src/elba_faidx.c:77 | a number written in decimal reads back as itself |
| FaiFormat.ParsableLines | src/elba_faidx.c:58-93 | in a parsable index every line scans to a record |
| FaiFormat.RecordsOf | src/elba_faidx.c:76-77 | one record per line, in line order, each the line's 2nd, 3rd and 4th fields |
| FaiFormat.Records | src/elba_faidx.c:58-96 | as many records as the file has newline-terminated lines |
| FaiFormat.FaiLines | src/elba_faidx.c:58-93 | the lines of a written index are the entries' lines, one per entry |
| FaiFormat.FieldsOf | src/elba_faidx.c:77 | a written `.fai` line is the name followed by tab-separated decimal fields only |
| FaiFormat.FaiLineChars | src/elba_faidx.c:60-65 | a written line holds no newline and no NUL, so `memchr` and `sscanf` see all of it |
| FaiFormat.FaiLineName | src/elba_faidx.c:81-87 | the name taken from a written line is the entry's name |
| FaiFormat.ScanWrittenFields | src/elba_faidx.c:77 | after the name, the written fields scan to the entry's length, offset and line width in bases, skipping LINEWIDTH |
| FaiFormat.ScanFaiLine | src/elba_faidx.c:77 | a written line scans to exactly the entry's record |
| FaiFormat.LinesOfFaiText | src/elba_faidx.c:58-93 | the lines of a written index are its entries' lines |
| FaiFormat.EntryRecords | src/elba_faidx.c:76-77 | the records of a list of entries, in order |
| FaiFormat.ParseFaiText | src/elba_faidx.c:58-96 | round trip: a written index is parsable and parses to exactly the entries' records |
| FaiFormat.EntryNames | src/elba_faidx.c:79-88 | the names of a list of entries, in order |
| FaiFormat.NamesOfFaiLines | src/elba_faidx.c:79-88 | the names taken from written lines are the entries' names |
| FaiFormat.NamesOfFaiText | src/elba_faidx.c:79-88 | round trip: the names captured from a written index are the entries' names |
| ElbaFaidx.RecordRoom | src/elba_faidx.c:69-74 | a full record table grows to 256 or to the power of two above `num_recs + 1`, always more than the records so far |
| ElbaFaidx.NameLength | src/elba_faidx.c:81-85 | the scan for the first white-space character stops at the length of the line's name |
| ElbaFaidx.AddRecord | src/elba_faidx.c:69-77 | the record table grows only when full, to `RecordRoom`; the new record goes at index `num_recs` and the earlier ones are kept |
| ElbaFaidx.PushName | src/elba_faidx.c:79-88 | the name store gains the line's name (`pushl` refuses an empty one) and keeps every earlier name |
| ElbaFaidx.NamesStep | src/elba_faidx.c:79-88 | the names of the first num+1 lines are those of the first num lines plus the next line's name, if it is non-empty |
| ElbaFaidx.NextNames | src/elba_faidx.c:79-88 | after one more line the captured names are the names of one more line |
| ElbaFaidx.ParseLine | src/elba_faidx.c:60-77 | one pass of the loop: the line up to the newline is the next line of the file, and the table holds the records of every line so far |
| ElbaFaidx.ParseStep | src/elba_faidx.c:58-93 | one pass of the loop keeps the loop invariant: records and names of every line before the cursor, the rest of the lines still ahead |
| ElbaFaidx.ParsedAll | src/elba_faidx.c:58-96 | when the loop stops (end of file or no newline left) the trimmed table is exactly the file's records and every line's name was captured |
| ElbaFaidx.ParseIndex | src/elba_faidx.c:53-96 | the root's parse returns exactly one record per newline-terminated line, in order, and appends exactly the lines' names to `names` when it is given |
| ElbaFaidx.CheckedPlan | src/elba_faidx.c:98-119 | the plan fails exactly when a lower rank would get no record (`N / P == 0` with P > 1); otherwise the counts are the block counts and the displacements their exclusive scan |
| ElbaFaidx.Read | src/elba_faidx.c:10-151 | on the root, failure exactly when there are too many processes, with the index untouched; otherwise rank r holds exactly block r of the records, `num_records` is its count, and the names store gained every line's name |
| ElbaFaidx.Free | src/elba_faidx.c:153-160 | NULL gives failure; otherwise the index is zeroed and the call succeeds |
| LegacyFastaIndex.Read | fasta_index.c:9-136 | rank r holds exactly block r of the parsed records, and the read always returns 0 |
| LegacyFastaIndex.UncheckedBlocks | fasta_index.c:97-103 | without the check, more processes than records give every rank but the last an empty block and the last rank all records |
| LegacyFastaIndex.Free | fasta_index.c:138-145 | NULL gives -1; otherwise the index is zeroed and 0 returned |
| CommGrid.ISqrt | src/commgrid.c:16-17 | the truncated square root: s*s <= n < (s+1)*(s+1) |
| CommGrid.ISqrtUnique | src/commgrid.c:16-19 | the square root of a perfect square is its root |
| CommGrid.IsSquareIff | src/commgrid.c:19 | the check `dims*dims == nprocs` holds exactly when nprocs is a perfect square |
| CommGrid.Init | src/commgrid.c:6-44 | NULL gives ELBA_FAILURE; a non-square count gives ELBA_TERMINATE with the grid untouched; otherwise dims is the root, `dims*dims` is the process count, and row and column are `rank / dims` and `rank % dims` |
| CommGrid.Grid.NumProcs | inc/commgrid.h:52 | `commgrid_nprocs` is `dims*dims`, never negative |
| CommGrid.Free | src/commgrid.c:46-57 | NULL gives ELBA_FAILURE; otherwise the grid is zeroed and the call succeeds |
| CommGrid.Coordinates | src/commgrid.c:27-30 | both coordinates are below `dims` and `rank == gridrow * dims + gridcol` |
| CommGrid.RowGroup | src/commgrid.c:33 | the ranks of a row group, by position: position c holds `row * dims + c` |
| CommGrid.ColGroup | src/commgrid.c:34 | the ranks of a column group, by position: position r holds `r * dims + col` |
| CommGrid.RowGroupMembers | src/commgrid.c:33 | a rank is in row group `row` exactly when `rank / dims == row` |
| CommGrid.ColGroupMembers | src/commgrid.c:34 | a rank is in column group `col` exactly when `rank % dims == col` |
| CommGrid.GroupsIncreasing | src/commgrid.c:33-34 | both groups list their ranks in increasing grid rank, the split key |
| CommGrid.SplitRanks | src/commgrid.c:36-41 | a process sits at position `gridcol` of its row group and at position `gridrow` of its column group, the asserted ranks |
| ElbaStr.View | inc/elba_str.h:16-20 | `elba_str_str`: the empty string when the length is 0, otherwise as many characters as the length |
| ElbaStr.Free | src/elba_str.c:12-20 | NULL fails; otherwise data, len and mem are zeroed and the string reads as "" (so freeing again is harmless) |
| ElbaStr.Clear | src/elba_str.c:22-29 | NULL fails; otherwise len becomes 0, `data[0]` becomes NUL only if the string was non-empty, and mem is untouched |
| ElbaStr.Reserve | src/elba_str.c:31-50 | NULL fails; afterwards `mem >= amt + 1` and length and contents are kept; nothing changes when `amt + 1 < mem`, else mem becomes the power of two above `amt` |
| ElbaStr.Grow | src/elba_str.c:52-57 | `grow(amt)` is `reserve(len + amt)`: room for amt more characters and their terminator, contents kept |
| ElbaStr.Lit | src/elba_str.c:59-80 | a NULL string or literal fails with no change; otherwise the string is exactly the literal, NUL-terminated, with mem the power of two above its length |
| ElbaStr.Move | src/elba_str.c:82-93 | NULL fails with no change; otherwise dest takes src's data, len and mem and src is zeroed |
| ElbaStr.Copy | src/elba_str.c:95-116 | NULL fails with dest untouched; otherwise dest holds src's characters, NUL-terminated, with `mem == len + 1` |
| ElbaStr.Ncat | src/elba_str.c:152-164 | NULL or `n == 0` fails with no change; otherwise the first n characters are appended, the result is NUL-terminated and `len < mem` |
| ElbaStrStore.StrStore.Strings | src/elba_str_store.c:23 | the stored strings: string i is the buffer between `displs[i]` and `displs[i+1]` and is never empty |
| ElbaStrStore.StringsOf | src/elba_str_store.c:18-23 | string i of a laid-out buffer is the slice between consecutive displacements |
| ElbaStrStore.LaidWidths | src/elba_str_store.c:7-23 | since `pushl` refuses empty strings, every stored width is positive |
| ElbaStrStore.StringsPush | src/elba_str_store.c:18-23 | appending s to the buffer and its end to `displs` adds exactly s to the strings and keeps the earlier ones |
| ElbaStrStore.NewSlots | src/elba_str_store.c:10-16 | the 4096 fresh displacement slots added when `size + 2 > mem` |
| ElbaStrStore.PushL | src/elba_str_store.c:5-26 | NULL store, NULL string or `len == 0` fails with no change; otherwise exactly the first len characters become the last string, `displs[0] == 0`, `displs[size] == buf.len`, and `size + 1 < mem` |
| ElbaStrStore.GetLen | src/elba_str_store.c:28-35 | fails for `id >= size` or a NULL out argument; otherwise the length of the id-th pushed string |
| ElbaStrStore.MaxGap | src/elba_str_store.c:43-47 | the loop's maximum over the first n widths: at least each of them, one of them, and 0 for none |
| ElbaStrStore.GetMaxlen | src/elba_str_store.c:37-51 | fails only for a NULL out argument; otherwise the largest string length, 0 for an empty store |
| ElbaStrStore.GetStrcpy | src/elba_str_store.c:53-74 | fails for `id >= size` with the destination untouched; otherwise writes exactly string id and a NUL, nothing beyond |
| ElbaStrStore.GetStrdup | src/elba_str_store.c:53-79 | fails for `id >= size` or a NULL out argument; otherwise a fresh copy of string id with its NUL |
| ElbaStrStore.Free | src/elba_str_store.c:81-93 | NULL fails; otherwise the store is back to `ELBA_STR_STORE_INIT`, holding no strings |
| MString.Up2Small | mstring.c:12 | as written, `up2` of 0 or 1 is 4: x is set to 2, smeared to 3 and incremented |
| MString.Up2Large | mstring.c:12 | for x >= 2, `up2(x)` is `next_pow2(x)` |
| MString.Up2IsPow2 | mstring.c:12 | for 2 <= x <= 2^63 the result is a power of two |
| MString.Up2AtLeast | mstring.c:12 | for 2 <= x <= 2^63 the result is at least x |
| MString.Up2Smallest | mstring.c:12 | for x >= 2 the result is at most every power of two that is at least x |
| MString.Up2Nat | mstring.c:12 | the same rounding on unbounded counts: a power of two, at least x and at least 2, and the least such power for x >= 2 |
| MString.MStr.Chars | mstring.c:66-85 | the counted characters of a `string_t`, `len` of them |
| MString.StringPush | mstring.c:66-85 | afterwards `avail >= oldlen + n + 1 + keep_null`, growing to `up2` of that only when short; the contents are the old ones, the n characters, and a counted NUL when `keep_null`; `buf[oldlen + n]` is NUL |
| MString.StringPadNull | mstring.c:50-64 | no change when a NUL already sits at `buf[len]` within capacity; otherwise one counted NUL is appended, growing to `up2(len + 1)` only when full |
| MString.PadNullTerminates | mstring.c:50-64 | after padding, the string ends in a NUL, counted or not |
| MString.Starts | mstring.c:110-115 | the start of every string, with `buf.len` as the end of the last one |
| MString.Pieces | mstring.c:110-115 | string i is the buffer between its start and the next string's start |
| MString.PiecesPush | mstring.c:87-102 | appending s to the buffer and its start to the starts adds exactly s and keeps the earlier strings |
| MString.PiecesConcat | mstring.c:227-236 | consecutive strings a .. b-1 laid end to end are the buffer slice from start a to start b |
| MString.PiecesShift | mstring.c:261-270 | cutting a run of strings out of the buffer and rebasing their starts to 0 gives the same strings |
| MString.Rebased | mstring.c:265-266 | the rebased starts: each start minus the first one |
| MString.SStore.Strings | mstring.c:87-115 | the stored strings of a `string_store_t`, one per push |
| MString.NewSlots | mstring.c:89-94 | the fresh displacement slots a `realloc` adds |
| MString.SStorePush | mstring.c:87-102 | the store gains exactly the first n characters as its last string, at `displs[n] == old buf.len`, without a counted terminator; `avail_displs` grows to `up2(n + 1)` only when full |
| MString.GetStringLength | mstring.c:110-115 | the length of the id-th pushed string (the next start, or `buf.len` for the last, minus its start) |
| MString.MaxLen | mstring.c:117-128 | the largest string length, at least each of them and one of them, 0 when empty |
| MString.GetStringCopy | mstring.c:130-136 | writes exactly string id and a NUL, nothing beyond, and returns its length |
| MString.GetStringDup | mstring.c:138-144 | a fresh copy of string id followed by a NUL |
| MString.StringsTile | mstring.c:87-115 | the strings laid end to end are the whole counted buffer |
| MString.CharCounts | mstring.c:227-233 | the char count of rank r is the total length of the strings in its block |
| MString.SumLengths | mstring.c:229-232 | the inner loop adds up exactly the lengths of the strings from `lo` to `lo + count` |
| MString.BlockChars | mstring.c:227-233 | the char count the loop computes for rank r is r's `CharCounts` entry |
| MString.CharCountAtDispl | mstring.c:227-233 | that entry is the total length of the strings from the rank's string displacement, as many as its string count |
| MString.CharPlan | mstring.c:214-236 | `char_sendcounts` are the per-block char totals and `char_displs` their exclusive scan |
| MString.PiecesLength | mstring.c:227-236 | the strings between starts a and b take `start[b] - start[a]` characters |
| MString.CharCountOfBlock | mstring.c:227-233 | rank r's char count is the distance between the starts of its first string and of the next block's first string |
| MString.CharDisplsAt | mstring.c:234-235 | rank r's char displacement is the start of its first string |
| MString.PiecesExtend | mstring.c:251 | a terminator appended past the strings does not change them |
| MString.ReceiveDispls | mstring.c:243-245 | the displacements a rank receives are the sender's, from its string displacement on, as many as its string count |
| MString.Rebase | mstring.c:265-266 | every received displacement is reduced by the offset, so the first string starts at 0 |
| MString.ScatterPlan | mstring.c:209-262 | the string and char displacements of rank r meet the partition bounds, and the char Exscan equals the start of r's first string |
| MString.ScatterBlock | mstring.c:247-270 | the received chars, NUL-terminated, with the rebased displacements, hold exactly the sender's strings of the block |
| MString.RebasedStarts | mstring.c:265-270 | the starts read from the received store are the rebased starts of the sender |
| MString.PlanFor | mstring.c:209-262 | rank r's string run and char run: from the partition bound of r to that of r + 1, and the char offset is the start of r's first string |
| MString.Install | mstring.c:268-270 | the receiver holds the received chars with a NUL after them, `avail == len + 1`, and the received displacements |
| MString.ScatterReceived | mstring.c:245-270 | what a rank receives, rebased, lays out exactly its linear block of the root's strings, and its characters are those strings end to end |
| MString.Scatter | mstring.c:189-273 | rank r receives exactly block r of the sender's strings, its string count as count and capacity, and a NUL-terminated buffer that is those strings laid end to end |
| Nt4Code.Nt4 | src/elba_seq_store.c:10-31 | `nt4map`: A/a/N/n code 0, C/c 1, G/g 2, T/t/U/u 3, and every other symbol 4 |
| Nt4Code.SlotOf | src/elba_seq_store.c:154 | the two bits of a slot read back, a value 0 .. 3 |
| Nt4Code.Pack | src/elba_seq_store.c:35-45 | `push`'s bytes for a sequence: `(len + 3) / 4` of them, byte j holding positions 4j .. 4j+3 |
| Nt4Code.Unpack | src/elba_seq_store.c:138-155 | decoding len positions yields len letters, each one of A, C, G, T (the 'N' of `bases` is never read) |
| Nt4Code.UnpackFrame | src/elba_seq_store.c:152-155 | decoding depends only on the entry's own bytes, not on where the buffer puts them |
| Nt4Code.ByteSlot0 | src/elba_seq_store.c:44 | slot 0 of a packed byte reads back as the low two bits of the first code |
| Nt4Code.ByteSlot1 | src/elba_seq_store.c:44 | slot 1 reads back as the second code's low bits plus the stray bit of a code-4 first symbol |
| Nt4Code.ByteSlot2 | src/elba_seq_store.c:44 | likewise for slot 2 and the second symbol |
| Nt4Code.ByteSlot3 | src/elba_seq_store.c:44 | likewise for slot 3 and the third symbol; the fourth symbol's stray bit falls off the byte |
| Nt4Code.PackedSlot | src/elba_seq_store.c:44 | position i reads back as its code's low bits plus the stray bit of a code-4 symbol just before it in the same byte |
| Nt4Code.Decoded | src/elba_seq_store.c:152-155 | what a packed sequence reads back as, one letter per position |
| Nt4Code.UnpackPack | src/elba_seq_store.c:152-155 | packing then decoding any sequence gives its `Decoded` letters |
| Nt4Code.RoundTrip | src/elba_seq_store.c:10-155 | for a sequence of known bases, decoding the packed form gives, position by position, A for A/a/N/n, C for C/c, G for G/g and T for T/t/U/u |
| Nt4Code.Canonical | src/elba_seq_store.c:138 | a known base reads back as one of A, C, G, T |
| Nt4Code.CanonicalFixed | src/elba_seq_store.c:10-31 | reading back is idempotent: the read letter has the same code and reads back as itself |
| Nt4Code.UnknownSymbolCarries | src/elba_seq_store.c:44 | an unknown symbol before an 'A' in the same byte makes the pair read back as "AC" |
| Nt4Code.UnknownSymbolInLastSlot | src/elba_seq_store.c:44 | an unknown symbol in the last slot of a byte leaves no trace: "AAAXA" reads back as "AAAAA" |
| Nt4Code.PackStepSame | src/elba_seq_store.c:44 | one pass of the loop ORs the new code into its slot of its byte |
| Nt4Code.PackStepOther | src/elba_seq_store.c:44 | one pass of the loop leaves every other byte alone |
| Nt4Code.PackStep | src/elba_seq_store.c:42-45 | one pass turns the packing of the first i symbols into that of the first i+1 |
| Nt4Code.PackedPrefixEmpty | src/elba_seq_store.c:40 | before the loop the new bytes are the zeroed ones |
| Nt4Code.AppendPacked | src/elba_seq_store.c:35-45 | `realloc`, `memset` and the OR loop append exactly the packed sequence to the buffer |
| Nt4Code.UnpackInto | src/elba_seq_store.c:147-157 | the returned string holds the decoded entry followed by its NUL |
| PackedLayout.ByteCounts | src/elba_seq_store.c:35 | each entry takes `(len + 3) / 4` bytes |
| PackedLayout.LaidFits | src/elba_seq_store.c:142-154 | in a valid store every entry's bytes lie inside the buffer |
| PackedLayout.EntryAt | src/elba_seq_store.c:136-158 | entry i decodes to `lengths[i]` letters |
| PackedLayout.Entries | src/elba_seq_store.c:136-158 | the decoded entries of a store, one per sequence |
| PackedLayout.LaidEmpty | src/elba_seq_store.c:67 | the zeroed store is laid out and holds no entries |
| PackedLayout.LaidSingle | src/elba_seq_store.c:33-61 | one pushed sequence at offset 0 decodes to its `Decoded` letters |
| PackedLayout.LaidPush | src/elba_seq_store.c:33-61 | pushing at offset `numbytes` adds exactly the decoded sequence and keeps every earlier entry |
| PackedLayout.LaidJoin | src/elba_seq_store.c:313-340 | two stores joined, the second's offsets shifted by the first's byte count, hold the first's entries then the second's |
| PackedLayout.JoinEntry | src/elba_seq_store.c:313-340 | entry k of the joined store is the first store's entry k, or the second's entry k minus the first's count |
| PackedLayout.JoinFirst | src/elba_seq_store.c:334 | bytes appended after an entry do not change how it decodes |
| PackedLayout.JoinSecond | src/elba_seq_store.c:302 | an entry moved behind another buffer decodes the same at its shifted offset |
| FastaChunk.Unwrapped | src/elba_seq_store.c:106-122 | the bases of a record, exactly `len` of them |
| FastaChunk.SpanClosedForm | src/elba_seq_store.c:77 | a record's bases reach `len + (len - 1) / bases` bytes past `pos` |
| FastaChunk.UnwrappedAt | src/elba_seq_store.c:106-122 | base j of the record comes from chunk index `start + j + j / bases`, one terminator skipped per full line |
| FastaChunk.UnwrappedSlice | src/elba_seq_store.c:111 | unwrapping from a slice of the file is unwrapping from the file at the shifted position |
| FastaChunk.Unwrap | src/elba_seq_store.c:109-122 | the unwrap loop fills the first `len` bytes of `seqbuf` with exactly the record's bases |
| FastaChunk.UnwrapAdvance | src/elba_seq_store.c:115-122 | one pass copies `min(bases, remain)` bytes and leaves the rest of the record to unwrap one terminator later |
| FastaChunk.MaxRecordLength | src/elba_seq_store.c:94-99 | the longest record length, at least each one and one of them, 0 for none |
| FastaChunk.SpanCovers | src/elba_seq_store.c:76-88 | for records sorted by position inside the file, every record's bases lie within `[first.pos, min(endpos, filesize))` |
| FastaChunk.Chunk | src/elba_seq_store.c:76-91 | the bytes a rank reads, as many as the span is long |
| FastaChunk.ChunkBases | src/elba_seq_store.c:111-118 | a record unwrapped from the chunk at `pos - startpos` equals the record unwrapped from the whole file |
| FastaChunk.FileBases | src/elba_seq_store.c:106-125 | a rank's sequences: every record unwrapped from the file, in index order |
| ElbaSeqStore.StoreValue.Entries | src/elba_seq_store.c:136-158 | the decoded entries of a valid store, `numseqs` of them |
| ElbaSeqStore.EmptyValid | src/elba_seq_store.c:67 | the zeroed store is valid and empty |
| ElbaSeqStore.PushedValue | src/elba_seq_store.c:33-61 | the state `push` produces is valid and holds the old entries plus the decoded sequence |
| ElbaSeqStore.Push | src/elba_seq_store.c:33-61 | appends the packed bytes, records offset `old numbytes`, length and gid, bumps `numseqs`, `numbytes` and `totbases`, grows capacity to `next_pow2(numseqs + 1)` only when `numseqs + 1 >= avail`, and the entries become the old ones plus the decoded sequence |
| ElbaSeqStore.Grow | src/elba_seq_store.c:49-55 | capacity grows to the power of two above `numseqs + 1` when full, stays otherwise, always exceeds `numseqs`, and the first `numseqs` entries of each array are kept |
| ElbaSeqStore.ReadEntries | src/elba_seq_store.c:106-125 | what a rank's store holds after the read: each record unwrapped and packed, one per record |
| ElbaSeqStore.RecordLengths | src/elba_seq_store.c:124 | the pushed lengths are the records' `len` fields |
| ElbaSeqStore.GidRange | src/elba_seq_store.c:101-124 | local record i gets gid `first + i` |
| ElbaSeqStore.ReadStep | src/elba_seq_store.c:106-125 | one pass of the record loop adds the next decoded record, its length and its gid |
| ElbaSeqStore.ReadRecord | src/elba_seq_store.c:107-124 | one pass keeps the store equal to the first i+1 records' entries, lengths and gids |
| ElbaSeqStore.ReadRecords | src/elba_seq_store.c:94-125 | the loop over the records leaves exactly the rank's entries, lengths and consecutive gids from `first` |
| ElbaSeqStore.Trim | src/elba_seq_store.c:127-129 | the arrays shrink to `numseqs` entries and every entry is kept |
| ElbaSeqStore.Read | src/elba_seq_store.c:63-134 | NULL fails; otherwise the store holds exactly the rank's records unwrapped and packed, their lengths, and gids from the Exscan of the record counts, with the arrays trimmed |
| ElbaSeqStore.Get | src/elba_seq_store.c:136-158 | a NULL out string fails; otherwise the string is the decoded entry plus NUL, and the gid is reported when asked for |
| ElbaSeqStore.Free | src/elba_seq_store.c:220-232 | NULL fails; otherwise the store is zeroed |
| LegacySeqStore.LegacyValue.Entries | seq_store.c:140-160 | the decoded entries of a valid legacy store |
| LegacySeqStore.ZeroedValid | seq_store.c:74 | the zeroed legacy store is valid and empty |
| LegacySeqStore.PushedValue | seq_store.c:42-68 | the state legacy `push` produces is valid and holds the old entries plus the decoded sequence |
| LegacySeqStore.Push | seq_store.c:42-68 | like the current `push` without gids: packed bytes at offset `old numbytes`, counters bumped, capacity rounded up to a power of two only when full, entries extended by the decoded sequence |
| LegacySeqStore.Grow | seq_store.c:58-63 | capacity rounds up when full and the first `numseqs` lengths and offsets are kept |
| LegacySeqStore.ReadRecord | seq_store.c:116-133 | one pass keeps the store equal to the first i+1 records' entries and lengths |
| LegacySeqStore.ReadRecords | seq_store.c:103-134 | the loop leaves exactly the rank's entries and lengths in index order |
| LegacySeqStore.Read | seq_store.c:70-138 | NULL gives -1; otherwise 0, and the store holds exactly the rank's records unwrapped and packed, in index order |
| LegacySeqStore.Get | seq_store.c:140-160 | a NULL out string gives -1; otherwise the decoded entry plus NUL, and the result is the length clamped to `INT_MAX` |
| LegacySeqStore.Free | seq_store.c:190-200 | NULL gives -1; otherwise 0 and the store is zeroed |
| ElbaSeqShare.NumBytes | src/elba_seq_store.c:259-266 | the byte counts of a group, in rank order |
| ElbaSeqShare.NumSeqs | src/elba_seq_store.c:259-266 | the sequence counts of a group, in rank order |
| ElbaSeqShare.TotBases | src/elba_seq_store.c:259-266 | the base counts of a group, in rank order |
| ElbaSeqShare.Bufs | src/elba_seq_store.c:334-340 | the packed buffers of a group, in rank order |
| ElbaSeqShare.LensOf | src/elba_seq_store.c:313-321 | the length arrays of a group |
| ElbaSeqShare.GidsOf | src/elba_seq_store.c:314-322 | the gid arrays of a group |
| ElbaSeqShare.ShiftedOffs | src/elba_seq_store.c:287-304 | rank k's offsets shifted by the Exscan of the byte counts, 0 for the first rank |
| ElbaSeqShare.EntriesOf | src/elba_seq_store.c:243-346 | the decoded entries of each store of a group |
| ElbaSeqShare.GroupInit | src/elba_seq_store.c:259-340 | dropping the last rank of a group drops its last element from every per-rank list |
| ElbaSeqShare.ShiftedInit | src/elba_seq_store.c:287-304 | the last rank's offsets are shifted by the byte total of the ranks before it |
| ElbaSeqShare.GatheredLengths | src/elba_seq_store.c:271-323 | the gathered lengths, offsets and gids hold as many entries as the `numseqs` sum the `Allreduce` gives |
| ElbaSeqShare.GatheredSplit | src/elba_seq_store.c:265-340 | the gathered store of a group is that of all ranks but the last, joined with the last one's arrays, its offsets shifted by the bytes before it |
| ElbaSeqShare.EntriesSplit | src/elba_seq_store.c:243-346 | the entries of a group in rank order split off the last rank's |
| ElbaSeqShare.GatheredValid | src/elba_seq_store.c:243-346 | main theorem: the gathered store is valid and its entries are the group's entries in rank order |
| ElbaSeqShare.JoinStores | src/elba_seq_store.c:300-340 | a valid store joined with a valid store whose offsets are shifted by its byte count is valid and holds both stores' entries |
| ElbaSeqShare.GatheredEntry | src/elba_seq_store.c:309-340 | destination entry `displs[k] + i` has worker k's length and gid and decodes to worker k's entry i |
| ElbaSeqShare.EntriesPlaced | src/elba_seq_store.c:309-340 | destination entry `displs[k] + i` decodes to worker k's entry i |
| ElbaSeqShare.EntryPlaced | src/elba_seq_store.c:309-340 | in the rank-order concatenation of the entries, position `displs[k] + i` is worker k's entry i |
| ElbaSeqShare.LensPlaced | src/elba_seq_store.c:313-321 | destination length `displs[k] + i` is worker k's length i |
| ElbaSeqShare.GidsPlaced | src/elba_seq_store.c:314-322 | destination gid `displs[k] + i` is worker k's gid i |
| ElbaSeqShare.PlacedIn | src/elba_seq_store.c:313-340 | in a concatenation, item i of part k sits at the exclusive scan of the part lengths at k, plus i |
| ElbaSeqShare.PlacedAt | src/elba_seq_store.c:313-340 | the same, stated on the concatenation itself |
| ElbaSeqShare.PartialSum | src/elba_seq_store.c:234-240 | `partial_sum` fills the first n displacements with the exclusive scan of the counts and leaves the rest |
| ElbaSeqShare.Allgather | src/elba_seq_store.c:309-310 | the in-place `MPI_Allgather` leaves every rank's count in the receive array |
| ElbaSeqShare.Allgatherv | src/elba_seq_store.c:313-340 | `MPI_Allgatherv`: the total length is the sum of the counts, and item i of rank k lands at `displs[k] + i` |
| ElbaSeqShare.PlacedAtDispls | src/elba_seq_store.c:313-340 | with displacements equal to the exclusive scan of the lengths, every part is placed at its displacement |
| ElbaSeqShare.PlacedWithin | src/elba_seq_store.c:313-340 | every part fits inside the concatenation from its displacement on |
| ElbaSeqShare.ShiftOffsets | src/elba_seq_store.c:297-304 | the row and column offset arrays are the first `sendcnt` offsets shifted by the row and column offsets |
| ElbaSeqShare.GatherCounts | src/elba_seq_store.c:309-311 | the receive counts become every rank's count and the displacements their exclusive scan |
| ElbaSeqShare.GatherBuf | src/elba_seq_store.c:328-340 | the gathered buffer is the group's buffers in rank order |
| ElbaSeqShare.GatherArrays | src/elba_seq_store.c:309-323 | the gathered lengths, gids and offsets are the group's arrays in rank order, offsets shifted by the bytes before each rank |
| ElbaSeqShare.GatheredFields | src/elba_seq_store.c:265-340 | a store built field by field from the sums and concatenations is the gathered store |
| ElbaSeqShare.GatherInto | src/elba_seq_store.c:259-340 | one group's destination store ends up as the gathered store of the group |
| ElbaSeqShare.GatherValue | src/elba_seq_store.c:306-340 | the gathers on one pair of count arrays yield exactly the gathered store of the group |
| ElbaSeqShare.GatherEntries | src/elba_seq_store.c:309-323 | the count gather followed by the three array gathers yields the group's lengths, gids and shifted offsets in rank order |
| ElbaSeqShare.GatherBytes | src/elba_seq_store.c:328-340 | the byte-count gather on the same arrays followed by the buffer gather yields the group's buffers in rank order |
| ElbaSeqShare.Install | src/elba_seq_store.c:271-285 | the destination store is overwritten with the given fields |
| ElbaSeqShare.Share | src/elba_seq_store.c:243-346 | a NULL row store, column store or grid gives -1; otherwise 0, and the row and column stores are valid and hold their group's entries in rank order, with the summed counts |

## Left out

- MPI transport: `MPI_Allreduce`, `MPI_Exscan`, `MPI_Allgather(v)`, `MPI_Scatter(v)`, `MPI_Bcast`, `MPI_File_read_at_all`, derived datatypes and `MPI_Comm_split`. Each is modelled as a fold over the per-rank values in rank order (`Collectives`).
- Exscan on rank 0: MPI leaves the result undefined there (section 5.11.2 of the MPI-3.1 standard). The model uses 0, which is the value the code initialises or forces.
- Deadlock and other concurrency behaviour. For example, the root's early `return` at src/elba_faidx.c:115 leaves the other ranks waiting in `MPI_Scatter`.
- ElbaFaidx.Read: a non-root rank requires that the root did not fail, because the ranks it would wait for are not modelled.
- Sequentialised scatters: the non-root ranks in ElbaFaidx.Read, LegacyFastaIndex.Read and MString.Scatter compute the root's records, plan and displacements themselves instead of receiving them.
- MString.Scatter: the root is rank 0. The result does not depend on the root: `MPI_Exscan` leaves rank 0's result undefined and the code sets it to 0 there (mstring.c:263).
- ElbaSeqShare.Share:
  - The interleaved row and column collectives are modelled as one gather per group.
  - The group members' stores are passed in as parameters.
  - The row and column stores must be different objects.
- ElbaSeqStore.Read: the Exscan of record counts over the world is a parameter (`counts`, `rank`).
- File and terminal I/O are not modelled: `MPI_File_open`, `MPI_File_read`, `MPI_File_get_size`, and `fopen`/`fprintf`.
  - The index text and the FASTA file are parameters (`seq<char>`).
  - The output routines `elba_seq_store_info`, `elba_seq_store_log`, `seq_store_log`, `elba_fasta_index_log`, `fasta_index_log`, `commgrid_log` and `commgrid_tag` are not modelled.
- printf-family formatting: `elba_str_vprintf`, `elba_str_printf`, `elba_str_info`, `string_vprintf_prv` and `string_printf` go through `vasprintf` and are not modelled.
- `sstore_get_string` (mstring.c:104-108) returns an address inside the buffer and is not modelled. Its string is `MString.SStore.Strings`.
- `sstore_mpi_bcast` and src/elba_comm.c are broadcast plumbing with no logic of their own and are not modelled.
- `sscanf` is modelled as a tokenizer over unsigned decimal fields. Signs, overflow and partial matches are not modelled. A partial match leaves record fields unset.
  - The readers therefore require every line to convert (`Parsable`).
  - The LINEWIDTH field is skipped, as `%*zu` skips it.
- The floating-point `sqrt` in `commgrid_init` is replaced by an integer square root. The two agree for every process count an `int` holds.
- Characters are Dafny `char`s. `nt4map` gives code 4 to everything that is not a base letter, including the bytes above 127.
- Size.NextPow2: the 64-bit function and the unbounded `Size.CeilPow2` used for capacities are each proved to be the least power of two at or above their argument. The equality between the two (for 1 <= x <= 2^63) is not proved.
- `up_size_t`, used by the legacy store (seq_store.c:60) and by the legacy index table with a floor of 256 (fasta_index.c:70-71), is not part of this model. It is taken to be the same rounding: `LegacyFastaIndex.Read` reuses `ElbaFaidx.RecordRoom` there.
- Allocation failures and memory-safety defects:
  - `realloc` is modelled as always succeeding, and the new memory as zeros.
  - The double `free` in `elba_str_copy` (src/elba_str.c:109) is modelled as the intended copy.
  - The leaked `seqbuf` (src/elba_seq_store.c:104) is not modelled.
  - The `memset` through a failed `realloc` in `elba_seq_store_get` is not modelled.
- Integer widths:
  - Counts cast to `int` are required to be at most `INT_MAX`: the record count, chunk size, `sendcnt` and string and char counts.
  - Other `size_t` arithmetic is unbounded.
- The readers require at least one record per rank, sorted by position with no overlap and inside the file (`Readable`). The code reads `records[0]` without a check.
- The legacy `seq_store_read` does an Exscan whose result it never uses (seq_store.c:110-111). The model leaves it out.
- The timers and helpers in inc/mpiutil.h and mpiutil.c are not modelled. The command-line driver src/elba.c, minielba.c and main.c, and data/genfa.py are not part of this model.
