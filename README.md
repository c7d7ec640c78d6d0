# Chunked download manager: the sequential core, in Dafny

This project models the sequential logic of a small multi-threaded download
manager written in C (`main.c`). A download probes the size of a remote
file. It cuts the byte range `[0, size-1]` into `num_parts` contiguous
chunks. One thread per chunk fetches that chunk into a scratch file
`part_<i>`. Every write adds to a shared progress counter, which a display
thread polls. Finally the scratch files are concatenated, in index order,
into the output file and removed. A fixed-capacity list of ten URLs feeds
the downloads.

Modules, one per component:

- `Partitioner` (`partition.dfy`): the chunk computation of
  `divide_file_into_chunks`. It is an array-filling method, proved against
  the function `Partition`. `Partition` is shown to be a gapless,
  non-overlapping cover of the file whose lengths add up to the file size.
- `PartNames` (`part_names.dfy`): the scratch file name `part_%d`. Its
  decimal rendering is proved to round-trip, so distinct chunks never share
  a scratch file.
- `Merge` (`merge.dfy`): `merge_parts` as a method of a `Workspace` class.
  The class holds the scratch files, keyed by index, and the output. The
  method is proved against `FirstMissing`, `Concat` and `RemoveBelow`.
- `Progress` (`progress.dfy`): the counter of `write_data`, as a
  `ProgressCounter` class, and the polling loop of `progress_display`. A
  ghost history records every write, and the counter always equals the sum
  of that history. The display loop runs over the sequence of counter
  readings it takes.
- `Registry` (`registry.dfy`): the URL array. It covers append
  (`get_URL`), in-place delete with left shift (`delete_URL`) and the
  clearing loop of "download all".
- `Transfer` (`transfer.dfy`): end-to-end lemmas. After a complete fetch the
  merge rebuilds the resource byte for byte. A missing part stops the merge
  at exactly that part's first byte. However the writes of the fetchers
  interleave, the counter ends at the file size, and the display stops at
  the first reading equal to it.

The network, threads, clocks and the console are not modelled. The size probe
is an integer input that may be -1. A successful fetch is assumed to leave
exactly the bytes of its range.

Where the intended design and the code differ, the model follows the code:

- A design where a failed fetch is fatal would skip the merge. The code
  does not: `download_chunks` ignores the result of `curl_easy_perform`,
  and `download_URL` always calls `merge_parts`. So the model's merge takes
  whatever scratch files exist and stops only at a missing one.
- A missing part is meant to be reported with its index. The code prints
  that index and returns. The model returns `MissingPart(i)`.
- The merge copies each scratch file in blocks of at most 4096 bytes
  (`BUFFER_SIZE`). The model's copy loop does the same; the blocks add up to
  the whole file.

## Model

| member | source | states |
|---|---|---|
| `Partitioner.DivideFileIntoChunks` | main.c:146-182 | A probe result `<= 0` (including the failure value -1) is refused with `SizeUnknown` and no chunk is built, whatever the part count. Otherwise the array filled in index order equals `Partition(size, n)`, tiles `[0, size-1]`, and chunk `i` carries part number `i`. |
| `Partitioner.PartitionTiles` | main.c:160-173 | For every size `> 0` and `n >= 1` the chunks start at 0 and the last ends at `size-1`. Each chunk starts right after its predecessor ends, and no chunk has negative length. This holds also when `n > size` leaves the leading chunks empty. |
| `Partitioner.PartitionStarts` | main.c:164-174 | Chunk `i` starts at `i * (size / n)` and has part number `i`. A chunk ends at `size-1` exactly when it is the last one. |
| `Partitioner.PartitionLengths` | main.c:160-170 | Every chunk but the last spans `size / n` bytes. The last spans `size / n + size % n`, absorbing the remainder. |
| `Partitioner.PartitionCoversExactlyOnce` | main.c:160-173 | Every byte `0 <= b < size` lies in some chunk and in no two chunks. The chunk lengths add up to `size`. |
| `Partitioner.SevenBytesInThreeParts` | main.c:160-174 | Size 7 in 3 parts gives `[0,1]`, `[2,3]`, `[4,6]`. |
| `Partitioner.TwoBytesInFourParts` | main.c:160-174 | Size 2 in 4 parts gives three empty chunks `[0,-1]`, then `[0,1]`. |
| `Partitioner.TilesOrdered` | main.c:164-173 | In any gapless cover, an earlier chunk ends before a later one starts. |
| `Partitioner.TilesCover` | main.c:164-173 | In any gapless cover of `[lo, hi]`, every byte of the range lies in some chunk. |
| `Partitioner.TilesDisjoint` | main.c:164-173 | In any gapless cover, no byte lies in two chunks. |
| `Partitioner.TilesTotalLength` | main.c:164-173 | The lengths of a gapless cover of `[lo, hi]` add up to `hi - lo + 1`. |
| `PartNames.ParseDecimalString` | main.c:124 | Reading back the digits that `%d` prints for a non-negative int gives that int. |
| `PartNames.PartNameInjective` | main.c:124 | The scratch names `part_<i>` written by fetchers (line 124) and reopened by the merge (line 203) are equal exactly when the indices are equal. |
| `PartNames.PartNameExamples` | main.c:203 | Index 0 names `part_0` and index 12 names `part_12`. |
| `Merge.FirstMissing` | main.c:200-211 | The merge's stopping index is at most `n`. Every part below it is present. If it is below `n`, that part is missing. |
| `Merge.FirstMissingUnique` | main.c:200-211 | Those three properties determine the stopping index. |
| `Merge.ConcatLayout` | main.c:200-218 | In the output of parts `0..k-1`, part `i` appears in full right after parts `0..i-1`. Nothing is skipped, duplicated or reordered. |
| `Merge.RemoveBelow` | main.c:220-221 | After removal, exactly the parts with index `>= k` remain, with unchanged contents. |
| `Merge.Workspace.MergeParts` | main.c:191-225 | If the final file cannot be created, nothing changes. Otherwise let `k` be the first missing index. The output is parts `0..k-1` concatenated in ascending order. Exactly parts `0..k-1` are removed, parts `k..` are left, and the status is `MissingPart(k)` or `Merged`. |
| `Progress.SumPrefix` | main.c:72 | An initial segment of a series of writes never sums to more than the whole series. |
| `Progress.SumPermutation` | main.c:71-73 | The sum of the writes does not depend on their order. |
| `Progress.ProgressCounter.constructor` | main.c:11-12 | Both globals start at 0 and the write history is empty. |
| `Progress.ProgressCounter.Reset` | main.c:372-373 | Before each download both counters are zeroed and the history is cleared. |
| `Progress.ProgressCounter.SetFileSize` | main.c:299 | The probe result, possibly -1, becomes the display's target. The counter is untouched. |
| `Progress.ProgressCounter.WriteData` | main.c:66-76 | The call returns `written * size`. The counter grows by exactly that amount and never decreases. The counter remains the sum of all returned amounts. |
| `Progress.ApplyWrites` | main.c:66-96 | After a reset and a series of writes, the counter equals the sum of the amounts. The display stops exactly when that sum reaches the probed size. |
| `Progress.FirstAtLeast` | main.c:81-96 | The stopping index is at most the number of readings. Every reading before it is below the target. If it is a real index, that reading is at or above the target. |
| `Progress.ProgressDisplay` | main.c:81-99 | The loop stops if and only if some reading reaches `total_file_size`. It stops right after showing the first such reading. Every reading before it is shown and is below the target. If no reading reaches the target, every reading is shown. |
| `Registry.RemoveAtKeepsOrder` | main.c:329-334 | Removing entry `k` keeps the entries before it in place. It moves every later entry one place left and loses only `s[k]`, as a multiset. |
| `Registry.UrlRegistry.constructor` | main.c:15-16 | The list starts empty with room for `MAX_URLS` = 10 entries. |
| `Registry.UrlRegistry.Add` | main.c:248-256 | A full list (`url_count >= 10`) is left unchanged and the add is refused. Otherwise the URL is stored at index `url_count`, which then grows by one, and no other slot changes. |
| `Registry.UrlRegistry.Delete` | main.c:322-334 | An index outside `[0, url_count)` changes nothing. Otherwise the list is the old list without that entry, the rest in the same order, and the count drops by one. Slots from the new count on keep the values they held. |
| `Registry.UrlRegistry.ClearAll` | main.c:379-384 | Deleting index 0 `tempCount` times empties a list of `tempCount` entries. The vacated slots all hold the old last entry, and slots beyond are untouched. |
| `Transfer.PartitionInBounds` | main.c:164-173 | Every chunk lies inside the file. Hence `i * chunk_size` never exceeds the file size, and the `long` arithmetic cannot overflow. |
| `Transfer.FetchedPrefix` | main.c:200-222 | Merging the first `k` parts of a complete fetch yields the file up to the end of chunk `k-1`. |
| `Transfer.MergeReconstructs` | main.c:200-222 | After a complete fetch the merge finds every part. Its output equals the resource for every size `> 0` and `n >= 1`, and no scratch file remains. |
| `Transfer.MergeStopsAtMissingPart` | main.c:205-211 | Suppose part `i` is the first missing one and the parts before it are complete. Then the merge stops at `i` with exactly the first `start_i` bytes of the resource written. |
| `Transfer.CounterReachesFileSize` | main.c:66-76 | Let each fetcher's writes add up to its chunk. Then, for any order of the writes, the counter ends at the file size. It never exceeds the file size along the way. |
| `Transfer.DisplayStopsAtFileSize` | main.c:81-96 | Take a complete fetch whose display target is the file size and whose last sample follows the last write. Then the display stops, at a reading equal to the file size. It is the first reading equal to the file size, and every earlier reading is below it. |

## Left out

- `get_file_size` (libcurl `HEAD` request): the probed size is an input integer, -1 for a failed probe.
- `download_chunks` (the ranged libcurl transfer): a successful fetch is assumed to leave exactly its range's bytes in its scratch file. An empty chunk `[a, a-1]` would be sent as the range string `a-(a-1)`; what a server does with that is outside the model.
- Threads and `progress_lock`: the writes are one sequential series. `SumPermutation` and `CounterReachesFileSize` account for any interleaving of whole writes.
- The percentage computation and its printing (floating point and console output), `usleep`, `sleep` and `system("clear")`.
- `menu`, `menu_run`, `show_all_URL`, `main` and `download_URL`: console dispatch and glue. The per-URL download loop of "download all" (main.c:370-377) is glue too. `download_URL` runs the merge even after a failed probe and before joining the display thread; that order is not modelled.
- File handling: files are in-memory byte sequences, and whether the final file can be created is an input. A final file name that equals a scratch name `part_<i>` is not modelled.
- `strncpy`, `strcpy`, `snprintf` and the unchecked `scanf` into 1000-byte buffers: the URL copy inside each chunk and the URL length bound are not modelled.
- `Partitioner.DivideFileIntoChunks` requires `num_parts >= 1` only after a successful probe. There the source divides by `num_parts` and sizes an array with it, so a smaller value is undefined behaviour in C. After a failed probe the source returns before using `num_parts`, and so does the model.
- The display loop polls forever until the counter reaches the target. The model takes a finite sequence of readings and reports whether the loop stopped within it. The 0.5 s pause between samples is not modelled.
- `Progress.ProgressCounter.WriteData`: does not model `size_t` or `long` wrap-around of `written * size` and the counter, because the amounts are bounded by file sizes far below 2^63. The item count `fwrite` reports is an input.
