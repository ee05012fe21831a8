# blocksearch in Dafny

The project models blocksearch. This program reads a byte sequence, the *needle*, from standard input. It then reads a file or device, the *haystack*, in chunks of a fixed size `<buffer_size>`, starting at an optional offset `<start>`. It writes the hexadecimal byte offset of the first match and a newline. If there is no match it writes only a newline.

The model also covers the buffer and resource-stack parts of its unfinished sibling, bytesearch.

The modules:

- `Wrappers`: `Option` and `Result`.
- `Streams`: an input stream as the bytes it still delivers plus how it ends (end of file, or a read error). `fread_ck` is the function `FreadCk` over that. `FreadInto` copies the delivered bytes into an array.
- `Alloc`: the power-of-two rounding loop of `grow_buffer` (`RoundUpToPowerOfTwo`, specified by `CeilPow2`). It also holds the effect of `realloc_ck` on a block's bytes (`Realloc`).
- `BlockHex`: `print_off_t` (`FormatHex`) and `convert_off_t` (`ConvertOffT`, specified by `ParseHex`). It also holds the corrected case mapping (`ParseHexIntended`).
- `BlockScan`: `scan4match`, modelled as follows.
  - `Scan4Match` is the outer read loop over a work array.
  - `MatchInChunk` is the inner naive search with its rewind on a mismatch.
  - `ScanFrom` and `Scan4MatchOutput` are the specification functions.
  - `Found` and `ScanCorrect` say independently which occurrence the program reports: the first one that lies wholly inside one chunk.
- `BlockSlice`: the `slice` descriptor as a class with `start`, `active` and `allocatedSize`. Its methods are `grow_buffer`, `grow_buffer_by`, `resize_buffer` and the loop of `tracked_stream_remainder`.
- `BlockResources`: the list of tracked cleanup actions, as a class whose `rlist` is a sequence, head first. It has `track_resource`, `untrack_resource`, `release_tracked_until`, and the cleanup order at the end of `main`.
- `ByteBuffer` and `ByteResources`: the same for bytesearch.
  - `grow_buffer`, `resize_buffer` and `load_remaining` over a `buffer` with `used`.
  - The `push_resource`/`pop_resource` stack, whose `release_until` ignores its argument.

Fatal errors (`die`) are error results: `BlockScan.Error`, `BlockHex.Error` and the `ReadError` of the loaders. C asserts are preconditions. The characters written with `putchar_ck` are the string `Scan4Match` returns.

Matches that straddle a chunk boundary are **not** reported. `already_matched` is reset at the top of every chunk (blocksearch.c:289-290), and the program's help text (blocksearch.c:19) says every chunk is searched on its own. `StraddlingNeedleIsMissed` and `SameNeedleInOneChunk` show the difference on one haystack.

A needle longer than a chunk dies before anything is read (blocksearch.c:277-279), as `Scan4MatchResult` states.

`convert_off_t` reads every uppercase hexadecimal digit as `a`. The model keeps that behaviour in `ConvertOffT`, and the bug is listed under Findings together with a corrected parser.

## Model

| member | source | states |
|---|---|---|
| Streams.FreadCk | blocksearch.c:182-190 | fread_ck delivers at most n bytes and never runs past the stream. It delivers fewer only at a clean end of file. It dies exactly when a failing stream cannot deliver n bytes. |
| Streams.FreadInto | blocksearch.c:182-190 | The bytes delivered are stored at the front of the destination, in stream order. |
| Alloc.CeilPow2 | blocksearch.c:166 | The rounded size is a power of two, at least the minimum, and its half is below the minimum. |
| Alloc.CeilPow2IsLeast | blocksearch.c:162-169 | No power of two that holds the minimum is smaller than the rounded size. |
| Alloc.RoundUpToPowerOfTwo | blocksearch.c:166 | The doubling loop ends at the smallest power of two that is at least the minimum. |
| Alloc.CeilPow2AfterFull | blocksearch.c:198 | Growing a full power-of-two block by one byte exactly doubles it. |
| Alloc.Realloc | blocksearch.c:148-160 | The new block has exactly newsz bytes. Shrinking keeps its prefix; growing keeps all old bytes in front. A size of 0 needs an existing block. |
| BlockHex.FormatHex | blocksearch.c:239-245 | print_off_t writes only lowercase hexadecimal digits with no leading zero. It writes "0" exactly for 0. |
| BlockHex.ConvertOffT | blocksearch.c:247-272 | The do-while loop of convert_off_t computes ParseHex of its argument. |
| BlockHex.ConvertDigits | blocksearch.c:250-271 | The loop accumulating value * 16 + digit gives the left fold of the digit values. It fails on empty text and at the first character without a digit value. |
| BlockHex.DigitValue | blocksearch.c:253-264 | The case mapping and the xdigits lookup give each uppercase A-F the value 10 and each lowercase hexadecimal digit its own value. Every other character is an invalid digit. |
| BlockHex.ParseHexFailures | blocksearch.c:250-263 | convert_off_t dies of "no digits" exactly on the empty text. It dies of "invalid digit" exactly when a character is no hexadecimal digit of either case. |
| BlockHex.ParseFormatRoundTrip | blocksearch.c:237-272 | convert_off_t reads back every value print_off_t writes. |
| BlockHex.FormatParseRoundTrip | blocksearch.c:237-272 | Every canonical hexadecimal text parses, and print_off_t writes it back character for character. |
| BlockHex.UpperCaseReadsAsA | blocksearch.c:256-260 | As written, "B" reads as 0xa and "FF" as 0xaa. |
| BlockHex.IntendedDigitValueIsStandard | blocksearch.c:256-260 | With map[found + 1], every hexadecimal digit of either case has its usual value. |
| BlockHex.ParseHexIntendedIsStandard | blocksearch.c:247-272 | The corrected parser is the standard hexadecimal parser of either case. |
| BlockHex.ParseHexAgreesWithoutUpperCase | blocksearch.c:247-272 | On text without uppercase letters, the code as written and the corrected code agree. |
| BlockHex.IntendedParseFormatRoundTrip | blocksearch.c:239-272 | The corrected parser also reads back every value print_off_t writes. |
| BlockHex.IntendedReadsUpperCase | blocksearch.c:256-260 | Corrected, "B" reads as 0xb and "FF" as 0xff. |
| BlockScan.FirstOccurrenceIsLeast | blocksearch.c:291-302 | The reference search finds the least occurrence from its start index. When it finds none, there is none. |
| BlockScan.MatchInChunk | blocksearch.c:289-302 | The inner loop over the first `read` bytes reports boff - already_matched + 1 exactly at the least index where the needle occurs inside the chunk. It reports nothing when the needle does not occur there. |
| BlockScan.Scan4Match | blocksearch.c:274-308 | The whole procedure outputs Scan4MatchOutput for the haystack, the needle, the work buffer's size and the start offset. |
| BlockScan.ChunkOffsetIsMod | blocksearch.c:303 | The offset of a position inside its chunk, counted by whole chunks as fpos advances, is the position modulo the chunk size. |
| BlockScan.ScanFromFindsFirst | blocksearch.c:282-304 | From a chunk boundary, the chunked scan reports the least position holding an occurrence that lies wholly inside one chunk read without error. It reports nothing only at a clean end, and a read error only for a failing stream, each when no such occurrence exists. |
| BlockScan.Scan4MatchResult | blocksearch.c:277-307 | Too long a needle dies before any read; a needle as long as a chunk is accepted. Otherwise the output is start plus the first in-chunk occurrence in hexadecimal, then a newline. With no such occurrence it is a bare newline at a clean end and a read error for a failing stream. |
| BlockScan.Scan4MatchOffsetReadsBack | blocksearch.c:294 | The output ends in one newline. Anything before it is hexadecimal text that convert_off_t reads back as the file offset of the reported match. |
| BlockScan.StraddlingNeedleIsMissed | blocksearch.c:289-290 | With 4-byte chunks, the needle [4, 5] at offset 3 of 1..8 straddles the boundary, and the output is a bare newline. |
| BlockScan.SameNeedleInOneChunk | blocksearch.c:291-302 | With one chunk holding the whole haystack, the same needle is reported at offset 3. |
| BlockSlice.Slice.constructor | blocksearch.c:140-146 | new_tracked_buffer's descriptor has no block and nothing active. |
| ByteBuffer.Buffer.constructor | bytesearch.c:76-82 | new_buffer's descriptor has no block. `used` starts at 0, the value load_remaining asserts. |
| BlockSlice.Slice.Grow | blocksearch.c:162-169 | The block becomes the smallest power of two holding the minimum. The active contents are unchanged. |
| BlockSlice.Slice.GrowBy | blocksearch.c:171-174 | The block holds `increment` more bytes than are active, rounded up to a power of two. The contents are unchanged. |
| BlockSlice.Slice.Resize | blocksearch.c:176-180 | The block gets exactly the requested size, which must be at least the active size. The contents are unchanged. |
| BlockSlice.Slice.ReadMore | blocksearch.c:199-211 | One fread_ck into the free room. The bytes read are appended to the contents and `active` grows by their number. |
| BlockSlice.Slice.GrowIfFull | blocksearch.c:198 | A full block doubles and a block with room is untouched. Afterwards there is room. |
| BlockSlice.Slice.ReadToEnd | blocksearch.c:196-212 | The read loop ends with the whole stream as contents and a power-of-two block. It fails exactly for a stream that ends in a read error. |
| BlockSlice.TrackedStreamRemainder | blocksearch.c:192-215 | A fresh buffer holds all stream bytes in order, trimmed so that allocated == active. It dies exactly on a read error. |
| ByteBuffer.Buffer.Grow | bytesearch.c:96-103 | The block becomes the smallest power of two holding the minimum. The used contents are unchanged. |
| ByteBuffer.Buffer.Resize | bytesearch.c:105-109 | The block gets exactly the requested size, which must be at least `used`. The contents are unchanged. |
| ByteBuffer.Buffer.ReadMore | bytesearch.c:130-142 | One fread_ck into the free room. The bytes read are appended and `used` grows by their number. |
| ByteBuffer.Buffer.GrowIfFull | bytesearch.c:127-129 | A full block doubles and a block with room is untouched. |
| ByteBuffer.Buffer.ReadToEnd | bytesearch.c:125-143 | The read loop ends with the whole stream as contents. It fails exactly on a read error. |
| ByteBuffer.LoadRemaining | bytesearch.c:121-146 | A fresh buffer holds all stream bytes in order, with allocated == used. It dies exactly on a read error. |
| BlockResources.ResourceList.constructor | blocksearch.c:63 | The static list of tracked resources starts empty (NULL). |
| BlockResources.ResourceList.Track | blocksearch.c:90-97 | The new entry becomes the head. |
| BlockResources.ResourceList.Untrack | blocksearch.c:99-104 | The head, which must exist, is unlinked and returned. |
| BlockResources.ResourceList.NewTrackedBuffer | blocksearch.c:140-146 | A new buffer record is tracked at the head with buffer_dtor as its action. |
| BlockResources.ResourceList.RunHeadAction | blocksearch.c:106-108 | A tracked action runs and untracks exactly the head entry. |
| BlockResources.ResourceList.ReleaseTrackedUntil | blocksearch.c:67-70 | The actions of the entries above stop run head first, and those entries leave the list. Stop, or the empty list for NULL, is then at the head. |
| BlockResources.TrackAllReverses | blocksearch.c:90-97 | Tracking a series of entries puts them on the list in reverse order. |
| BlockResources.ReleaseUndoesTracking | blocksearch.c:67-104 | Releasing back to the entry that was the head before a series of tracks runs exactly those entries' actions, newest first. It restores the earlier list. |
| BlockResources.MainCleanupOrder | blocksearch.c:334-369 | At the end of main the two buffers are released first, then the usage action, then the flusher. |
| ByteResources.ResourceStack.constructor | bytesearch.c:11 | The static resource stack starts empty (NULL). |
| ByteResources.ResourceStack.Push | bytesearch.c:29-33 | The new entry becomes the head. |
| ByteResources.ResourceStack.Pop | bytesearch.c:35-40 | The head, which must exist, is unlinked and returned. |
| ByteResources.ResourceStack.RunHeadAction | bytesearch.c:42-44 | A pushed action runs and pops exactly the head entry. |
| ByteResources.ResourceStack.ReleaseUntil | bytesearch.c:13-15 | Whatever the stop argument, every entry's action runs, newest first, and the stack ends empty. |
| ByteResources.PushThenPop | bytesearch.c:29-40 | A pop right after a push returns the pushed entry and restores the stack. |

## Left out

- Real I/O. This covers `fread`, `freopen_ck`, `lseek_ck`, `fflush_ck` and `putchar_ck`. A stream is a byte sequence plus how it ends, the caller keeps the position, and the output is a string.
- Messages of `die` and `perror`, and `exit`. Each fatal error is an error result.
- Failure of `malloc`/`realloc`, which the model treats as always succeeding.
- Alloc.Realloc: the bytes a growing realloc adds are indeterminate in C, but the model fills them with zeros. The contracts of Slice.Grow, Slice.Resize and Slice.GrowIfFull, and of their ByteBuffer counterparts, state `start` through Realloc. They therefore fix those bytes as zeros, which C does not promise. No lemma and no statement about `Contents()` relies on them.
- Freeing memory. The destructors' `free` calls and the `free` of realloc_ck's size-0 case are not modelled. The resource lists record which action ran.
- `usage_action`'s help printing, `flusher_action`'s flush and the global `errors` flag (blocksearch.c:60, 324-332).
- The argument parsing of `main` (blocksearch.c:334-369). Only its tracking order and final release are modelled.
- The width of `off_t` and `size_t`. The model works on unbounded naturals.
- BlockHex.ConvertOffT: the overflow check `nvalue < value` (blocksearch.c:266-268) is not modelled. It relies on a signed shift overflow, which is undefined behaviour in C.
- The empty needle. An empty standard input leaves the needle's `start` NULL (blocksearch.c:213, 150-153), and `scan4match` would then read `needle->start[0]` (blocksearch.c:292). So a needle of at least one byte is a precondition of `Scan4Match`.
- A chunk size of 0. `resize_buffer` of a new buffer to 0 trips the assert in realloc_ck (blocksearch.c:151), so `Scan4Match` requires a work buffer of at least one byte.
- bytesearch `new_buffer` (bytesearch.c:76-82). It pushes an uninitialised `linkage` and never sets `used`. ByteBuffer.Buffer.constructor starts `used` at 0, the only value load_remaining's assert admits.
- bytesearch `main`, which does no searching, and `malloc_resource`.
- The buffer modules and the resource lists are not composed. TrackedStreamRemainder and LoadRemaining build an untracked buffer, where the C code gets it from new_tracked_buffer (blocksearch.c:194) or new_buffer (bytesearch.c:123). The tracking side of that call is modelled on its own, in ResourceList.NewTrackedBuffer.

## Findings

| source | as written | input that shows it | evidently intended | confidence | as-written member | corrected member |
|---|---|---|---|---|---|---|
| blocksearch.c:256-260 | An uppercase digit found at an even offset of `map` is replaced by `map[off + 1]`. `off` is that offset's low bit, which is 0, so the replacement is always `'a'`. | `convert_off_t("B")` gives 0xa and `convert_off_t("FF")` gives 0xaa | replace it by `map[found - map + 1]`, its own lowercase form, so "B" gives 0xb and "FF" gives 0xff | not executed | BlockHex.UpperCaseReadsAsA | BlockHex.ParseHexIntendedIsStandard |
