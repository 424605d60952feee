# Verified model of report_api

`report_api` is a Go reporting service: it harvests orders from remote shops, replays
callbacks from spreadsheets, signs requests and writes logs. This project models the pieces of
it that carry real logic and proves, in Dafny 4.11, what they are relied on for. Nothing here is
generated from the Go code; each module follows one source file, and the `source` column below
says which lines.

| module | what it models |
|---|---|
| `JsonTree`, `JsonHeap`, `SimpleJson` | `Json` of go-simplejson: nested maps changed in place and shared by wrappers. A `Shape` is a tree that remembers which map object stands where, so a described heap is acyclic; a `Tidy` one, as JSON decoding yields, shares no map. Every write, on any acyclic heap, is related to a pure tree update. |
| `JdWindows`, `JdOrders`, `JdHarvest` | The JD queries: a span cut into windows (int64 milliseconds or whole seconds), each window paged by cursor or by number, at most 100 pages each. The remote server is an arbitrary function from requests to replies; `ListServer` is one that holds a list. |
| `Bytes`, `IpSearch` | The binary search over IP ranges and the byte order it uses. |
| `Fnv` | FNV-1a in 64 and 32 bits, on bit-vectors. |
| `Padding`, `TextCodecs`, `Aes` | PKCS padding, hex and base64, CBC and ECB over an abstract block permutation. |
| `RotatingLog`, `Pool` | The queued rotating logger and the connection pool's refill loop. |
| `Batch`, `Signing` | The TOP client: batches joined by a separator, signed parameters, paging. `Signing` also holds the JD signature. |
| `KeyCleaning`, `Dispatch` | Callback dispatch from sheets: key cleaning, grouping, counting. |
| `Arith`, `Numerals`, `Sequences`, `Wrappers` | Shared arithmetic; decimal numerals; concatenation and filtering of sequences; `Option` and `Result`. |

Things outside the code that are read become parameters: the clock, the remote servers, the
callback, the dialler, the digest, the date and number parsers, the block cipher. Strings stand for
Go's byte strings, one character for one byte, except in `KeyCleaning`, where they are runes.

## Findings

- `SetPath` and `Set` write into one existing map. If the stored value leads back to it the heap becomes
  cyclic (`SelfWriteIsCyclic`). If not, the result is the tree update exactly when that map stands nowhere
  else in the tree, or the update changes nothing (`SharedMapLeaks` shows the leak). On decoded JSON, which
  shares nothing, it always is.
- A query bound of at most 13 digits is read as a timestamp only when it contains the digit `0`,
  although the comment at `service/jd_order.go:519` promises timestamps in general
  (`TimestampNeedsAZero`, `ZeroFreeTimestampRefused`).
- A harvest is complete exactly when no window holds more than 100 pages of orders; what lies beyond is
  dropped without an error (`BonusHarvestExact`, `OrderHarvestExact`).
- `ip_search` does not end once it probes a row that starts at the address and ends before it
  (`AnswersIffNeverStuck`); a one-row table with such a row hangs (`ReversedRowHangs`). On a table whose rows
  come in order of their starts, each ending before the next begins, an address is answered exactly when no row
  is of that kind for it, and all addresses are exactly when no row ends before it starts
  (`AnswersIffNoneSticks`, `AnswersAllIffNoneReversed`).
- The comment at `core/aec.go:46` says any length can be encrypted. An empty input is not padded and gives
  an empty text, as no other input does (`OnlyEmptyGivesEmpty`), because the padding error is dropped; the
  function is still injective on all inputs.
- Padding is undone exactly when the number of added bytes fits in one byte (`TrimUndoesPadIff`).
- The batch separator overlaps itself, so a part can fail to come back without containing it
  (`OverlapBreaksASplit`); `SplitUndoesJoinIff` says exactly which parts do.
- The logger writes to a file it has registered exactly when the clock readings of its writes leave an hour and
  come back to it (`RetiredIffNoHourComesBack`; `ClockBackReopens` is one such run), and registers it twice exactly
  when they also leave that hour again (`OnceIffNoHourLeftTwice`); error logs are exempt. A clock that jumps back
  into an hour without writes does no harm.

## Model

| member | source | states |
|---|---|---|
| JsonTree.LookupWritten | common/bitly/go-simplejson/simplejson.go:68-103 | After a write, the written branch and everything below it reads the written value |
| JsonTree.LookupElsewhere | common/bitly/go-simplejson/simplejson.go:68-103 | Every path that is neither prefix nor extension of the branch reads as before, also where scalars or arrays gave way to maps |
| JsonTree.DivergeMeansNoPrefix | common/bitly/go-simplejson/simplejson.go:81-102 | Diverging is exactly: neither path is a prefix of the other |
| JsonTree.WritesCommute | common/bitly/go-simplejson/simplejson.go:68-103 | Writes on diverging branches commute |
| JsonTree.WriteAboveErases | common/bitly/go-simplejson/simplejson.go:68-103 | A later write at or above a branch leaves no trace of the earlier one; a repeated branch keeps only the last value |
| JsonTree.WriteBelowRefines | common/bitly/go-simplejson/simplejson.go:68-103 | A later write below a branch is a write into the value stored there |
| JsonTree.LastWriteWins | common/bitly/go-simplejson/simplejson.go:68-103 | In any run of writes a path reads its last write when all later ones diverge from it |
| JsonTree.WriteMovesPastRun | common/bitly/go-simplejson/simplejson.go:68-103 | A write can be moved to the end of any run of writes diverging from it |
| JsonTree.LookupThrough | common/bitly/go-simplejson/simplejson.go:134-140 | Reading a path in two steps, through the wrapper of a prefix, is reading it at once |
| JsonTree.DeletedReadsNull | common/bitly/go-simplejson/simplejson.go:106-112 | A deleted key and everything below it reads null |
| JsonTree.DeleteElsewhere | common/bitly/go-simplejson/simplejson.go:106-112 | A deletion is invisible on diverging paths |
| JsonHeap.ShapeUnique | common/bitly/go-simplejson/simplejson.go:14-16 | A heap describes at most one tree |
| JsonHeap.WalkReadsTree | common/bitly/go-simplejson/simplejson.go:120-140 | Chasing keys through the heap reads what the tree it describes reads |
| JsonHeap.TreeSpelledOut | common/bitly/go-simplejson/simplejson.go:14-16 | The tree of a value shows the value: the atom, the elements in order, the keys of the map |
| JsonHeap.Frame | common/bitly/go-simplejson/simplejson.go:56-64 | A described value survives every change to maps it does not contain |
| JsonHeap.VisibleIff | common/bitly/go-simplejson/simplejson.go:56-64 | A value changes with a map exactly when that map is in it and reads differently |
| JsonHeap.EverywhereIsWriteIff | common/bitly/go-simplejson/simplejson.go:56-64 | Changing the map found at a path is the tree write there if and only if the map stands nowhere else or the change does not show |
| JsonHeap.KeyWritten | common/bitly/go-simplejson/simplejson.go:58-64 | Storing a key in the map at p: the heap stays acyclic, and is the tree write at p + [key] if and only if that map stands nowhere else or nothing changes; nothing shared before and in the value, nothing shared after |
| JsonHeap.KeyDeleted | common/bitly/go-simplejson/simplejson.go:106-112 | Deleting a key of the map at p, likewise |
| JsonHeap.TidyIsExclusive | common/bitly/go-simplejson/simplejson.go:56-64 | Without sharing every map stands nowhere else |
| JsonHeap.ChainDescribed | common/bitly/go-simplejson/simplejson.go:83-96 | The new maps a SetPath hangs under one another are a write into an empty map |
| JsonHeap.WrittenIsFound | common/bitly/go-simplejson/simplejson.go:58-64 | The stored value itself, not a copy, is found at p + [key] |
| JsonHeap.LeadingBackIsCyclic | common/bitly/go-simplejson/simplejson.go:58-64 | When a value found below a map leads back to that map, no tree describes the heap |
| SimpleJson.Json.Set | common/bitly/go-simplejson/simplejson.go:58-64 | Changes one key of the wrapped map; on anything but a map no object changes |
| SimpleJson.Json.Del | common/bitly/go-simplejson/simplejson.go:106-112 | Removes one key of the wrapped map; on anything but a map no object changes |
| SimpleJson.Json.Get | common/bitly/go-simplejson/simplejson.go:120-128 | A new wrapper around the very value stored, null when there is none |
| SimpleJson.Json.CheckGet | common/bitly/go-simplejson/simplejson.go:167-175 | Tells a missing key from a stored null |
| SimpleJson.Json.GetPath | common/bitly/go-simplejson/simplejson.go:134-140 | On any heap: wraps the very value the keys lead to, null where one is missing; the wrapper is new, except that an empty branch gives the receiver itself |
| SimpleJson.Json.SetPath | common/bitly/go-simplejson/simplejson.go:68-103 | On any acyclic heap: at most one existing map changes; the stored value itself is found at the branch; cyclic if the value leads to that map, otherwise the tree write if and only if the map stands nowhere else or nothing changes; without sharing always the tree write, and sharing stays absent; where all maps on the way exist, one assignment to the last of them |
| SimpleJson.SetThroughAlias | common/bitly/go-simplejson/simplejson.go:58-64 | Get the wrapper at p, then Set: the very assignment SetPath(p + [key]) makes, with all its consequences for the root; nothing changes where p holds no map |
| SimpleJson.DelThroughAlias | common/bitly/go-simplejson/simplejson.go:106-112 | Deleting through a wrapper deletes from the root tree, and nothing else exactly when the map at p stands nowhere else or nothing is lost |
| JsonTree.NonMapGivesWay | common/bitly/go-simplejson/simplejson.go:74-99 | Where no map stands, a write below starts from an empty map |
| SimpleJson.Json.RootMap | common/bitly/go-simplejson/simplejson.go:74-79 | Keeps a map at the root, puts a new one in place of anything else |
| SimpleJson.RepairStep | common/bitly/go-simplejson/simplejson.go:83-96 | A repairing turn of the loop keeps the loop's invariant |
| SimpleJson.DescendStep | common/bitly/go-simplejson/simplejson.go:98 | A descending turn keeps it too |
| SimpleJson.Outcome | common/bitly/go-simplejson/simplejson.go:81-102 | Once the chain of new maps ending in the value hangs under the last existing map, or replaces the root, the write is done |
| SimpleJson.SelfWriteIsCyclic | common/bitly/go-simplejson/simplejson.go:68-103 | A map written into itself, by the very assignment SetPath makes: the concrete failing input |
| SimpleJson.SharedMapLeaks | common/bitly/go-simplejson/simplejson.go:68-103 | With one map at two places, the assignment SetPath makes on one path changes the other: the concrete failing input |
| SimpleJson.SetPaths | common/bitly/go-simplejson/simplejson.go:68-103 | Any run of SetPath calls with atoms keeps an acyclic heap acyclic; one that shares nothing still shares nothing and holds exactly the run of tree updates |
| SimpleJson.LastAtomIsRead | common/bitly/go-simplejson/simplejson.go:68-140 | After such a run the keys of a branch lead to its last atom when every later write diverges from it |
| JdWindows.CutTiles | service/jd_order.go:574-602 | The windows are non-empty, contiguous, in order, within the limit, and cover exactly the span |
| JdWindows.TilingUnique | service/jd_order.go:254-284 | They are the only such sequence |
| JdWindows.CutCount | service/jd_order.go:574-602 | Their number is the span over the limit, rounded up |
| JdWindows.Add64 | service/jd_order.go:578 | Two's complement sum, exact as long as the sum fits |
| JdWindows.ParsedBoundIsSmall | service/jd_order.go:530-567 | Every accepted bound lies so far inside int64 that adding a window cannot overflow |
| JdWindows.NumeralBound | service/jd_order.go:533-540 | A bound of at most 13 characters with a zero is the signed number it spells, or refused when it spells none |
| JdWindows.DateBound | service/jd_order.go:541-567 | Any other bound is accepted exactly when the date parser accepts it; its nanoseconds become whole milliseconds, cut toward zero |
| JdWindows.DatesAreTiled | service/jd_order.go:541-582 | Between two dates the ten-minute windows tile the span between their milliseconds |
| JdWindows.SignedBound | service/jd_order.go:533-540 | "-10" is ten milliseconds before the epoch |
| JdWindows.ParseInt64SpelledOut | service/jd_order.go:535 | Accepted is exactly what spells a 64-bit number, with at most one sign |
| Numerals.DecimalIsPositional | service/jd_order.go:535 | A digit string is worth its positional value |
| JdWindows.TimestampNeedsAZero | service/jd_order.go:533-540 | A digit string of at most 13 characters is accepted exactly when it has a zero |
| JdWindows.ZeroFreeTimestampRefused | service/jd_order.go:533-540 | A 13-digit timestamp that is refused |
| JdOrders.InWindowSpelledOut | service/jd_order.go:660-725 | A window holds an order, as often as it is listed, exactly when start <= time < end |
| JdOrders.CursorOf | service/jd_order.go:764-824 | The next cursor is the last non-empty sort value of the page, empty when all are |
| JdOrders.FetchBonusOrders | service/jd_order.go:624-657 | For any server: request n asks for page n with the cursor of page n - 1; the loop ends with the first failure, the first page without cursor, or page 100, and returns that failure or all pages one behind the other |
| JdOrders.CursorLoopIsPrefix | service/jd_order.go:624-657 | Against a list of n orders it returns exactly the first min(n, 100 * size) in min(100, ceil(n / size) + 1) requests |
| JdOrders.CursorRunFrom | service/jd_order.go:631-654 | The same from any page and any cursor on |
| JdOrders.ListServerServes | service/jd_order.go:660-725 | A server holding a list named by distinct sort values answers as the prefix results require |
| JdOrders.FetchOrders | service/jd_order.go:306-333 | For any server: request n asks for page n; the loop ends with the first failure, the first page that promises no more, or page 100, and returns that failure or all pages one behind the other |
| Sequences.ConcatAt | service/jd_order.go:637-638 | Element k of page n comes k places behind the pages before it |
| JdOrders.NumberLoopIsPrefix | service/jd_order.go:306-333 | Against numbered pages it returns exactly the first min(n, 100 * size) orders |
| JdHarvest.GetJdBonusOrder | service/jd_order.go:516-621 | Bad or missing bounds are refused; otherwise the windows asked for are those of 600000 ms that tile the parsed span, in order, up to the first that fails, whose error is the answer; without failure all of them are asked for and the answer is what they hold |
| JdHarvest.GetJdOrder | service/jd_order.go:217-303 | The same with dates for bounds, 24:00:00 replaced in the end bound, and windows of 3600 s |
| JdHarvest.HarvestSpelledOut | service/jd_order.go:254-284 | A harvest ends with the first failure, error and all; without any it holds the windows one behind the other |
| JdHarvest.MidnightReplaced | service/jd_order.go:232 | In the end bound every 24:00:00 becomes 23:59:59, none is left, and all other characters stay |
| JdHarvest.WholeIsSpan | service/jd_order.go:576-602 | Cutting a span neither loses nor repeats an order |
| JdHarvest.WholeIsSpanInOrder | service/jd_order.go:576-602 | With orders listed by time the windows put together are the span in order |
| JdHarvest.HarvestExact | service/jd_order.go:576-602 | Every order of the span exactly once if and only if every window fits its room; window-then-list order |
| JdHarvest.BonusHarvestExact | service/jd_order.go:574-657 | The bonus harvest: exactly once if and only if no ten-minute window exceeds 100 pages |
| JdHarvest.OrderHarvestExact | service/jd_order.go:254-333 | The order harvest: exactly once if and only if no hour exceeds 100 pages |
| Bytes.CompareIsNumeric | common/region/ipparse.go:517-521 | For addresses of one length byte order is the order of the big-endian numbers |
| Bytes.CompareTransitive | common/region/ipparse.go:517-521 | The byte order is transitive, strictly where one step is |
| Bytes.CompareSpelledOut | common/region/ipparse.go:517-521 | -1, 0 or 1; -1 exactly when the first difference says so |
| IpSearch.Search | common/region/ipparse.go:509-532 | On any table on which it ends: the answer is that of the probes; any value returned belongs to a row covering the address; on sorted disjoint rows equals the linear scan |
| IpSearch.AnswerIsCovering | common/region/ipparse.go:514-529 | On any table at all, whatever the probes return is the value of a row covering the address |
| IpSearch.AnswerIsScan | common/region/ipparse.go:514-529 | On sorted disjoint rows the probes return what a linear scan returns |
| IpSearch.ScanSpelledOut | common/region/ipparse.go:517-525 | The linear scan finds the first covering row, or nothing when no row covers the address |
| IpSearch.AnswersInLogTime | common/region/ipparse.go:514-529 | A search that ends makes at most floor(log2 of the number of rows) + 1 probes |
| IpSearch.AnswersIffNoneSticks | common/region/ipparse.go:509-532 | On rows in order an address is answered if and only if no row starts at it and ends before it |
| IpSearch.AnswersAllIffNoneReversed | common/region/ipparse.go:509-532 | On rows in order every address is answered if and only if every row starts at or before its end |
| IpSearch.StickingStaysInRange | common/region/ipparse.go:514-529 | On rows in order the search closes in on a sticking row, wherever it stands |
| IpSearch.ProbeNarrowsOrSticks | common/region/ipparse.go:514-529 | A probe narrows the range or, exactly at a sticking row, repeats itself |
| IpSearch.StuckForever | common/region/ipparse.go:514-529 | From a sticking row the loop never leaves |
| IpSearch.AnswersIffNeverStuck | common/region/ipparse.go:509-532 | On any table the search ends if and only if no probe meets a sticking row, and then within one turn more than there are rows |
| IpSearch.ReversedRowHangs | common/region/ipparse.go:509-532 | The concrete failing table: one row, ending before it starts |
| IpSearch.OrderedRowsNeverStick | common/region/ipparse.go:497-501 | Rows with start at or before end never stick |
| IpSearch.CoversIsBetween | common/region/ipparse.go:517-521 | Covering is lying between two numbers |
| IpSearch.GetRegionId | common/region/ipparse.go:443-462 | Picks the table by the colon; "0" for no address or no row; on any table on which the search ends an answer comes from a row covering the address, on sorted disjoint rows it is the scan's |
| Fnv.Sum64 | core/fnv.go:40-48 | Computes Hash64 |
| Fnv.Hash64SpelledOut | core/fnv.go:29-48 | Hash64 starts from 14695981039346656037; for each byte the hash is xored with it and then multiplied by 1099511628211, modulo 2^64 |
| Fnv.Hash64OfA | core/fnv.go:40-48 | The published hash of "a" |
| Fnv.Sum32 | core/fnv.go:51-59 | Computes Hash32 |
| Fnv.Hash32SpelledOut | core/fnv.go:29-59 | The same with 2166136261 and 16777619, modulo 2^32 |
| Fnv.Hash32OfA | core/fnv.go:51-59 | The published 32-bit hash of "a" |
| Fnv.StepBijective64 | core/fnv.go:43-44 | For each byte the step is a bijection on the state, and different bytes are kept apart |
| Fnv.StepBijective32 | core/fnv.go:54-55 | The same in 32 bits |
| Fnv.FoldBijective | core/fnv.go:40-48 | Hashing a fixed key is a bijection on the starting state |
| Fnv.CollisionIsInTheMiddle | core/fnv.go:40-48 | A common prefix and suffix neither make nor hide a collision |
| Fnv.OneByteNeverCollides64 | core/fnv.go:40-48 | Keys of one length that differ in exactly one byte hash differently |
| Fnv.OneByteNeverCollides32 | core/fnv.go:51-59 | The same in 32 bits |
| Padding.PaddedLength | common/common.go:166-170 | Padding reaches the next block boundary strictly beyond the data |
| Padding.PaddingBytes | common/common.go:166-170 | Every added byte holds the number of bytes added, modulo 256 |
| Padding.TrimSpelledOut | common/common.go:172-175 | Trimming takes off as many bytes as the last byte says, and fails when there are not so many |
| Padding.TrimUndoesPadIff | common/common.go:166-175 | Trimming undoes padding if and only if at most 255 bytes were added |
| Padding.TrimUndoesPad | common/common.go:166-175 | So for every block size from 1 to 255 |
| Padding.TrimFailsAt256 | common/common.go:166-175 | And not for 256 on an empty input |
| TextCodecs.HexRoundTrip | common/common.go:147-151 | Hex decoding undoes encoding |
| TextCodecs.HexSpelledOut | common/common.go:147 | Byte i becomes the digits of its high and its low half, from 0 to f |
| TextCodecs.HexDecodeStops | common/common.go:151 | Decoding keeps what stands in front of the first pair that is not hex |
| TextCodecs.HexCaseFree | common/common.go:151 | Lowering undoes raising the case of hex text |
| TextCodecs.Base64RoundTrip | core/aec.go:43 | The base64 text determines the bytes |
| TextCodecs.Base64SpelledOut | core/aec.go:43 | Three bytes become four digits of 64, most significant first, with = for what is missing |
| TextCodecs.AlphabetSpelledOut | core/aec.go:43 | The digits are A to Z, a to z, 0 to 9, plus and slash |
| Aes.CbcEncryptBlocks | common/common.go:142-146 | Filling the buffer block by block is the CBC chain |
| Aes.CbcDecryptBlocks | common/common.go:159-161 | Likewise for decryption |
| Aes.CbcRoundTrip | common/common.go:142-161 | The CBC chain is undone, for any permutation of blocks and any vector |
| Aes.CbcSpelledOut | common/common.go:142-146 | Block i is the encryption of data block i mixed with block i - 1, the first one with the vector |
| Aes.XorBlockSpelledOut | common/common.go:142-146 | Blocks are mixed bit by bit: set where the two differ |
| Aes.EcbSpelledOut | core/aec.go:39-41 | Each block is encrypted on its own |
| Aes.AESEncodeStr | common/common.go:134-148 | Fails exactly on a key that has not 16, 24 or 32 bytes; otherwise Encoded |
| Aes.EncodedSpelledOut | common/common.go:132-148 | The hex of the CBC chain over the padded source, starting from sixteen characters 0 |
| Aes.AESDecodeStr | common/common.go:150-164 | The reverse, and where it panics |
| Aes.DecodeUndoesEncode | common/common.go:134-164 | Decoding recovers every plaintext, empty included, also from upper-case hex |
| Aes.EncryptAES128ECB | core/aec.go:14-44 | Error cases in order; the block loop computes ECB; empty input gives empty text |
| Aes.EcbTextSpelledOut | core/aec.go:32-43 | The base64 of the padded input with each block encrypted on its own |
| Aes.EcbInvertible | core/aec.go:14-57 | The text can be turned back into the input, for all inputs |
| Aes.EcbInjective | core/aec.go:14-57 | Equal texts under one key come from equal inputs |
| Aes.OnlyEmptyGivesEmpty | core/aec.go:46-57 | The text is empty exactly for the empty input |
| RotatingLog.Logger.SetDealProInfo | common/logger/file/loglib.go:53-56 | Sets the batch size of the ticks that follow |
| RotatingLog.Logger.LogFile | common/logger/file/loglib.go:133-137 | One push step of the state machine |
| RotatingLog.Logger.WriteLog | common/logger/file/loglib.go:103-131 | One write, with rotation and registration |
| RotatingLog.Logger.DrainBatch | common/logger/file/loglib.go:64-83 | One tick: min(queue, batch) lines, all of them for a batch size that is not positive |
| RotatingLog.TickSpelledOut | common/logger/file/loglib.go:64-83 | A tick takes min(queue, batch) lines, or all for a batch size that is not positive, to the topic when there is one, otherwise each line to the file of its own moment |
| RotatingLog.NothingLost | common/logger/file/loglib.go:58-89 | In every interleaving, with any batch size at each tick: pushed = delivered followed by queued, in order |
| RotatingLog.EmptyIffEnoughTicks | common/logger/file/loglib.go:69-82 | A queue of length L is empty after quiet ticks if and only if their batch sizes add up to L; with one batch size n, if and only if they number at least ceil(L / n) |
| RotatingLog.NamesDiffer | common/logger/file/loglib.go:104-117 | Different hours have different files |
| RotatingLog.NameSpelledOut | common/logger/file/loglib.go:104-117 | Directory, date in eight digits, slash, file name, ".hour.", the date again and the hour in two digits |
| RotatingLog.ErrorLogSpelledOut | common/logger/file/loglib.go:120 | Error logs are the files with "err.log" in their name |
| RotatingLog.RunConsistent | common/logger/file/loglib.go:112-129 | In every run: lines are in the file of their hour, and registrations are exactly the files left behind |
| RotatingLog.RetiredIffNoHourComesBack | common/logger/file/loglib.go:112-129 | In every run, whatever the clock does: a registered file was written before and is never written again, for all of them, if and only if no hour of an ordinary log is left and comes back |
| RotatingLog.OnceIffNoHourLeftTwice | common/logger/file/loglib.go:112-129 | In every run: no file is registered twice if and only if no hour of an ordinary log is left twice |
| RotatingLog.LeftIsRegistered | common/logger/file/loglib.go:116-124 | An ordinary file that is left between two writes is registered in between |
| RotatingLog.RotationSafe | common/logger/file/loglib.go:112-129 | In every run every ordinary file left behind is registered; with a clock that does not go back it is never written again nor registered again |
| RotatingLog.ClockBackReopens | common/logger/file/loglib.go:112-129 | One run in which an hour comes back: its registered file is written again |
| Pool.RabbitmqPool.NewPool | common/pool/pool.go:46-68 | Refuses an invalid configuration; queues the successes of the first MinOpen dials |
| Pool.RabbitmqPool.RefillPass | common/pool/pool.go:72-81 | One pass: how many dials it makes, and that exactly their successes are queued in order |
| Pool.PassLengthUnique | common/pool/pool.go:72-81 | The dial results determine the length of a pass |
| Pool.PassNeverOvershoots | common/pool/pool.go:72-81 | Never beyond the minimum; between half the deficit and the deficit in dials |
| Pool.PassHalves | common/pool/pool.go:72-81 | With f failed dials, deficit d becomes floor((d + f) / 2) |
| Pool.DialledSucceeded | common/pool/pool.go:73-79 | Every queued connection came from a dial that succeeded |
| Pool.DialledAt | common/pool/pool.go:73-79 | What a dial obtained stands behind what the dials before it obtained |
| Pool.GoneIffEnoughPasses | common/pool/pool.go:71-83 | Without dial errors the deficit is gone after k passes if and only if k >= Halvings(d) |
| Pool.RabbitmqPool.AutoLink | common/pool/pool.go:70-85 | After the first k passes the deficit is that of AfterPasses; without dial errors the minimum is reached if and only if k >= Halvings(d); nothing leaves the queue |
| Pool.HalvingsIsLog | common/pool/pool.go:71-83 | Halvings(d) is floor(log2 d) + 1 |
| Batch.IndexOfFinds | common/topsdk-go/batch.go:73 | The first occurrence, or none |
| Batch.SplitUndoesJoinIff | common/topsdk-go/batch.go:54-73 | Splitting undoes joining if and only if each part passes a test of its own |
| Batch.SplitUndoesJoin | common/topsdk-go/batch.go:54-73 | Parts without the separator's first character always come back |
| Batch.OverlapBreaksASplit | common/topsdk-go/batch.go:16 | A part without the separator in it that does not come back |
| Batch.JoinRequests | common/topsdk-go/batch.go:54-62 | The body is the requests joined |
| Batch.SplitSpelledOut | common/topsdk-go/batch.go:73 | Any text comes apart into the one list of parts that joins to it and passes those tests |
| Batch.BytesToResultBatch | common/topsdk-go/batch.go:72-89 | One result per part in order; a lone error answering any other number of requests than one is the error of the batch |
| Batch.ResultSpelledOut | common/topsdk-go/batch.go:76-82 | A part that does not decode gives its decoding error; one that does gives the document and its own error |
| Batch.LoneError | common/topsdk-go/batch.go:84-87 | A lone error is the error of the batch, or the one result of a batch of one |
| Batch.DoJsonBatch | common/topsdk-go/batch.go:51-70 | One body goes out under a signature over the common parameters and that body; a transport error is returned, any other reply is taken apart against the number of requests |
| Batch.AnsweredEach | common/topsdk-go/batch.go:51-89 | If the server answers one CR-free part per request, result i belongs to request i and the counts agree |
| Signing.LessSpelledOut | common/topsdk-go/client.go:191 | The order of the keys is the order of strings by their first difference |
| Signing.ListsSpelledOut | common/topsdk-go/client.go:187-191 | A listing holds exactly the keys, each before the ones greater at the first difference |
| Signing.ListingUnique | common/topsdk-go/client.go:187-191 | A set of keys has exactly one ascending listing |
| Signing.SortStrings | common/topsdk-go/client.go:191 | Sorting distinct keys gives that listing |
| Signing.KeysOf | common/topsdk-go/client.go:188-190 | Ranging over a map in any order gives each key once |
| Signing.PairsTextUnique | common/topsdk-go/client.go:187-196 | The signed text depends on the map alone |
| Signing.PairsSnoc | service/jd_order.go:453-456 | The text is built from nothing, each key followed by its value |
| Signing.TwoPairs | service/jd_order.go:442-456 | With two keys: the smaller key, its value, the greater key, its value |
| Signing.PairsExample | common/topsdk-go/client.go:187-196 | "app_key" stands before "method" |
| Signing.SignatureUnique | service/jd_order.go:442-464 | So does the signature |
| Signing.GenerateJdSign | service/jd_order.go:442-464 | The digest of the sorted pairs between two copies of the secret, in upper-case hex |
| Signing.Parameters.Sign | common/topsdk-go/client.go:186-204 | Adds the signature of the map as it was, and changes nothing else |
| Signing.Parameters.SetCommonParams | common/topsdk-go/client.go:172-182 | Adds the common parameters, the session only when there is one |
| Signing.DoJson | common/topsdk-go/client.go:131-142 | The request is the caller's map, prepared and signed |
| Signing.SignedParameters | common/topsdk-go/client.go:131-182 | What is signed for a page: the caller's own parameters unchanged, the page, method and common ones; a "sign" only if the caller had one |
| Signing.AskPage | common/topsdk-go/queryOrder.go:59-65 | The call works on a fresh copy, so the caller's map stays as it is |
| Signing.QueryAllPagedOrders | common/topsdk-go/queryOrder.go:38-111 | For any number of turns of any run, ending or not: request n is signed from the caller's own parameters and page n; the caller's map gains only the page entry; a run that ends returns what its pages held; a server whose page n ends every run ends it by then |
| Signing.RunShape | common/topsdk-go/queryOrder.go:66-108 | A run has pages with a successor, then an error, a page without a list, or a page without successor |
| Signing.RunReturns | common/topsdk-go/queryOrder.go:66-111 | It returns that error, or else the decodable items of all its pages, one page behind the other |
| Signing.DecodedExactly | common/topsdk-go/queryOrder.go:90-100 | Each decodable item comes exactly once, in order; the others are passed over |
| Signing.StillBefore | common/topsdk-go/queryOrder.go:105-108 | A run that goes on has not come to a page that ends it |
| KeyCleaning.CleanKeyHasNone | service/ks.go:213-217 | A clean key has no tab, line feed, carriage return, nor white space at its ends |
| KeyCleaning.CleanIsKept | service/ks.go:213-217 | A text that is clean already is its own key |
| KeyCleaning.TrimSpelledOut | service/ks.go:214 | Trimming takes off white space at both ends, all of it and nothing else |
| KeyCleaning.SpacesSpelledOut | service/ks.go:214 | Below code 128 white space is tab to carriage return and the blank |
| KeyCleaning.CleanKeyIdempotent | service/ks.go:286-290 | Cleaning is idempotent |
| KeyCleaning.PaddingIsInvisible | service/ks.go:213-217 | White space around a cell does not change its key |
| KeyCleaning.InsertedIsInvisible | service/ks.go:213-217 | Nor does a tab, line feed or carriage return anywhere in it |
| Dispatch.FindColumnIndex | service/juliang.go:319-328 | The first column with one of the names, or -1 and there is none |
| Dispatch.GroupRows | service/ks.go:204-236 | Each group is the subsequence of accepted rows with its key |
| Dispatch.ReadKsDataSource | service/ks.go:187-239 | Refused exactly when data rows or one of the columns ad_id and callback_param are missing; otherwise each data row that reaches both columns stands once, in order, under its clean id, with its own callback parameter, advertiser and other cells, and nothing else is there |
| Dispatch.RecordIsRow | service/ks.go:137-139 | The record a callback is made with is the one of a row of the sheet, callback parameter and all |
| Dispatch.KsReaderSpelledOut | service/ks.go:206-231 | Which cell becomes which field, and which rows are passed over |
| Dispatch.ReadClickData | service/ks.go:242-301 | Refused exactly when data rows or required columns are missing; otherwise one entry for each row that reaches both columns and has a number, in order, with its clean id and that number |
| Dispatch.ProcessKsExcelAndCallback | service/ks.go:94-167 | From the two sheets to the calls, counters and details |
| Dispatch.GroupsPartition | service/juliang.go:211-251 | No group is empty; row i stands in the group of its key behind the earlier ones of that key |
| Dispatch.SizesAddUp | service/ks.go:204-236 | Group sizes add up to the accepted rows |
| Dispatch.PaddedIdsMeet | service/ks.go:213-217 | Padding an id in either sheet changes neither click row nor source record |
| Dispatch.ProcessClicks | service/ks.go:107-166 | The exact calls in order, the counters, and one detail per click row in order |
| Dispatch.TallySpelledOut | service/ks.go:107-166 | The total is the number of callbacks, the successes those answered with yes, the failures the rest |
| Dispatch.DetailSpelledOut | service/ks.go:120-158 | Each detail: the row's id and count, skipped without a group, the capped count, and a line "Success: " or "Failed: " for each callback |
| Dispatch.CallNumber | service/ks.go:117-148 | Callbacks come click row by click row, each from the first record of its group on |
| Dispatch.Burst | service/juliang.go:133-153 | The inner loop on one group |
| Dispatch.TotalIsSum | service/ks.go:107-166 | The total is the sum over matched click rows of max(0, min(count, group size)) |
| Dispatch.CalledExactly | service/juliang.go:117-162 | The record at position j of a group is called once per click row of its key with count above j |

## Left out

- HTTP, gin handlers, Excel, metrics, MySQL, Redis, Kafka and RabbitMQ calls: input and output of other libraries; where their answers matter they are parameters.
- AES rounds, MD5, JSON text decoding, zstd: library internals; a block permutation and a digest stand in.
- The data caches and the CRC pool: they rest on singleflight, LRU and redis libraries.
- `service/gdt.go`, `service/uc.go`, `service/honor.go`, `service/jd_sh.go`, `service/taobao_activity.go`, `common/topsdk-go/queryIncome.go`, `common/topsdk-go/queryUser.go`: near-copies of what is modelled.
- Typed accessors of simplejson (`Int`, `Must*`, `GetIndex`): each is settled by one branch.
- SimpleJson.Json.SetPath: starts from an acyclic heap, shared maps allowed; writes into a heap that is cyclic already are not described. Arrays are values here, so changing an element of a slice handed out by `Array` is not modelled, nor is a nil map.
- JdHarvest.GetJdOrder: the date parser is a parameter that gives whole seconds; a fraction of a second, which Go's parser also accepts, is not modelled.
- JdHarvest.BonusHarvestExact: speaks of a server that answers half-open windows from one fixed list with distinct non-empty sort values; a list that changes during the harvest is not modelled.
- IpSearch.Search: requires that no probe meets a sticking row, since exactly then the Go loop does not end; loading the tables from files is not modelled.
- TextCodecs.HexCaseFree: case is changed for ASCII letters only, the only ones hex text has.
- Aes.EncryptAES128ECB: decoding the base64 key is a parameter.
- RotatingLog.NamesDiffer: dates have eight digits, years 0 to 9999; a failing registration or file system is not modelled, registration means that a file is handed to it.
- RotatingLog.Logger.DrainBatch: the batch size may change between ticks, not during one.
- Pool.RabbitmqPool.RefillPass: no other goroutine touches the list during a pass; `Get`, `Close` and `ClosePool` are not modelled.
- Signing.QueryAllPagedOrders: follows a run for a given number of turns, as the Go loop has no bound of its own; parameter values stand as the strings they are sent as.
- Dispatch.GroupRows: takes the reading of a row into a record as a parameter; `KsRecord` is one, and the Juliang sheet, which groups by campaign id, differs only in its columns. Its unguarded column access is not modelled.
