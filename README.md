# kafdrop-search, modelled in Dafny

kafdrop-search is a browser extension. It finds the offset of a Kafka message on a partition
when given the message's key and approximate timestamp. It talks to a Kafdrop server over HTTP.

This project models the algorithmic core of that extension and proves properties of it.

- **Murmur2** (`murmur2.dfy`): `Murmur2Service.compute` as written, on unbounded integers (the
  source computes on JavaScript `BigInt` and never masks after a multiply). It is proved equal
  to a 32-bit reference MurmurHash2 with Kafka's seed `0x9747b28c` and Kafka's `toPositive`
  mask. The key step is that the `unsignedShiftRight` helper is a logical shift of the low
  32 bits, so only the low 32 bits of the accumulators ever reach the result.
- **Partitioner** (`partitioner.dfy`): `getPartition`, the hash modulo the partition count.
- **KafdropApi** (`kafdrop_api.dfy`):
  - the negative-offset clamp at the start of `getMessages`, as a class whose method updates
    the caller's request parameters in place;
  - the server's answer to a message read, as a pure function over an immutable log;
  - the topic endpoint URLs and the empty-URL check of `getBaseUrl`.
- **Search** (`search.dfy`): `search`, `refineSearch`, `finalizeSearch` and `scrollPages`.
  - The recursion of `refineSearch` and `scrollPages` becomes `while` loops.
  - `refineSearch` is proved against a recursive specification function that follows the
    source's recursion step by step.
  - Every method also returns the reads it sent, in order, so the proofs can state how many
    reads happen and in what order.
  - The end-to-end theorem is on `SearchPartition` and `Search`. Take a well-formed log: its
    offsets are contiguous and its timestamps are sorted. Suppose the message with the key is
    the only one with that key, and it is the first message at or after a timestamp that lies
    within the partition's range. Then the search answers that message's offset, provided
    that:
    - the scan covers at least one page on each side (`autoScrollPages >= 1`); and
    - the partition is at most `pageSize * 2^29` messages long.
- **Wrappers** (`wrappers.dfy`): `Option`, `Result`, and `Find`, which plays the part of
  JavaScript's `Array.prototype.find`.

Note on the page scan: the bisection stops when the range `[fromOffset, toOffset)` fits in one
page. The target message can then sit at `fromOffset + pageSize`, just past the refined page.
That is why the end-to-end theorem needs at least the page after the refined one
(`Search.LocatedNearRefined`). With `autoScrollPages = 0` only the refined page is read.

## Model

| member | source | states |
|---|---|---|
| Murmur2.Compute | src/app/murmur2.service.ts:18-57 | the loop on unbounded integers returns `Hash(value)`: 32-bit MurmurHash2 with seed `0x9747b28c` over one byte per code point, masked to below 2^31 |
| Murmur2.MixWords | src/app/murmur2.service.ts:29-42 | after the word loops, the low 32 bits of `h` are the 32-bit reference fold of `MixWord` over all `floor(length / 4)` little-endian words |
| Murmur2.ReadWord | src/app/murmur2.service.ts:32-36 | the inner loop assembles the little-endian word `b0 + b1 * 2^8 + b2 * 2^16 + b3 * 2^24` of the low bytes at `4i .. 4i + 3` |
| Murmur2.WordOfPartial | src/app/murmur2.service.ts:34-36 | adding the four shifted bytes one by one gives the little-endian word |
| Murmur2.MixTrailingBytes | src/app/murmur2.service.ts:45-50 | after the tail loop, the low 32 bits of `h` are the reference's fall-through switch over the 0-3 trailing bytes |
| Murmur2.TailLoop | src/app/murmur2.service.ts:45-50 | the downward loop XORs the tail bytes in at shifts 16, 8 and 0, highest index first, and multiplies once at the end, only when the tail is non-empty |
| Murmur2.TailByteAgrees | src/app/murmur2.service.ts:46 | one tail step on unbounded integers agrees with the 32-bit step on the low 32 bits |
| Murmur2.Finish | src/app/murmur2.service.ts:52-56 | the avalanche and the final `& 0x7fffffff` give `ToPositive(Avalanche(low 32 bits of h))` |
| Murmur2.AvalancheAgrees | src/app/murmur2.service.ts:52-54 | `h ^= usr(13, h); h *= m; h ^= usr(15, h)` on unbounded integers agrees with the 32-bit avalanche on the low 32 bits |
| Murmur2.MixAgrees | src/app/murmur2.service.ts:37-41 | `k *= m; k ^= usr(24, k); k *= m; h *= m; h ^= k` on unbounded integers agrees with the 32-bit `MixWord` on the low 32 bits |
| Murmur2.ShiftXorLow | src/app/murmur2.service.ts:38 | `x ^ unsignedShiftRight(n, x)` agrees with the 32-bit `x ^ (x >>> n)` on the low 32 bits |
| Murmur2.UnsignedShiftRight | src/app/murmur2.service.ts:13-16 | for `2 <= amount <= 32`, the AND with the mask `(1 << (32 - amount)) - 1` keeps the value shifted right by `amount` modulo `2^(32 - amount)` |
| Murmur2.UnsignedShiftRightIsLogicalShift | src/app/murmur2.service.ts:13-16 | `unsignedShiftRight(a, v) == (v mod 2^32) >> a` for every `v >= 0` and `2 <= a <= 32` |
| Murmur2.LowByte | src/app/murmur2.service.ts:35 | `x & 0xff` is `x mod 256` |
| Murmur2.CodeUnit | src/app/murmur2.service.ts:19 | `charCodeAt(0)` of a one-code-point string: the code point itself in the basic plane; otherwise the high surrogate `u` of the UTF-16 pair, the one with `0x10000 + (u - 0xD800) * 0x400 <= c < 0x10000 + (u - 0xD800 + 1) * 0x400`; always below 2^16 |
| Murmur2.CodeUnits | src/app/murmur2.service.ts:19-20 | one value per code point, so `length` counts code points |
| Murmur2.ToPositive | src/app/murmur2.service.ts:56 | `x & 0x7fffffff` is `x mod 2^31` and below 2^31 |
| Murmur2.Hash | src/app/murmur2.service.ts:56 | the hash of every key is in `[0, 2^31)` |
| Partitioner.GetPartition | src/app/partitioner.service.ts:11-13 | for `numPartitions > 0` the partition is below `numPartitions` and congruent to the key's hash modulo `numPartitions` |
| Partitioner.GetPartitionUnique | src/app/partitioner.service.ts:12 | the partition is the only index below `numPartitions` congruent to the hash, so it is determined by the key and the count |
| Partitioner.SinglePartition | src/app/partitioner.service.ts:12 | with one partition every key goes to partition 0 |
| Partitioner.GetPartitionRefines | src/app/partitioner.service.ts:12 | with `k * m` partitions, the partition reduced modulo `m` is the partition with `m` partitions |
| KafdropApi.ClampAsWritten | src/app/kafdrop-api.service.ts:73-79 | as written: no forward exactly when `offset < 0` and `offset + count <= 0`; otherwise a negative offset becomes 0 and `count` is unchanged |
| KafdropApi.TopicMessagesParams.ClampOffset | src/app/kafdrop-api.service.ts:73-79 | updates the caller's parameters in place to what `ClampAsWritten` forwards, leaves them alone when it answers `[]`, and never changes `partition` |
| KafdropApi.ClampAsWrittenOverreads | src/app/kafdrop-api.service.ts:74-77 | when a negative offset is moved to 0, the forwarded count exceeds the end `offset + count` of the requested window |
| KafdropApi.Clamp | src/app/kafdrop-api.service.ts:73-79 | corrected clamp: same empty case and same offset, and the forwarded window ends where the requested one did |
| KafdropApi.ClampForwardsUnchanged | src/app/kafdrop-api.service.ts:73 | every forwarded request has `offset >= 0` and passes through the clamp again unchanged |
| KafdropApi.ReadMessages | src/app/kafdrop-api.service.ts:72-92 | the clamp as written, then the server: a negative window that ends at or before 0 answers `[]`; otherwise at most `count` messages of the log, each at or after `offset` |
| KafdropApi.FetchContiguous | src/app/kafdrop-api.service.ts:81-83 | on a log with contiguous offsets, the server answers the log's slice from `offset` on, `count` messages long, cut to the log |
| KafdropApi.ReadWindow | src/app/kafdrop-api.service.ts:72-92 | on a contiguous log, a read at or after the first offset answers exactly the messages whose offsets lie in `[offset, offset + count)` |
| KafdropApi.ReadBeforeStart | src/app/kafdrop-api.service.ts:73-79 | on a contiguous log from offset 0, a read at a negative offset whose window reaches past 0 answers the first `count` messages of the log, because the count is not reduced; one whose window ends at or before 0 answers `[]` |
| KafdropApi.BaseUrl | src/app/kafdrop-api.service.ts:102-112 | fails with `Invalid Kafdrop URL: "<url>"` exactly when the configured URL is missing or empty; otherwise answers it unchanged |
| KafdropApi.TopicsApiUrl | src/app/kafdrop-api.service.ts:59-62 | succeeds exactly when the base URL does, with `<base>/topic`, and fails with the base URL's error otherwise |
| KafdropApi.TopicMessagesApiUrl | src/app/kafdrop-api.service.ts:54-57 | succeeds exactly when the base URL does, with `<base>/topic/<topic>/messages`, and fails with the base URL's error otherwise |
| KafdropApi.TopicOfMessagesApiUrl | src/app/kafdrop-api.service.ts:54-62 | the messages URL is `<base>/topic/<topic>/messages`: it extends the topics URL plus `/`, and the topic reads back from it |
| Search.MidOffset | src/app/search.service.ts:102 | `Math.round((from + to) / 2) == (from + to + 1) div 2`, strictly between `from` and `to` when `to - from >= 2` |
| Search.BracketStep | src/app/search.service.ts:102-110 | on a well-formed log the probe reads exactly the message at the probe offset, and moving `fromOffset` or `toOffset` to it keeps the bisection invariant with the width halved |
| Search.Refine | src/app/search.service.ts:88-112 | the recursion sends at most `31 - attempt` more reads, all single-message; running out of attempts means exactly that many; the only errors are running out of attempts and a missing message |
| Search.RefineSearch | src/app/search.service.ts:88-112 | the loop computes the recursion from `(firstOffset, lastOffset, 1)`: at most 30 single-message reads; a partition that fits in a page is refined to `firstOffset` with no read |
| Search.RefineKeepsBracket | src/app/search.service.ts:94-110 | from the bisection invariant: no probe misses, every probe is strictly inside the partition, success bounds the target (`Refined`), and the result matches the partition's width |
| Search.RefineOutcome | src/app/search.service.ts:80-81 | from the first attempt on a well-formed, non-empty log: every message before the refined offset is older than the target, every one from a page past it on is not, and the outcome follows the width |
| Search.RefinedBounds | src/app/search.service.ts:98-100 | when the range fits in a page, `refinedOffset = fromOffset` bounds the target's position |
| Search.JsRem | src/app/search.service.ts:129-130 | JavaScript's `%`: the remainder has the sign of the dividend, is smaller than the divisor in magnitude, and differs from the dividend by a multiple of it |
| Search.ScrollFactor | src/app/search.service.ts:128-130 | the source's real-valued formula, with JavaScript's `%`: for `0 <= scrollsLeft <= 2A` and `N = 2A - scrollsLeft`, it is exactly the integer `(N + 1) / 2` for odd `N` and `-N / 2` for even `N` |
| Search.PageFactorRange | src/app/search.service.ts:126-130 | the first `2A + 1` pages visited are at most `A` pages from the refined page |
| Search.PageIndexRange | src/app/search.service.ts:126-130 | every page at most `A` pages away is among the first `2A + 1` visited |
| Search.PageFactorBijective | src/app/search.service.ts:128-130 | the visiting order and its inverse: no page is visited twice and every page is visited |
| Search.PageFactorOrder | src/app/search.service.ts:128-130 | the order is `0, +1, -1, +2, -2, ...` |
| Search.FirstPageRequests | src/app/search.service.ts:134 | the first page read is at `refinedOffset`, the second at `refinedOffset + pageSize`, each `pageSize` long |
| Search.ScrollPages | src/app/search.service.ts:123-143 | each page read is `pageSize` messages at `refinedOffset + pageSize * factor` in visiting order; the scan stops at the first page holding the key and answers its first match; otherwise it reads all remaining pages |
| Search.FinalizeSearch | src/app/search.service.ts:114-121 | reads at most `2A + 1` pages in visiting order; answers the first match's offset, or `refinedOffset` when all `2A + 1` pages miss; `A = 0` reads only the refined page |
| Search.CheckRange | src/app/search.service.ts:75-78 | accepts exactly when both reads answered and `first <= timestamp <= last` (bounds included); a missing message is reported only where JavaScript's `\|\|` would reach it |
| Search.MatchInWindow | src/app/search.service.ts:136-138 | a page whose window holds a message with the key finds a match |
| Search.MatchIsLocated | src/app/search.service.ts:138 | when one message holds the key, every match found is that message |
| Search.LocatedNearRefined | src/app/search.service.ts:98-100 | the first message at or after the target is on the refined page or just after it |
| Search.FirstPagesMatch | src/app/search.service.ts:134-141 | such a message is found by the refined page or the one after it |
| Search.ScanFindsLocated | src/app/search.service.ts:119-141 | with `A >= 1` the scan answers the offset of the one message with the key |
| Search.SearchPartition | src/app/search.service.ts:70-84 | reads the first and last messages first; a timestamp outside `[first, last]` fails with no further read; on a well-formed log no read misses; the unique key at the target is found |
| Search.Search | src/app/search.service.ts:57-86 | a missing partition and an empty partition fail before any read; otherwise it starts with the two boundary reads, sends at most `2 + 30 + 2A + 1` reads, and finds the unique key at the target |
| Wrappers.Find | src/app/search.service.ts:138 | `find` answers nothing exactly when no element matches, and otherwise the matching element with no match before it |
| Wrappers.FindFirst | src/app/search.service.ts:64 | `find` answers the element at the first matching index |

## Left out

- HTTP, rxjs Observables, `zip` and Promises are not modelled. The server is a pure function
  over an immutable log. The two reads that `zip` sends concurrently become two reads in order:
  the first message, then the last.
- `getPartitions` and its HTTP call are not modelled. The partition list is a parameter of
  `Search.Search`.
- `KafdropConsts.MaxPageSize` is not part of this model. It becomes the parameter
  `pageSize > 0`.
- Converting message timestamps to `Date` is not modelled. Timestamps are integers. JavaScript
  numbers are taken as exact integers, which holds for offsets below 2^53.
- Progress reporting is not modelled. It has no effect on control flow.
- The UI, settings, storage, the alert raised by `getBaseUrl` and the global error handler are
  not modelled. The configured URL is a parameter of `KafdropApi.BaseUrl`.
- Error paths: the source dereferences a missing partition, and a probe that answers no
  message. Both throw inside the Observable chain. The model returns the errors
  `PartitionNotFound` and `MessageMissing` instead.
- Search.SearchPartition: `autoScrollPages` is a natural number used the same way by
  `finalizeSearch` and `scrollPages`. The source's `|| 0` default and the NaN that an
  undefined setting would cause in the scroll factor are not modelled.
- Search.SearchPartition: the end-to-end result assumes three things: a contiguous, sorted
  log; a key held by one message only; and a partition at most `pageSize * 2^29` long.
  Compacted logs and keys on several messages are handled by the model, but nothing is proved
  about them.
- Search.RefineOutcome: the outcome is decided only for widths up to `pageSize * 2^29` (success)
  and above `(pageSize + 1) * 2^29 - 1` (out of attempts). Widths in between may go either way
  depending on the probes.
- Murmur2.Compute: the source hashes the low byte of each code point's first UTF-16 unit. Kafka
  hashes UTF-8 bytes, so the two disagree on non-ASCII keys. The model follows the source.
- Murmur2.CodeUnits: a JavaScript string can hold an unpaired surrogate, which `Array.from`
  yields as an element of its own. A Dafny `string` holds Unicode scalar values only, so keys
  with unpaired surrogates are outside the model.
- Murmur2.MixTrailingBytes: `length & ~3` is written `length - length % 4`. The two agree for
  every length below 2^31.
- Concrete Kafka test vectors, such as the partition of a literal key, are not proved. The
  verifier would have to evaluate 32-bit multiplies and bitwise XOR on constants, which the
  bit-by-bit definition of `Xor` makes impractical. The hash is related to the reference
  algorithm for every key instead.
- Partitioner.GetPartition: requires `numPartitions > 0`. With 0 the source yields `NaN`, which
  is not a partition.

## Findings

| source | as written | input that shows it | evidently intended | confidence | as-written member | corrected member |
|---|---|---|---|---|---|---|
| src/app/kafdrop-api.service.ts:75-76 | `params.offset = 0` runs before `params.count += params.offset`, so the count is never reduced | `offset = -5, count = 10` forwards offset 0 and count 10, i.e. offsets 0-9. The requested window ends before offset 5 | `count += offset` before `offset = 0`, forwarding count 5 | high; not executed | KafdropApi.ClampAsWritten, KafdropApi.TopicMessagesParams.ClampOffset, KafdropApi.ClampAsWrittenOverreads | KafdropApi.Clamp |

The search reads through `KafdropApi.ReadMessages`, which applies the clamp as written, as
the program does. So the end-to-end theorems on `Search.SearchPartition` and `Search.Search`
hold of the program as written. `KafdropApi.Clamp` states the intended behaviour and proves
that its forwarded window ends where the requested one did.
