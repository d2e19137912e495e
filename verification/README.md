# Time-partition list, string helpers and cache-item expiry

This project models three sequential pieces of a Go utility repository for a
time-partitioned storage engine.

- **The time-partition list** (`partition_list.dfy`, module `PartitionList`)
  is a singly linked list of partitions with `head`, `tail` and
  `numPartitions` fields. It supports `remove(target)`, `swap(old, new)` and
  the diagnostic `String()`.
  - `List` is a class over `Node` objects. A ghost sequence of nodes and a
    ghost sequence `Contents` of partitions tie the links to a value.
  - `Remove` and `Swap` walk the links in a loop (`Find`) and relink or
    overwrite nodes in place.
  - Their postconditions state the new contents through the functions
    `IndexOf`, `RemoveFirst` and `Replace` over `seq<Partition>`. They also
    state the whole new shape: count, head, tail, node sequence and links.
  - A partition is the record of the test fake's fields `minT`, `maxT`,
    `numPoints` and `IsActive`; the fake's `err` field is dropped (see
    "Left out"). A target matches a node when the two records are equal.
  - `partition_list_cases.dfy` (module `PartitionListCases`) replays every
    row of the remove and swap tables. Each method builds the listed list,
    applies the operation and states the resulting list node by node. It
    then renders the list with `String()`.
- **The string helpers** (`strings.dfy`, module `Strings`) are `Substr(s,
  start, length)` and `GetBetweenStr(s, start, end)`, written as functions
  on `string`.
  - `Substr`: a negative start counts from the end and a negative length
    reaches backwards. Both ends are clipped to the string.
  - `GetBetweenStr` takes the text from the first start marker up to the
    first end marker found at or after that position.
- **The cache-item expiry check** (`lru_item.dfy`, module `CacheItem`) covers
  `LruItem.IsExpired(now)` and `LruItem.Expire()`. Time is an integer. The
  expiration is `Option<int>`, and `None` is the nil pointer.

The repository's implementation files for the list and for the string
helpers (`partition_list.go`, `strings.go`) are not part of this model. The
behaviour modelled for them is the one their table tests assert; each
asserted case is proved as a method or lemma. Where the tests leave a choice
open, the model makes an assumption, listed under "Left out".

The tests pass a freshly built fake partition as the target
(`partition_list_test.go:100-102`), so matching is not by pointer identity.
Which fields the implementation compares is not visible. The model assumes
full-value equality of the record; two live partitions can carry equal field
values, so matching by value can be ambiguous, and then the first match is
taken.

## Model

| member | source | states |
|---|---|---|
| PartitionList.IndexOf | pkg/storage/partition_list_test.go:249-253 | the position of the first node whose partition equals the target, or -1 exactly when no node matches; the partition there equals the target and none before it does |
| PartitionList.RemoveFirst | pkg/storage/partition_list_test.go:155-202 | the contents after a successful remove: the first copy of the target is taken out, the length drops by one and the partitions before and after it keep their order (backed by RemoveFirstIsMultisetDifference and RemoveFirstKeepsOrder) |
| PartitionList.Replace | pkg/storage/partition_list_test.go:365-421 | the contents after a successful swap: the first copy of the old partition is overwritten by the new one in place, the length is kept and every other position is unchanged (backed by ReplaceChangesOnePosition and ReplaceRoundTrip) |
| PartitionList.RemoveFirstIsMultisetDifference | pkg/storage/partition_list_test.go:66-257 | a successful remove shortens the contents by one and takes out exactly one copy of the target (multiset difference) |
| PartitionList.RemoveFirstKeepsOrder | pkg/storage/partition_list_test.go:155-202 | removing a node keeps a list ordered by minimum timestamp ordered |
| PartitionList.ReplaceChangesOnePosition | pkg/storage/partition_list_test.go:273-421 | a swap keeps the length, puts the new partition at the first match and leaves every other position, later copies of the old partition included, untouched; one copy of the old partition is traded for the new one (multiset) |
| PartitionList.ReplaceRoundTrip | pkg/storage/partition_list_test.go:467-471 | swapping back with the roles exchanged restores the original contents when the replacement was not already present |
| PartitionList.ReplaceMayBreakOrder | pkg/storage/partition_list_test.go:273-318 | swap does not check ordering: replacing the head of [1, 2] by 100 succeeds and yields [100, 2], which is out of order |
| PartitionList.ReplaceSameStartKeepsOrder | pkg/storage/partition_list_test.go:467-471 | a swap whose replacement starts at the same timestamp as the partition it replaces keeps the list ordered |
| PartitionList.Node.constructor | pkg/storage/partition_list_test.go:82-93 | a node holds the given partition and link |
| PartitionList.List.constructor | pkg/storage/partition_list_test.go:80-99 | the list built from a sequence of partitions is well formed and holds exactly that sequence in order; the empty sequence gives the zero-valued list |
| PartitionList.List.Find | pkg/storage/partition_list_test.go:251 | the walk from the head returns a null node exactly when no partition matches; otherwise it returns the first matching node and its predecessor (null for the head) |
| PartitionList.List.UnlinkHead | pkg/storage/partition_list_test.go:80-116 | unlinking the head drops the first node and its partition and keeps the list well formed; a one-node list becomes empty |
| PartitionList.List.UnlinkAfter | pkg/storage/partition_list_test.go:117-202 | unlinking a tail or middle node drops exactly that node and its partition; the predecessor links past it or becomes the tail |
| PartitionList.List.Unlink | pkg/storage/partition_list_test.go:80-202 | unlinking the node at position i removes exactly position i from the nodes and the contents and decrements the count |
| PartitionList.List.Remove | pkg/storage/partition_list_test.go:249-253 | NotFound exactly when no node matches, including on an empty list, with count, head, tail, nodes and contents unchanged; otherwise the first match is unlinked, the count drops by one and the contents become RemoveFirst of the old contents |
| PartitionList.List.Swap | pkg/storage/partition_list_test.go:467-471 | nodes, links, head, tail and count are always kept; NotFound exactly when no node matches, with contents unchanged; otherwise the contents become Replace of the old contents |
| PartitionList.List.Store | pkg/storage/partition_list_test.go:273-421 | overwriting one node's payload changes the contents at that position only and keeps every link |
| PartitionList.List.String | pkg/storage/partition_list_test.go:254 | rendering succeeds on every well-formed list, reports the count and each node's time bounds from head to tail |
| PartitionListCases.RemoveFromEmpty | pkg/storage/partition_list_test.go:74-78 | removing from the empty list is NotFound and the list stays empty |
| PartitionListCases.RemoveHead | pkg/storage/partition_list_test.go:80-116 | removing the head of [1, 2] succeeds and leaves one node, both head and tail, holding 2 with no link |
| PartitionListCases.RemoveTail | pkg/storage/partition_list_test.go:117-154 | removing the tail of [1, 2] succeeds and leaves one node, both head and tail, holding 1 with its link cleared |
| PartitionListCases.RemoveMiddle | pkg/storage/partition_list_test.go:155-202 | removing the middle of [1, 2, 3] succeeds and leaves two nodes, 1 linked directly to the tail 3 |
| PartitionListCases.RemoveMissing | pkg/storage/partition_list_test.go:203-247 | removing 3 from [1, 2] is NotFound and the list is still 1 linked to the tail 2 |
| PartitionListCases.SwapInEmpty | pkg/storage/partition_list_test.go:268-272 | swapping in the empty list is NotFound and the list stays empty |
| PartitionListCases.SwapHead | pkg/storage/partition_list_test.go:273-318 | swapping the head of [1, 2] for 100 succeeds and gives 100 linked to the tail 2 |
| PartitionListCases.SwapTail | pkg/storage/partition_list_test.go:319-364 | swapping the tail of [1, 2] for 100 succeeds and gives 1 linked to the tail 100 |
| PartitionListCases.SwapMiddle | pkg/storage/partition_list_test.go:365-421 | swapping the middle of [1, 2, 3] for 100 succeeds and gives 1, 100, 3 with the links and tail kept |
| PartitionListCases.SwapMissing | pkg/storage/partition_list_test.go:422-465 | swapping the absent 100 in [1, 2] is NotFound and the list is still 1 linked to the tail 2 |
| Strings.Substr | pkg/utils/strings_test.go:38-79 | the result is never longer than the string or than the absolute length, and a zero length gives the empty string |
| Strings.SubstrZeroLength | pkg/utils/strings_test.go:41-42 | length 0 yields the empty string whatever the start |
| Strings.SubstrForward | pkg/utils/strings_test.go:44-45 | an in-range start with a non-negative length takes the characters from start, clipped at the end; exactly length of them when they fit |
| Strings.SubstrNegativeStart | pkg/utils/strings_test.go:47-54 | a negative start within the string counts back from its end |
| Strings.SubstrBackward | pkg/utils/strings_test.go:59-66 | a negative length takes the characters just before the resolved start, clipped at the beginning |
| Strings.SubstrBackwardIsForward | pkg/utils/strings_test.go:59-60 | taking n characters backwards from a position equals taking n forwards from n positions earlier |
| Strings.SubstrPastEnd | pkg/utils/strings_test.go:68-69 | a start at or past the end with a non-negative length yields the empty string |
| Strings.SubstrBeforeBeginning | pkg/utils/strings_test.go:56-57 | a start before the beginning whose span does not reach the string yields the empty string |
| Strings.SubstrClipsOutsideStart | pkg/utils/strings_test.go:56-57 | a start outside the string whose span reaches back into it is clipped rather than yielding "": Substr("abc", -5, 4) == "ab" and Substr("abc", 5, -4) == "bc" |
| Strings.SubstrCases | pkg/utils/strings_test.go:41-78 | all thirteen asserted Substr results |
| Strings.Index | pkg/utils/strings_test.go:28-35 | the first position where the marker occurs, or -1 when it does not occur at all |
| Strings.MarkerStart | pkg/utils/strings_test.go:28-35 | the extracted text begins at the start marker's first occurrence when there is one (no earlier occurrence), and at the beginning of the string when there is none |
| Strings.GetBetweenStr | pkg/utils/strings_test.go:28-35 | the result is the stretch of the string from the start marker that contains no end marker and ends at the string's end or right before an end marker |
| Strings.GetBetweenStrUnique | pkg/utils/strings_test.go:28-35 | that characterisation determines the result: any string with those properties is GetBetweenStr's result |
| Strings.GetBetweenSameMarker | pkg/utils/strings_test.go:31-32 | with equal start and end markers that occur, the result is empty, because the end search includes the start position |
| Strings.GetBetweenChars | pkg/utils/strings_test.go:28-35 | with one-character markers, the result runs from the first start character to the first end character at or after it |
| Strings.GetBetweenStrCaseAR | pkg/utils/strings_test.go:28-29 | the asserted result "aaaadfddweeac" |
| Strings.GetBetweenStrCaseDD | pkg/utils/strings_test.go:31-32 | the asserted result "" |
| Strings.GetBetweenStrCaseFT | pkg/utils/strings_test.go:34-35 | the asserted result "fddweeacr" |
| CacheItem.IsExpired | pkg/cache/item/lru.go:30-39 | an item without an expiration is never expired, and an expired item has an expiration strictly before now |
| CacheItem.Expire | pkg/cache/item/lru.go:41-43 | returns the stored expiration unchanged |
| CacheItem.ExpireReturnsStored | pkg/cache/item/lru.go:41-43 | Expire returns the stored expiration unchanged |
| CacheItem.NoExpirationNeverExpires | pkg/cache/item/lru.go:31-33 | a nil expiration is never expired, for every now |
| CacheItem.ExpiredIffBefore | pkg/cache/item/lru.go:38 | with an expiration t, the item is expired exactly when t is strictly before now, and not at t itself |
| CacheItem.IsExpiredByExpire | pkg/cache/item/lru.go:30-43 | the expiry check agrees with the expiration Expire reports |
| CacheItem.ExpiryIsMonotone | pkg/cache/item/lru.go:38 | an expired item stays expired at every later time |
| CacheItem.ExpiryIgnoresKeyAndValue | pkg/cache/item/lru.go:23-39 | only the expiration decides expiry, not the key or the value |

## Left out

- `partition_list.go` and `strings.go` are not part of this model. The list and string operations are modelled from the cases their tests assert. The choices the tests leave open are assumptions, each listed here: removing the only node leaves both head and tail null (the list invariant that head and tail are null exactly when the count is 0); String reports the count and each node's time bounds; and the lines below on Swap, on duplicate matches, on Substr and on GetBetweenStr.
- PartitionList.List.Swap: keeps the matched node object and overwrites its partition (`nodes` is unchanged). The deep comparison in the tests cannot tell this from linking a fresh node in place of the old one; the difference is visible only to a holder of the old node, such as a traversal in progress, and the model does not capture that alternative.
- When several nodes hold a partition equal to the target, Remove and Swap act on the first one from the head. No table row has duplicates, so this is an assumption.
- Substr: a start outside the string yields "" only when the span does not reach back into it (SubstrPastEnd, SubstrBeforeBeginning). Otherwise the start is clipped like the other end, e.g. `Substr("abc", -5, 4) == "ab"` and `Substr("abc", 5, -4) == "bc"` (SubstrClipsOutsideStart). The tests pin only (-2000, 3) and (1000, 11111), so clipping in the other cases is an assumption.
- GetBetweenStr: the asserted cases never have a missing marker. The model starts at the beginning of the string when the start marker is absent, and runs to the end of the string when the end marker is absent.
- Substr and GetBetweenStr are modelled on `seq<char>`, counting characters. Whether `strings.go` counts runes or bytes is not visible; every asserted input is ASCII, where the two agree, so non-ASCII input is not modelled.
- IsExpired: the fallback to the wall clock when `now` is nil is clock I/O. `now` is a required integer parameter instead.
- IsExpired and Expire modify nothing because they are functions on a value. The pointer receiver and the pointer returned by Expire are not modelled, so aliasing of the returned `*time.Time` is not captured.
- PartitionList.List.String: the exact text of the rendering is not modelled; it returns the count and the per-node time bounds.
- The fake partition's `insertRows` and `selectDataPoints` are stubs that return its error, and `clean` and `expired` are constant. The model assumes remove, swap and String call none of them; whether remove calls `clean`, and a failing `clean` during remove, are not modelled.
- The fake's `err` field is not part of the partition record; every fake in the tests leaves it nil, so full-value matching is unaffected there.
- Nil partitions are not modelled: the tests leave the remove target unset on the empty list, both swap arguments unset on the empty list and the new partition unset in the not-found swap. The cases pass a zero-valued fake instead; none of those paths inspects the value.
- Appending to the list, and the storage engine's ingest, query, sweep and compaction, are outside the modelled core.
- The lock discipline around the list is concurrency and is not modelled.
- The table tests are consistent with matching on `minT` alone as well as on the full record; the model matches on the full record.
