# Poll ranking and analytics engine, in Dafny

This project models the in-memory ranking and analytics engine of a polling
server, together with the pure steps of its poll request handlers:

- **`Heaps`** (`min_heap.dfy`) is the array-backed binary min-heap of scored
  polls. The class `MinHeap` keeps its array as the field `heap`, and it
  supports insert with bubble-up, extract-min with sink-down, peek,
  non-destructive top-N and Floyd construction.
- **`BinarySearch`** (`binary_search.dfy`) covers four things:
  - the case-insensitive title sort;
  - the leftmost-prefix binary search and the forward scan that collects
    every match;
  - the exact-title binary search;
  - the `searchPolls` wrapper.
- **`LinkedLists`** (`linked_list.dfy`) is the capped doubly linked activity
  log. Its nodes are real heap objects with `prev`/`next` links, described by
  a ghost node sequence. It also holds the process-wide activity feed, capped
  at 50 entries.
- **`Queues`** (`queue.dfy`) is the FIFO queue, kept as a map from integer
  positions between `front` and `back` cursors. On top of it sits the poll
  expiry tracker, with its `processed` set and its time-window sweep.
- **`QuickSort`** (`quick_sort.dfy`) has five parts:
  - the three-way quicksort with a median-of-three pivot;
  - the in-place Lomuto quicksort on an array, in descending order;
  - the merge (a loop proved equal to a reference function);
  - the stable descending merge sort;
  - `sortPollResults`.
- **`PollController`** (`poll_controller.dfy`) holds the pure logic of the
  handlers:
  - the TXT line parser;
  - the CSV title and option de-duplication;
  - the JSON defaults;
  - the `createPoll`/`uploadPoll` validation and option cleaning;
  - the upload dispatch;
  - vote totals and the winner.
- **Supporting modules**:
  - `Polls` (`polls.dfy`) holds the shared records and `Option`/`Result`.
  - `Text` (`text.dfy`) models lower-casing, lexicographic code-point order,
    prefixes, `trim` and `split`, with the order lemmas the searches need.
  - `StableSort` (`stable_sort.dfy`) is a stable insertion sort keyed by a
    string, ascending or descending. It models the built-in `Array.prototype.sort`.
  - `Seqs` (`seqs.dfy`) holds small sequence lemmas.

Scores, sort keys, vote counts and times are `int`. A title's search key is
its ASCII lower-casing. The clock is an integer `now` parameter, in
milliseconds.

Three behaviours of the code are worth stating:

- Sweeping for expiring polls twice enqueues a waiting poll twice. The
  tracker only remembers polls that have been dequeued. See
  `Queues.DoubleSweepDuplicates`.
- `createPoll` checks the length of the raw option list before dropping
  blank options. A poll with a single real option is therefore stored. See
  `PollController.CreatePollKeepsTooFew`.
- `sortPollResults` treats `order` asymmetrically. For `option_text` only
  `"asc"` sorts ascending. For the numeric keys only `"desc"` sorts
  descending, and any other value sorts ascending.

## Model

| member | source | states |
|---|---|---|
| Heaps.Parent | server/dsa/MinHeap.js:29 | every non-root index has its parent strictly before it, and it is one of that parent's two children |
| Heaps.Swapped | server/dsa/MinHeap.js:33-35 | a swap exchanges exactly the two positions, leaves every other position alone and keeps the multiset |
| Heaps.HeapRootIsMin | server/dsa/MinHeap.js:87-89 | in a heap, the root's score is at most the score of every item |
| Heaps.RootBelow | server/dsa/MinHeap.js:87-89 | in a heap, the root's score is at most the score at any index, by induction along the parent chain |
| Heaps.RiseStep | server/dsa/MinHeap.js:44-51 | one bubble-up swap with a larger parent moves the single heap defect one level up |
| Heaps.SinkStep | server/dsa/MinHeap.js:65-83 | one sink-down swap with the smaller child moves the defect down to that child |
| Heaps.RootReplaced | server/dsa/MinHeap.js:55-63 | moving the last item to the root leaves a heap below the root, holding the old items minus the old root |
| Heaps.HeapFromHalf | server/dsa/MinHeap.js:109-115 | the second half of any array already satisfies the heap order, which is where Floyd construction starts |
| Heaps.TopStep | server/dsa/MinHeap.js:96-105 | taking a minimum off the working copy keeps the taken items ascending, each below the rest, and keeps the total multiset |
| Heaps.TopDone | server/dsa/MinHeap.js:96-105 | when top-N stops, it has taken min(n, size) items, a sub-multiset that lies below everything left behind |
| Heaps.MinHeap.constructor | server/dsa/MinHeap.js:24-26 | a new heap is empty and valid |
| Heaps.MinHeap.IsEmpty | server/dsa/MinHeap.js:92 | true exactly when the heap holds no items |
| Heaps.MinHeap.Peek | server/dsa/MinHeap.js:87-89 | `None` exactly on an empty heap, otherwise an item of the heap with the least score; the heap does not change |
| Heaps.MinHeap.ToArray | server/dsa/MinHeap.js:118 | the items as stored: same multiset and size, in heap order |
| Heaps.MinHeap.Swap | server/dsa/MinHeap.js:33-35 | the array becomes the swapped array |
| Heaps.MinHeap.BubbleUp | server/dsa/MinHeap.js:44-51 | starting from a heap with one rising defect, the loop restores the heap order and keeps the multiset and size |
| Heaps.MinHeap.Insert | server/dsa/MinHeap.js:39-42 | the heap stays valid, gains exactly the inserted item, and grows by one |
| Heaps.MinHeap.SinkDown | server/dsa/MinHeap.js:65-83 | given heap order below `index`, the loop extends it to `index` and keeps the multiset and size |
| Heaps.MinHeap.ExtractMin | server/dsa/MinHeap.js:55-63 | `None` with the heap unchanged when empty; otherwise an item of least score, removed exactly once, size down by one, heap valid |
| Heaps.MinHeap.GetTopN | server/dsa/MinHeap.js:96-105 | min(n, size) items in ascending score, a sub-multiset of the heap, each no larger than any item left out; the heap does not change |
| Heaps.MinHeap.BuildFromArray | server/dsa/MinHeap.js:109-115 | the heap becomes a valid heap that is a permutation of the input |
| Text.Lower | server/dsa/BinarySearch.js:25 | lower-casing keeps the length and maps each character on its own |
| Text.LexLessTransitive | server/dsa/BinarySearch.js:46 | the string order used by the search is transitive |
| Text.LexTotal | server/dsa/BinarySearch.js:46 | any two strings are equal or ordered one way or the other |
| Text.LexNotLessIsLe | server/dsa/BinarySearch.js:46-49 | "not less than" is exactly "greater than or equal" |
| Text.LexLess | server/dsa/BinarySearch.js:46 | string `<`: a proper prefix always sorts first (otherwise the first differing character decides) |
| Text.HasPrefix | server/dsa/BinarySearch.js:43 | `startsWith`: the prefix is no longer than the string and agrees with it character by character |
| Text.PrefixIsLe | server/dsa/BinarySearch.js:43-47 | a string never sorts before its own prefix |
| Text.PastPrefixBlock | server/dsa/BinarySearch.js:48-49 | once a title sorts after the query without having it as a prefix, no later title has that prefix |
| Text.TrimEnd | server/controllers/pollController.js:273 | the result is a prefix of the input, followed only by whitespace, and does not end in whitespace |
| Text.Trim | server/controllers/pollController.js:273 | the result is empty exactly when the input is blank, and it is trimmed |
| Text.TrimSpan | server/controllers/pollController.js:273 | the trimmed string is a slice of the input, with only whitespace before and after it |
| Text.TrimIdempotent | server/controllers/pollController.js:91-94 | trimming twice is trimming once |
| Text.Split | server/controllers/pollController.js:272 | splitting yields at least one piece, and no piece contains the separator |
| Text.JoinSplit | server/controllers/pollController.js:272 | joining the pieces back with the separator restores the input |
| StableSort.Insert | server/dsa/BinarySearch.js:24-26 | inserting adds exactly one copy of the element |
| StableSort.InsertSorted | server/dsa/BinarySearch.js:24-26 | inserting into a sorted sequence keeps it sorted |
| StableSort.Sort | server/dsa/BinarySearch.js:24-26 | the result is a permutation of the input, sorted by the key in the requested direction |
| StableSort.SortIsStable | server/dsa/QuickSort.js:105-109 | elements sharing a key keep their input order |
| StableSort.WithKeyAppend | server/dsa/QuickSort.js:105-109 | selecting one key's elements distributes over concatenation |
| BinarySearch.Matching | server/dsa/BinarySearch.js:58-74 | the matching polls of a sequence are no more than the sequence |
| BinarySearch.MatchingCount | server/dsa/BinarySearch.js:58-74 | each poll occurs among the matches as often as in the input if it matches, otherwise never |
| BinarySearch.MatchingAppend | server/dsa/BinarySearch.js:58-74 | selecting matches distributes over concatenation |
| BinarySearch.SortPollsByTitle | server/dsa/BinarySearch.js:23-27 | a permutation of the input, ascending by lower-cased title, with equal titles in input order |
| BinarySearch.SortIsStableForAllKeys | server/dsa/BinarySearch.js:23-27 | for every title, the polls with that title keep their input order |
| BinarySearch.MatchesContiguous | server/dsa/BinarySearch.js:65-71 | in a title-sorted sequence the polls matching a prefix form one contiguous run |
| BinarySearch.BinarySearchFirst | server/dsa/BinarySearch.js:33-54 | -1 or the index of a matching poll; on sorted input the least such index, and -1 exactly when nothing matches |
| BinarySearch.FindAllMatches | server/dsa/BinarySearch.js:58-74 | every result matches; on sorted input the result is exactly the matching polls, in order (and empty when none match) |
| BinarySearch.RunIsMatching | server/dsa/BinarySearch.js:65-71 | the run scanned forward from the first match is the whole set of matches |
| BinarySearch.MatchingSorted | server/dsa/BinarySearch.js:58-74 | the matches of a sorted sequence are sorted |
| BinarySearch.SearchPolls | server/dsa/BinarySearch.js:77-90 | a blank query returns the polls as they are; otherwise the result object with the polls matching the trimmed query, each as often as in the input, sorted, with `totalFound` and `totalPolls`; the results are exactly the matches taken from the stably sorted copy, so polls with equal titles stay in input order |
| BinarySearch.BinarySearchExact | server/dsa/BinarySearch.js:94-109 | a poll of the array whose lower-cased title equals the lower-cased title; on sorted input `None` exactly when there is none |
| LinkedLists.Reversed | server/dsa/LinkedList.js:148-156 | the reversal has the same length and reads the input back to front |
| LinkedLists.Node.constructor | server/dsa/LinkedList.js:28-34 | a new node holds its data and no links |
| LinkedLists.DoublyLinkedList.constructor | server/dsa/LinkedList.js:37-42 | a new list is empty and valid with the given cap |
| LinkedLists.DoublyLinkedList.Append | server/dsa/LinkedList.js:46-65 | the data becomes the last entry; if that takes the size past the cap, the oldest entry is dropped, so a list within its cap stays within it |
| LinkedLists.DoublyLinkedList.PushBack | server/dsa/LinkedList.js:47-57 | the new node, linked after the old tail, makes the data the last entry |
| LinkedLists.DoublyLinkedList.Prepend | server/dsa/LinkedList.js:69-82 | the data becomes the first entry, with no cap check |
| LinkedLists.DoublyLinkedList.RemoveHead | server/dsa/LinkedList.js:86-99 | `None` on an empty list; otherwise the first entry, which is removed |
| LinkedLists.DoublyLinkedList.RemoveTail | server/dsa/LinkedList.js:103-116 | `None` on an empty list; otherwise the last entry, which is removed |
| LinkedLists.DoublyLinkedList.GetRecent | server/dsa/LinkedList.js:120-132 | the last min(n, size) entries (none for n <= 0), oldest first |
| LinkedLists.DoublyLinkedList.ToArray | server/dsa/LinkedList.js:136-144 | the entries from head to tail, `size` of them |
| LinkedLists.DoublyLinkedList.ToArrayReverse | server/dsa/LinkedList.js:148-156 | the reverse of the entries, `size` of them |
| LinkedLists.DoublyLinkedList.FindByPollId | server/dsa/LinkedList.js:160-167 | `None` exactly when no entry has the poll id; otherwise the earliest entry with it |
| LinkedLists.DoublyLinkedList.IsEmpty | server/dsa/LinkedList.js:169 | true exactly when the list holds no entries |
| LinkedLists.ActivityFeed.constructor | server/dsa/LinkedList.js:174 | the feed starts empty with a cap of 50 |
| LinkedLists.ActivityFeed.AddActivity | server/dsa/LinkedList.js:176-181 | the event, stamped with `now`, becomes the newest entry, and the oldest is dropped once the feed is past 50 |
| LinkedLists.ActivityFeed.GetRecentActivity | server/dsa/LinkedList.js:183 | the newest min(n, size) events, oldest first, and never more than 50 |
| Queues.Window | server/dsa/Queue.js:74-80 | the window between the cursors has `back - front` items |
| Queues.WindowSnoc | server/dsa/Queue.js:35-39 | widening the window at the back appends the item stored there |
| Queues.Queue.constructor | server/dsa/Queue.js:27-31 | a new queue is empty |
| Queues.Queue.Enqueue | server/dsa/Queue.js:35-39 | the item joins at the back, the earlier items stay as they are, and the size grows by one |
| Queues.Queue.Dequeue | server/dsa/Queue.js:43-49 | `None` on an empty queue; otherwise the oldest item, which is removed |
| Queues.Queue.Peek | server/dsa/Queue.js:53-55 | `None` exactly on an empty queue, otherwise the front item; the queue does not change |
| Queues.Queue.IsEmpty | server/dsa/Queue.js:57 | true exactly when the queue holds no items |
| Queues.Queue.Size | server/dsa/Queue.js:58 | the number of queued items |
| Queues.Queue.ProcessAll | server/dsa/Queue.js:62-70 | every item, oldest first, paired with the callback's result on it, and the queue left empty |
| Queues.Queue.ToArray | server/dsa/Queue.js:74-80 | the items from front to back; the queue does not change |
| Queues.Deadline | server/dsa/Queue.js:100 | the deadline of a notice is the poll's `expires_at`, and the epoch when there is none |
| Queues.Due | server/dsa/Queue.js:119-122 | a due poll has a deadline after `now` and at most `withinMinutes` minutes later; with a window of zero or less nothing is due |
| Queues.ItemOf | server/dsa/Queue.js:97-102 | a notice carries the poll's id and title and is stamped with the `now` it is given |
| Queues.Swept | server/dsa/Queue.js:119-126 | one sweep queues at most one notice per poll |
| Queues.SweptExactly | server/dsa/Queue.js:119-126 | a sweep queues a notice for a poll exactly when its deadline lies in (now, now + window] and its id is not processed |
| Queues.DoubleSweepDuplicates | server/dsa/Queue.js:95-104 | two sweeps before any processing, at any two times at which a poll is due, queue two notices for that poll, one stamped with each time |
| Queues.PollExpiryQueue.constructor | server/dsa/Queue.js:89-92 | a new tracker has an empty queue and no processed ids |
| Queues.PollExpiryQueue.EnqueueExpiring | server/dsa/Queue.js:95-104 | does nothing exactly when the poll id is processed, otherwise appends the notice, even for a poll already waiting |
| Queues.PollExpiryQueue.ProcessNext | server/dsa/Queue.js:107-112 | `None` with nothing changed on an empty queue; otherwise the oldest notice, whose poll id joins `processed` |
| Queues.PollExpiryQueue.CheckExpiring | server/dsa/Queue.js:115-129 | appends the due, unprocessed polls' notices in input order and returns the new queue size |
| Queues.PollExpiryQueue.GetQueueSize | server/dsa/Queue.js:131 | the number of queued notices |
| Queues.PollExpiryQueue.GetQueueItems | server/dsa/Queue.js:132 | the queued notices from front to back |
| QuickSort.Compare | server/dsa/QuickSort.js:48-51 | for `"desc"`, negative exactly when the first value is larger and positive when it is smaller; reversed for any other order |
| QuickSort.MedianOfThree | server/dsa/QuickSort.js:56-68 | one of the first, middle and last indices, whose key is the median of the three keys |
| QuickSort.BandOf | server/dsa/QuickSort.js:35-37 | an element falls left, middle or right of the pivot exactly by its comparison with the pivot's key |
| QuickSort.Keep | server/dsa/QuickSort.js:35-37 | each filter keeps elements of the input from its own band only |
| QuickSort.KeepPartitions | server/dsa/QuickSort.js:35-37 | the three filters together are a permutation of their input |
| QuickSort.JoinInOrder | server/dsa/QuickSort.js:39-44 | sorted left, pivot, middle and sorted right, joined, are in order |
| QuickSort.Without | server/dsa/QuickSort.js:35-37 | leaving out the pivot's index removes exactly that element |
| QuickSort.QuickSort | server/dsa/QuickSort.js:28-45 | a permutation of the input, non-increasing by key for `"desc"` and non-decreasing otherwise, and the input itself when it has at most one element |
| QuickSort.Swap | server/dsa/QuickSort.js:88 | the two cells are exchanged and the multiset is kept |
| QuickSort.Partition | server/dsa/QuickSort.js:81-94 | the pivot lands at the returned index, with keys >= it before and keys < it after within the range, nothing outside the range changed, and a permutation |
| QuickSort.Scan | server/dsa/QuickSort.js:83-90 | the loop moves every key >= the pivot to the front of the range, leaving the rest behind it |
| QuickSort.QuickSortInPlace | server/dsa/QuickSort.js:72-79 | the array is permuted in place so the range is non-increasing by key, and nothing outside the range changes |
| QuickSort.InPlaceStep | server/dsa/QuickSort.js:73-77 | sorting both sides of a partitioned range sorts the range |
| QuickSort.MergedMultiset | server/dsa/QuickSort.js:133-146 | the merge is a permutation of its two inputs |
| QuickSort.MergedInOrder | server/dsa/QuickSort.js:133-146 | merging two non-increasing sequences gives a non-increasing one |
| QuickSort.MergedStable | server/dsa/QuickSort.js:138 | among equal keys, the left input's elements come first, each side in its own order |
| QuickSort.Merge | server/dsa/QuickSort.js:133-146 | the loop computes exactly the merge |
| QuickSort.MergeSort | server/dsa/QuickSort.js:123-131 | a non-increasing permutation of the input, and the input itself when it has at most one element |
| QuickSort.MergeSortStable | server/dsa/QuickSort.js:123-146 | elements with equal keys keep their input order |
| QuickSort.EffectiveKey | server/dsa/QuickSort.js:98-102 | a known key is kept and any other becomes `vote_count` |
| QuickSort.SortPollResults | server/dsa/QuickSort.js:97-118 | reports the key and order used; a permutation of the results; for `option_text` sorted by label (ascending only for `"asc"`) and stable, otherwise ordered by the numeric key |
| PollController.Cleaned | server/controllers/pollController.js:90-97 | the cleaned options are trimmed and non-empty, and no more than the input |
| PollController.CleanedMembers | server/controllers/pollController.js:90-97 | an option is kept exactly when it is the trim of a non-blank input |
| PollController.CleanedAppend | server/controllers/pollController.js:271-274 | cleaning distributes over concatenation, so file order is kept |
| PollController.CleanedFirst | server/controllers/pollController.js:271-275 | nothing survives exactly when every line is blank; otherwise the first survivor is the trim of the first non-blank line |
| PollController.CleanedIdempotent | server/controllers/pollController.js:222-229 | cleaning already-cleaned lines changes nothing |
| PollController.ParseTxt | server/controllers/pollController.js:270-278 | the title is never empty and every option is non-empty and trimmed |
| PollController.ParseTxtTitle | server/controllers/pollController.js:271-275 | the title is the trimmed first non-blank line, or "Untitled Poll" when all lines are blank |
| PollController.ParseTxtOptions | server/controllers/pollController.js:271-277 | title and options together are the cleaned lines, so the options number one fewer than the non-blank lines (none when there are none) |
| PollController.Options | server/controllers/pollController.js:262 | the `option` column of every row, in order |
| PollController.NonEmpty | server/controllers/pollController.js:262 | exactly the non-empty values are kept |
| PollController.Dedup | server/controllers/pollController.js:262 | de-duplication is no longer than its input (its members and distinctness are `DedupMembers` and `DedupDistinct`) |
| PollController.DedupMembers | server/controllers/pollController.js:262 | de-duplication keeps exactly the values not already seen |
| PollController.DedupDistinct | server/controllers/pollController.js:262 | de-duplication leaves no value twice |
| PollController.DedupSnoc | server/controllers/pollController.js:262 | a value read last is appended exactly when it was not seen before, so each value sits at its first occurrence |
| PollController.ParseCsv | server/controllers/pollController.js:259-263 | rejects exactly an empty file; the title is the first row's or "Untitled Poll"; the options are exactly the distinct non-empty option values |
| PollController.ParseJson | server/controllers/pollController.js:193-197 | the title as given, and the options as given or none |
| PollController.CreatePoll | server/controllers/pollController.js:77-97 | rejects exactly an empty title, missing options or fewer than two raw options; otherwise stores the title and the cleaned options |
| PollController.CreatePollKeepsTooFew | server/controllers/pollController.js:77-97 | two raw options, one of them blank, pass validation and store a single option |
| PollController.ValidateUpload | server/controllers/pollController.js:207-229 | rejects exactly an empty title or fewer than two options; otherwise stores the title and the cleaned options |
| PollController.UploadPoll | server/controllers/pollController.js:179-209 | no file and an unknown format are rejected, an empty CSV fails, and every other upload is its format's parse followed by validation |
| PollController.TxtUploadAccepted | server/controllers/pollController.js:199-229 | a TXT upload is accepted exactly when it has at least three non-blank lines, and then stores the parsed options unchanged |
| PollController.TotalVotes | server/controllers/pollController.js:153 | with non-negative counts the total is non-negative |
| PollController.TotalVotesAppend | server/controllers/pollController.js:153 | the total over a concatenation is the sum of the totals |
| PollController.TotalVotesPermutation | server/controllers/pollController.js:153 | the total does not depend on the row order |
| PollController.TotalVotesBounds | server/controllers/pollController.js:153 | with non-negative counts, the total is non-negative and at least each row's count |
| PollController.Winner | server/controllers/pollController.js:161 | `None` exactly when there are no rows, otherwise the first row |
| PollController.WinnerHasMostVotes | server/controllers/pollController.js:150-161 | on rows ordered by descending vote count, the winner has the most votes |

## Left out

- Heaps.MinHeap.Size: carries no contract of its own. It is the length of
  `heap` by definition, and `IsEmpty`'s contract ties the two together.
- `calculateTrendingScore` (server/dsa/MinHeap.js:127-133) is not modelled.
  It reads the clock and uses floating-point division. Scores are opaque
  integers here. Its `|| 1` only replaces an age of zero or NaN; it is not a
  one-hour floor.
- The `percentage` column (`toFixed(1)`) is floating point. It is an opaque
  integer key here.
- Text.Lower: lower-cases ASCII letters only. JavaScript's `toLowerCase`
  covers all of Unicode.
- `localeCompare` is replaced by the same code-point order that stands for `<`.
  The source sorts with one order and searches with the other, and these
  can disagree. The model uses one order for both.
- Text.LexLess: compares Unicode code points, while JavaScript's `<`
  compares UTF-16 code units. The two disagree on titles that mix
  characters above U+FFFF with characters in U+E000 to U+FFFF. A string
  holding a lone surrogate, which `startsWith` could match, cannot be
  written in the model at all.
- Text.Trim: strips a fixed set of whitespace characters, not the full
  Unicode set of JavaScript's `trim`.
- `Date` objects and ISO timestamp strings are integer milliseconds. The
  clock is a `now` parameter. A poll without `expires_at` gets deadline 0
  on its notice, following `new Date(null)`.
- QuickSort.QuickSort: sort keys are limited to `vote_count` and
  `percentage` (the type `NumKey`). The source accepts any field name as the
  key of `quickSort` and `mergeSort`, but its only caller passes one of these
  two after the fallback to `vote_count`. QuickSort.MergeSort and
  QuickSort.QuickSortInPlace share the same limit.
- Default arguments are not modelled: callers pass every argument. The
  defaults are `maxSize = 100`, `n = 10`, `withinMinutes = 60`,
  `key = 'vote_count'` and `order = 'desc'`.
- Queues.Queue.Peek: returns the front item even when it is falsy.
  JavaScript's `|| null` would turn a falsy item into `null`. Expiry notices
  are objects, so for them the two agree.
- Queues.ItemOf: `queuedAt` is the sweep's `now`, passed down by
  `CheckExpiring`. The source reads the clock again for each notice it
  enqueues, so notices from one sweep may carry slightly later stamps.
- Queues.Queue.ToArray: does not model the `!== undefined` skip. Every
  position between the cursors holds an item.
- Queues.Queue.ProcessAll: the callback is a pure function. Callback side
  effects are not modelled.
- File reading, `csv-parser`, JSON parsing, file deletion, the extension
  check, SQL, transactions and HTTP responses are not modelled. An upload
  arrives as an already-parsed `Upload` value.
- JSON uploads whose fields are not strings are not modelled. Examples are
  a non-array `options` or non-string options, which make the handler
  throw.
- The constant strings of the result objects (`algorithm`,
  `timeComplexity`) are not modelled.
- The option-insert loops of `createPoll` and `uploadPoll` are modelled only
  as the filter over the options. The database rows they return are not.
