# A verified model of the CS126 social-network stores

The repository keeps a small social network in memory, in three stores:

- **UserStore** holds users. Users are indexed by id and by join date.
- **WeetStore** holds weets (short messages). Weets are indexed by id and by date. A third index counts the first hashtag of each message.
- **FollowerStore** holds the follower graph. Each user has two date-ordered edge lists: the users following it and the users it follows.

All three are built from the same parts:

- a left-leaning red-black search tree (LLRB, after Sedgewick's `RedBlackLiteBST`);
- a "multi" variant of that tree keyed by date, which sends equal-or-newer dates left so that an in-order walk lists newest first;
- a self-sorting linked list of (id, date) pairs;
- a linked FIFO queue that collects traversal results;
- an in-place Hoare-style quicksort that ranks by a count, highest first.

This project models each of these in Dafny and proves what the stores promise:

- duplicate ids are refused and change nothing;
- every listing holds exactly the stored records, newest first, filtered by its query;
- the follower graph records each edge at both ends and never records it twice;
- every counter equals its list's length;
- tree insertion keeps search order and the LLRB colour rules;
- the quicksort sorts descending and is a permutation;
- the topic counters count exactly the weets tagged with each topic.

## Layout

| file | module | what it holds |
|---|---|---|
| `wrappers.dfy` | `Wrappers` | `Option`, which stands for Java's `null` results and thrown underflows |
| `orders.dfy` | `Orders` | strict total orders: `int` `<`, and Java `String.compareTo`, which compares UTF-16 code units |
| `seqs.dfy` | `Seqs` | `Values`, `Keys`, `Filter` and their lemmas |
| `recency.dfy` | `Recency` | `InsertNewest`, the newest-first splice that the date trees and the sorted lists share |
| `sorted_map.dfy` | `SortedMap` | strictly sorted entry sequences: `Lookup`, `Put`, `MapOf` |
| `llrb.dfy` | `Llrb` | tree values; rotations, colour flips and the two `insert` policies; `get`, `min`, `max`, `height`; in-order walks into a queue |
| `red_black_bst.dfy` | `RedBlackTrees` | the index classes `RedBlackBST` (unique keys) and `DateRedBlackBST` (newest first) |
| `queue.dfy` | `Queues` | the FIFO `Queue` class and `queueToWeetArray`/`queueToUserArray` |
| `ranking.dfy` | `Ranking` | the in-place quicksort on an `array` |
| `text.dfy` | `Text` | `String.contains` and the hashtag pattern `#(\w+|\W+)` |
| `catalog.dfy` | `Catalogs` | the invariant tying an id index to a date index |
| `user_store.dfy` | `Users` | `UserStore` |
| `weet_store.dfy` | `Weets` | `WeetStore`, `TrendingTopics`, topic counting and `getTrending` |
| `follower_store.dfy` | `Followers` | `FollowerRelationship`, `SortedList`, `FollowerStore`, the abstract graph, the mutual queries and `getTopUsers` |

### How the model is shaped

**Tree nodes.** Tree nodes are datatype values. Each `insert` is a recursive method that returns the new subtree, as Java's `h.left = insert(h.left, …)` does. The index objects (`root`, `n`) are classes updated in place.

**Linked lists.** The linked lists and the queue's node chain are `seq` fields that the methods reassign. The counters (`numberOfFollowers`, the queue's `n`) are kept beside them as separate fields, and `Valid()` ties each counter to its sequence's length.

**Abstract state.** Each store has an abstract state:
- `UserStore` and `WeetStore`: a map from id to record, and a newest-first sequence given by `Users()` / `Weets()`;
- `WeetStore` also: the topic counts given by `Trending()`;
- `FollowerStore`: the map from user id to its two edge lists given by `Graph()`.

Every operation's `ensures` states the new abstract state in terms of the old one, using a specification function:
- `InsertNewest` and `Mention` for the user and weet stores;
- `AddEdge` for `addFollower`. The graph lemmas prove what `AddEdge` promises.

**Returned arrays.** Returned `int[]`, `Weet[]`, `User[]` and `String[]` arrays are sequences. The arrays that are sorted in place (`kvpArray`, `trendingArray`) are Dafny `array`s.

**Dates.** `java.util.Date` is an `int` timestamp.

## Model

| member | source | states |
|---|---|---|
| Orders.IntLessIsStrictTotalOrder | FollowerStore.java:361-364 | integer `compareTo` on the id keys is a strict total order |
| Orders.CodeUnits | WeetStore.java:498 | a character below U+10000 is one non-surrogate unit; any other is a high surrogate then a low surrogate that together give back its scalar value |
| Orders.UnitsLessIrreflexive | WeetStore.java:498-501 | no code-unit sequence sorts before itself |
| Orders.UnitsLessTransitive | WeetStore.java:498-501 | the code-unit order is transitive |
| Orders.UnitsLessTotal | WeetStore.java:498-501 | of two different code-unit sequences one sorts first |
| Orders.CodeUnitsPrefix | WeetStore.java:498 | a string's first character can be read back from the front of its UTF-16 encoding |
| Orders.Utf16Injective | WeetStore.java:498-501 | different strings have different UTF-16 encodings, so `compareTo == 0` coincides with equality |
| Orders.SurrogatesSortLow | WeetStore.java:498-501 | as in Java, `#` + U+1F600 sorts before `#` + U+FF01, because its high surrogate 0xD83D is below 0xFF01 |
| Orders.StringLessIsStrictTotalOrder | WeetStore.java:498-501 | `String.compareTo < 0` (UTF-16 code units compared in order, a proper prefix first) on hashtag keys is irreflexive, transitive and total |
| Orders.StringLessIrreflexive | WeetStore.java:498-501 | no string sorts before itself |
| Orders.StringLessTransitive | WeetStore.java:498-501 | string order is transitive |
| Orders.StringLessTotal | WeetStore.java:498-501 | of two different strings one sorts first |
| Seqs.FilterAppend | WeetStore.java:379-386 | filtering a concatenation filters each part |
| Seqs.FilterContents | WeetStore.java:379-386 | a filtered walk holds exactly the elements that pass, each as often as before |
| Seqs.FilterKeepsOrder | WeetStore.java:379-386 | a filtered walk keeps the relative order of what it keeps |
| Recency.InsertionPoint | FollowerStore.java:529-555 | the splice position lies after exactly the strictly newer elements |
| Recency.InsertNewestAt | FollowerStore.java:537-555 | the splice inserts the element once, at the insertion point, and moves nothing else |
| Recency.InsertNewestMultiset | FollowerStore.java:511-556 | the list gains exactly one occurrence of the new element and loses nothing; its length grows by one |
| Recency.InsertNewestIndex | WeetStore.java:285-312 | a splice is `SplicedAt` its insertion point |
| Recency.InsertNewestSorted | FollowerStore.java:530-555 | a newest-first list stays newest-first |
| Recency.InsertNewestBeforeTies | FollowerStore.java:530-548 | the new element goes after every strictly newer element and before every element of an equal or older date |
| Recency.InsertNewestAppendLeft | WeetStore.java:294-295 | inserting into `a + b` where `b` starts no newer inserts into `a` |
| Recency.InsertNewestAppendRight | WeetStore.java:296-297 | inserting past a strictly newer prefix inserts into the rest |
| SortedMap.Lookup | FollowerStore.java:330-338 | `None` exactly when no entry has the key; otherwise the value is stored under it |
| SortedMap.PutEntries | FollowerStore.java:355-364 | `put` adds the new entry, keeps every entry with another key, and invents none |
| SortedMap.PutSorted | FollowerStore.java:355-364 | `put` keeps keys strictly ascending |
| SortedMap.LookupPutSame | FollowerStore.java:350-364 | `get(k)` after `put(k, v)` is `v` |
| SortedMap.LookupPutOther | FollowerStore.java:350-364 | `put(k, v)` does not change `get(k')` for `k' != k` |
| SortedMap.PutLength | FollowerStore.java:356-358 | `n` grows by one exactly when the key was absent |
| SortedMap.PutAppendLeft | FollowerStore.java:362 | a key below the right part's first key is put into the left part |
| SortedMap.PutAppendRight | FollowerStore.java:363 | a key above every left key is put into the right part |
| SortedMap.LookupAppend | FollowerStore.java:331-337 | lookup in a concatenation tries the left part first |
| SortedMap.LookupSortedMember | FollowerStore.java:331-337 | in a sorted sequence, `get` of a stored key finds its entry |
| SortedMap.MapOfLookup | FollowerStore.java:330-338 | `get` is lookup in the abstract map |
| SortedMap.MapOfPut | FollowerStore.java:350-364 | `put` is map update |
| SortedMap.MapOfEntries | FollowerStore.java:465-482 | in sorted order every entry is in the map, and every key of the map has an entry |
| SortedMap.SortedFirstLeast | FollowerStore.java:437-445 | the first key of a sorted sequence is below every other key |
| SortedMap.SortedLastGreatest | FollowerStore.java:448-456 | the last key is above every other key |
| SortedMap.SortedParts | FollowerStore.java:361-363 | strict order of `a + [m] + b` orders each part and places `m` between them |
| Llrb.RotateRight | FollowerStore.java:385-393 | requires Java's `assert`; moves a red left link to the right; the in-order sequence is unchanged |
| Llrb.RotateLeft | FollowerStore.java:396-404 | requires Java's `assert`; moves a red right link to the left; the in-order sequence is unchanged |
| Llrb.FlipColors | FollowerStore.java:406-413 | from a black node with two red children to a red node with black children; the in-order sequence is unchanged |
| Llrb.FixUp | FollowerStore.java:366-371 | each Java `assert` holds; the in-order sequence is unchanged; the result meets the LLRB rules, or is a red node with one left-left red violation for the parent to fix |
| Llrb.BlackenLeanLeft | FollowerStore.java:350-353 | blackening the root of the returned tree gives a tree with no red right link and no two red links in a row |
| Llrb.SortedSplit | FollowerStore.java:361-363 | in a search tree the left keys are below the node's key and the right keys above it |
| Llrb.InsertLeftCase | FollowerStore.java:362 | inserting into the left subtree is `put` on the whole node |
| Llrb.InsertRightCase | FollowerStore.java:363 | inserting into the right subtree is `put` on the whole node |
| Llrb.InsertSameCase | FollowerStore.java:364 | overwriting `h.val` is `put` of the node's own key |
| Llrb.InsertUnique | FollowerStore.java:355-372 | the unique-key `insert`: in-order sequence is `Put` of the old one; `n` grows exactly when a node is created; the colour rules hold up to one violation at a red root |
| Llrb.DateSplit | WeetStore.java:293-297 | in a date tree the left dates are at least the node's and the right dates below it |
| Llrb.NewestLeftCase | WeetStore.java:294-295 | an entry at least as new as the node goes in front of the node |
| Llrb.NewestRightCase | WeetStore.java:296-297 | an older entry goes after the node and its left part |
| Llrb.InsertNewestFirst | WeetStore.java:285-312 | the date `insert`: the in-order sequence is `InsertNewest` of the old one, so equal dates are listed newest-inserted first; the colour rules are kept |
| Llrb.LookupLeftCase | FollowerStore.java:333 | a key below the node's key can only be in the left subtree |
| Llrb.LookupRightCase | FollowerStore.java:334 | a key above the node's key can only be in the right subtree |
| Llrb.LookupHereCase | FollowerStore.java:335 | the node's own key is found at the node |
| Llrb.Get | FollowerStore.java:330-338 | the iterative search returns `Lookup` of the in-order sequence; `None` for `null` |
| Llrb.FirstKeyInorder | FollowerStore.java:438-445 | the leftmost key is the first key in order |
| Llrb.LastKeyInorder | FollowerStore.java:449-456 | the rightmost key is the last key in order |
| Llrb.Min | FollowerStore.java:437-445 | `null` exactly for the empty tree; otherwise the smallest key |
| Llrb.Max | FollowerStore.java:448-456 | `null` exactly for the empty tree; otherwise the largest key |
| Llrb.Height | FollowerStore.java:430-434 | -1 exactly for the empty tree, and below the number of entries |
| Llrb.EnqueueAll | WeetStore.java:598-603 | the in-order walk appends the values in key order to the queue |
| Llrb.EnqueueWhere | WeetStore.java:379-386 | the filtered walk appends, in order, exactly the values that pass |
| Llrb.FilterNode | WeetStore.java:382-385 | filtering a node's values is left part, node, right part |
| Llrb.ValuesAppend | WeetStore.java:598-603 | the values of a concatenation are the concatenated values |
| RedBlackTrees.RedBlackBST.EntriesContents | WeetStore.java:470-481 | each in-order entry is in the abstract map, and each key of the map has an entry |
| RedBlackTrees.RedBlackBST.constructor | WeetStore.java:453-454 | an empty, valid index |
| RedBlackTrees.RedBlackBST.Get | WeetStore.java:470-481 | the stored value, `None` for an absent key |
| RedBlackTrees.RedBlackBST.Contains | WeetStore.java:483-485 | true exactly when the key is stored |
| RedBlackTrees.RedBlackBST.Put | WeetStore.java:487-509 | keeps search order, the colour rules and a black root; the map is updated at the key; `n` grows exactly when the key was absent, and an existing key is overwritten |
| RedBlackTrees.RedBlackBST.Size | WeetStore.java:554-556 | the number of entries |
| RedBlackTrees.RedBlackBST.IsEmpty | WeetStore.java:559-561 | true exactly when there are no entries |
| RedBlackTrees.RedBlackBST.TreeHeight | WeetStore.java:564-568 | the tree's height: -1 for the empty tree, otherwise one more than the taller subtree; below the number of entries |
| RedBlackTrees.RedBlackBST.MinKey | WeetStore.java:571-579 | `null` exactly for the empty tree; otherwise the smallest stored key: the first in key order, and no key is smaller |
| RedBlackTrees.RedBlackBST.MaxKey | WeetStore.java:582-590 | `null` exactly for the empty tree; otherwise the largest stored key: the last in key order, and no key is larger |
| RedBlackTrees.RedBlackBST.InorderTraversal | WeetStore.java:592-603 | a fresh queue of the values in key order |
| RedBlackTrees.DateRedBlackBST.ItemsNewestFirst | WeetStore.java:285-312 | the stored values are listed with non-increasing dates |
| RedBlackTrees.DateRedBlackBST.constructor | WeetStore.java:263-264 | an empty, valid date index |
| RedBlackTrees.DateRedBlackBST.Put | WeetStore.java:279-312 | the value is spliced in after the strictly newer ones and before the others; `n` grows by one |
| RedBlackTrees.DateRedBlackBST.Size | WeetStore.java:264 | the number of stored values |
| RedBlackTrees.DateRedBlackBST.InOrder | WeetStore.java:358-370 | a fresh queue of every value, newest first |
| RedBlackTrees.DateRedBlackBST.InOrderWhere | WeetStore.java:373-440 | a fresh queue of the values that pass, newest first |
| RedBlackTrees.KeyedInsertNewest | WeetStore.java:293 | keying an entry by its value's date and splicing it in splices the value into the values |
| Queues.Queue.constructor | WeetStore.java:619-623 | an empty queue with `n == 0` |
| Queues.Queue.IsEmpty | WeetStore.java:626-628 | true exactly when no items are queued |
| Queues.Queue.Size | WeetStore.java:631-633 | the number of queued items |
| Queues.Queue.Peek | WeetStore.java:636-639 | the front item; `None` for "Queue underflow" |
| Queues.Queue.Enqueue | WeetStore.java:642-651 | appends the item at the back; `n` counts it |
| Queues.Queue.Dequeue | WeetStore.java:653-660 | removes and returns the front item; `None` on an empty queue, which is left unchanged |
| Queues.QueueToArray | UserStore.java:126-137 | the queued items in FIFO order, of the queue's size; the queue ends up empty |
| Ranking.Partition | FollowerStore.java:273-290 | the partition loop ends with cells before `i` at least the pivot's count, cells after `j` at most, both parts smaller than the range, and only the range rearranged |
| Ranking.PartitionStep | FollowerStore.java:279-289 | one round of the two scans and the swap keeps the partition invariant and shrinks `j - i` |
| Ranking.ScanUp | FollowerStore.java:279-280 | `i` stops at the first cell not ranking above the pivot, within the range |
| Ranking.ScanDown | FollowerStore.java:281-282 | `j` stops at the last cell not ranking below the pivot, within the range |
| Ranking.QuickSort | FollowerStore.java:267-297 | `low..high` ends in non-increasing count order, as a permutation of its old contents; no other cell changes |
| Ranking.SortedParts | FollowerStore.java:292-296 | sorting both parts after the partition sorts and permutes the whole range |
| Ranking.Swap | FollowerStore.java:284-286 | the two cells are exchanged |
| Ranking.SegmentMultiset | FollowerStore.java:284-288 | a rearrangement within a range keeps that range's multiset |
| Ranking.ThreeParts | FollowerStore.java:293-296 | a sequence's multiset is the sum of its three parts' multisets |
| Ranking.PermutedBound | FollowerStore.java:292-296 | a bound every cell of a range meets survives a rearrangement of the range |
| Ranking.SortedJoin | FollowerStore.java:292-296 | two sorted parts on either side of the pivot count form one sorted range |
| Ranking.DistinctCount | FollowerStore.java:244-261 | cells with distinct values hold each value at most once |
| Ranking.TwoCopies | FollowerStore.java:244-261 | two equal cells put two copies in the multiset |
| Ranking.PermutedKeys | FollowerStore.java:244-261 | a rearrangement of cells with distinct keys holds the same cells with distinct keys |
| Text.ContainsOccurs | WeetStore.java:399 | `contains(q)` holds exactly when `q` occurs at some position |
| Text.RunEnd | WeetStore.java:97 | the end of the maximal run of word (or of non-word) characters |
| Text.TokenAt | WeetStore.java:97-103 | the matched token is `#` and at least one character of the same class as the one after it |
| Text.FindFromSpec | WeetStore.java:97-103 | `find()` fails exactly when no position has a `#` followed by a character; otherwise it returns the token at the first such position |
| Text.FirstHashtag | WeetStore.java:97-103 | `None` exactly when the message has no `#` followed by a character; otherwise the token at the first one |
| Catalogs.IndexedIds | UserStore.java:80-85 | a stored id is exactly the id of some listed record |
| Catalogs.IndexedAdd | UserStore.java:80-85 | putting a record with a new id into both indexes keeps them holding the same records |
| Catalogs.IndexedSplice | UserStore.java:81-82 | the splice at any position keeps the two indexes in step |
| Catalogs.SplicedStored | UserStore.java:81-82 | after the splice every listed record is stored under its id |
| Catalogs.SplicedDistinct | UserStore.java:81-82 | after the splice no id is listed twice |
| Catalogs.FilterNewestFirst | UserStore.java:379-404 | a filtered newest-first listing is newest first |
| Catalogs.FilterDistinct | UserStore.java:379-404 | a filtered listing has no id twice |
| Users.UserStore.constructor | UserStore.java:61-66 | an empty, valid store |
| Users.UserStore.UsersListed | UserStore.java:358-370 | `getUsers()` order is non-increasing join date with no user twice; a user is listed exactly when it is stored under its id |
| Users.UserStore.AddUser | UserStore.java:74-88 | refuses exactly the known ids and then changes nothing; otherwise stores the user under its id, splices it into the date listing, and grows `size` and both index counts by one |
| Users.UserStore.InsertUser | UserStore.java:81-83 | a new user goes into both indexes, which stay in step; `size` grows by one |
| Users.UserStore.GetUser | UserStore.java:94-96 | the user stored under `uid`; `None` exactly for an unknown id |
| Users.UserStore.GetUsers | UserStore.java:103-107 | every user, latest join first |
| Users.UserStore.GetUsersContaining | UserStore.java:109-113 | exactly the listed users whose name contains `query`, in listing order |
| Users.UserStore.GetUsersJoinedBefore | UserStore.java:115-119 | exactly the listed users who joined strictly before the date, in listing order |
| Users.UserStore.Listed | UserStore.java:358-404 | a filtered listing holds exactly the users that pass, newest first |
| Weets.MentionEffect | WeetStore.java:101-114 | a weet without a hashtag leaves the counts alone; a new topic starts at 1, a known one rises by 1, and every other topic is unchanged |
| Weets.MentionsCommute | WeetStore.java:101-114 | two mentions commute |
| Weets.TopicCountsInsert | WeetStore.java:92-114 | adding a weet anywhere in the date listing mentions its hashtag once |
| Weets.TopicCountsMeaning | WeetStore.java:101-114 | a topic is counted exactly when a weet carries it, and its count is the number of such weets |
| Weets.TopicCountsKeys | WeetStore.java:107-109 | a topic is counted exactly when some weet is tagged with it |
| Weets.TopicCountsFilter | WeetStore.java:111-112 | a topic's count is the number of weets tagged with it |
| Weets.TrendingTopics.constructor | WeetStore.java:672-675 | a new topic starts at one mention |
| Weets.TrendingTopics.IncreaseTimesMentioned | WeetStore.java:688-690 | the count rises by exactly one |
| Weets.AddedValid | WeetStore.java:92-114 | after the three index updates the store invariant holds again |
| Weets.AddToIndexes | WeetStore.java:92-114 | a new weet is stored under its id and spliced into the date index; its hashtag is mentioned once; the invariant is kept |
| Weets.IndexWeet | WeetStore.java:92-93 | the id and date indexes take the weet and stay in step |
| Weets.CountTag | WeetStore.java:97-114 | the counts take one mention of the weet's first hashtag, if any |
| Weets.MentionTopic | WeetStore.java:103-113 | a hashtag seen before rises by one; a new one is counted once |
| Weets.NewTopic | WeetStore.java:107-109 | a new counter at 1 is put under the topic; no other count changes |
| Weets.BumpTopic | WeetStore.java:111-112 | the topic's counter rises by one; no other count changes |
| Weets.WeetStore.constructor | WeetStore.java:66-72 | an empty, valid store with no topics |
| Weets.WeetStore.WeetsListed | WeetStore.java:358-370 | `getWeets()` order is non-increasing date with no weet twice; a weet is listed exactly when it is stored under its id |
| Weets.WeetStore.TrendingCounts | WeetStore.java:101-114 | a topic is counted exactly when a stored weet is tagged with it; its count is the number of such weets, at least 1 |
| Weets.WeetStore.AddWeet | WeetStore.java:81-116 | refuses exactly the known ids and then changes nothing; otherwise stores the weet, grows `size` by one, splices it into the date listing and mentions its first hashtag once |
| Weets.WeetStore.RecordWeet | WeetStore.java:92-114 | a weet with a new id goes into all indexes; the invariant is kept |
| Weets.WeetStore.GetTrending | WeetStore.java:169-197 | `None` exactly when fewer than 10 topics are stored; otherwise the first 10 topics in `String.compareTo` order (UTF-16 code units), each once, ranked by non-increasing count |
| Weets.WeetStore.TrendingCells | WeetStore.java:173-180 | the first ten counters in index order carry the first ten topics and their counts, and those topics are distinct |
| Weets.WeetStore.GetWeet | WeetStore.java:124-127 | the weet stored under `wid`; `None` exactly for an unknown id |
| Weets.WeetStore.GetWeets | WeetStore.java:136-139 | every weet, newest first |
| Weets.WeetStore.GetWeetsByUser | WeetStore.java:141-144 | exactly the listed weets by that user id, in listing order |
| Weets.WeetStore.GetWeetsContaining | WeetStore.java:146-149 | exactly the listed weets whose message contains `query`, in listing order |
| Weets.WeetStore.GetWeetsOn | WeetStore.java:151-154 | exactly the listed weets dated exactly `dateOn`, in listing order |
| Weets.WeetStore.GetWeetsBefore | WeetStore.java:156-160 | exactly the listed weets dated strictly before the date, in listing order |
| Weets.WeetStore.Listed | WeetStore.java:373-440 | a filtered listing holds exactly the weets that pass, newest first |
| Weets.DequeueTen | WeetStore.java:176-184 | `None` exactly when the queue holds fewer than ten counters; otherwise a fresh array of the first ten counters' topics and counts |
| Weets.RankTopics | WeetStore.java:187-196 | the ten topics each once, ranked by non-increasing count |
| Weets.TopicNames | WeetStore.java:190-194 | the topics of the ranked array, in order |
| Weets.RankedTopics | WeetStore.java:187-196 | ranking counters of distinct topics and reading off the topics gives each topic once, highest count first |
| Followers.SpliceByDate | FollowerStore.java:511-556 | the three-case splice, including its cursor loop, is `InsertNewest` |
| Followers.FollowerRelationship.constructor | FollowerStore.java:505-509 | empty lists and zero counters |
| Followers.FollowerRelationship.AddFollower | FollowerStore.java:511-556 | the follower list takes the edge newest first; the counter still equals the length; the follows list is unchanged |
| Followers.FollowerRelationship.AddFollows | FollowerStore.java:558-601 | the follows list takes the edge newest first; the counter still equals the length; the follower list is unchanged |
| Followers.FollowerRelationship.GetUserId | FollowerStore.java:605-607 | the user id |
| Followers.FollowerRelationship.GetFollowers | FollowerStore.java:609-621 | the follower ids front to back, read through the counter |
| Followers.FollowerRelationship.GetFollows | FollowerStore.java:623-634 | the followed ids front to back, read through the counter |
| Followers.FollowerRelationship.IsAFollower | FollowerStore.java:636-648 | true exactly when the id is on the follows list |
| Followers.FollowerRelationship.GetNumberOfFollowers | FollowerStore.java:653-655 | the follower list's length |
| Followers.FollowerRelationship.GetNumberOfFollows | FollowerStore.java:657-659 | the follows list's length |
| Followers.SortedList.constructor | FollowerStore.java:746-747 | an empty list |
| Followers.SortedList.AddFollower | FollowerStore.java:749-789 | the element is spliced in newest first |
| Followers.Ensure | FollowerStore.java:80-89 | a user without a relationship gets an empty one; nobody else changes |
| Followers.Link | FollowerStore.java:93-107 | refuses exactly an existing edge; keeps the set of users |
| Followers.LinkSteps | FollowerStore.java:104-105 | recording a new edge is its two list updates, one after the other |
| Followers.AddEdge | FollowerStore.java:69-108 | succeeds exactly when the users differ and the edge is not yet recorded |
| Followers.AddEdgeLink | FollowerStore.java:77-94 | once both users have relationships, `addFollower` is `Link` |
| Followers.InsertNewestIds | FollowerStore.java:511-556 | the spliced list's ids are the old ids plus the new one; the length grows by one |
| Followers.AddSelfRefused | FollowerStore.java:72-73 | following oneself is refused and changes nothing |
| Followers.AddEffects | FollowerStore.java:104-107 | after a success, `b` is among `a`'s follows and `a` among `b`'s followers; those two lists each grew by one; `a`'s follower list, `b`'s follows list and every other user are unchanged |
| Followers.AddTwiceRefused | FollowerStore.java:91-94 | repeating a successful `addFollower` with any date is refused and changes nothing |
| Followers.AddKeepsConsistent | FollowerStore.java:69-108 | a refused `addFollower` changes nothing, and a successful one keeps every edge recorded at both ends |
| Followers.LinkKeepsConsistent | FollowerStore.java:104-105 | recording a new edge at both ends keeps the graph consistent |
| Followers.AddKeepsNewestFirst | FollowerStore.java:104-105 | `addFollower` keeps every list of the graph newest first |
| Followers.LinkKeepsNewestFirst | FollowerStore.java:104-105 | recording a new edge keeps every list newest first |
| Followers.EnsureConsistent | FollowerStore.java:80-89 | an empty relationship keeps the graph consistent |
| Followers.MatchRowContents | FollowerStore.java:169-182 | the inner loop keeps only the outer element, and finds something exactly when its id is on the second list |
| Followers.MatchesContents | FollowerStore.java:169-182 | every match is an edge of the first list whose id is on the second |
| Followers.MatchesIdsBoth | FollowerStore.java:169-182 | every id found is on both lists |
| Followers.MatchesIdsFound | FollowerStore.java:169-182 | every id on both lists is found |
| Followers.InsertAllContents | FollowerStore.java:746-789 | splicing the matches keeps the result newest first and adds exactly the matches |
| Followers.SameElements | FollowerStore.java:188-191 | two rearrangements hold the same elements and ids |
| Followers.MutualResult | FollowerStore.java:153-194 | the mutual result holds exactly the ids on both lists; it is newest first by the first user's edge dates; its length is the match count |
| Followers.MatchRowInto | FollowerStore.java:169-182 | the inner loop splices the matches of one element and counts them |
| Followers.MutualIds | FollowerStore.java:153-194 | the nested loops, the sorted list and the copy loop give the ids of the spliced matches |
| Followers.InorderFill | FollowerStore.java:472-482 | the recursive walk writes each entry's (id, follower count) pair at the cursor, in key order, and no other cell |
| Followers.InorderAllocated | FollowerStore.java:472-482 | every relationship in the tree is allocated |
| Followers.UserIds | FollowerStore.java:254-258 | the ids of the ranked pairs, in order |
| Followers.TopUserPairs | FollowerStore.java:465-470 | a fresh array of one (id, follower count) pair per index entry, in id order |
| Followers.CreateRelationship | FollowerStore.java:81-84 | a fresh, empty relationship is put under the new id |
| Followers.Resolve | FollowerStore.java:81-89 | the relationship `get` found, or a fresh empty one put under the id |
| Followers.FindOrCreate | FollowerStore.java:77-89 | both users end up with relationships; existing ones are kept and the graph gains empty entries for the missing ones |
| Followers.FollowerStore.constructor | FollowerStore.java:54-57 | an empty graph |
| Followers.FollowerStore.GraphNewestFirst | FollowerStore.java:511-601 | every list of a valid store is newest first |
| Followers.FollowerStore.Find | FollowerStore.java:119 | `get(uid)` returns the user's relationship |
| Followers.FollowerStore.AddFollower | FollowerStore.java:69-108 | the new graph and the verdict are exactly `AddEdge` of the old graph |
| Followers.FollowerStore.LinkUsers | FollowerStore.java:93-107 | the new graph and the verdict are exactly `Link` of the old graph |
| Followers.FollowerStore.RecordFollows | FollowerStore.java:104 | only `uid1`'s follows list changes, taking the edge newest first |
| Followers.FollowerStore.RecordFollower | FollowerStore.java:105 | only `uid2`'s follower list changes, taking the edge newest first |
| Followers.FollowerStore.GetFollowers | FollowerStore.java:116-121 | the ids following `uid`, newest first |
| Followers.FollowerStore.GetFollows | FollowerStore.java:123-128 | the ids `uid` follows, newest first |
| Followers.FollowerStore.IsAFollower | FollowerStore.java:130-135 | true exactly when the first user follows the second |
| Followers.FollowerStore.GetNumFollowers | FollowerStore.java:137-142 | the length of the follower list |
| Followers.FollowerStore.GetMutualFollowers | FollowerStore.java:153-194 | the spliced matches of the two follower lists (see `MutualResult`) |
| Followers.FollowerStore.GetMutualFollows | FollowerStore.java:196-235 | the spliced matches of the two follows lists |
| Followers.FollowerStore.SnapshotRanks | FollowerStore.java:465-482 | the pairs `inorder()` builds give one pair per user with its follower count, and no id twice |
| Followers.FollowerStore.GetTopUsers | FollowerStore.java:244-261 | every user exactly once, ranked by non-increasing follower count |
| Followers.RankedIds | FollowerStore.java:250-258 | sorting such pairs and reading off the ids gives every user once, most followed first |
| Followers.RankedUsers | FollowerStore.java:250-258 | the ids of pairs sorted by count list every user once, most followed first |

## Left out

- Console output (`System.out.println` in `addFollower`, `getTopUsers`, `getTrending` and the mutual queries) is left out. It is logging only.
- The `User` and `Weet` classes are not part of this model. They are records of the fields the stores read.
- `java.util.Date` is left out. It is an `int` timestamp whose `compareTo` is integer comparison.
- Integers are unbounded. No counter or size in these stores can wrap in practice.
- The `java.util.regex` engine is left out. Only the one pattern `#(\w+|\W+)` is modelled, by hand, with the ASCII word class `[A-Za-z0-9_]`.
- Tree nodes, list elements and queue nodes are modelled as values, so node-level aliasing and in-place pointer updates are not modelled. The index, relationship, counter and queue objects are classes updated in place.
- Black-height balance, and so the logarithmic height bound, is not proved. The search order and the red-link rules are.
- The unreachable `else` overwrite branches in the date trees (WeetStore.java:298-299, UserStore.java:306-307) are left out. `cmp >= 0` and `cmp < 0` cover every case.
- Followers.FollowerStore.GetFollowers: requires the user to be known. Java dereferences `null` for an unknown id. The same holds for GetFollows, IsAFollower, GetNumFollowers, GetMutualFollowers and GetMutualFollows.
- Followers.FollowerStore.GetTopUsers: requires a non-empty store. On an empty store Java's `quickSort(kvpArray, 0, -1)` reads `array[0]` of an empty array.
- Ranking.QuickSort: requires `0 <= low <= high`. This covers every call the stores make. The `array == null` guard is left out because no caller passes `null`.
- Weets.WeetStore.GetTrending: with fewer than ten topics it returns `None`. Java's `dequeue` throws "Queue underflow" before the `null` test at WeetStore.java:183 can return `null`. Both are "no result"; the model does not distinguish them.
- Weets.WeetStore.GetTrending: the discarded `new Queue` at WeetStore.java:172 is left out. It is overwritten on the next line.
- Weets.WeetStore.GetTrending: the array being sorted holds (topic, count) snapshots of the counters rather than references. Nothing changes the counters during the sort, so the ranking is the same.
- Weets.WeetStore.GetWeetsByUser reads only `usr.id`.
- Weets.WeetStore.RecordWeet: Java increments `size` before the hashtag step. The model updates `size` and the ghost topic map together after it. Nothing reads `size` in between.
- Followers.InorderFill: the tree's `count` cursor field is a parameter that the method returns. It starts at 0 from its initialiser (FollowerStore.java:463), and `inorder()` resets it to 0 after each walk (FollowerStore.java:468), so it is never observed between walks.
- The index fields (`idBST`, `dateBST`, `trendingBST`, `useridBST`, `userdateBST`, `followerBST`) are `const`. Java assigns each of them once, at construction.
- Each store's ghost map (`topics`, `rels`) names the counter or relationship objects its index holds, so that their frames can be stated.
- Getters on `Weet`, `User`, `KeyValuePair` and `TrendingTopics` are read as fields.
- Extracted methods: the quicksort's scans and loop body (`ScanUp`, `ScanDown`, `PartitionStep`) and the loop bodies of `addWeet`, `addFollower` and `getTrending` are separate methods so that each proof stays small. Their effect is unchanged.
- The `ListElement` pointer chains and their `getFollowerListElement` accessors are the list fields themselves.
