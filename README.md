# Sequential model of the "Concurrency in Action" containers

This project models, in Dafny, the container code of a C++ repository that
accompanies the book *C++ Concurrency in Action*, and proves what each
container promises once its locks are taken away. Each public operation is
modelled as one atomic step. The containers are:

- **Whole-lock queues** (`list6.2.cpp`, `list6.3.cpp`). These are `std::queue` wrappers
  whose pops wait on a condition variable. In the model a wait becomes the
  precondition that the queue is non-empty. The second queue stores shared
  pointers, and `try_pop()` hands back the stored pointer itself.
- **Single-threaded linked queue** (`list6.4.cpp`). It has an owning `head` pointer and a raw
  `tail` pointer, and both are null when the queue is empty. Its `push` has a
  defect, recorded under Findings.
- **Sentinel-node queues** (`list6.5.cpp`, `threadsafe_queue.h`/`.cpp`). A
  chain runs from `head` to a payload-free dummy `tail`. `push` fills the dummy
  and appends a fresh one. The invariant written at `list6.5.cpp:59-66` is the
  `QueueNode.Chain` predicate, and the classes keep it as `Valid()`.
- **Lock-coupled list** (`threadsafe_list.h`). It is a singly linked list behind
  a sentinel node, with `push_front`, `for_each`, `find_first_if`, `remove_if`
  and the destructor's drain. Each method walks the node chain with a `while`
  loop over a `current` pointer, as the source does.
- **Hashed lookup table** (`threadsafe_lookup_table.h`/`.cpp`). It is a fixed vector of
  buckets, each an association list, and key `k` goes to bucket
  `hasher(k) % buckets.size()`.
  - `AssocList.ToMap` gives the map a bucket list stands for, where the first
    entry for a key wins.
  - `Table.Contents()` is the map of all buckets one after the other.
  - The key lemma, `LookupTable.OwnBucket`, proves that a key is looked up in the
    whole table exactly as in its own bucket. It holds because every entry sits
    in the bucket its key hashes to.
- **Guarded global list** (`list3.1.cpp`). `add_to_list` and `list_contians`
  act on a list object, because Dafny has no mutable globals.
- **`parallel_accumulate`** (`concurrency_accumulate.cpp`). It chooses the
  thread count and block size, cuts the range into contiguous blocks and sums
  the per-block results. The threads run one after another, on an
  `array<int>` of per-block results. The result is proved to be `init` plus
  the sum of the range.

Paths below are relative to the repository's source tree.

## Model

| member | source | states |
|---|---|---|
| SeqSearch.FindIf | code_list_6/list6.11-list6.13/threadsafe_lookup_table.h:37-42 | `std::find_if`: the index is at most the length; if it is below the length, that element satisfies the predicate; no earlier element does |
| AssocList.FindEntry | code_list_6/list6.11-list6.13/threadsafe_lookup_table.h:37-42 | `find_entry_for` returns the first entry whose key is `key`, or the end when none is |
| AssocList.ToMapLookup | code_list_6/list6.11-list6.13/threadsafe_lookup_table.h:45-50 | a key is in a bucket's map exactly when `find_entry_for` finds it, and its value is that of the entry found |
| AssocList.ToMapHasKey | code_list_6/list6.11-list6.13/threadsafe_lookup_table.h:37-42 | a key is in a bucket's map exactly when some entry carries it |
| AssocList.ToMapConcat | code_list_6/list6.11-list6.13/threadsafe_lookup_table.cpp:11-15 | inserting two lists in turn gives the union of their maps, with the earlier list's entry winning on a shared key |
| AssocList.ToMapSnoc | code_list_6/list6.11-list6.13/threadsafe_lookup_table.cpp:13 | `map::insert` of one more entry adds it only when its key is new |
| AssocList.ToMapUpdateAt | code_list_6/list6.11-list6.13/threadsafe_lookup_table.h:58-60 | overwriting the value of the found entry changes the map at that key only, to the new value |
| AssocList.ToMapRemoveAt | code_list_6/list6.11-list6.13/threadsafe_lookup_table.h:67-69 | erasing an entry from a list with unique keys removes exactly its key from the map |
| AssocList.AppendKeepsNoDup | code_list_6/list6.11-list6.13/threadsafe_lookup_table.h:56-57 | appending an entry for a key that was not found keeps one entry per key |
| AssocList.UpdateKeepsNoDup | code_list_6/list6.11-list6.13/threadsafe_lookup_table.h:58-60 | overwriting a value in place keeps one entry per key |
| AssocList.RemoveKeepsNoDup | code_list_6/list6.11-list6.13/threadsafe_lookup_table.h:67-69 | erasing an entry keeps one entry per key |
| LookupTable.OwnBucket | code_list_6/list6.11-list6.13/threadsafe_lookup_table.h:76-79 | with every entry in the bucket its key hashes to, the whole table agrees at a key with that key's own bucket |
| LookupTable.StoredEntryInTable | code_list_6/list6.11-list6.13/threadsafe_lookup_table.cpp:11-15 | every stored (key, value) pair is in the union of the buckets with that value |
| LookupTable.TableKeyIsStored | code_list_6/list6.11-list6.13/threadsafe_lookup_table.cpp:10-15 | every key of the union is stored in some bucket |
| LookupTable.ReplaceOwnBucket | code_list_6/list6.11-list6.13/threadsafe_lookup_table.h:100-108 | replacing the key's own bucket by one differing only at the key leaves every other key of the table as it was |
| LookupTable.ReplaceKeepsPartitioned | code_list_6/list6.11-list6.13/threadsafe_lookup_table.h:76-79 | a bucket replaced by entries that hash to it keeps every entry in its own bucket |
| LookupTable.UpdateKey | code_list_6/list6.11-list6.13/threadsafe_lookup_table.h:100-103 | updating the key's own bucket at the key updates the whole table at the key and nowhere else |
| LookupTable.RemoveKey | code_list_6/list6.11-list6.13/threadsafe_lookup_table.h:105-108 | removing the key from its own bucket removes it from the whole table and nothing else |
| LookupTable.Bucket.constructor | code_list_6/list6.11-list6.13/threadsafe_lookup_table.h:89 | a new bucket is empty |
| LookupTable.Bucket.ValueFor | code_list_6/list6.11-list6.13/threadsafe_lookup_table.h:45-50 | the value stored for the key, or exactly the default when there is none |
| LookupTable.Bucket.AddOrUpdateMapping | code_list_6/list6.11-list6.13/threadsafe_lookup_table.h:52-61 | an unknown key is appended at the end; a known key has its entry's value overwritten in place; the map is updated at the key and keys stay unique |
| LookupTable.Bucket.RemoveMapping | code_list_6/list6.11-list6.13/threadsafe_lookup_table.h:63-70 | the entry for the key is erased if there is one, otherwise nothing changes; the key leaves the map |
| LookupTable.NewBuckets | code_list_6/list6.11-list6.13/threadsafe_lookup_table.h:88-90 | the constructor's loop creates one fresh, empty bucket per index, all distinct |
| LookupTable.Table.constructor | code_list_6/list6.11-list6.13/threadsafe_lookup_table.h:86-91 | `numBuckets` (19 by default) fresh, distinct, empty buckets; the table is the empty map |
| LookupTable.Table.GetBucket | code_list_6/list6.11-list6.13/threadsafe_lookup_table.h:76-79 | the bucket index is within the vector when it is non-empty |
| LookupTable.Table.ValueFor | code_list_6/list6.11-list6.13/threadsafe_lookup_table.h:95-98 | asking the key's own bucket yields the table's value for the key, or the default |
| LookupTable.Table.AddOrUpdateMapping | code_list_6/list6.11-list6.13/threadsafe_lookup_table.h:100-103 | the table maps the key to the value afterwards, every other key is unchanged, and only the key's own bucket is modified |
| LookupTable.Table.RemoveMapping | code_list_6/list6.11-list6.13/threadsafe_lookup_table.h:105-108 | the key is gone afterwards, every other key is unchanged, and only the key's own bucket is modified |
| LookupTable.Table.GetMap | code_list_6/list6.11-list6.13/threadsafe_lookup_table.cpp:10-16 | visits the buckets in index order and each list front to back, keeping the first value `insert` sees for a key; nothing is modified, and the result is exactly the table's map |
| LookupTable.AddLookupRemove | code_list_6/list6.11-list6.13/threadsafe_lookup_table.h:95-108 | after `add_or_update_mapping(k, v)`, `value_for(k, d)` is `v`; after `remove_mapping(k)` it is `d` |
| GuardedList.SomeList.constructor | code_list_3/list3.1.cpp:6 | the global list starts empty |
| GuardedList.SomeList.AddToList | code_list_3/list3.1.cpp:10-15 | `push_back` keeps every earlier element in order and makes the value found |
| GuardedList.SomeList.ListContains | code_list_3/list3.1.cpp:17-22 | true exactly when the value occurs in the list; reads and does not modify it |
| GuardedList.AddThenFind | code_list_3/list3.1.cpp:10-22 | both values added are found afterwards |
| ParallelAccumulate.AccumulateIsInitPlusSum | code_list_2/concurrency_accumulate.cpp:55 | `std::accumulate` onto `init` is `init` plus the sum of the range |
| ParallelAccumulate.SumSplit | code_list_2/concurrency_accumulate.cpp:33-48 | the sum of a range is the sum of its two parts at any cut |
| ParallelAccumulate.MaxThreads | code_list_2/concurrency_accumulate.cpp:21-23 | `max_thread` is the length divided by 25 rounded up, at least 1 for a non-empty range |
| ParallelAccumulate.NumThreads | code_list_2/concurrency_accumulate.cpp:24-26 | `num_threads` is the smaller of the hardware count (2 when 0) and `max_thread`, and at least 1 |
| ParallelAccumulate.BlockSize | code_list_2/concurrency_accumulate.cpp:28 | `block_size` blocks of each thread fit in the range and one more per thread would not |
| ParallelAccumulate.Block | code_list_2/concurrency_accumulate.cpp:33-47 | block bounds: the first starts at 0, all but the last have `block_size` elements, and the last ends at the end of the range |
| ParallelAccumulate.BlocksAreContiguous | code_list_2/concurrency_accumulate.cpp:35-42 | each block starts where the previous one ended |
| ParallelAccumulate.AccumulateBlock | code_list_2/concurrency_accumulate.cpp:7-11 | folds the block onto its own result slot and leaves every other slot alone |
| ParallelAccumulate.ParallelAccumulate | code_list_2/concurrency_accumulate.cpp:13-56 | the result is `init` plus the sum of the whole range (just `init` for an empty one), for any hardware thread count |
| ValueQueue.ThreadsafeQueue.constructor | code_list_6/list6.2.cpp:19 | a new queue is empty |
| ValueQueue.ThreadsafeQueue.Push | code_list_6/list6.2.cpp:21-26 | appends the value at the back |
| ValueQueue.ThreadsafeQueue.WaitAndPopInto | code_list_6/list6.2.cpp:29-34 | on a non-empty queue, yields the front value and removes it |
| ValueQueue.ThreadsafeQueue.WaitAndPop | code_list_6/list6.2.cpp:37-52 | on a non-empty queue, returns a copy of the front value and removes it |
| ValueQueue.ThreadsafeQueue.TryPopInto | code_list_6/list6.2.cpp:54-62 | false with queue and `val` unchanged when empty; otherwise true, the front value and its removal |
| ValueQueue.ThreadsafeQueue.TryPop | code_list_6/list6.2.cpp:64-74 | an empty pointer and no change when empty; otherwise the front value, removed |
| ValueQueue.ThreadsafeQueue.Empty | code_list_6/list6.2.cpp:76-79 | true exactly when the queue is empty; changes nothing |
| ValueQueue.PushAllThenPopAll | code_list_6/list6.2.cpp:21-79 | values come out in the order they went in, and the queue is empty afterwards |
| SharedPtrQueue.Shared.constructor | code_list_6/list6.3.cpp:27-29 | `make_shared` holds the given value |
| SharedPtrQueue.ThreadsafeQueue.constructor | code_list_6/list6.3.cpp:22 | a new queue is empty |
| SharedPtrQueue.ThreadsafeQueue.Push | code_list_6/list6.3.cpp:24-34 | a freshly allocated pointer holding the value is appended at the back; earlier pointers stay in place |
| SharedPtrQueue.ThreadsafeQueue.WaitAndPopInto | code_list_6/list6.3.cpp:36-42 | on a non-empty queue, yields the front payload and removes its pointer |
| SharedPtrQueue.ThreadsafeQueue.WaitAndPop | code_list_6/list6.3.cpp:44-53 | on a non-empty queue, returns a fresh pointer to a copy of the front payload and removes the front |
| SharedPtrQueue.ThreadsafeQueue.TryPopInto | code_list_6/list6.3.cpp:55-64 | false with queue and `val` unchanged when empty; otherwise true, the front payload and its removal |
| SharedPtrQueue.ThreadsafeQueue.TryPop | code_list_6/list6.3.cpp:66-75 | null and no change when empty; otherwise the stored front pointer itself, removed |
| SharedPtrQueue.ThreadsafeQueue.Empty | code_list_6/list6.3.cpp:77-80 | true exactly when the queue is empty; changes nothing |
| SharedPtrQueue.PushAllThenPopAll | code_list_6/list6.3.cpp:24-80 | values come out in the order they went in, and the queue is empty afterwards |
| QueueNode.Node.constructor | code_list_6/list6.5.cpp:11-14 | a new node has no data and no successor |
| QueueNode.HeadIsTailIffEmpty | code_list_6/list6.5.cpp:59-66 | under the chain invariant, `head == tail` exactly when the queue is empty |
| FineGrainedQueue.ThreadsafeQueue.constructor | code_list_6/list6.5.cpp:37 | one dummy node that is both head and tail; the invariant holds and the queue is empty |
| FineGrainedQueue.ThreadsafeQueue.PopHead | code_list_6/list6.5.cpp:25-34 | null with nothing changed when `head == tail`; otherwise the old head node, with `head` moved to its successor, the detached node's `next` cleared, and the front removed |
| FineGrainedQueue.ThreadsafeQueue.TryPop | code_list_6/list6.5.cpp:41-44 | nothing and no change when empty; otherwise the front payload, removed |
| FineGrainedQueue.ThreadsafeQueue.Push | code_list_6/list6.5.cpp:46-56 | the old dummy tail gets the payload and links to a fresh dummy, which becomes `tail`; the queue gains the value at the back |
| FineGrainedQueue.PushAllThenPopAll | code_list_6/list6.5.cpp:41-56 | values come out in the order they went in, and a final `try_pop` finds nothing |
| WaitingQueue.ThreadsafeQueue.constructor | code_list_6/list6.7-6.10/threadsafe_queue.h:79 | one dummy node that is both head and tail; the queue is empty |
| WaitingQueue.ThreadsafeQueue.PopHead | code_list_6/list6.7-6.10/threadsafe_queue.h:34-38 | returns the old head node, whose payload is the front value; `head` becomes its former `next`, which is cleared in the detached node |
| WaitingQueue.ThreadsafeQueue.WaitPopHead | code_list_6/list6.7-6.10/threadsafe_queue.h:48-52 | once `head != tail`, detaches the head node holding the front value, its `next` cleared |
| WaitingQueue.ThreadsafeQueue.WaitPopHeadInto | code_list_6/list6.7-6.10/threadsafe_queue.h:54-59 | once `head != tail`, moves the front value into `val` and detaches the head node, its `next` cleared |
| WaitingQueue.ThreadsafeQueue.TryPopHead | code_list_6/list6.7-6.10/threadsafe_queue.h:61-67 | null with nothing changed when `head == tail`; otherwise the detached head node, its `next` cleared |
| WaitingQueue.ThreadsafeQueue.TryPopHeadInto | code_list_6/list6.7-6.10/threadsafe_queue.h:69-76 | null with nothing changed (nor `val`) when empty; otherwise the front value in `val` and the detached head, its `next` cleared |
| WaitingQueue.ThreadsafeQueue.TryPop | code_list_6/list6.7-6.10/threadsafe_queue.h:83-86 | nothing and no change when empty; otherwise the front payload, removed |
| WaitingQueue.ThreadsafeQueue.TryPopInto | code_list_6/list6.7-6.10/threadsafe_queue.h:88-91 | true exactly when the queue was non-empty, with the front value in `val` and removed; otherwise `val` unchanged |
| WaitingQueue.ThreadsafeQueue.WaitAndPop | code_list_6/list6.7-6.10/threadsafe_queue.h:93-96 | on a non-empty queue, the front payload, removed |
| WaitingQueue.ThreadsafeQueue.WaitAndPopInto | code_list_6/list6.7-6.10/threadsafe_queue.h:98-100 | on a non-empty queue, the front payload through `val`, removed |
| WaitingQueue.ThreadsafeQueue.Push | code_list_6/list6.7-6.10/threadsafe_queue.cpp:3-17 | the old tail gets the payload and links to a fresh node with no data and no next, which becomes `tail`; the queue gains the value at the back and is non-empty |
| WaitingQueue.ThreadsafeQueue.Empty | code_list_6/list6.7-6.10/threadsafe_queue.h:104-107 | exactly `head == tail`, which holds exactly when the queue is empty |
| WaitingQueue.PushAllThenPopAll | code_list_6/list6.7-6.10/threadsafe_queue.h:79-107 | a new queue is empty, values come out in the order they went in, and the queue is empty afterwards |
| SingleThreadedQueue.Node.constructor | code_list_6/list6.4.cpp:13 | a new node holds the value and has no successor |
| SingleThreadedQueue.Queue.constructor | code_list_6/list6.4.cpp:21 | both pointers null; the queue is empty |
| SingleThreadedQueue.Queue.TryPop | code_list_6/list6.4.cpp:25-39 | an empty pointer when `head` is null; otherwise the head's data, `head` advanced, and `tail` reset to null when the last node goes, so `head` is null exactly when `tail` is |
| SingleThreadedQueue.Queue.Push | code_list_6/list6.4.cpp:41-53 | the new node is linked after `tail`, or becomes `head` on an empty queue; `tail` is the new node; the queue gains the value at the back |
| SingleThreadedQueue.Queue.PushAsWritten | code_list_6/list6.4.cpp:41-53 | as written: on an empty queue `head` stays null while `tail` points to the new node |
| SingleThreadedQueue.FirstPushIsLost | code_list_6/list6.4.cpp:47-52 | after one push into a new queue, as written, `head` is null and `tail` is not |
| SingleThreadedQueue.PushAllThenPopAll | code_list_6/list6.4.cpp:25-53 | with the intended `push`, values come out in the order they went in, and the queue is empty afterwards |
| ThreadsafeList.Node.Sentinel | code_list_6/list6.11-list6.13/threadsafe_list.h:24 | the sentinel has no payload and no successor |
| ThreadsafeList.Node.constructor | code_list_6/list6.11-list6.13/threadsafe_list.h:26 | a payload node holds the value and is not yet linked |
| ThreadsafeList.WithoutConcat | code_list_6/list6.11-list6.13/threadsafe_list.h:89-113 | removing matches distributes over concatenation, so survivors keep their relative order |
| ThreadsafeList.WithoutNoMatch | code_list_6/list6.11-list6.13/threadsafe_list.h:89-113 | no survivor of `remove_if` satisfies the predicate |
| ThreadsafeList.WithoutCount | code_list_6/list6.11-list6.13/threadsafe_list.h:89-113 | each non-matching value survives as often as it occurred; matching values do not survive |
| ThreadsafeList.WithoutAll | code_list_6/list6.11-list6.13/threadsafe_list.h:32-34 | with an always-true predicate nothing survives |
| ThreadsafeList.List.constructor | code_list_6/list6.11-list6.13/threadsafe_list.h:31 | a list with only the sentinel; empty |
| ThreadsafeList.List.PushFront | code_list_6/list6.11-list6.13/threadsafe_list.h:38-46 | the value becomes the first payload after the sentinel, followed by the previous sequence unchanged |
| ThreadsafeList.List.ForEach | code_list_6/list6.11-list6.13/threadsafe_list.h:50-67 | `f` is applied to each payload exactly once, head to tail, never to the sentinel; the nodes stay the same |
| ThreadsafeList.List.FindFirstIf | code_list_6/list6.11-list6.13/threadsafe_list.h:70-86 | nothing exactly when no payload matches; otherwise the first matching payload; the list is unchanged |
| ThreadsafeList.List.RemoveIf | code_list_6/list6.11-list6.13/threadsafe_list.h:89-113 | the payloads become the old ones without the matches, in order, so no survivor matches; the sentinel stays |
| ThreadsafeList.List.Unlink | code_list_6/list6.11-list6.13/threadsafe_list.h:96-100 | unlinking the successor of `current` removes exactly that node and its payload, and `current` stays put |
| ThreadsafeList.List.Drain | code_list_6/list6.11-list6.13/threadsafe_list.h:32-34 | the destructor's always-true `remove_if` leaves only the sentinel |
| ThreadsafeList.PushFrontVisitOrder | code_list_6/list6.11-list6.13/threadsafe_list.h:38-67 | `push_front` of 1, 2, 3 followed by `for_each` visits 3, 2, 1 |

## Left out

- All locking is left out: `std::mutex`, `std::shared_mutex`, lock guards,
  hand-over-hand coupling in the list, and head-then-tail lock order. Each
  public operation is one atomic step, and interleavings are not modelled.
- Condition variables and `notify_one` are left out. A wait for data is the
  precondition that the queue is non-empty.
- Thread creation and `join` in `parallel_accumulate` are left out. The
  blocks are folded one after another in a loop.
- `std::thread::hardware_concurrency()` is a parameter of
  `ParallelAccumulate.ParallelAccumulate`.
- The `Hash` functor (`std::hash` by default) is an arbitrary function from
  keys to natural numbers, fixed at construction.
- The default argument `default_val = Value()` has no counterpart, because
  Dafny has no default value for a type parameter. Callers pass the default.
- Reference counting, `unique_ptr` ownership and destruction timing are left
  out. A detached node is simply no longer in the chain.
- Exception safety and allocation failure are left out.
- `get_tail` in `list6.5.cpp` and `threadsafe_queue.h` is a locked read of
  `tail`; the model reads `tail` directly. `wait_for_data` is the non-empty
  precondition of the waiting pops.
- `threadsafe_queue.h:61` and `:69` are modelled by their evident intent: both
  `try_pop_head` overloads return the detached node, as their bodies and
  callers use them.
- More compile-level defects are modelled by their evident intent:
  - `empty()` building a lock from itself (`threadsafe_queue.h:105`);
  - `const node *` assigned to `node *` (`list6.5.cpp:51,55`,
    `threadsafe_queue.cpp:12-14`, `list6.4.cpp:43,52`);
  - in `threadsafe_list.h`, the loop variable `const node *next` has its
    non-`mutable` mutex locked (`:58`, `:75`, `:94`), is assigned to
    `node *current` (`:63`, `:82`, `:109`) and has its `next` moved from
    (`:99`);
  - the `const` member `find_entry_for` returns a non-const iterator
    (`threadsafe_lookup_table.h:37-38`);
  - `reset` is given a `unique_ptr` where it takes a raw pointer
    (`threadsafe_lookup_table.h:89`).
- In `list6.4.cpp:42`, `std::make_shared<T>` is modelled as allocating a
  node, which is what the code evidently means.
- The destructor's predicate at `threadsafe_list.h:33` takes a `node`
  parameter. It is modelled as a predicate on payloads that is always true.
- `get_map` in `threadsafe_lookup_table.cpp:8,12` uses `.` on
  `unique_ptr`s and reaches into private bucket members. It is modelled as
  reading each bucket's list.
- LookupTable.Table.GetMap: returns an unordered Dafny `map`. The key order of
  `std::map` is not modelled; its contents are. Taking every bucket lock
  before reading (`threadsafe_lookup_table.cpp:6-9`) is left out with the
  other locking.
- LookupTable.Table.GetBucket: requires a non-empty bucket vector. With zero
  buckets, `hasher(key) % buckets.size()` divides by zero, so every
  table-level lookup and update has the same requirement. The constructor
  and `get_map` accept zero buckets.
- ParallelAccumulate.ParallelAccumulate: the element type is `int`, with
  unbounded addition and no floating point. Lengths are unbounded naturals
  rather than `unsigned long`, which cannot overflow for ranges that fit in
  memory.
- SingleThreadedQueue.Queue.PushAsWritten: keeps the node it creates alive.
  In the program `p` still owns that node after the comparison at
  `list6.4.cpp:49` and frees it when `push` returns, so `tail` dangles and
  the next `push` is undefined behaviour; the model states only the values
  of `head` and `tail` that the comparison leaves.
- ThreadsafeList.List.FindFirstIf: returns a copy of the matching payload.
  The program returns `next->data` (`threadsafe_list.h:80`), a `shared_ptr`
  to the payload still stored in the list, so a write through it, or a later
  `for_each` (ThreadsafeList.List.ForEach) update, is seen by both the
  caller and the list. The model keeps payloads as values, so this aliasing
  of payload identity is not captured.
- ThreadsafeList.List.ForEach: `f` is a pure update of each payload
  (`T -> T`). Side effects of `f` beyond its payload argument are not
  modelled. The predicates given to `find_first_if` and `remove_if` are pure
  functions.
- `code_list_1/hello_concurrent_world.cpp` is not part of this model. It
  prints a greeting from a thread and has no container logic.

## Findings

| source | as written | input that shows it | evidently intended | confidence | as-written member | corrected member |
|---|---|---|---|---|---|---|
| code_list_6/list6.4.cpp:49 | `head == std::move(p);` compares instead of assigning, so on an empty queue `head` stays null while `tail` is set to the new node; `p` keeps ownership and frees that node when `push` returns | one `push(1)` into a new queue: `head` is null and `tail` is not, so `try_pop()` returns an empty pointer; `tail` dangles, and a second `push` writes `tail->next` through freed memory (undefined behaviour) | `head = std::move(p);`, installing the first node as `head` | not executed | SingleThreadedQueue.Queue.PushAsWritten, SingleThreadedQueue.FirstPushIsLost | SingleThreadedQueue.Queue.Push, SingleThreadedQueue.PushAllThenPopAll |
