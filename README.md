# Main-memory allocator: a verified model

The program simulates two classic operating-system memory-management schemes.

**Contiguous allocation with variable partitions.** Memory starts as a list of free partitions.
Processes are given as three parallel lists (sizes, arrival times, burst times).
They are numbered from 1 in input order and then stably sorted by arrival time.
Each process in turn is placed into a free partition chosen by First-Fit, Best-Fit or Worst-Fit.
A partition larger than the request is split: it becomes an occupied block of exactly the requested size, followed by a free block holding the rest.
A process that fits nowhere joins the waiting list; nothing is ever released.
At the end the program reports:
- external fragmentation, the total size of the free blocks;
- internal fragmentation;
- the waiting count, from which it derives the average waiting time.

**Page replacement.** A reference string is replayed against a list of at most `num_frames` resident pages under FIFO, LRU or Optimal replacement.
Each reference records the page, a snapshot of the frames after it and a fault flag.
The faults are counted.

The Dafny project has five modules:
- `Wrappers` holds `Option` and `Result`.
- `Processes` numbers the processes and sorts them by arrival.
- `Contiguous` is the allocator.
- `Paging` is the replacer.
- `Scenarios` holds the allocator's default input traced under First-Fit.

Both simulations are imperative methods: `Contiguous.SimulateContiguous` with `PlaceAll`/`Consider`/`Occupy`, and `Paging.SimulatePaging` with `Refer`.
Their loops update the memory list, the records, the frames and the fault counter.
Each loop is proved against a specification function:
- `Layout` folds `Admit` (choose a partition, then `Place`) over the processes;
- `FramesAfter`/`Replay` fold `Access` over the references.

The lemmas beside these functions state what the program promises: conservation, fragmentation, the policy's choice, the frame invariants, fault accounting and the replacement rules.

On the default allocation input (partitions of 100K, 500K, 200K, 300K and 600K, 1700K in all), First-Fit scans the partitions left to right.
P1 (212K) splits the 500K partition, P2 (417K) splits the 600K one, and P3 (112K) takes the 288K remainder that P1 left at index 2, ahead of the 200K partition.
No free block is then as large as P4 (426K), so P4 waits.
External fragmentation is 1700K less the 741K given to P1, P2 and P3, which is 959K; `Scenarios.DefaultFirstFit` proves the layout and the figure.

## Model

| member | source | states |
|---|---|---|
| Contiguous.RunContiguous | main_memory_allocator.py:72-76 | Input is rejected exactly when the three process lists differ in length, or a partition size, process size or burst is not positive, or an arrival is negative. A length mismatch is reported first. A valid input gives the whole simulation result `Simulated` describes (table, records, waiting list, memory and metrics). |
| Contiguous.FreeBlocksMeasures | main_memory_allocator.py:87 | Initially every partition is free and has no occupant. Total and free memory both equal the sum of the input sizes, and the memory is well formed when the sizes are positive. |
| Contiguous.NumberProcesses | main_memory_allocator.py:90-101 | The loop gives process i (0-based) pid i+1 with its own size, arrival and burst. |
| Processes.SortByArrivalOrdered | main_memory_allocator.py:103 | Sorting the numbered processes orders them by arrival, with ties in input (pid) order. The result is a permutation. |
| Processes.ArrivalOrderUnique | main_memory_allocator.py:103 | Two lists with the same processes, both ordered by (arrival, pid), are equal. So any stable sort by arrival gives the modelled order. |
| Processes.SortKeepsOrdered | main_memory_allocator.py:103 | Processes that already arrive in input order are left in input order. |
| Contiguous.ChooseIn | main_memory_allocator.py:110-117 | The candidate scan finds nothing iff no free partition is large enough. Otherwise it returns the policy's choice: a fitting partition, strictly preferred to every fitting one on its left and not beaten by any on its right. |
| Contiguous.ChoiceUnique | main_memory_allocator.py:110-119 | At most one partition meets the policy's characterisation, so the choice is determined. |
| Contiguous.ChooseExactly | main_memory_allocator.py:110-119 | A partition meeting the characterisation is the one `candidates[0]` yields. |
| Contiguous.ChoiceByPolicy | main_memory_allocator.py:110-119 | The chosen partition is free and large enough. First-Fit takes the lowest fitting index. Best-Fit takes a smallest fitting size and Worst-Fit a largest one, in both cases the leftmost among equal sizes. |
| Contiguous.PlaceConserves | main_memory_allocator.py:125-129 | Splitting a partition keeps the sum of all partition sizes. |
| Contiguous.PlaceFreeTotal | main_memory_allocator.py:121-129 | Placing a request takes exactly its size out of free memory. |
| Contiguous.PlaceOccupants | main_memory_allocator.py:121-129 | Placing adds exactly the new occupant and keeps every other occupant. |
| Contiguous.PlaceWellFormed | main_memory_allocator.py:121-129 | After a split, every block still has a positive size and is free iff it has no occupant. Every occupied block is exactly its occupant's size. |
| Contiguous.PlaceFreeShrinks | main_memory_allocator.py:125-129 | A split creates no free block larger than some free block that was already there. So a waiting process still fits nowhere. |
| Contiguous.LayoutConserves | main_memory_allocator.py:105-129 | Over any sequence of placements, total memory is conserved and well-formedness is kept. |
| Contiguous.LayoutNeverFrees | main_memory_allocator.py:105-132 | Occupied partitions are never freed: every occupant stays in memory through later placements. |
| Contiguous.NoInternalFragmentation | main_memory_allocator.py:135-136 | In well-formed memory, every occupied block is exactly its occupant's size, so internal fragmentation is 0. |
| Contiguous.Occupy | main_memory_allocator.py:121-129 | The in-place update marks the host occupied. When there is surplus, it inserts the free remainder right after the host and shrinks the host to the request. The result is the specified split. |
| Contiguous.Consider | main_memory_allocator.py:106-132 | A process that fits is placed where the policy chooses. Its record carries the host's size before the split, and its row is flagged allocated. A process that fits nowhere is appended to the waiting list and nothing else changes. The progress invariant is kept. |
| Contiguous.PlaceAll | main_memory_allocator.py:105-132 | After the loop, the memory is the layout of all processes. The allocation records are `Allocations`: one per placed process, with the size its host had before the split. The records and the waiting list are the allocated and unallocated rows, in order. Together they hold every process exactly once, and the memory accounting holds. |
| Contiguous.SimulateContiguous | main_memory_allocator.py:86-149 | The result meets `Simulated`. The table lists every process once, in stable arrival order, and that order is sorted by (arrival, pid) and a permutation of the numbered input. Each allocation record holds the host's size before the split, as `Allocations` defines. A row is allocated iff some free partition fitted it when its turn came. Each process is in exactly one of allocations and waiting. Total memory equals the input sum. Occupants match the records. No waiting process fits any free block. External fragmentation is the free total and, added to the allocated total, gives the input sum. Internal fragmentation is 0. The waiting count is the waiting list's length. |
| Scenarios.DefaultFirstFit | main_memory_allocator.py:32-50 | On the default input under First-Fit, the final memory is 100F, P1 212, P3 112, 176F, 200F, 300F, P2 417, 183F. External fragmentation is 959K. |
| Scenarios.DefaultFirstFitRecords | main_memory_allocator.py:32-50 | On the default input under First-Fit, the records report P1 in a 500K partition, P2 in a 600K partition and P3 in a 288K partition, each the host's size before the split. P4 has no record. |
| Scenarios.FirstFitRejectsP4 | main_memory_allocator.py:130-132 | On the default input under First-Fit, no free partition fits P4 (426K), so memory is unchanged and P4 waits. |
| Paging.RunPaging | main_memory_allocator.py:216-217 | A frame count that is not positive is rejected before any replay. Otherwise the result is the replay and its fault count. |
| Paging.NextUse | main_memory_allocator.py:251-252 | This is the index of the page's first occurrence in the remaining references. A page that never occurs again gets the length of the remaining references, which stands for infinity. |
| Paging.NextUseIs | main_memory_allocator.py:251-252 | Conversely, an index where the page occurs with no earlier occurrence, or the length of the remaining references when the page never occurs, is the page's next use. So `NextUse` is exactly `future.index(f)` with infinity for an absent page. |
| Paging.IndexOfAt | main_memory_allocator.py:237 | An occurrence of a page with no earlier occurrence is the position `IndexOf` finds, which is the one `frames.remove(page)` removes. |
| Paging.OptimalVictim | main_memory_allocator.py:250-253 | The victim's next use is at least every resident's next use, and strictly later than every resident before it, so ties go to the first resident. |
| Paging.AccessResidents | main_memory_allocator.py:235-254 | One reference keeps the frames free of duplicates and within capacity, and makes the page resident. A hit keeps the same residents. A fault with room adds the page. A full fault swaps the evicted frame for the page. |
| Paging.ReplacementRules | main_memory_allocator.py:235-254 | A FIFO or Optimal hit leaves the frames unchanged. An LRU hit moves the page to the end. A fault with room appends. A full fault under FIFO or LRU drops position 0. A full fault under Optimal drops the first resident whose next use is furthest away, and then appends the page. |
| Paging.FramesInvariant | main_memory_allocator.py:232-256 | After every prefix of the references, the frames hold no duplicates, at most `num_frames` pages and only referenced pages, and they hold the page just referenced. |
| Paging.Refer | main_memory_allocator.py:234-254 | The in-place frame update is the specified step. It faults iff the page was not resident. |
| Paging.ReplayFaultsMarked | main_memory_allocator.py:232-256 | The history has one entry per reference, with that reference's page. An entry is a fault iff its page was absent from the previous entry's frames, and the first reference always faults. |
| Paging.ReplayFramesBounded | main_memory_allocator.py:232-256 | Every history snapshot has no duplicates, at most `num_frames` pages, and contains its page. |
| Paging.CountFaults | main_memory_allocator.py:240-241 | The fault count never exceeds the number of references. |
| Paging.SimulatePaging | main_memory_allocator.py:227-261 | The history is the replay of the whole reference string. The total number of faults is the number of flagged entries and is at most the number of references. Faults are flagged as above, and every snapshot is bounded. |
| Paging.SingleFrame | main_memory_allocator.py:235-254 | With one frame, all three policies record the same history, and a reference faults iff it differs from the one before it. |
| Paging.LRURecency | main_memory_allocator.py:236-254 | Under LRU the frames run from least to most recently used. |
| Paging.LRUEvictsLeastRecent | main_memory_allocator.py:248-249 | On a full LRU fault, the evicted frame `frames[0]` is the least recently used resident, and it is gone afterwards. |
| Paging.LoadTime | main_memory_allocator.py:239-254 | Under FIFO, the load time of a page is the index of the fault that last loaded it, or -1. It lies before the current reference, and the page was not resident just before it. |
| Paging.LoadTimeIsLast | main_memory_allocator.py:236-254 | Every later reference to the page, up to now, was a hit, so hits do not refresh the load time. |
| Paging.FIFOLoadOrdered | main_memory_allocator.py:236-254 | Under FIFO the frames run from earliest to latest loaded. Every frame was loaded by a fault, and each was loaded strictly before every frame after it. |
| Paging.FIFOEvictsOldest | main_memory_allocator.py:246-247 | On a full FIFO fault, the evicted frame `frames[0]` was loaded before every other resident, and it is gone afterwards. |
| Paging.PolicyNamed | main_memory_allocator.py:236-253 | The selector names "FIFO", "LRU" and "Optimal" stand for the three policies, and no other name does. |
| Paging.AccessByNameAgrees | main_memory_allocator.py:234-254 | For the three offered names, the step the code takes by name is the policy's step. |
| Paging.UnknownNameOverflows | main_memory_allocator.py:245-254 | With a name outside the three, a full fault appends without evicting, so one frame ends up holding two pages. |

## Findings

| source | as written | input that shows it | evidently intended | confidence | as-written member | corrected member |
|---|---|---|---|---|---|---|
| main_memory_allocator.py:245-254 | On a full fault, a method name other than "FIFO", "LRU" or "Optimal" skips eviction and still appends the page. The selector is a free-text combobox, so such a name can be entered. | Method "fifo", 1 frame, references 7 0: the frames become [7, 0]. | The frames never exceed `num_frames`. Only the three policies reach the replay, or an unknown name is rejected. | medium, not executed | Paging.UnknownNameOverflows | Paging.AccessResidents |

The rest of the model uses the enum `Policy` through `Paging.Access`, for which `Paging.AccessResidents` and `Paging.FramesInvariant` prove the capacity bound.

## Left out

- The tkinter interface is not modelled: the tabs, the canvas drawing, the result text and the message boxes. It is presentation only.
- The parsing of the entry fields into integers is not modelled. The model starts from the parsed integer lists and frame count.
- The average waiting time is not modelled as a float. It is a quotient, so the model returns the pair `totalWait` / `processCount`, which the caller divides (0 when there are no processes).
- The allocation and waiting records are not modelled as formatted strings. The model keeps them as structured values: the process, plus the host's pre-split size for an allocation.
- The string occupant tag is not modelled. It is re-parsed for internal fragmentation, so the model carries the occupant's pid and size directly.
- The processes' unused `completed` field is not modelled.
- The `wait_time` field is not modelled as a field. It is 1 exactly for waiting processes, so its sum is the length of the waiting list.
- An unrecognised allocation algorithm name is not modelled separately. The code falls through to First-Fit, so the model's `Fit` enum covers it with `FirstFit`.
- Unrecognised page-replacement names outside the three policies are not modelled in the replay itself. They are covered only by the Findings members.
- Belady's optimality of Optimal replacement (fewest faults) is not modelled. The code neither states nor relies on it.
- The paging default (reference string "7 0 1 2 0 3 0 4 2 3 0 3 0 3 2 1 2 0 1 7 0 1" with 3 frames) is not traced to concrete fault counts. Unfolding the replay and Optimal's look-ahead over 22 concrete references exceeds the solver budget the proofs are kept within, so the paging properties are proved for all inputs only.
- The allocation defaults are traced only under First-Fit, not under Best-Fit or Worst-Fit.
- Integer widths do not arise. Python integers are unbounded, and so are Dafny's.
