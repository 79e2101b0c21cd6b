# csim: an LRU set-associative cache simulator, modelled in Dafny

`csim.c` replays a memory trace (Valgrind format) against a simulated cache of
`S = 2^s` sets with `E` lines each and counts hits, misses and evictions
under least-recently-used replacement. This project models the engine of
that simulator. It proves what one access does to the cache and what a
trace of load, store and modify records does to the three counters.

Modules, one per file:

- `Address` (`address.dfy`): the split of a 64-bit address into tag and
  set index. The C shifts and subtraction on `unsigned long long` are
  written out modulo 2^64, and the model proves they never wrap. `Compose`
  puts a tag, a set index and an offset back together, and the split and
  `Compose` are proved to be inverses.
- `CacheSet` (`cache_set.dfy`): a line (`cache_line_t`), and the
  specification of one access to one set as pure functions.
  - `HitIn`, `EmptyIn`, `MostRecentIn` and `LeastRecentIn` give the value
    each of the scan's four tracking pointers holds after the first `n`
    lines.
  - `AccessSet` gives the outcome, the touched line and the new lines.
  - `SetInv` is the set invariant. Valid lines are marked `'1'`, carry
    distinct tags and carry distinct counters of at least 1. Invalid lines
    are exactly as `init_cache` left them.
  - The lemmas state the properties of one access, and of a run of
    accesses to one set (`AccessAll`): the LRU choice of the victim and
    the capacity at which evictions begin.
- `Simulator` (`cache.dfy`): class `Cache`. It holds the geometry, the
  lines as an `array2<Line>` (`cache[set][line]`) and the counters
  `hits`, `misses` and `evictions` (the C globals `hit_cnt`, `miss_cnt`
  and `evict_cnt`).
  - The constructor is `init_cache`, with the same nested loops.
  - `Scan` is the `for` loop of `access_data`.
  - `Place` applies the chosen outcome to the set.
  - `Access` is `access_data`.
  - Each method is proved against the `CacheSet` functions. `Valid()`
    carries the set invariant of every set and two counter identities:
    `hits + misses` equals the number of accesses, and
    `evictions <= misses`.
- `Trace` (`trace.dfy`): the L/S/M dispatch of `replay_trace` over records
  that have already been parsed.
  - `RecordRun` and `TraceRun` are the dispatch and the whole replay on the
    sets as values.
  - `ReplayRecord` and `Replay` run the same dispatch on a `Cache` object
    and are proved to leave exactly the sets and outcomes those functions
    give.
  - `TallyAll` folds the outcomes into the three counters.
- `Scenarios` (`scenarios.dfy`): three concrete runs whose outcomes and
  final counters are proved.
  - Two sets with one line each.
  - Two tags that conflict in a one-line set.
  - A single `M 10` record on an empty cache. The address is read with
    `%llx`, so it is 0x10: tag 1 and set 0 when `s = b = 2`. It gives a
    cold miss and then a hit.

Behaviour of the code that the model keeps:

- When several lines are invalid, the cold miss fills the LAST invalid
  line of the set, because the scan overwrites `empty_line` at every
  invalid line (csim.c:145-146).
- `mostrecent_line` and `leastrecent_line` both start at line 0, even when
  that line is invalid (csim.c:137-138). Only valid lines move them, by a
  strict comparison, so on a tie the earliest line wins. The new counter is
  one more than the counter the most-recent pointer rests on. When no line
  is valid, the pointer is on line 0 with counter 0, so the new counter is
  1.
- Several accesses to one set, starting from `init_cache`, keep each valid
  line's counter equal to one more than the position of its tag's last
  access. So the line an eviction picks holds the least recently used tag,
  and `E` distinct tags fill a set of `E` lines before the next new tag
  evicts the first of them.

## Model

| member | source | states |
|---|---|---|
| Address.ShiftRightDrops | csim.c:133 | `x >> k` is the number of whole `2^k` in `x`: `r * 2^k <= x < r * 2^k + 2^k`, and `r <= x` |
| Address.ShiftLeftKeeps | csim.c:135 | `x << k` stays below `2^64`, and equals `x * 2^k` when that product is below `2^64` |
| Address.SubtractWraps | csim.c:135 | the unsigned difference is below `2^64` and adds back to `x` modulo `2^64`; it is the plain difference when `y <= x` |
| Address.Split | csim.c:133-135 | the tag is `addr / 2^(s+b)` and the set index is `(addr / 2^b) mod 2^s`, so it is below `2^s = S`; the 64-bit shift-and-subtract computation reaches these values without wrapping |
| Address.SplitNoWrap | csim.c:133-135 | `tag << (s+b)` does not overflow 64 bits, `addr - (tag << (s+b))` does not wrap and is `addr mod 2^(s+b)`, and shifting that right by `b` gives the set bits |
| Address.ComposeSplit | csim.c:133-135 | the tag and set index of an address, recombined with its block offset, give the address back |
| Address.SplitCompose | csim.c:133-135 | any tag, set index and offset within their bit widths form an address below 2^64 that splits back into that tag and that set index |
| CacheSet.HitIn | csim.c:140-152 | the line `hit_line` points to after the first `n` lines is one of those lines |
| CacheSet.EmptyIn | csim.c:139-146 | the line `empty_line` points to after the first `n` lines is one of those lines |
| CacheSet.MostRecentIn | csim.c:137-156 | `mostrecent_line` always points into the set |
| CacheSet.LeastRecentIn | csim.c:138-160 | `leastrecent_line` always points into the set |
| CacheSet.HitInSpec | csim.c:143-152 | `hit_line` is set exactly when some valid line holds the tag, and then it is the last such line |
| CacheSet.EmptyInSpec | csim.c:143-146 | `empty_line` is NULL exactly when every line is valid; otherwise it is the last invalid line |
| CacheSet.MostRecentInSpec | csim.c:137-156 | `mostrecent_line` is line 0 or a valid line, its counter is the largest among line 0 and the valid lines, and it is the first line with that counter |
| CacheSet.LeastRecentInSpec | csim.c:138-160 | `leastrecent_line` is line 0 or a valid line, its counter is the smallest among line 0 and the valid lines, and it is the first line with that counter |
| CacheSet.AccessSet | csim.c:136-186 | one access touches one line of the set and keeps the number of lines; what it does to that line is stated by `AccessOutcome` and `AccessTouches` |
| CacheSet.AccessOutcome | csim.c:143-186 | an access hits if and only if a valid line holds the tag; it evicts if and only if no line holds the tag and all lines are valid; it is a cold miss if and only if no line holds the tag and some line is invalid |
| CacheSet.AccessTouches | csim.c:164-186 | only the touched line changes; a hit keeps that line's valid byte and tag and sets its counter to `mostrecent_line->counter + 1`; a cold miss fills an invalid line above which every line is valid (the highest-indexed invalid line); an eviction overwrites a line with the smallest counter, strictly below the counter of every earlier line; a miss writes valid `'1'`, the tag and the new counter |
| CacheSet.StampAboveAll | csim.c:166-182 | under the set invariant, the counter an access writes (`mostrecent_line->counter + 1`) is above every counter in the set |
| CacheSet.AccessPreservesInv | csim.c:164-186 | an access keeps the set invariant: valid lines carry distinct tags and distinct counters of at least 1, and invalid lines keep valid `'0'`, tag 0 and counter 0 |
| CacheSet.AccessMakesMostRecent | csim.c:164-186 | after an access, exactly one valid line holds the tag, and its counter is strictly greater than every other line's |
| CacheSet.AccessValidity | csim.c:164-186 | no valid line becomes invalid, and the number of valid lines grows by one on a cold miss and is unchanged otherwise |
| CacheSet.EvictionRemovesVictim | csim.c:178-186 | after an eviction, the victim's former tag is held by no line of the set |
| CacheSet.RepeatHits | csim.c:221-223 | a second access with the same tag right after the first, as an `M` record makes, is always a hit |
| CacheSet.FreshRowFirstAccess | csim.c:97-101 | a set as `init_cache` leaves it satisfies the set invariant, and its first access is a cold miss (never a hit or an eviction) that fills the last line with counter 1 |
| CacheSet.AccessAll | csim.c:136-186 | a run of accesses to one set keeps its number of lines and gives one outcome per access |
| CacheSet.LastAccess | csim.c:166-182 | the position of the last access with a tag: that access has the tag and no later one does |
| CacheSet.StampCountsAccesses | csim.c:166-182 | in a set that started as `init_cache` left it, the next counter written is one more than the number of accesses so far |
| CacheSet.AccessAllStamps | csim.c:164-186 | after any run of accesses from `init_cache`, the set invariant holds, every valid line holds an accessed tag, its counter is one more than the position of that tag's last access, and the tag accessed last is resident |
| CacheSet.EvictsLeastRecentlyUsed | csim.c:157-186 | when an access evicts, all lines are valid and the victim's tag is the one whose last access is strictly earliest among the resident tags (LRU) |
| CacheSet.FillsWithoutEviction | csim.c:169-176 | up to `E` distinct tags on a set of `E` fresh lines are all cold misses, the number of valid lines is the number of tags, and every one of those tags is resident |
| CacheSet.CapacityEviction | csim.c:169-186 | `E` distinct tags fill a fresh set of `E` lines with cold misses; one more new tag is an eviction whose victim is the first tag; accessing the first tag again then misses with an eviction too |
| Simulator.Tally | csim.c:163-186 | an access moves `hit_cnt + miss_cnt` up by one; `hit_cnt` grows exactly on a hit and `evict_cnt` exactly on an eviction |
| Simulator.AccessCache | csim.c:131-187 | one access on the sets as values keeps the shape of every set and changes no set other than the addressed one |
| Simulator.FreshSets | csim.c:90-102 | `S` sets, each as `init_cache` leaves it |
| Simulator.FreshCacheFirstAccess | csim.c:90-102 | the first access to a freshly initialised cache is a cold miss, whatever the address |
| Simulator.TotalValidBound | csim.c:90-102 | a cache of `S` sets of `E` lines has at most `S * E` valid lines, and a fresh one has none |
| Simulator.AccessCacheValidLines | csim.c:169-176 | the number of valid lines in the whole cache grows by one on a cold miss and is unchanged on a hit or an eviction |
| Simulator.AccessCacheKeepsInv | csim.c:131-187 | an access keeps the set invariant in every set |
| Simulator.Cache.constructor | csim.c:78-104 | `S == 2^s` (computed as `2 << (s-1)`); every one of the `S x E` lines has valid `'0'`, tag 0 and counter 0, so the sets are `FreshSets(S, E)`; the counters are zero; the cache invariant holds |
| Simulator.Cache.Scan | csim.c:136-162 | the loop leaves `hit_line`, `empty_line`, `mostrecent_line` and `leastrecent_line` on the lines the scan functions describe |
| Simulator.Cache.Place | csim.c:136-186 | the set's lines become the ones `AccessSet` gives and the outcome is its outcome; every other set is unchanged; every set still satisfies the set invariant |
| Simulator.Cache.Access | csim.c:131-187 | the addressed set is updated as `AccessSet` describes and no other set changes, so the sets and outcome are the ones `AccessCache` gives; the counters move as `Tally` says (exactly one of `hits` and `misses` grows by one, `evictions` grows exactly on an eviction); the invariant (including `hits + misses == accesses` and `evictions <= misses`) is kept |
| Trace.AccessesOf | csim.c:211-223 | an `M` record makes two accesses, `L` and `S` make one, and every other record makes none |
| Trace.RecordRun | csim.c:211-223 | one record keeps the shape of every set and makes as many accesses as `AccessesOf` says |
| Trace.TraceRun | csim.c:210-225 | a trace keeps the shape of every set and makes one access per `L` or `S` record and two per `M` |
| Trace.ModifyHitsTwice | csim.c:221-222 | the second access of an `M` record is a hit |
| Trace.TraceRunKeepsInv | csim.c:210-225 | replaying any trace keeps the set invariant in every set |
| Trace.ColdMissesFillLines | csim.c:169-176 | over any trace the number of valid lines grows by exactly the number of cold misses |
| Trace.ColdMissBound | csim.c:210-225 | from a fresh cache, no trace has more than `S * E` cold misses; every further miss is an eviction |
| Trace.TallyAllCounts | csim.c:163-186 | the counters after a run of outcomes grow by the number of hits, the number of misses (cold or evicting) and the number of evictions among them |
| Trace.ReplayRecord | csim.c:211-223 | one record on the cache object leaves exactly the sets and outcomes `RecordRun` gives: for `L` or `S` the addressed set becomes `AccessSet` of it; for `M` it becomes `AccessSet` applied twice with the same tag; no other set changes, and any other record changes nothing; the counters move as `TallyAll` says, i.e. by the counts of hits, misses and evictions |
| Trace.Replay | csim.c:210-225 | a trace on the cache object leaves exactly the sets and outcomes `TraceRun` gives; `hits`, `misses` and `evictions` grow by the numbers of hits, of misses (cold or evicting) and of evictions among the outcomes; the cache invariant is kept |

## Left out

- Reading the trace file and parsing each line (`fopen`, `fgets`,
  `sscanf`, `fclose`). This is I/O. `Replay` takes a sequence of records,
  each already decoded into the operation character `buf[1]` and the
  address. The access size `len` is not used by the access logic and is
  not modelled.
- The verbose trace printing, `print_usage`, `print_summary` and the
  results file. These are output only.
- `main`'s `getopt` and `atoi` handling and its missing-argument check.
  Only the constraint they leave on the geometry is kept, as the
  precondition `ValidGeometry`: `1 <= s <= 30`, `1 <= b <= 30`, `E >= 1`.
  Outside that range, `2 << (s-1)` or `2 << (b-1)` is undefined or
  overflows a signed 32-bit `int`. The precondition also gives
  `s + b < 64`, so every 64-bit shift in `access_data` is defined.
- `free_cache`, and the `malloc` failure paths that print and `exit(1)`.
  These are memory management and process exit.
- `B = 2 << (b-1)`: it is computed by `init_cache` but never read by the
  access logic.
- Overflow of the `int` counters `hit_cnt`, `miss_cnt` and `evict_cnt`
  and of the `long` line counters. The model uses unbounded naturals, so
  it describes runs shorter than 2^31 accesses.
- The valid byte is a `char`. The model keeps it as a character: `'0'`
  means invalid, and the simulator only ever writes `'0'` or `'1'`.
- Simulator.Cache.Access: `access_data` increments the counters inside its
  three outcome branches. In the model, `Place` does the line update and
  `Access` then increments the counters by a dispatch on the returned
  outcome. The two orders of these independent stores give the same
  final state.
