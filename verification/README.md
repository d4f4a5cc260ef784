# Value-log segment registry (`leveldb::VlogManager`), modelled in Dafny

In this key-value-separated LevelDB variant, large values live in append-only
value logs. `VlogManager` is the in-memory table from a value-log number to the
`log::VReader` open on that log. It has four operations:

- the constructor, which stores a cleaning threshold;
- `AddVlog`, which inserts a reader and records the log as the active one;
- `GetVlog`, which looks a log up and returns null when it is missing;
- the destructor, which deletes every stored reader.

The model has three modules:

- `Uint` (`uint.dfy`): the `uint32_t` and `uint64_t` widths. It also has the
  implicit narrowing `Truncate32`, which the source applies to every log
  number and to the threshold.
- `VlogRegistry` (`vlog_registry.dfy`): the manager's value (`Registry`) and
  what each operation does to it (`Init`, `Add`, `Get`, `ReleaseCount`). It
  also holds lemmas about single calls, about sequences of calls (`AddAll`)
  and about the ownership rule in the header's comment. Readers are an opaque
  class `VReader`, so a C++ `VReader*` is a `VReader?`.
- `Manager` (`vlog_manager.dfy`): the class `VlogManager`, whose methods update
  its fields in place. Each method is proved against the functions above. The
  file also holds the struct `KeyValueInfo` and a client that runs a two-log
  scenario.

Behaviour the model pins down:

- Keys are narrowed to 32 bits. Log numbers `n` and `n + 2^32` share a slot,
  so a lookup of a number that was never registered can return another log's
  reader (`AliasedLookup`).
- The first insert wins. `unordered_map::insert` does not overwrite, so a
  second `AddVlog` with a key that is already present keeps the old reader.
  The new reader is then never stored and never deleted: it leaks
  (`DuplicateAddLeaks`).
- `now_vlog_` is overwritten by every `AddVlog`, whether or not the insert
  happened, and no ordering is checked. It starts at 0, which is also a legal
  log number.
- Teardown deletes each reader once per entry that holds it (`ReleaseCount`).
  A count above 1 means the same object is deleted twice, which is undefined
  behaviour in C++. When the stored readers are distinct, no count exceeds 1.

## Model

| member | source | states |
|---|---|---|
| Uint.Truncate32 | db/vlog_manager.h:30-38 | the `uint64_t`→`uint32_t` conversion gives the 32-bit value congruent to the argument mod 2^32, unchanged below 2^32 |
| Uint.SameTruncationIff | db/vlog_manager.h:35 | two log numbers land on the same map key exactly when they differ by a multiple of 2^32 |
| VlogRegistry.Init | db/vlog_manager.cc:5-7 | a new manager has no entries, `now_vlog_ == 0`, every lookup returns null, and the threshold is the argument mod 2^32 |
| VlogRegistry.Add | db/vlog_manager.cc:16-25 | `AddVlog` sets the active log to the narrowed number in every case, inserts `VlogInfo(vlog)` only if the key is absent, keeps every other entry, and grows the map by at most one |
| VlogRegistry.Get | db/vlog_manager.cc:27-33 | `GetVlog` returns null when the narrowed key is absent, otherwise the stored reader |
| VlogRegistry.ReleaseCount | db/vlog_manager.cc:9-14 | teardown deletes `r` once per entry whose reader is `r`, so never more often than there are entries and never when no entry holds it; null entries release nothing; a count above 1 is a double `delete` |
| VlogRegistry.AddAll | db/vlog_manager.cc:16-25 | after a sequence of `AddVlog` calls the active log is the last call's narrowed number, the threshold is unchanged, and no key is lost |
| VlogRegistry.GetNullIffAbsent | db/vlog_manager.cc:27-33 | while every stored reader is non-null, `GetVlog` returns null exactly when the key is absent |
| VlogRegistry.AddKeepsNoNullReaders | db/vlog_manager.h:29-30 | adding a non-null (freshly allocated) reader keeps every stored reader non-null |
| VlogRegistry.AddKeepsDistinctReaders | db/vlog_manager.h:29-30 | adding a reader the manager does not already own keeps the owned readers distinct |
| VlogRegistry.AddThenGet | db/vlog_manager.cc:16-33 | after `AddVlog(n, r)`, `GetVlog(n)` is `r` if the key was new and the earlier reader otherwise; lookups under other keys are unchanged |
| VlogRegistry.AliasedLookup | db/vlog_manager.h:30-35 | a number that differs from a newly registered one by a multiple of 2^32 looks up that number's reader |
| VlogRegistry.AliasedLookupExample | db/vlog_manager.h:30-35 | logs 1 and 2^32 + 1 look up each other's reader |
| VlogRegistry.AddReleaseCount | db/vlog_manager.cc:9-25 | after `AddVlog(n, r)` teardown deletes `r` once more exactly when the key was new; no other reader's count changes |
| VlogRegistry.DuplicateAddLeaks | db/vlog_manager.cc:22 | an `AddVlog` whose key is present keeps the earlier reader, and teardown never deletes the new one |
| VlogRegistry.ReleasedIffStored | db/vlog_manager.cc:9-14 | teardown deletes a reader exactly when some entry holds it |
| VlogRegistry.ReleasedAtMostOnce | db/vlog_manager.cc:9-14 | with distinct stored readers, teardown deletes no reader twice |
| VlogRegistry.AddAllKeepsEntries | db/vlog_manager.cc:22 | an entry present before any sequence of `AddVlog` calls is unchanged after it |
| VlogRegistry.AddAllFirstWins | db/vlog_manager.cc:22 | the reader of the first call with a given new key is the one a later lookup returns |
| VlogRegistry.AddAllNeverRegistered | db/vlog_manager.cc:27-30 | a number whose key no call used, and that was absent, is still looked up as null |
| VlogRegistry.DistinctRegistrationsFound | db/vlog_manager.cc:16-33 | from a new manager, calls with distinct narrowed numbers are each found again with their own reader |
| VlogRegistry.AddAllKeepsInvariants | db/vlog_manager.h:29-30 | calls that hand over non-null readers, none passed twice and none already owned by the manager, keep the stored readers non-null and distinct |
| VlogRegistry.RegisteredReleasedOnce | db/vlog_manager.cc:9-25 | from a new manager, calls with distinct numbers and distinct non-null readers get each reader deleted exactly once at teardown |
| VlogRegistry.TwoLogsScenario | db/vlog_manager.cc:5-33 | register 1 and 2: lookups give R1, R2 and null for 3, the active log is 2, and R1 and R2 are each deleted once |
| VlogRegistry.DuplicateScenario | db/vlog_manager.cc:16-25 | register 5 twice: the first reader stays and is deleted once, the active log is 5, and the second reader is never deleted |
| VlogRegistry.ActiveLogIsLastCall | db/vlog_manager.cc:24 | the active log is the last call's narrowed number, whatever the earlier number and whether or not the insert happened |
| Manager.KeyValueInfo.Count | db/vlog_manager.h:21 | `count()` equals the number of offsets below 2^32, and in general that number mod 2^32 |
| Manager.KeyValueInfo.constructor | db/vlog_manager.h:23 | a new `KeyValueInfo` has no offsets and `count() == 0` |
| Manager.VlogManager.constructor | db/vlog_manager.cc:5-7 | the new object's value is `Init(threshold)`: empty map, active log 0 |
| Manager.VlogManager.AddVlog | db/vlog_manager.cc:16-25 | the new value is `Add` of the old one: the map gains `VlogInfo(vlog)` only under a new key, the active log is always overwritten, and the local `KeyValueInfo` changes nothing |
| Manager.VlogManager.GetVlog | db/vlog_manager.cc:27-33 | returns `Get` of the current value, changes nothing, and returns null exactly for absent keys while no stored reader is null |
| Manager.VlogManager.Destroy | db/vlog_manager.cc:9-14 | the walk over all entries deletes each reader once per entry holding it, and no reader twice when the stored readers are distinct |
| Manager.TwoLogsClient | db/vlog_manager.cc:5-33 | through the class: lookups of 1, 2, 3 and 2^32 + 1 give R1, R2, null and R1, and teardown deletes exactly R1 and R2 |

## Left out

- `log::VReader` itself (its file format and reads): db/vlog_reader.h is not part of this model. A reader is an opaque object whose identity is all that matters.
- Heap deallocation. A `delete` is modelled as adding the reader to the multiset that `Destroy` returns. `Destroy` is an ordinary method that leaves the object as it was, so use after teardown is not modelled.
- The order in which the destructor walks the hash map. The walk picks keys in an arbitrary order, and its result is stated as a multiset.
- The `my_stats.max_num_log_item` global and the `reserve` call in the `KeyValueInfo` constructor. Capacity has no observable effect, so only the size is modelled.
- Any use of `clean_threshold_` beyond storing it: the source never reads it.
- Thread safety. The source has no synchronisation, and the model is single-threaded.
- The ownership rule in db/vlog_manager.h:29 is not a precondition of `AddVlog`, because the code does not check it. Instead, lemmas state what holds when callers keep the rule: non-null readers (`AddKeepsNoNullReaders`) that the manager does not already own (`AddKeepsDistinctReaders`).
