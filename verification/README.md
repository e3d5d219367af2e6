# vmap in Dafny

vmap is a small C library of open-addressing hash tables with linear
probing and tombstones, written in two styles, plus a line iterator that
its benchmark uses:

- `vmap.c` is the generic table. A `vmap_type` descriptor supplies the
  key and value sizes, a `hash` callback, and optional `key_cmp`,
  `key_free` and `value_free` callbacks. The table has `2^power` slots.
  Each slot has a 64-bit metadata word: the hash fragment `hash >> 2`
  in the upper bits and a two-bit flag (EMPTY, DELETED, FULL) in the low
  bits. The entries are stored as key bytes, padding, then value bytes.
  Insert doubles the table when `numelplusdeleted / capacity` passes 0.7.
  Erase leaves a tombstone and halves the table when
  `numel / capacity` falls below 0.3 above power 5. Resize re-places
  every FULL slot into a fresh array.
- `src/vmap.h` generates, through `VMAP_INIT(name, key_type, value_type)`,
  a table for one key type and one value type. It has a fixed capacity
  of 32 entries and hashes keys with djb2. Each entry carries a `flags`
  field: zeroed, `VMAP_KEY_DELETED` or `VMAP_ENTRY`. The generated
  functions are new, insert, find, delete and free. Delete never
  decrements `numel`.
- `util/util.c` holds `line_iter`, which hands out the lines of a buffer
  as (address, length) views one call at a time, and `num_lines`.

The model keeps the source's form:

- Each C function that loops over the table becomes a method with its
  loop and invariants, over a Dafny `array`:
  - `Vmap.Table` stands for `struct vmap`.
  - `Mono.MonoMap` stands for `vmap_<name>_t`.
  - `LineIter.Iter` stands for `line_iter`.
- Each method is proved to compute a value-level function of the old
  state:
  - `VmapSpec.Insert`, `Erase` and `Resize`.
  - `MonoSpec.Insert`, `Find` and `Delete`.
  - `LineIter.NextState`.
- What the library promises is proved about those functions:
  - Every operation keeps the table invariant.
  - `vmap_find` answers the lookup of the abstract map the slots hold,
    on tables that hold each key at most once.
  - The corrected inserts change that map as a map insert on every
    table. The inserts as written do so only in the cases below, and
    otherwise can lose or duplicate an entry (see Findings):
    - `vmap.c`: when no tombstone lies on the key's probe path.
    - `src/vmap.h`: for an absent key, or for a present key with no
      tombstone before it on the probe path.
  - Erase changes the map as a map remove, and resize leaves it
    unchanged, on tables that hold each key at most once.
  - Resize keeps every live entry, as often as it occurs, on any valid
    table.
  - The destructor calls happen exactly once per entry.
  - The line iterator hands out every line of its input, in order, and
    then stops.
- The scenarios of `test.c` and `tests/ht_test.c` are stated as lemmas
  for any batch of distinct keys.
- Three defects of the source are exhibited on concrete inputs and
  corrected (see Findings).

Modules, one per file:

- `bits.dfy`: `Bits`, 64-bit words with AND and OR on naturals.
- `probe.dfy`: `Probe`, wrap-around probe offsets.
- `wrappers.dfy`: `Wrappers`, `Option`.
- `vmap_meta.dfy`: `VmapMeta`, metadata words, padding and load tests.
- `vmap_spec.dfy`: `VmapSpec`, the vmap.c operations as functions, the
  invariant and the abstract map.
- `vmap_slots.dfy`, `vmap_find.dfy`, `vmap_ops.dfy`, `vmap_rehash.dfy`:
  the proofs about those functions.
- `vmap_table.dfy`: `Vmap`, the class.
- `vmap_scenarios.dfy`: the test scenarios.
- `vmap_findings.dfy`: Finding 1.
- `mono_spec.dfy`: `MonoSpec`, the src/vmap.h operations.
- `mono_model.dfy`: `MonoModel`, their lookup model and properties.
- `mono.dfy`: `Mono`, the class.
- `mono_scenarios.dfy`: the scenarios.
- `mono_findings.dfy`: Findings 2 and 3.
- `line_iter.dfy`: `LineIter`.

## Model

| member | source | states |
|---|---|---|
| VmapMeta.H1 | vmap.c:29 | `hash >> 2` of a 64-bit word is below 2^62 |
| VmapMeta.Flags | vmap.c:30 | shifting left by 62 with 64-bit wrap-around, then OR-ing 0 and shifting right by 62 gives the low two bits `w % 4` |
| VmapMeta.Pack | vmap.c:124 | the word `h1` shifted left by 2 and OR-ed with `flag` decodes back to `h1` under `vmap_h1` and to `flag` under `vmap_flags` |
| VmapMeta.RepackFull | vmap.c:124 | re-packing a FULL word's fragment with VMAP_FULL gives the same word, so the word resize rebuilds from the fragment is the old word |
| VmapMeta.SpecialWords | vmap.c:4-6 | the zero word decodes as EMPTY; the tombstone word `VMAP_DELETED` decodes as DELETED with fragment 0 |
| VmapMeta.Padding | vmap.c:45-46 | padding is below `sizeof(void*)`, key size plus padding is a multiple of 8, and it is `8 - key_size % 8` unless the size is already aligned |
| VmapMeta.LoadTestsExact | vmap.c:130-131 | the integer tests `10n > 7cap` and `10n < 3cap` agree exactly with the ratios `n/cap > 0.7` and `n/cap < 0.3` |
| VmapMeta.LoadNeverAtThreshold | vmap.c:8-9 | with a power-of-two capacity the load is never exactly 0.7 or 0.3, so strict and non-strict tests agree |
| Bits.AndLowMask | vmap.c:91 | `x & (2^p - 1) == x % 2^p`, so masking keeps every probe index below the capacity |
| Vmap.Mask | vmap.c:91 | the mask each probe step applies is the remainder by the capacity |
| Probe.OffStep | vmap.c:104 | one step `(slot + 1) & (capacity - 1)` moves one offset along the wrap-around probe |
| Probe.OffInjective | vmap.c:146-165 | within one lap distinct offsets visit distinct slots |
| VmapSpec.FindFrom | vmap.c:146-165 | a slot the probe returns is FULL, its fragment equals the key's, and its key is equal |
| VmapSpec.InsertProbeFixed | vmap.c:99-123 | the corrected insert probe updates only a FULL matching slot and places only into an EMPTY one |
| VmapSpec.Model | vmap.c:124-129 | the abstract map binds the key of every FULL slot to its value and nothing else |
| VmapFind.FindIsModel | vmap.c:139-167 | `vmap_find` finds a slot exactly when the key is bound, and returns the bound value; for an unbound key it returns NULL when the probe meets an EMPTY slot, and where it would loop forever (no EMPTY slot) `VmapSpec.FindSlot` gives None |
| VmapFind.FindPresent | vmap.c:146-165 | the probe for a stored key stops at that key's slot |
| VmapFind.FoundIsStored | vmap.c:157-161 | a slot found for a key is FULL and holds that key |
| VmapFind.ProbesAgreeOnClearPath | vmap.c:103-105 | without a tombstone on the path, the as-written insert probe and the corrected one agree |
| VmapOps.FreshIsValid | vmap.c:51-84 | a new table has 32 EMPTY slots, satisfies the invariant, holds the empty map and is under the growth threshold |
| VmapOps.LoadBoundedLeavesRoom | vmap.c:96-98 | under the growth threshold some slot is EMPTY, so every probe loop ends |
| VmapOps.InsertKeepsValid | vmap.c:86-137 | insert keeps the invariant. It returns VMAP_OOM with no change exactly when no slot is unused, and otherwise VMAP_OOM only when growth failed. A successful insert stays under the growth threshold |
| VmapOps.CommitKeepsValid | vmap.c:124-133 | the write and growth step keeps the invariant and the growth threshold; a failed growth reports VMAP_OOM but keeps the new entry |
| VmapOps.CommitKeepsModel | vmap.c:106-133 | updating the key's own slot or writing into an EMPTY slot for an absent key is a map insert, counters exact |
| VmapOps.UpdatedIsCanonical | vmap.c:116-119 | overwriting a matching entry's value rebinds only that key |
| VmapOps.InsertCorrectedIsMapInsert | vmap.c:86-137 | the corrected insert keeps the invariant and, below capacity, binds the key to the value and changes nothing else, whether it updates or adds |
| VmapOps.InsertOnClearPath | vmap.c:103-105 | where no tombstone lies on the path the as-written insert equals the corrected one |
| VmapOps.InsertTombstoneFree | vmap.c:86-137 | on a table without tombstones the as-written insert is a map insert and leaves no tombstone |
| VmapOps.TombstoneStep | vmap.c:195-196 | marking the found slot DELETED and decrementing `numel` keeps the invariant, keeps `numelplusdeleted`, and removes exactly that key |
| VmapOps.ShrinkKeepsValid | vmap.c:197-200 | the shrink step keeps the invariant, the map and the growth threshold; VMAP_OOM only for a failed allocation, with no change |
| VmapOps.EraseKeepsValid | vmap.c:169-207 | erase keeps the invariant. It returns VMAP_NO_KEY exactly when the probe finds nothing, and then changes nothing. VMAP_OOM only for a failed shrink |
| VmapOps.EraseIsMapRemove | vmap.c:169-207 | erase removes the key's binding and nothing else, and returns VMAP_NO_KEY exactly when the key is unbound |
| VmapSlots.ModelUpdateValue | vmap.c:117-118 | overwriting a FULL slot's value keeps keys unique and rebinds its key |
| VmapSlots.ModelPlace | vmap.c:124-127 | writing an entry for an absent key into a non-FULL slot adds that binding |
| VmapSlots.ModelErase | vmap.c:195 | turning a FULL slot into a tombstone removes exactly its key |
| VmapSlots.FullAtMostUsed | vmap.c:128-129 | there are never more FULL slots than used slots |
| VmapSlots.EmptyExists | vmap.c:96-98 | fewer used slots than slots leaves an EMPTY slot |
| VmapRehash.PlaceFromLands | vmap.c:236-246 | the inner resize loop writes the entry into the first non-FULL slot from its home, reached across FULL slots only |
| VmapRehash.RehashPrefixInvariant | vmap.c:223-248 | after `n` old slots the new array holds only EMPTY and FULL slots, its chains are unbroken, and its entries are copies of the live entries seen, as many as there are of those |
| VmapRehash.RehashStep | vmap.c:224-246 | one pass of the outer resize loop writes a live old slot unchanged into a slot that was not FULL, and skips EMPTY and DELETED slots |
| VmapRehash.RehashPrefixKeepsFull | vmap.c:223-248 | after `n` old slots the FULL slots of the new array are exactly the live old slots seen, each as often as it occurs, even when a key is held twice |
| VmapRehash.RehashPrefixKeepsModel | vmap.c:223-248 | with unique keys, after `n` old slots the new array has unique keys and binds the same map as the old slots seen |
| VmapRehash.ResizeKeepsValid | vmap.c:214-254 | resize keeps the invariant, sets the new power, drops every tombstone and sets both counters to `numel`; on allocation failure it returns VMAP_OOM with no change |
| VmapRehash.ResizeKeepsModel | vmap.c:214-254 | resize keeps the abstract map and keeps the table exact |
| VmapRehash.ResizeKeepsEntries | vmap.c:214-254 | on any valid table, duplicated keys included, the FULL slots after resize are those before it, each as often as before |
| Vmap.FindIsLookup | vmap.c:139-167 | on a valid exact table `vmap_find` is the map lookup |
| Vmap.Table.constructor | vmap.c:256-275 | a table of `2^power` zeroed slots, both counters 0, with the given layout and callbacks |
| Vmap.Table.New | vmap.c:51-84 | NULL exactly for a zero key size, a zero value size, a NULL hash or a failed allocation. Otherwise power 5, all slots EMPTY, counters 0, the invariant, and `entry_size = key_size + value_size + padding` |
| Vmap.Table.NewWithCap | vmap.c:256-275 | NULL exactly on allocation failure; otherwise an all-zero table of `2^power` slots with the given padding and entry size |
| Vmap.Table.Locate | vmap.c:146-165 | on any table with an EMPTY slot or holding the key, the probe loop returns the slot `VmapSpec.FindSlot` names; a returned slot is in range and matches the key |
| Vmap.Table.Find | vmap.c:139-167 | on any table with an EMPTY slot or holding the key, returns `VmapSpec.Find`, which on a valid exact table is the map lookup |
| Vmap.Table.InsertTarget | vmap.c:99-123 | the insert probe loop stops at the slot `VmapSpec.InsertProbe` names and never runs out |
| Vmap.Table.Insert | vmap.c:86-137 | the new state and status are `VmapSpec.Insert` of the old state; `key_free` is called on the caller's key exactly on an update; a valid table stays valid |
| Vmap.Table.PlaceAt | vmap.c:124-133 | writes the packed word, key and value, increments both counters and grows past 0.7, as `VmapSpec.Commit` |
| Vmap.Table.EraseAt | vmap.c:193-200 | calls the destructors on the stored key and value, leaves a tombstone, decrements `numel` and shrinks below 0.3, as `VmapSpec.ShrinkIfSparse` |
| Vmap.Table.Erase | vmap.c:169-207 | on any table with an EMPTY slot or holding the key, the new state and status are `VmapSpec.Erase` of the old state, with the destructor calls of `VmapSpec.EraseFrees`; a valid table stays valid |
| Vmap.Table.PlaceInto | vmap.c:236-247 | the inner resize loop computes `VmapSpec.PlaceFrom` |
| Vmap.Table.RehashInto | vmap.c:223-248 | the outer resize loop computes `VmapSpec.Rehash` of the old slots |
| Vmap.Table.Resize | vmap.c:214-254 | the new state and status are `VmapSpec.Resize` of the old state, with no destructor call; a valid table resized to power 5 or more stays valid |
| VmapScenarios.InsertAllBinds | vmap.c:86-137 | into a healthy table without tombstones, inserting a batch returns VMAP_OK each time and binds the batch on top of the old map |
| VmapScenarios.EraseAllRemoves | vmap.c:169-207 | erasing distinct bound keys returns VMAP_OK each time and removes exactly those keys |
| VmapScenarios.InsertFindEraseReinsert | test.c:37-78 | for any batch of distinct keys from a new table: every insert returns VMAP_OK and every key finds its value. Every erase returns VMAP_OK and then no key is found. Re-inserting the batch returns VMAP_OK and every key finds its value again |
| MonoSpec.Djb2IsPolynomial | src/vmap.h:78-88 | djb2 is `5381 * 33^n + sum key[i] * 33^(n-1-i)` mod 2^64: the per-step wrap-around loses nothing |
| MonoSpec.EntryNew | src/vmap.h:90-98 | a new entry has flags `VMAP_ENTRY` and the key and value unchanged |
| MonoSpec.InsertProbe | src/vmap.h:110-139 | the insert probe updates only an ENTRY with an equal key and writes a new entry only into a slot that is not an ENTRY |
| MonoSpec.HasCleared | src/vmap.h:105-107 | below capacity some entry is still zeroed |
| MonoModel.FreshIsEmpty | src/vmap.h:61-76 | a new table satisfies the invariant, is sound and holds no key |
| MonoModel.FindIsGet | src/vmap.h:143-181 | on a sound table below capacity find always ends and returns the key's value, or NULL when it is absent |
| MonoModel.FindAgreesWithGet | src/vmap.h:153-179 | whether or not the probe ends, find reports an entry exactly for a present key, and then its value |
| MonoModel.InsertTerminates | src/vmap.h:105-139 | below capacity the insert probe loop ends |
| MonoModel.InsertKeepsInv | src/vmap.h:100-141 | insert keeps the invariant. It returns VMAP_OOM exactly at capacity, with no change, and otherwise grows `numel` by at most one |
| MonoModel.InsertAbsentIsPut | src/vmap.h:126-137 | inserting an absent key returns VMAP_OK, adds the key with its value, grows `numel` and the ENTRY count by one, and keeps the table sound |
| MonoModel.InsertPresentIsPut | src/vmap.h:112-125 | inserting a present key with no tombstone before it overwrites only that slot's value, `numel` unchanged |
| MonoModel.InsertDuplicates | src/vmap.h:126-131 | inserting a present key with a tombstone before it writes a second ENTRY for the key into that tombstone and leaves the old one |
| MonoModel.DeleteKeepsInv | src/vmap.h:183-242 | delete keeps the invariant, never changes `numel`, and returns VMAP_OK exactly when the probe finds the key |
| MonoModel.DeleteIsRemoval | src/vmap.h:183-242 | on a sound table delete removes the key, returns VMAP_OK exactly when it was present, and keeps the table sound |
| MonoModel.FreeLogExact | src/vmap.h:244-273 | free calls each supplied destructor exactly once on every ENTRY slot, with that slot's key or value, and on nothing else |
| Mono.Djb2Hash | src/vmap.h:78-88 | the hashing loop computes `Djb2`, the polynomial above |
| Mono.MonoMap.constructor | src/vmap.h:61-76 | 32 zeroed entries, `numel` 0, the invariant |
| Mono.MonoMap.New | src/vmap.h:61-76 | NULL exactly on allocation failure; otherwise 32 zeroed entries, `numel` 0, no key held, `key_cmp` recorded |
| Mono.MonoMap.Find | src/vmap.h:143-181 | returns `MonoSpec.Find` of the table |
| Mono.MonoMap.Insert | src/vmap.h:100-141 | the new table and status are `MonoSpec.Insert` of the old one; no destructor call |
| Mono.MonoMap.Delete | src/vmap.h:183-242 | the new table and status are `MonoSpec.Delete` of the old one, with the supplied destructors called on the found entry |
| Mono.MonoMap.Free | src/vmap.h:244-273 | the destructor calls are `MonoSpec.FreeLog` of the entries, `numel` unchanged |
| MonoScenarios.InsertAllDistinct | src/vmap.h:100-141 | inserting distinct absent keys with room returns VMAP_OK each time and binds each key. Other keys keep their lookup, and `numel` grows by the batch size |
| MonoScenarios.DeleteAllPresent | src/vmap.h:183-242 | deleting distinct present keys returns VMAP_OK each time and removes exactly them, `numel` unchanged |
| MonoScenarios.HtTestScenario | tests/ht_test.c:12-87 | for any batch of fewer than 32 distinct keys: inserts return VMAP_OK, each key is found with its value, and an absent key is not found. Then deletes return VMAP_OK and no key is found; every find ends |
| MonoScenarios.CycleCountsOne | src/vmap.h:126-137 | an insert and delete of an absent key leaves the lookup unchanged and adds one to `numel` |
| MonoScenarios.CyclesExhaustCapacity | src/vmap.h:105-107 | after 32 insert-delete cycles a new table holds no key yet answers VMAP_OOM to every insert |
| LineIter.LineEnd | util/util.c:89-91 | the scan stops at the first '\n' at or after `pos`, or at `len` |
| LineIter.NextKeepsWf | util/util.c:74-93 | a call keeps the iterator well formed and shifts `next` into `cur`. Below the end the new `next` is the line at the old `pos`, inside the input and free of '\n', and `pos` strictly increases. Past the end `next` becomes NULL with length 0 |
| LineIter.NextProgress | util/util.c:76-92 | a call either finds the iterator exhausted and changes nothing, or strictly decreases what is left to hand out |
| LineIter.ExhaustedAfter | util/util.c:74-93 | after finitely many calls the iterator is exhausted and stays well formed |
| LineIter.PastEndTwice | util/util.c:76-82 | past the end one call hands `next` to `cur` and makes `next` NULL; a second call makes `cur` NULL |
| LineIter.NewLines | util/util.c:50-60 | after `line_iter_new`, `cur` is the first line (NULL exactly for empty input) and `next` is the second line, NULL exactly when the first line ends the input |
| LineIter.NextDropsCur | util/util.c:74-93 | a call removes the current line from the lines still to come and nothing else |
| LineIter.NewPendsAllLines | util/util.c:50-60 | after `line_iter_new` the lines still to come are all lines of the input in order, and `cur` is NULL exactly when there are none |
| LineIter.NumLinesCountsLines | util/util.c:62-72 | the iterator yields as many lines as there are '\n' bytes, plus one when the input does not end in '\n' |
| LineIter.Iter.constructor | util/util.c:50-60 | the iterator is the start state advanced twice by `line_iter_next` |
| LineIter.Iter.Next | util/util.c:74-94 | the scanning loop computes `NextState` of the old fields |
| LineIter.Iter.NumLines | util/util.c:62-72 | the result is the number of '\n' bytes in `input[0..len)` |
| VmapFindings.FallThroughLosesEntry | vmap.c:103-105 | as written: an insert that meets a tombstone overwrites the live entry in the next slot and reports VMAP_OK, after which that entry's key is no longer found |
| VmapFindings.FallThroughDuplicatesKey | vmap.c:103-105 | as written: after inserting 0, 32 and 64 and erasing 0, inserting 64 again writes it over key 32 in slot 1, so 64 is held in two FULL slots and 32 is no longer found |
| VmapFindings.CorrectedKeepsEntry | vmap.c:103-105 | corrected: the same insert passes the tombstone and the live entry, writes into an EMPTY slot, and both keys are found |
| MonoFindings.StaleAfterDelete | src/vmap.h:126-131 | as written: after inserting 0 and 32, deleting 0, inserting 32 again and deleting 32, each call returns VMAP_OK, yet 32 is still found with its first value |
| MonoFindings.InsertFixedIsPut | src/vmap.h:110-139 | corrected: an insert below capacity returns VMAP_OK, maps the key to the value and leaves every other key alone, whatever tombstones lie on the path |
| MonoFindings.CorrectedRunForgets | src/vmap.h:126-131 | corrected: the same run for any two keys ends with the deleted key not found |
| MonoFindings.FullTableFindNeverEnds | src/vmap.h:105 | as written: after 32 distinct inserts into a new table, each returning VMAP_OK, the probe of find and delete for any other key never ends |
| MonoFindings.FindCorrectedIsGet | src/vmap.h:153-179 | corrected: a find that stops after one lap ends on every sound table, full or not, and returns the lookup |

## Left out

- Memory layout is not modelled: the flexible `data[]` array, `metadata_padding`, address arithmetic, `memcpy` and `memset`. A slot is a record of its metadata word, key and value. The zeroed bytes `memset` leaves are a caller-given blank slot or entry.
- `malloc` and `free` are not modelled. Allocation failure is a boolean parameter (`allocOk`, `growOk`, `shrinkOk`).
- `vmap_delete` (vmap.c:209-212) is left out: it only frees memory and calls no entry destructor.
- `read_file` (util/util.c:9-48) is left out: file and standard-input I/O.
- bench.c, test.c, tests/ht_test.c and the Python scripts are not modelled as code. The test runs are the scenario lemmas above.
- `VMAP_DBG` tracing is left out.
- The `hash` callback is an abstract function parameter.
- `key_cmp` returning 0 is modelled as equality of keys, in both tables. The model does not cover a comparison that is not an equality.
- `key_free` and `value_free` are not called. A ghost log records which calls happen, on which key or value.
- The load factor is a `double` in the source. The model uses the exact integer comparisons `10n > 7cap` and `10n < 3cap`. LoadNeverAtThreshold shows that the boundary is never hit for a power-of-two capacity. The rounding of the constant 0.7 as a double is not modelled.
- `1 << power` is evaluated in `int` in the source. The model takes `2^power` as it is, so powers of 31 and above (undefined behaviour in C) are not modelled.
- The `uint64_t` counters do not wrap on increment. `numel--` in erase wraps at zero, through `VmapSpec.Dec`.
- djb2 reads `sizeof(key_type)` bytes through `*key` reinterpreted as a byte address. That is the key's own bytes for the array key types the tests use. Here a key is its byte sequence, and the conversion for scalar key types is not modelled.
- The size_t overflow of `pos + 1` in `line_iter_next` is not modelled. The `cur` and `next` fields of util/util.h are offsets into the input rather than addresses.
- Mono.MonoMap.Find: requires that the probe ends (`FindProbe != Endless`). On a table whose every entry is an ENTRY of another key, the C loop never returns (Finding 3).
- Mono.MonoMap.Delete: requires that the probe ends, for the same reason.
- Vmap.Table.Locate: requires an EMPTY slot or the key to be present. For an absent key on a table with no EMPTY slot, the probe loop of `vmap_find` and `vmap_erase` never returns; `VmapSpec.FindSlot` gives None there. A failed growth keeps the new entry, so such a table can arise; LoadBoundedLeavesRoom shows that every table under the growth threshold has an EMPTY slot.
- Vmap.Table.Find: the same requirement as Vmap.Table.Locate, for the same reason.
- Vmap.Table.Erase: the same requirement as Vmap.Table.Locate, for the same reason.
- Vmap.Table.Resize: requires `numel <= 2^newPower`. Otherwise the inner loop of `vmap_resize` never ends. Insert and erase only resize when this holds. Validity is promised only for a new power of at least 5, the only powers insert (power + 1) and erase (power - 1 from above 5) pass.
- `sizeof(void*)` is taken as 8 (`VmapMeta.ADDRESS_SIZE`), as on 64-bit targets; the padding on 32-bit targets is not modelled.
- VmapScenarios.InsertFindEraseReinsert: the re-insert phase uses the corrected insert. After the erase phase the table is full of tombstones, and the as-written insert can overwrite a re-inserted entry (Finding 1). The first two phases use the code as written.
- The vmap.c insert's tombstone branch is the as-written fall-through in `VmapSpec.Insert` and `Vmap.Table.Insert`. The DELETED branch of find and erase continues the probe; `VmapSpec.InsertCorrected` is insert doing the same.

## Findings

| source | as written | input that shows it | evidently intended | confidence | as-written member | corrected member |
|---|---|---|---|---|---|---|
| vmap.c:103-105 | The DELETED branch advances `slot` without `continue`. The loop then falls through to the write at lines 124-129, which stores the new entry in the slot after the tombstone, whatever that slot holds. The same fall-through can also leave one key in two slots: insert 0, 32 and 64, erase 0, and insert 64 again; the new 64 overwrites 32 in slot 1 while the old 64 stays in slot 2 (VmapFindings.FallThroughDuplicatesKey). | A 32-slot table whose hash fragment is the key: insert 0, insert 32 (it lands in slot 1), erase 0, insert 64. The insert overwrites key 32 in slot 1 and returns VMAP_OK; find of 32 then returns NULL. | The tombstone branch continues the probe, as find and erase do, so the new entry reaches an equal key or an EMPTY slot | high; not executed | VmapFindings.FallThroughLosesEntry | VmapFindings.CorrectedKeepsEntry |
| src/vmap.h:126-131 | Insert writes a new entry into the first DELETED slot on its path, before looking further for an equal key. A key can end up held twice. | One-byte keys 0 and 32, both with home slot 5: insert 0→1, insert 32→2, delete 0, insert 32→3, delete 32. Every call returns VMAP_OK; find of 32 then returns 2. | Insert probes on to an equal key or a zeroed entry, and reuses a tombstone only for a new key | high; not executed | MonoFindings.StaleAfterDelete | MonoFindings.InsertFixedIsPut |
| src/vmap.h:105 | Insert only refuses at `numel == capacity`, so a table can fill every slot. The find and delete loops (lines 153-179, 194-240) then stop only at a zeroed entry. | Insert 32 distinct keys into a new table, each returning VMAP_OK, then find any other key. The probe goes round forever. | find and delete stop after one lap of the table | high; not executed | MonoFindings.FullTableFindNeverEnds | MonoFindings.FindCorrectedIsGet |
