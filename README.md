# intmap in Dafny

A model of the Go package `intmap` (db47h/intmap), with proofs about it. The
package is a map from `int` keys to values, laid out as one array of slots. It
uses open addressing with linear probing, and it deletes by backward shifting.

- Key 0 marks an empty slot, so the map keeps the entry of key 0 outside the
  array, in `freeKeyValue` and `hasFreeKey`.
- The zero Map has no slots. `Set` of key 0 never touches the slots; the
  first `Set` of a nonzero key gives the zero Map 8 slots and a threshold of 7.
- Once a Map has slots and `size` has reached the threshold, `Set` of a
  nonzero key doubles the table and the threshold and reinserts every entry
  (`rehash`).
- `Delete` empties the slot and then moves later entries of the same cluster
  back into the gap (`shiftKeys`).
- An `Iterator` walks the slots in order, starting with key 0.

The modules follow the source files:

| module | file | what it holds |
|---|---|---|
| `IntMap` | intmap.dfy | `Map` and `Iterator` as classes over an `array` of slots, with the probe loops of map.go as `while` loops |
| `Slots` | slots.dfy | the slot array as a sequence, and its meaning (`Mapping`, `Count`, `NonzeroKeys`) |
| `Probe` | probe.dfy | linear probing, and `Reachable`, the invariant that makes lookups correct |
| `Backshift` | shift.dfy | `shiftKeys` as a function on sequences (`Shift`, `Erase`), with its correctness |
| `Iteration` | iteration.dfy | what an iterator still has to report, and the effect of deleting the key it returned last |
| `Word64` | word64.dfy | `hash` and `nextPowerOf2` of map_64.go on `bv64`, and their values as integers |
| `Word32` | word32.dfy | `hash` and `nextPowerOf2` of map_32.go on `bv32` |

The map is modelled for the 64-bit build: its hash is `Word64.KeyHash`, the
`hash` of map_64.go read as a Go `int`. The table modules `Probe`,
`Backshift` and `Iteration` take the hash as a parameter `h`, so their lemmas
hold for any hash.

`Map.Valid()` is the invariant that every operation keeps:

- the slot array is empty (threshold 0), or its length is a power of two, at
  most 2^62, with `1 <= threshold < len`;
- `0 <= size <= threshold`, and `size` counts the occupied slots;
- no key is held by two slots;
- every entry is reachable from its home slot: no empty slot lies between them.

`Map.Contents()` is what a Map means: the entries of the slots, plus key 0
when `hasFreeKey` is set. Every operation states its effect on `Contents()`.

Some behaviours of the source that the contracts show:

- Changing the value of a key already present, while `size` is below the
  threshold, stores into that key's own slot and leaves every other slot as it
  was (`IntMap.Map.Set`), so an iterator still has the same keys to report
  (`Iteration.OverwriteKeepsPending`).
- `Set` of a nonzero key grows the table whenever `size` has reached the
  threshold, even when the key is already present (`IntMap.Map.Set` states
  the new slot count). What such a rebuild does to a running iterator is not
  modelled.
- After `Delete` of the key an iterator returned last, no pending key is lost.
  When the shift moves an entry from the start of the table round into the
  cursor's slot or a later one, though, a key already reported can be
  reported again, although the documentation at map.go:326-327 says this
  delete is supported. `Iteration.DeleteReturnedRepeatsOnWrap` shows this on
  a four-slot table for any hash that gives two keys the same last home slot,
  and `IntMap.DeleteReturnedRepeatsUnderHash` for keys 3 and 8 under the
  map's own hash.

## Model

| member | source | states |
|---|---|---|
| IntMap.HomeSlot | map.go:173 | `hash(key) & mod` on a table of n slots is the home slot `KeyHash(key) % n` that the probe lemmas use |
| IntMap.NextSlot | map.go:89-91 | `nextIdx(idx) & mod` is the next slot with wrap-around, `(idx + 1) % n` |
| IntMap.RoundUpCapacity | map.go:130-133 | a positive capacity becomes the least power of two not below it (at most 2^62); a non-positive one becomes 0 |
| IntMap.New | map.go:98-102 | a fresh, valid, empty Map of size 0 without key 0, whose slot count is a power of two, at least 2, at least the capacity and less than twice it (or 2), equal to the capacity when that is already a power of two; its threshold is the raw threshold of the slot count clamped to `[1, len - 1]` |
| IntMap.Map.constructor | map.go:73-87 | the zero Map is valid and empty, with a fresh slot array of no slots, size 0 and threshold 0, so `Set` and `Delete` can be called on it |
| IntMap.Map.Init | map.go:129-149 | resets the map to empty; the slot count is the capacity rounded up to a power of two, at least 2; the threshold is the raw fill-ratio threshold clamped to [1, len - 1] |
| IntMap.Map.Allocate | map.go:143-148 | a fresh table of n empty slots with size 0 and the given threshold, which is valid and maps nothing; the entry of key 0 is untouched |
| IntMap.Map.Set | map.go:153-185 | afterwards the map maps key to value and every other key as before; key 0 changes neither the slots nor the size; a new nonzero key adds 1 to the size and an overwrite adds 0; on reaching the threshold the table grows (8 slots and threshold 7 from the zero Map, else twice the slots and threshold), overwrite or not; the invariant is kept; below the threshold, overwriting a present key stores into that key's slot and leaves every other slot unchanged |
| IntMap.Map.Grow | map.go:160-170 | the zero Map gets 8 slots and threshold 7; any other Map doubles its slots and its threshold; the entries and the size are kept, and the size is then below the threshold |
| IntMap.Map.Insert | map.go:172-184 | with room in the table, the slots then map key to value and keep every other entry; the size grows by 1 exactly when the key was new; a present key is overwritten in its own slot and no other slot changes; the invariant is kept |
| IntMap.Map.FindSlot | map.go:174-184 | the probe stops at a slot that is empty or holds key, after passing only slots with other keys; it stops because the table is never full |
| IntMap.Map.Rehash | map.go:187-201 | a fresh table of twice the slots and twice the threshold holds exactly the old entries and the same size; the nested `Set` calls never grow the table again |
| IntMap.Map.Get | map.go:206-232 | ok is true exactly when the map holds key, and v is then its value; otherwise v is the zero value; this covers key 0 and the zero Map |
| IntMap.Map.Delete | map.go:236-263 | present tells whether key was in the map; afterwards the map is the old map without key; key 0 clears only the free-key fields; a nonzero key decrements the size when present and changes nothing when absent; the slots become `Erase` of the key's slot |
| IntMap.Map.Lookup | map.go:243-262 | the probe returns the slot of key when the map holds it, and -1 exactly when it does not, whether it met an empty slot or came back to the home slot |
| IntMap.Map.RemoveAt | map.go:254-256 | removing the key of an occupied slot: the slots become `Erase` of that slot, the size drops by 1, the slots map every other key as before, and the invariant is kept |
| IntMap.Map.ShiftKeys | map.go:265-289 | the in-place loop leaves the slots equal to `Erase(KeyHash, old slots, p)`, the backward-shift deletion of slot p |
| IntMap.Map.ScanForMove | map.go:271-286 | the inner loop stops at the first slot that is empty or whose entry may move into the gap; the slots it skips are steps in which `Shift` changes nothing |
| IntMap.Map.CloseGap | map.go:273-275 | reaching an empty slot, storing an empty entry into the gap makes the slots equal to the shifted table |
| IntMap.Map.MoveBack | map.go:287 | copying the entry into the gap is one step of `Shift`; the entry's old slot becomes the gap and less fuel is left |
| IntMap.Map.Size | map.go:293-298 | the number of keys in the map, key 0 included |
| IntMap.Map.KeyListSpec | map.go:300-317 | the key list has one element per key of the map, holds exactly the map's keys, and repeats none |
| IntMap.Map.Keys | map.go:302-317 | a fresh array holding key 0 first when present, then the keys of the slots in slot order |
| IntMap.Map.FillKeys | map.go:309-315 | from index start on, the array gets the keys of the occupied slots in slot order, and the entries before start are kept |
| IntMap.Map.NextOccupied | map.go:360-365 | the first occupied slot from `from` on, or the slot count when there is none; every slot skipped is empty |
| IntMap.Map.Iterator | map.go:330-333 | a fresh, valid iterator at i = -1 with lastKey = -1 (`freeKey ^ -1`), whose pending keys are the map's key list |
| IntMap.Iterator.constructor | map.go:332 | the new iterator stands before slot 0, has key 0 still to report if the map holds it, and has every key of the slots pending |
| IntMap.Iterator.CurrentInMap | map.go:373-383 | the key under the cursor, the one `Next` returns, is in the map, and the map's value for it is the value `Next` returns |
| IntMap.Iterator.HasNext | map.go:345-368 | returns whether keys are left to report, keeping the pending keys; on true the cursor is on the next key to report; on false it is past the last slot; when the cursor is already on a key it does not move |
| IntMap.Iterator.Advance | map.go:360-367 | the cursor moves to the next occupied slot, which holds the first pending key, or past the last slot when nothing is pending |
| IntMap.Iterator.Next | map.go:373-383 | returns the key and value under the cursor and records the key as the last returned; the cursor stays; when the cursor was on a pending key, that key comes off the front of the pending keys |
| Slots.FirstEmpty | map.go:174-184 | a table that is not full has a least empty slot, and every slot before it is occupied |
| Slots.NoEntries | map.go:144 | a table of empty slots has count 0, maps nothing and lists no keys |
| Slots.PrefixStep | map.go:196-200 | adding the next slot to a prefix adds its entry to the prefix's count and mapping; with distinct keys its key is new to the prefix |
| Slots.CountStore | map.go:176-181 | a store into one slot changes the count by the change in that slot's occupancy |
| Slots.MappingDomain | map.go:81-87 | a key is mapped exactly when it is nonzero and some slot holds it |
| Slots.SlotOf | map.go:253-254 | a mapped key has a slot that holds it |
| Slots.MappingValue | map.go:224-225 | with distinct keys, the value in a key's slot is the value the map holds for it |
| Slots.MappingStoreNew | map.go:176-180 | storing a new key into an empty slot adds exactly that key with its value |
| Slots.MappingStoreSame | map.go:179-180 | storing over the slot of the same key replaces that key's value only |
| Slots.MappingClear | map.go:274 | clearing the slot of a key removes that key and nothing else |
| Slots.MappingSize | map.go:293-298 | with distinct keys, the map has as many keys as the table has occupied slots |
| Slots.NonzeroKeysCount | map.go:303-315 | the keys in slot order number as many as the occupied slots |
| Slots.NonzeroKeysSpec | map.go:309-315 | the keys in slot order are exactly the mapped keys, without repetition |
| Probe.Next | map.go:89-91 | the slot after i is `(i + 1) % n` |
| Probe.ProbeStep | map.go:227 | stepping past a slot that holds another key extends the probed path by one |
| Probe.ProbeMiss | map.go:222-223 | meeting an empty slot on the probe path from key's home slot proves that the map does not hold key |
| Probe.ProbeWrapped | map.go:228-230 | probing all the way round without meeting key proves that the map does not hold key |
| Probe.ProbeBound | map.go:174-184 | a probe that has passed only occupied slots has not passed a given empty slot, which bounds the loop |
| Probe.EmptyReachable | map.go:144 | a table of empty slots satisfies the lookup invariant |
| Probe.InsertReachable | map.go:176-181 | storing a new key into the first empty slot of its probe path keeps every entry reachable |
| Probe.OverwriteReachable | map.go:179-181 | replacing the value of an entry keeps every entry reachable |
| Probe.StoreEntry | map.go:172-184 | the store that ends `Set`'s probe maps the key to the value and keeps the other entries; it adds one entry exactly when the slot was empty, and it keeps keys distinct and entries reachable |
| Backshift.CanMove | map.go:278-284 | the break condition of the inner loop of `shiftKeys`, as written; `Backshift.CanMoveIsGapOnPath` states what it means |
| Backshift.Shift | map.go:268-288 | `shiftKeys` from a gap as a function on the slots, one slot per step with a fuel bound; `Backshift.ShiftStep`, `Backshift.ShiftPreserves` and `Backshift.ShiftReachable` state its properties |
| Backshift.Erase | map.go:265-289 | deleting the entry of slot p: clear it and shift from the next slot; `Backshift.EraseSpec` states its effect, and `IntMap.Map.ShiftKeys` is proved equal to it |
| Backshift.CanMoveIsGapOnPath | map.go:278-284 | the source's three-way comparison lets an entry move exactly when the gap lies on its probe path before its slot |
| Backshift.ShiftStep | map.go:277-287 | one step of the shift at an occupied slot either moves its entry into the gap (the slot becomes the gap) or passes it by, using one unit of fuel |
| Backshift.EraseFuel | map.go:268-276 | after the deleted slot there is an empty slot, and the shift reaches it before coming back round to the gap |
| Backshift.MovePreserves | map.go:287 | moving an entry into the gap keeps the mapping, the count and distinct keys |
| Backshift.ShiftPreserves | map.go:268-288 | shifting keeps every entry with its value, the count and distinct keys |
| Backshift.ReachableStart | map.go:254 | emptying the slot of the deleted key breaks reachability only at the gap |
| Backshift.ReachableAtEnd | map.go:273-275 | when the shift reaches an empty slot, every entry is reachable |
| Backshift.ReachableAfterSkip | map.go:278-285 | an entry that may not move does not have the gap on its path, so the scan goes on |
| Backshift.ReachableAfterMove | map.go:287 | an entry moved into the gap is reachable there, and its old slot becomes the only break |
| Backshift.ShiftReachable | map.go:268-288 | the shift ends with every entry reachable from its home slot |
| Backshift.EraseSpec | map.go:265-289 | deleting slot p removes exactly its key; every other key keeps its value, the count drops by one, and keys stay distinct and reachable |
| Iteration.AdvanceKeepsPending | map.go:350-367 | from a cursor that is not on a pending key, moving to the first occupied slot after it keeps the pending keys, and that slot does not hold the key returned last |
| Iteration.ScanKeepsPending | map.go:360-367 | the keys from the scan's start onwards are what is pending at the occupied slot it stops at, or nothing when it runs off the end |
| Iteration.ReturnCurrent | map.go:381-382 | returning the key under the cursor takes it off the front of the pending keys, and no later slot holds it |
| Iteration.NonzeroKeysMember | map.go:309-315 | a key is listed exactly when it is nonzero and held by some slot |
| Iteration.SkipEmpty | map.go:360-365 | skipping empty slots does not change the keys ahead |
| Iteration.KeysAhead | map.go:361-363 | the keys from slot e on are slot e's key, if it holds one, followed by the later keys |
| Iteration.PendingFrom | map.go:355-365 | the keys an iterator at slot i with last key lastKey still reports: the key of slot i unless empty or already returned, then the keys of the later slots; `Iteration.PendingMember`, `Iteration.ScanKeepsPending` and `Iteration.ReturnCurrent` state its properties |
| Iteration.PendingMember | map.go:355-358 | a key is pending exactly when it is in the cursor's slot and not the last returned, or in a later slot |
| Iteration.ShiftKeepsLater | map.go:268-288 | a shift from the cursor's slot keeps every key of the slots from the cursor on in those slots |
| Iteration.ShiftStaysLater | map.go:268-288 | a shift that meets an empty slot before the end of the table leaves the earlier slots alone and brings no key into the later ones |
| Iteration.ShiftFuel | map.go:265-289 | the result of the shift does not depend on the fuel bound |
| Iteration.EraseKeepsLater | map.go:265-289 | deleting slot i keeps the keys of the later slots in the slots from i on |
| Iteration.EraseDropsKey | map.go:254 | the deleted key is held by no slot afterwards |
| Iteration.DeleteReturnedKeepsPending | map.go:326-328 | deleting the key the iterator returned last loses no pending key |
| Iteration.EraseNoWrap | map.go:265-289 | without wrap-around, deletion leaves the slots before i unchanged and adds no key to the slots from i on |
| Iteration.DeleteReturnedNoRepeat | map.go:326-328 | without wrap-around, deleting the key returned last makes no key pending that was not pending before, so no key is reported twice |
| Iteration.DeleteReturnedRepeatsOnWrap | map.go:326-328 | for any hash under which distinct nonzero keys a and b both have home slot 3 of 4, the valid table with a in slot 0 and b in slot 3 makes a pending again once b, returned last, is deleted |
| Iteration.OverwriteKeepsPending | map.go:326-327 | changing the value held in a slot leaves the keys of the table and the keys an iterator still has to report unchanged, at every cursor and last key |
| IntMap.ThreeAndEightCollide | map_64.go:5-12 | under the map's hash, keys 3 and 8 both have home slot 3 in a four-slot table |
| IntMap.DeleteReturnedRepeatsUnderHash | map.go:326-328 | with the map's own hash, deleting key 3 after the iterator returned it from slot 3 makes key 8, already reported from slot 0, pending again |
| Word64.Sar | map_64.go:11 | Go's signed `>>` keeps the sign bit, and is the logical shift on non-negative words |
| Word64.Fold | map_64.go:11 | `v ^ (v >> 32)` always has a clear sign bit |
| Word64.Hash | map_64.go:5-12 | `hash` always yields a non-negative int |
| Word64.KeyHash | map_64.go:5-12 | the hash of any key, read as a Go int, is in [0, MaxInt] |
| Word64.HomeIsMask | map.go:173 | `hash(key) & (len - 1)` is `KeyHash(key) % len` for a power-of-two len |
| Word64.PowerMask | map.go:173 | masking a non-negative word with `n - 1` gives its remainder modulo a power of two n |
| Word64.MaskIsRemainder | map.go:173 | the unsigned value of `x & mask`, for `mask = n - 1` with n a power of two, is `x mod n` |
| Word64.MaskIsMod | map.go:183 | `v & (n - 1)` on a non-negative int is `v % n` |
| Word64.NextPowerOf2 | map_64.go:14-23 | `nextPowerOf2` on the word, with Go's arithmetic shifts; `Word64.NextPowerOf2IsSmear`, `Word64.NextPowerOf2RoundsUp`, `Word64.NextPowerOf2KeepsPow2`, `Word64.NextPowerOf2WordNonPositive` and `Word64.NextPowerOf2WordOverflow` state its values |
| Word64.NextPowerOf2IsSmear | map_64.go:15-22 | when `v - 1` is non-negative, the arithmetic shifts act as logical ones, so the result is the smear of `v - 1` plus one |
| Word64.SmearValue | map_64.go:16-21 | smearing y gives `2^k - 1` for the least k with `y < 2^k` |
| Word64.NextPowerOf2WordNonPositive | map_64.go:14-23 | zero and every negative word except the most negative give 0 |
| Word64.NextPowerOf2WordOverflow | map_64.go:14-23 | words above 2^62, and the most negative word, give the most negative word |
| Word64.NextPowerOf2RoundsUp | map_64.go:14-23 | for 1 <= v <= 2^62 the result is a power of two p with `v <= p < 2v`, the least such |
| Word64.NextPowerOf2KeepsPow2 | map_64.go:14-23 | powers of two up to 2^62 are left unchanged |
| Word64.NextPowerOf2NonPositive | map_64.go:14-23 | MinInt < v <= 0 gives 0, which `Init` raises to 2 |
| Word64.NextPowerOf2Negative | map_64.go:14-23 | v > 2^62 and v = MinInt give a negative result, on which `Init` panics |
| Word64.Pow2Limit | map.go:109-110 | 2^62, the documented capacity limit, is a power of two |
| Word32.Sar | map_32.go:20-24 | Go's signed `>>` on a 32-bit word keeps the sign bit, and is the logical shift on non-negative words |
| Word32.SignFill | map_32.go:15 | Go's `v >> 32` on a 32-bit int keeps the sign: all bits are copies of the sign bit |
| Word32.FoldAsWritten | map_32.go:15 | the last step of the 32-bit `hash` as written, `v ^ (v >> 32)`; `Word32.FoldAsWrittenIsSignFold` states what it computes |
| Word32.HashAsWritten | map_32.go:9-16 | the 32-bit `hash` as written; `Word32.HashAsWrittenMultipleOf8` and `Word32.HashAsWrittenCollides` state the collisions it causes |
| Word32.FoldAsWrittenIsSignFold | map_32.go:15 | as written, `v ^ (v >> 32)` is the product when it is non-negative and its complement otherwise, and it is non-negative |
| Word32.HashAsWrittenMultipleOf8 | map_32.go:9-16 | as written, every key that is a multiple of 8 hashes to slot 0 or slot 7 of an 8-slot table |
| Word32.HashAsWrittenCollides | map_32.go:9-16 | as written, keys 8 and 16 share slot 7 of an 8-slot table |
| Word32.Fold | map_32.go:15 | the corrected fold `v ^ (v >> 16)` always has a clear sign bit |
| Word32.Hash | map_32.go:9-16 | the corrected hash always yields a non-negative int |
| Word32.FoldMixesHalves | map_32.go:15 | the low half of the corrected fold is the xor of the product's two halves |
| Word32.HashSeparates | map_32.go:9-16 | with the corrected fold, keys 8 and 16 land in different slots (3 and 7) of an 8-slot table |
| Word32.NextPowerOf2 | map_32.go:18-26 | `nextPowerOf2` on the 32-bit word; `Word32.NextPowerOf2RoundsUp`, `Word32.NextPowerOf2KeepsPow2`, `Word32.NextPowerOf2NonPositive` and `Word32.NextPowerOf2Negative` state its values |
| Word32.NextPowerOf2RoundsUp | map_32.go:18-26 | for 1 <= v <= 2^30 the result is a power of two p with `v <= p` and `p / 2 < v`, the least such |
| Word32.NextPowerOf2KeepsPow2 | map_32.go:18-26 | powers of two up to 2^30 are left unchanged |
| Word32.NextPowerOf2NonPositive | map_32.go:18-26 | zero and every negative word except the most negative give 0 |
| Word32.NextPowerOf2Negative | map_32.go:18-26 | v > 2^30 and v = MinInt32 give a negative result, on which `Init` panics |

## Left out

- The `float32` fill ratio (map.go:137). `Init` and `New` take the raw threshold `int(float32(c) * fillratio)` as a function `rawThreshold` of the slot count. Only the clamp of map.go:138-142 is modelled.
- IntMap.Map.Grow: the threshold 7 of the lazily allocated table is `int(0.875 * float32(8))` worked out by hand (map.go:165). The float arithmetic is not modelled.
- `Value interface{}` and `nil` (map.go:53, map.go:239). The value type is a type parameter `V`, and the zero value is the Map's `zero`.
- Panics become preconditions:
  - `Init` with a capacity above 2^62 or equal to MinInt (map.go:131-133);
  - `rehash` past the int range (map.go:189-191);
  - `Next` on a fresh iterator of a map without key 0 (map.go:374-377);
  - `HasNext` or `Next` once `HasNext` has returned false, which index `es[len]` (map.go:356, map.go:381).
- The 32-bit build of the table. The map is modelled with the 64-bit hash. Module `Word32` covers the 32-bit `hash` and `nextPowerOf2` on their own.
- The choice between the two builds by build tags (map_64.go:1, map_32.go:5).
- Concurrent use, allocation, and the collection of the old slice after `rehash`.
- The benchmarks and performance claims (map.go:12-36), and map_test.go, which targets a different API.
- Helper methods that are not in the source: `FindSlot`, `Lookup`, `Grow`, `Insert`, `RemoveAt`, `ScanForMove`, `CloseGap`, `MoveBack`, `FillKeys`, `NextOccupied` and `Iterator.Advance`. Each holds one loop or one branch of a source function, and the source function calls it at that point.
- IntMap.Map.Set: when `size` has reached the threshold, an overwrite of a present key rebuilds the table in a new slot order (map.go:159-169); the contract states the new slot count but nothing about a running iterator, whose cursor still indexes the old order.
- Iteration.DeleteReturnedNoRepeat: "no key is reported twice" is proved only when an empty slot follows the deleted one before the end of the table. When the shift wraps round and moves an entry from the start of the table, the source can report a key twice; Iteration.DeleteReturnedRepeatsOnWrap shows it.
- IntMap.Iterator.Next: its own ensures does not tie the returned pair to the map's contents. The lemma IntMap.Iterator.CurrentInMap states that link.
- IntMap.Iterator.HasNext: the iterator's invariant asks only that no key is held by two slots, not the whole `Map.Valid`. The iterator contracts therefore say nothing about the table's size or reachability.

## Findings

| source | as written | input that shows it | evidently intended | confidence | as-written member | corrected member |
|---|---|---|---|---|---|---|
| map_32.go:15 | `return v ^ (v >> 32)` on a 32-bit `int`. Go's `>>` by the full width yields only sign bits, so the high half of the product never reaches the low bits. The slot then depends only on the key's low bits. | keys 8 and 16 in an 8-slot table: both hash to slot 7, and every multiple of 8 lands in slot 0 or 7 | fold by half the word, `v ^ (v >> 16)`, as map_64.go folds by 32 on a 64-bit word | medium; not executed | Word32.HashAsWrittenCollides | Word32.HashSeparates |
