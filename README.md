# spl::slot_map in Dafny

A model of `spl::slot_map<T>` from `include/spl/slot_map.h`: a container that
stores live values densely in one vector and hands out generational handles
(`slot_handle`: an identifier and a generation) instead of positions. The
header implements one erase policy, the order-preserving shift: erasing removes
the element from the dense vector, keeps the survivors in order, and moves
every later recorded position down by one. Freed identifiers go on a LIFO
stack and are reused by the next insertion under their bumped generation.
`slot_wrap<T>` is a key plus its owning map that looks the key up again on
every dereference.

Files:

- `slot_map_spec.dfy` (module `SlotMapSpec`): the three vectors as a value
  `State(elements, indices, erased)`, the operations `EmplaceBack`, `Erase`,
  `Get` and `Empty` as functions, and the class invariant `Valid`. `Sound`
  extends it with what holds of every handle issued since the last `clear()`.
- `slot_map_proofs.dfy` (module `SlotMapProofs`): the lemmas. The invariant is
  preserved. A fresh handle resolves to its value. Other live handles are
  undisturbed by an insert or an erase. Erase keeps the survivors in order and
  is idempotent. An erased handle never resolves again, over any later sequence
  of inserts and erases. The live identifiers own exactly the positions
  `0 .. |elements| - 1`.
- `slot_map.dfy` (module `SlotMaps`): the class `SlotMap<T>` with the three
  vectors as `seq` fields and methods that update them in place. Erase's
  decrement loop is a `while` loop over the table. Each method is proved to
  produce the state the function of the same name computes. `SlotWrap<T>` is
  the wrapper.
- `sample_test.dfy` (module `SampleTest`): clients that replay
  `samples/test/main.cpp` and the reuse of an erased identifier, using only the
  class's contracts.

The header's comment at lines 141-142 rejects moving the last element into the
gap. Like the header, the model has no swap-and-pop erase, no back-reference
table and no threaded free list; the free registry is a stack of identifiers.
Lookup and erase do not bounds-check the identifier, so erasing with an
out-of-range identifier is undefined, not a no-op.

Two consequences of the header's code are stated as lemmas:

- The freed entry's position is the sentinel `SIZE_MAX` only until the next
  erase of any element, before or after it. That erase decrements it like any
  later position, because `SIZE_MAX` exceeds every valid position
  (`FreedPositionDrifts`). The invariant therefore says nothing about a freed
  entry's position.
- `clear()` empties the table, so generations restart. The first insertion
  afterwards returns handle (0, 0) again, and a handle (0, 0) kept from before
  the clear resolves to the new value (`ClearReissuesHandles`). Handles from
  before a `clear()` are therefore outside every guarantee of the model, as
  they are in the header, where their identifiers are out of range.

## Model

| member | source | states |
|---|---|---|
| `SlotMapSpec.Empty` | include/spl/slot_map.h:126-131 | the state of a default-constructed or cleared map satisfies the invariant and has no live identifier |
| `SlotMapSpec.Valid` | include/spl/slot_map.h:207-209 | the class invariant over the three vectors: free identifiers in range and distinct, as many elements as live identifiers, live positions in range and pairwise distinct, freed positions unconstrained; it implies the free stack is no longer than the table (`Sound` adds, for every handle issued since the last clear, that it is admissible and its generation is not ahead of its identifier's) |
| `SlotMapSpec.EmplaceBack` | include/spl/slot_map.h:93-124 | the value is appended to `elements`; the table grows by at most one entry; the returned handle's identifier has an entry recording the old element count as position and the handle's generation; the identifier is live unless it is still on the free stack |
| `SlotMapSpec.ShiftEntry` | include/spl/slot_map.h:145-149 | one step of erase's loop keeps the generation, moves a position by at most one, and keeps every position other than the erased one on the same side of it |
| `SlotMapSpec.Shift` | include/spl/slot_map.h:145-149 | the loop's result has one entry per table entry, each with its generation unchanged |
| `SlotMapProofs.ShiftKeepsOrder` | include/spl/slot_map.h:145-149 | the loop keeps the order of any two positions that differ from the erased one |
| `SlotMapSpec.Erase` | include/spl/slot_map.h:133-155 | the table keeps its size; afterwards the handle's generation never matches its identifier's; one element fewer on a generation match, the same elements otherwise |
| `SlotMapSpec.Get` | include/spl/slot_map.h:168-177 | lookup succeeds exactly when the handle's generation is its identifier's current one, and then yields one of the stored elements |
| `SlotMaps.SlotMap.constructor` | include/spl/slot_map.h:76 | a default-constructed map has all three vectors empty, satisfies the invariant and has issued no handle |
| `SlotMaps.SlotMap.WithCapacity` | include/spl/slot_map.h:77-82 | the capacity constructor yields the same empty map: the reserve calls change nothing observable |
| `SlotMaps.SlotMap.AsWrap` | include/spl/slot_map.h:84-91 | the wrapper holds exactly the given key and this map as owner, and caches no position |
| `SlotMaps.SlotMap.EmplaceBack` | include/spl/slot_map.h:93-124 | appends the value to `elements`; with an empty free stack returns (old table size, 0) and appends entry (old element count, 0); otherwise pops the top identifier, records the old element count as its position and returns it with its current generation; the new handle resolves to the value, every previously live handle still resolves to its old value, and the invariant is kept |
| `SlotMaps.SlotMap.Clear` | include/spl/slot_map.h:126-131 | all three vectors become empty and no issued handle remains valid in the model |
| `SlotMaps.SlotMap.Erase` | include/spl/slot_map.h:133-155 | on a generation mismatch nothing changes; otherwise `elements` loses exactly the element at the handle's position, every other entry is shifted, the entry becomes (SIZE_MAX, generation + 1), the identifier is pushed on `erased`, the handle fails lookup, every other live handle resolves to the same value, and the invariant is kept |
| `SlotMaps.SlotMap.ShiftIndices` | include/spl/slot_map.h:145-149 | the in-place loop leaves every entry whose position is after `pos` decremented by one and every other entry, and the other vectors, unchanged |
| `SlotMaps.SlotMap.Get` | include/spl/slot_map.h:168-177 | operator[] reads the map without changing it and agrees with the specification lookup: fails exactly on a generation mismatch, else yields the element at the recorded position; for a handle issued since the last clear it succeeds exactly when the handle is live |
| `SlotMaps.SlotWrap.Deref` | include/spl/slot_map.h:212-234 | every dereference of a wrapper is a fresh lookup of its key in its owner's current state, so a wrapper made before an erase fails after it |
| `SlotMapProofs.EmptyValid` | include/spl/slot_map.h:207-209 | the empty state satisfies the invariant with no handles issued |
| `SlotMapProofs.EmplaceBackValid` | include/spl/slot_map.h:93-124 | insertion keeps the invariant: free identifiers distinct and in range, as many elements as live identifiers, live positions in range and pairwise distinct |
| `SlotMapProofs.EraseValid` | include/spl/slot_map.h:133-155 | erase of an admissible handle keeps the same invariant |
| `SlotMapProofs.EmplaceBackSound` | include/spl/slot_map.h:96-123 | after insertion, every handle issued so far plus the new one is admissible and no handle's generation runs ahead of its identifier's |
| `SlotMapProofs.EraseSound` | include/spl/slot_map.h:151-154 | erase keeps the same property of all issued handles: the bumped generation moves past every handle issued for that identifier |
| `SlotMapProofs.AdmissibleResolvable` | include/spl/slot_map.h:168-177 | under the invariant a handle the map could have issued is safe to look up and to erase |
| `SlotMapProofs.LookupIssued` | include/spl/slot_map.h:168-177 | for an issued handle, lookup succeeds exactly when the identifier is live with the handle's generation, and then yields the element at the recorded position |
| `SlotMapProofs.EmplaceBackRoundTrip` | include/spl/slot_map.h:105-122 | the returned handle is live and resolves to the inserted value, which is appended at the end of `elements` |
| `SlotMapProofs.EmplaceBackKeepsOthers` | include/spl/slot_map.h:96-123 | insertion leaves every live handle live, distinct from the new handle and resolving to the same value |
| `SlotMapProofs.EraseStaleIsNoop` | include/spl/slot_map.h:135-139 | erase with a mismatched generation leaves all three vectors unchanged |
| `SlotMapProofs.EraseIdempotent` | include/spl/slot_map.h:133-154 | erasing the same handle twice equals erasing it once |
| `SlotMapProofs.EraseRemovesElement` | include/spl/slot_map.h:141-154 | erasing a live handle at position p leaves one element fewer, elements before p unchanged and later ones moved down by one, and the same multiset of values minus the erased one; the identifier is pushed with the next generation and is no longer live |
| `SlotMapProofs.EraseInvalidates` | include/spl/slot_map.h:151-152 | after erase the erased handle fails lookup |
| `SlotMapProofs.EraseKeepsOthers` | include/spl/slot_map.h:141-149 | erasing one handle leaves every other live handle live and resolving to the same value |
| `SlotMapProofs.EraseKeepsAllOthers` | include/spl/slot_map.h:141-149 | the same for all other live handles at once |
| `SlotMapProofs.EraseKeepsOrder` | include/spl/slot_map.h:141-149 | of two other live handles, the one whose element came first still comes first after the erase |
| `SlotMapProofs.FreedPositionDrifts` | include/spl/slot_map.h:145-151 | a freed entry holds SIZE_MAX right after its erase and SIZE_MAX - 1 after the next erase of any other live element |
| `SlotMapProofs.FreedPositionDriftsExample` | include/spl/slot_map.h:145-151 | insert a, b, c, erase a, then erase c (after it): a's freed entry goes from SIZE_MAX to SIZE_MAX - 1 |
| `SlotMapProofs.ReuseGetsNewGeneration` | include/spl/slot_map.h:96-106 | an insertion right after an erase reuses the erased identifier with generation + 1; the new handle resolves to the new value and the old one fails |
| `SlotMapProofs.GenerationsNeverDecrease` | include/spl/slot_map.h:96-155 | no insertion or erase shrinks the table or lowers any identifier's generation |
| `SlotMapProofs.StaleStaysStale` | include/spl/slot_map.h:168-177 | a handle whose generation is behind its identifier's fails lookup after any sequence of inserts and erases |
| `SlotMapProofs.ErasedNeverResolves` | include/spl/slot_map.h:151-152 | once erased, a handle fails lookup after any sequence of inserts and erases, including ones that reuse its identifier |
| `SlotMapProofs.ClearReissuesHandles` | include/spl/slot_map.h:112-131 | after clear the next insertion returns handle (0, 0) again, which resolves to the new value |
| `SlotMapProofs.LiveCount` | include/spl/slot_map.h:207-209 | under the invariant there are exactly as many live identifiers as elements |
| `SlotMapProofs.DensePacking` | include/spl/slot_map.h:207-209 | the positions of the live identifiers are exactly 0 .. number of elements - 1: the element vector has no unowned slot |
| `SlotMapProofs.EveryElementOwned` | include/spl/slot_map.h:207-209 | every position of the element vector belongs to some live identifier |

## Left out

- Iteration (`begin`/`end`, reverse and const iterators) and `data()`: these expose `std::vector`'s iterators and raw pointer. The model represents iteration by the sequence `elements`.
- `slot_wrap::get_key`: it is the `key` field of `SlotWrap`.
- Variadic in-place construction in `emplace_back`: the model inserts one value of type `T`.
- The C++ exception thrown by `operator[]`: it is the `OutOfRange` result of `Lookup`.
- The const `operator[]` (lines 157-166): it binds a non-const reference to an element of the const table, so it cannot be instantiated; the model follows the non-const overload.
- References returned by the non-const `operator[]` and by `slot_wrap`'s `operator*`/`operator->`: callers can write through them. The model returns the value and does not model writes through the reference.
- Out-of-range identifiers: lookup and erase index the table without a bounds check, so `Resolvable` is a precondition rather than a modelled error. This includes handles kept from before `clear()`.
- 64-bit wrap-around of generations and `size_t` positions: both are `nat`. Only the sentinel `SIZE_MAX` is modelled, as the constant 2^64 - 1.
- `SlotMaps.SlotMap.Erase`: requires the handle to be admissible (issued since the last clear, or stale). A handle the map never issued might carry the current generation of a free identifier. Erasing it would push that identifier onto the free stack a second time, and the invariant would no longer hold.
- `SlotMapProofs.FreedPositionDrifts`: assumes at most `SIZE_MAX` elements, as a `std::vector` indexed by `size_t` has.
- `SlotMapProofs.StaleStaysStale` and `SlotMapProofs.ErasedNeverResolves`: the operation sequences contain inserts and erases but no `clear()`, which puts every identifier out of range.
- Thread safety and allocation failure: the container has neither.
