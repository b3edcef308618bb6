# Virtual address storage, modelled and proved

This project models the storage stack of the library, from its interval map up to its
object store, and proves what each layer means to the layer above it.

| layer | file | plain meaning proved for it |
|---|---|---|
| `IntervalMap` | IntervalSpec, IntervalSteps, IntervalMap | a partial function from 64-bit points to values, in canonical form |
| `SetOrderedBySize` | FreeList | a multiset of blocks with best-fit, space-conserving `splice` |
| `VirtAddressMapping` | Tiling, MappingSpec, Allocation, Erasure, VirtAddressMapping | an injective translation of addresses to file offsets; mapped runs and free blocks tile the file |
| serializer | Codec, CodecSound, CodecOrder, Buffers, VamCodec | encode and decode are inverse, up to an exact condition |
| `RandomAddressRange` | Addresses, Cells | every address opens a cell of its own |
| `SimpleStorage` | StorageSpec, Persistence, Slots, Elsewhere, SimpleStorage | a map from handed-out addresses to bytes, across closing and reopening |
| `sze::serialize` | Sze | a value is where its address says, and no other slot moves |
| `SimpleObjectStorage` | ObjectBlocks, Packing, ObjectSpec, ObjectFill, ObjectEffects, ObjectRuns, ObjectReload, ObjectPersistence, ObjectStore | a map from indices to objects |

## How it is built

The classes of the source (`IntervalMap`, `SetOrderedBySize`, `VirtAddressMapping`,
`RandomAddressRange`, `SimpleStorage`, `SimpleObjectStorage`) are Dafny classes that edit
their fields with the branches of the source. Each method's contract equates the new state
with a function of the old one: a closed form (`Cut`, `Coalesce`, `Assign` on interval
maps) or the operation on values (`AllocOf`, `LookupOf`, `DelOf`, `WriteOf`, `CloseOf`,
`PutOf`, ...). Where the source takes an argument or a state that the closed form does not
cover (overlapping intervals in a damaged file, ranges that wrap around or are empty), the
contract gives what the branches come to there as well (`DelSteps`, `LookupAny`,
`SerializeAny`, ...), and a lemma that it is the closed form everywhere else. The lemmas then say what these functions mean, in terms that do not mention
them: points, translations, bytes seen at an address, objects at an index. What an operation
leaves behind besides its result is stated too: the free list after it (which block is taken,
what of it comes back, how many bytes are free), the cache and the marks, every byte of
memory after a value is serialized, and what is read at every other index.

The two results everything else serves:

* `Slots.RunRefines`: over any run of getting an address, writing, reading, erasing, and
  closing and reopening, the storage replies as a plain map from addresses to bytes.
  `Slots.NewFileRefines` starts such runs on any new file.
* `ObjectRuns.RunRefines`: over any run of put, get, getRef, clear and for_each_empty, mixed
  with any steps of the storage at its other addresses, closing and reopening included, the
  object store replies as a plain map from indices to objects, and the other addresses as a
  plain memory. A put or a filling that finds no block throws and empties one index, and the
  run goes on; `ObjectRuns.StepRefines` says exactly when. `ObjectRuns.NewReady` starts such
  runs on any store, `ObjectRuns.StepExists` says that no enabled step is stuck, and
  `ObjectPersistence.RunsGoOn` that they go on after a store was saved in its own storage,
  the file closed and opened, and the store read back.

Where a property holds only under a condition, the condition is proved exact and a
concrete failing input is given:

* An accepted write is seen, with nothing else changed, if and only if it ends before what is
  mapped after it does: the end of an interval that was mapped, or the first `size` addresses
  of one that was not, from the interval's start. The check in `write` compares the bytes with
  the interval as it was before the first touch, so a write may be accepted that is longer, or
  starts in the middle of an untouched interval, and overwrite another address
  (`StorageSpec.WriteMeaning`, `StorageSpec.OverlongExample`, `StorageSpec.MiddleWriteExample`).
* `alloc` and `alloc_unmapped` keep the file divided among its owners if and only if they meet
  no mapped interval (`Allocation.AllocTilesIff`, `Allocation.AllocUnmappedTilesIff`,
  `Allocation.AllocExample`).
* `lookup` returns the place of the whole range if and only if the interval was mapped or
  the range starts at the interval's start (`MappingSpec.LookupTranslatesIff`,
  `MappingSpec.MiddleTouchExample`).
* `del` keeps the file divided among its owners if and only if its first address is not
  covered or it cuts no mapped interval (`Erasure.DelTilesIff`, `Erasure.DelPartExample`).
* A value comes back as it was if and only if its strings have no NUL and its bit vectors
  are whole words (`Codec.RoundTripExactIff`, `Codec.LossyExamples`), where components are
  decoded in the order in which they were encoded; over all values they are if and only if the
  compiler evaluates arguments left to right and `REVERSE_TUPLE_CREATE` is 0
  (`CodecOrder.PlatformRoundTripsIff`, `CodecOrder.SwappedTuple`, `CodecOrder.SwappedPair`).
* A closed file opens with its mapping if and only if arguments are evaluated left to right,
  whatever the macro, and its static section is as large as asked for
  (`Persistence.ReopensIff`); evaluated right to left, every closed file
  is a failing input, because the length of the file is then read from the number of intervals
  (`VamCodec.VamOutOfOrder`).
* Addresses of one run of calls are apart, for sizes below 2^36, if and only if the calls are
  not a multiple of 2^28 apart; those of adjacent calls if and only if the first size is below
  2^36 (`Addresses.FreshAddressesSeparateIff`, `Addresses.NextCellSeparateIff`,
  `Addresses.AddressExamples`).
* `put` succeeds if and only if the old block is strictly larger, or an unused block or the
  tail is large enough; otherwise it throws after marking the index and dropping its object
  and address, and leaves every other index as it was (`ObjectSpec.PutSucceedsIff`,
  `ObjectSpec.PutThrows`, `ObjectSpec.PutExample`).
* `for_each_empty` succeeds if and only if the sizes of the unused blocks and of the tail have
  room for the sizes that are missing, each in turn taking a best fit; the predicate `Packs` of
  these numbers decides it, and a tail as long as all of them together is always enough
  (`ObjectFill.FillSucceedsIff`, `Packing.TailIsEnough`, `ObjectFill.FillExample`).

## Reading of the source

* `find_it` decrements an iterator that may be `begin()` (include/storage/IntervalMap.hpp:70-75).
  The comment at line 121 gives the intent, which is modelled: the interval with the greatest
  start that is at most the key, or none.
* The order of evaluation of the arguments at include/storage/SerializeImpl.hpp:198 and
  include/storage/SerializeSpecialization.hpp:158 is a parameter of the decoder, and so is
  `REVERSE_TUPLE_CREATE` (lines 133-139). Pairs and lists of fields depend on the order of
  evaluation only; a list of fields is modelled as nested pairs, which have the same bytes and
  the same order. Tuples depend on both. Left to right with the macro at 0 decodes everything
  in order; with the macro at 1 no order does. `VirtAddressMapping`, `SimpleStorage` and the
  object store decode no tuples of their own: their methods take any order, and runs that
  reopen the file take left to right.
* Integers are 64-bit and wrap; `Inc`, `Dec` and `Add64` say where. Interval operations take
  any keys and any map, with their state after it; what they mean is stated for disjoint maps
  and start not beyond end.
* An `ASSERT_ON` that fails is the result `Thrown` (or `None`). Access past the mapped file
  or past a buffer, which the source does not check, is given the same result, and so is a
  stored bit-vector length that is not a multiple of 64.
* `__builtin_clz` takes 32 bits, so the branch at include/storage/StorageUtils.hpp:215-217 is
  never taken. For a size whose low 32 bits are zero its result is undefined; 32 is assumed.
* A write longer than a whole address throws, but the address has been mapped by then
  (`Slots.OversizeWrite`). A write longer than the front of an address may not throw, see above.
* The metadata of a new storage, which the source leaves uninitialised, starts at zero, and
  so do the four padding bytes of the stored header.
* A `StorageAddress` is copied as it is: sixteen bytes, whatever the order of evaluation.
* Client results are about whole addresses as handed out, sizes from 1 to below 2^36, fewer
  than 2^28 addresses, and a file with space for what is stored (`Fits`, `FitsAt`,
  `CloseFits`, `MaxAfter`, `RoomForTail`); these guards are executable predicates of the state.
* `clear` of an index that a refused put left marked follows an iterator past the end
  (include/storage/SimpleObjectStorage.hpp:171-173): it is asked not to be called there. A put
  at such an index is an ordinary one and heals it; a read there throws.
* A store that was read back has no tail, as the source default-constructs it: puts there
  use the unused blocks only.
* Index 2^64-1 of an object store is refused by an assertion
  (include/storage/SimpleObjectStorage.hpp:73), and a loop up to it would never end: puts and
  loops ask for smaller indices. Reads and clears take any index.
* The objects of an object store have one type and an encoding that is not empty. An object
  with a bit vector that is not whole words comes back padded once it has left the cache, and a
  NUL leaves open what comes back; both may be put. `f` in `for_each_empty` is a function of the
  index. References from `getRef` are not written to.

## Model

| member | source | states |
|---|---|---|
| `IntervalSpec.CutAt` | include/storage/IntervalMap.hpp:155-209 | deleting a range leaves no value in exactly that range and every other point as it was, over any number of intervals |
| `IntervalSpec.CutCut` | include/storage/IntervalMap.hpp:196-206 | deleting a range in two consecutive parts is deleting it at once, which is what the recursion relies on |
| `IntervalSpec.CutCanonical` | include/storage/IntervalMap.hpp:282-284 | deletion leaves no touching neighbours with equal values if there were none |
| `IntervalSpec.CutGrowth` | include/storage/IntervalMap.hpp:175-181 | a deletion adds at most one entry |
| `IntervalSpec.CoalesceAt` | include/storage/IntervalMap.hpp:101-153 | inserting into a free range gives exactly that range the value, whichever neighbours it joins |
| `IntervalSpec.CoalesceCanonical` | include/storage/IntervalMap.hpp:112-146 | insertion leaves no touching neighbours with equal values |
| `IntervalSpec.AssignAt` | include/storage/IntervalMap.hpp:308-313 | after `set` every point of the range has the value and every other point is unchanged |
| `IntervalSpec.AssignCanonical` | include/storage/IntervalMap.hpp:308-320 | `set` and `insert` keep a canonical map canonical |
| `IntervalSpec.AssignGrowth` | include/storage/IntervalMap.hpp:308-320 | one `set` or `insert` adds at most two entries |
| `IntervalSpec.EntriesAreRuns` | include/storage/IntervalMap.hpp:101-153 | the entries of a canonical map are exactly the maximal runs of equal value |
| `IntervalSpec.CanonicalUnique` | include/storage/IntervalMap.hpp:101-209 | two canonical maps that agree at every point are the same map |
| `IntervalSpec.VisitedExact` | include/storage/IntervalMap.hpp:286-297 | from a covered start, every interval meeting the range is visited once and in order; from an uncovered start none is |
| `IntervalSpec.CallsExact` | include/storage/IntervalMap.hpp:286-297 | the calls lie in the range, in order and without overlap; each holds exactly the points of its interval that are in the range, and from a covered start a point of the range has a value iff a call holds it, with that value |
| `IntervalSpec.SplitAfterAt` | include/storage/IntervalMap.hpp:366-379 | cutting an interval changes the value of its right part and of no other point |
| `IntervalSteps.InsertIsCoalesce` | include/storage/IntervalMap.hpp:101-153 | on a disjoint map with the range free, the branches give the one closed form, for keys 0 and 2^64-1 too |
| `IntervalSteps.DelIsCut` | include/storage/IntervalMap.hpp:156-209 | on a disjoint map, from any point of the recursion, no assertion fails and exactly the rest of the range is emptied |
| `IntervalSteps.HasTestIsMeets` | include/storage/IntervalMap.hpp:381-392 | on a disjoint map the one candidate interval decides whether any interval meets the range |
| `IntervalSteps.PutIsAssign` | include/storage/IntervalMap.hpp:315-320 | deleting only when the range is not free gives the same map as `set` |
| `IntervalSteps.SplitIsSplitAfter` | include/storage/IntervalMap.hpp:366-379 | on a disjoint map a cut inside the interval always succeeds |
| `IntervalMaps.IntervalMap.InsertImpl` | include/storage/IntervalMap.hpp:101-153 | on any map, the map after the left, right, both and no-merge branches, the failing emplace included; on a disjoint one with the range free, the closed form |
| `IntervalMaps.IntervalMap.Emplace` | include/storage/IntervalMap.hpp:61-66 | adds the entry, or throws and changes nothing when the key is taken |
| `IntervalMaps.IntervalMap.DelImpl` | include/storage/IntervalMap.hpp:156-209 | terminates on any map, with the map its steps leave and a throw where an assertion fails; on a disjoint one none fails and exactly the range is emptied |
| `IntervalMaps.IntervalMap.UpdateStart` | include/storage/IntervalMap.hpp:221-230 | re-keys an entry, or loses it and says so if the key is taken |
| `IntervalMaps.IntervalMap.Del` | include/storage/IntervalMap.hpp:282-284 | the deletion steps on any map; on a disjoint one the range is emptied |
| `IntervalMaps.IntervalMap.Set` | include/storage/IntervalMap.hpp:308-313 | deletion and insertion on any map, stopping where one throws; on a disjoint one the assignment whose pointwise meaning is `AssignAt` |
| `IntervalMaps.IntervalMap.Insert` | include/storage/IntervalMap.hpp:315-320 | the conditional deletion and the insertion on any map; on a disjoint one the identical map to `Set` |
| `IntervalMaps.IntervalMap.Has` | include/storage/IntervalMap.hpp:322-324 | true iff the point has a value |
| `IntervalMaps.IntervalMap.HasRange` | include/storage/IntervalMap.hpp:381-392 | the test of one candidate on any map; on a disjoint one true iff some point of the range has a value |
| `IntervalMaps.IntervalMap.ForEachInterval` | include/storage/IntervalMap.hpp:285-297 | the loop makes the calls whose meaning is `CallsExact` |
| `IntervalMaps.IntervalMap.Split` | include/storage/IntervalMap.hpp:366-379 | cuts an interval in two, or throws and changes nothing when the cut is not inside it; on overlapping intervals, the map after the failing insertion too |
| `FreeList.LowerBound` | include/storage/StorageHelpers.hpp:38 | the first node that is large enough |
| `FreeList.ChosenIsBestFit` | include/storage/StorageHelpers.hpp:36-41 | a block is taken iff one lies between the bounds, and it is a smallest that fits |
| `FreeList.SplicedMeaning` | include/storage/StorageHelpers.hpp:42-51 | exactly `size` bytes leave the list, the rest returns under its true length, the list gets no longer, no empty block stays |
| `FreeList.InsertedMeaning` | include/storage/StorageHelpers.hpp:15-20 | adding keeps the order by size and adds exactly the node |
| `FreeList.SetOrderedBySize.Has` | include/storage/StorageHelpers.hpp:21-27 | true iff some block lies between the bounds |
| `FreeList.SetOrderedBySize.Get` | include/storage/StorageHelpers.hpp:28-35 | removes one smallest fitting block, or nothing when none fits |
| `FreeList.SetOrderedBySize.Add` | include/storage/StorageHelpers.hpp:15-20 | the multiset of blocks grows by exactly the block |
| `FreeList.SetOrderedBySize.Splice` | include/storage/StorageHelpers.hpp:36-52 | the list and the item after a best-fit splice |
| `Tiling.TranslateInjective` | include/storage/SimpleStorage.hpp:58-91 | two addresses with the same file offset are the same address, and the offset is inside the file |
| `Tiling.MapBlock` | include/storage/SimpleStorage.hpp:29-45 | a free block can become the run of a new mapped interval without disturbing the division of the file |
| `Tiling.SplitBlock` | include/storage/SimpleStorage.hpp:30-35 | a free block can be cut in two |
| `Tiling.ExtendFile` | include/storage/SimpleStorage.hpp:39-44 | the file can grow by a block at its end |
| `Tiling.FreeRun` | include/storage/SimpleStorage.hpp:109-116 | a mapped run can become a free block |
| `MappingSpec.AllocOffsetTiles` | include/storage/SimpleStorage.hpp:29-45 | the space handed out overlaps no run and no free block, and the file grows only when no block fits |
| `MappingSpec.AllocOffsetTakes` | include/storage/SimpleStorage.hpp:29-45 | the space is the front of a smallest free block that is large enough, whose rest comes back, or else the end of the file; `max` is remembered only when the file grows |
| `MappingSpec.AllocKeepsTiling` | include/storage/SimpleStorage.hpp:93-98 | allocating over unmapped addresses maps exactly the range to space of its own, merges with no other mapping, and adds at most two entries |
| `MappingSpec.AllocUnmappedKeepsTiling` | include/storage/SimpleStorage.hpp:101-104 | reserving addresses changes no mapping |
| `MappingSpec.LookupAnswers` | include/storage/SimpleStorage.hpp:58-69 | a lookup is answered iff one interval holds the range, and it is mapped if only read |
| `MappingSpec.LookupAnyIsLookup` | include/storage/SimpleStorage.hpp:58-91 | on disjoint intervals and ranges that do not wrap, a lookup is answered by the interval that holds the range, or changes nothing |
| `MappingSpec.LookupWraps` | include/storage/SimpleStorage.hpp:58-91 | a range that runs past the end of the address space is answered as its first address alone would be |
| `MappingSpec.FirstTouchKeepsTiling` | include/storage/SimpleStorage.hpp:68-83 | the first write maps exactly the first `size` addresses of the interval and leaves the rest unmapped and covered |
| `MappingSpec.LookupKeepsTiling` | include/storage/SimpleStorage.hpp:58-91 | every answered lookup keeps the file divided and the covered addresses covered; a read-only one changes nothing |
| `MappingSpec.LookupStable` | include/storage/SimpleStorage.hpp:58-91 | no translation changes but that of the addresses mapped by this lookup |
| `MappingSpec.LookupTranslatesIff` | include/storage/SimpleStorage.hpp:63-90 | the returned offset is where the whole range is iff the interval was mapped or the range starts where it does |
| `MappingSpec.MiddleTouchExample` | include/storage/SimpleStorage.hpp:70-82 | a first touch in the middle of an interval maps other addresses than the one asked for |
| `Allocation.CutLosesLast` | include/storage/IntervalMap.hpp:175-190 | once a mapped interval has lost a point, the last byte of its run belongs to nobody |
| `Allocation.AllocTilesIff` | include/storage/SimpleStorage.hpp:93-98 | the division of the file survives an allocation iff no mapped interval meets its range |
| `Allocation.AllocUnmappedTilesIff` | include/storage/SimpleStorage.hpp:101-104 | the same for reserving addresses |
| `Erasure.DelSucceedsIff` | include/storage/SimpleStorage.hpp:107-118 | `del` succeeds iff its first address is covered and it meets a mapped interval, and otherwise changes nothing |
| `Erasure.DelWholeKeepsTiling` | include/storage/SimpleStorage.hpp:107-122 | deleting whole intervals frees exactly their runs |
| `Erasure.DelTilesIff` | include/storage/SimpleStorage.hpp:107-122 | the division of the file survives iff nothing is visited or every mapped interval met is covered whole |
| `Erasure.DelPartExample` | include/storage/SimpleStorage.hpp:109-116 | deleting half an interval leaves a byte both mapped and free |
| `Erasure.DelTranslates` | include/storage/SimpleStorage.hpp:107-122 | a deleted range translates to nothing and every other address as before |
| `Erasure.DelFreesCount` | include/storage/SimpleStorage.hpp:107-122 | a successful `del` makes exactly as many bytes free as points of its range were mapped |
| `Erasure.DelFrees` | include/storage/SimpleStorage.hpp:107-122 | it returns for each mapped call one block of the call's length at the offset of its interval, and leaves the file as long as it was |
| `Erasure.DelPartCount` | include/storage/SimpleStorage.hpp:109-117 | of ten mapped bytes a `del` of the last five frees five |
| `Erasure.DelAnyIsDel` | include/storage/SimpleStorage.hpp:107-122 | on disjoint intervals the deletion step by step is the assignment to the range |
| `VirtAddressMappings.VirtAddressMapping.AllocOffset` | include/storage/SimpleStorage.hpp:29-45 | the mapping and the offset after an allocation |
| `VirtAddressMappings.VirtAddressMapping.Lookup` | include/storage/SimpleStorage.hpp:58-91 | for any intervals and any range, one that wraps included: the offset, the size and the mapping after it, or a throw |
| `VirtAddressMappings.VirtAddressMapping.Alloc` | include/storage/SimpleStorage.hpp:93-98 | the mapping whose meaning is `AllocKeepsTiling`; the assertion on the insertion's result is in the body and never fails |
| `VirtAddressMappings.VirtAddressMapping.AllocUnmapped` | include/storage/SimpleStorage.hpp:101-104 | for any intervals and any range: the intervals after the insertion, or a throw; without overlap and wrapping, the range reserved and nothing else |
| `VirtAddressMappings.VirtAddressMapping.Del` | include/storage/SimpleStorage.hpp:107-122 | for any intervals: one block freed for each mapped interval visited, then the range unmapped, or failure without change, or the throw of the unmapping |
| `VirtAddressMappings.VirtAddressMapping.Serialize` | include/storage/SimpleStorage.hpp:147-152 | the encoding at the front of the window and no byte elsewhere, or a throw when it does not fit |
| `VirtAddressMappings.VirtAddressMapping.Deserialize` | include/storage/SimpleStorage.hpp:154-170 | the mapping read from a buffer under any order of evaluation, or nothing when decoding throws |
| `VamCodec.VamValue` | include/storage/SimpleStorage.hpp:172-179 | the encoded mapping has the size computed from its numbers of entries and blocks |
| `VamCodec.VamRoundTrip` | include/storage/SimpleStorage.hpp:147-170 | where arguments are evaluated left to right, a stored mapping reads back identical, free-list order included, whatever bytes follow |
| `VamCodec.VamOutOfOrder` | include/storage/SerializeImpl.hpp:196-199 | evaluated right to left, what is read back takes the number of intervals for the length of the file |
| `VamCodec.VamLayout` | include/storage/SimpleStorage.hpp:147-152 | the stored mapping number by number: count and entries in key order, the empty `unmapped`, count and blocks by size, the two maxima |
| `VamCodec.EmplaceKeeps` | include/storage/SerializeSpecialization.hpp:401-420 | a key stored twice keeps its first entry |
| `Codec.U64RoundTrip` | include/storage/SerializeSpecialization.hpp:46-64 | eight little-endian bytes give the number back and the rest of the buffer is left |
| `Codec.LeBytesAt` | include/storage/SerializeSpecialization.hpp:46-64 | byte `i` of a number is the one of weight 256^i |
| `Codec.StrRoundTripIff` | include/storage/SerializeSpecialization.hpp:74-94 | a string comes back cut at its first NUL, so unchanged iff it has none |
| `Codec.UnpackPack` | include/storage/SerializeSpecialization.hpp:295-333 | the bits of a word come back, followed by false |
| `Codec.WordsRoundTrip` | include/storage/SerializeSpecialization.hpp:277-337 | a bit vector of any length comes back padded with false to whole words |
| `Codec.PaddedEncodesSame` | include/storage/SerializeSpecialization.hpp:305-310 | the padded value has the same bytes and size, so what follows it stays aligned |
| `Codec.RoundTrip` | include/storage/SerializeImpl.hpp:174-199 | decoding an encoding followed by any bytes gives the value, bit vectors padded, for every nested value without NULs |
| `Codec.RoundTripOne` | include/storage/SerializeImpl.hpp:187-194 | after one value the rest of the buffer is exactly what followed its encoding |
| `Codec.RoundTripAll` | include/storage/SerializeImpl.hpp:196-199 | the same for values decoded one after another |
| `Codec.RoundTripN` | include/storage/SerializeSpecialization.hpp:406-419 | the same for the elements of a range |
| `Codec.RoundTripExactIff` | include/storage/SerializeSpecialization.hpp:39-420 | decoded in order, a value comes back identical iff no string has a NUL and no bit vector a partial word |
| `CodecSound.DecodeSound` | include/storage/SerializeSpecialization.hpp:39-420 | what is decoded has the type, is no longer than the buffer, and without strings its encoding is the front of the buffer |
| `CodecSound.DecodesIff` | include/storage/SerializeSpecialization.hpp:39-420 | without strings, a buffer is decoded iff it starts with the encoding of a value of the type, so truncated and malformed ones are rejected |
| `CodecOrder.InOrderDecodes` | include/storage/SerializeSpecialization.hpp:160-169 | with left-to-right arguments and the macro at 0, decoding is the in-order decoding |
| `CodecOrder.OrderedDecodes` | include/storage/SerializeImpl.hpp:196-199 | under any order of evaluation, types without a component out of order decode as in order |
| `CodecOrder.TuplesRoundTripIff` | include/storage/SerializeSpecialization.hpp:133-169 | all storable values without pairs come back iff the compiler's order and the macro's agree |
| `CodecOrder.PlatformRoundTripsIff` | include/storage/SerializeSpecialization.hpp:133-169 | all storable values come back iff arguments are evaluated left to right and the macro is 0 |
| `CodecOrder.SwappedTuple` | include/storage/SerializeSpecialization.hpp:156-165 | decoded last component first, an int, a 64-bit number and a char do not come back |
| `CodecOrder.SwappedPair` | include/storage/SerializeImpl.hpp:197-198 | decoded second component first, a pair of bytes does not come back |
| `Codec.LossyExamples` | include/storage/SerializeSpecialization.hpp:74-94 | a string with a NUL comes back shorter, one bit comes back as 64 |
| `Buffers.Serialize` | include/storage/SerializeSpecialization.hpp:46-51 | writes the encoding to the front of its window and nothing outside, or throws and writes nothing |
| `Buffers.WrittenMeaning` | include/storage/SerializeSpecialization.hpp:74-80 | a string fills its window with zeros behind its end; any other value writes exactly its encoding |
| `Buffers.SerializeElements` | include/storage/SerializeImpl.hpp:174-184 | the values end up one behind the other and the offset behind the last |
| `Buffers.PackWord` | include/storage/SerializeSpecialization.hpp:290-299 | the loop over the bits computes the number with exactly these bits set |
| `Buffers.SerializeWords` | include/storage/SerializeSpecialization.hpp:288-301 | the loop over words writes the encoding of the whole vector |
| `Buffers.FittingMeaning` | include/storage/SerializeImpl.hpp:180-184 | the values that fit a window are its longest fitting prefix |
| `Buffers.SerializeSequentially` | include/storage/SerializeImpl.hpp:180-184 | writes exactly the leading values that fit, and throws iff not all do |
| `Buffers.Deserialize` | include/storage/SerializeSpecialization.hpp:57-129 | decodes in the given order, for which the exact round trip condition is proved |
| `Buffers.DeserializeTuple` | include/storage/SerializeSpecialization.hpp:160-169 | where the first component is called for first, the loop decodes the tuple from the front |
| `Buffers.DeserializeTupleBack` | include/storage/SerializeSpecialization.hpp:160-169 | where the last component is called for first, the loop decodes the tuple back to front |
| `Buffers.DeserializeRange` | include/storage/SerializeSpecialization.hpp:401-420 | the loop over the elements decodes the range |
| `Buffers.DeserializeWords` | include/storage/SerializeSpecialization.hpp:319-337 | the loop over the words decodes the vector |
| `Addresses.FreshAddressesSeparateIff` | include/storage/StorageUtils.hpp:208-224 | two ranges of a run of calls with sizes below 2^36 neither overlap nor touch iff the calls are not a multiple of 2^28 apart |
| `Addresses.NextCellSeparateIff` | include/storage/StorageUtils.hpp:213-223 | the bound on sizes is sharp |
| `Addresses.RandomAddressRange.GetRandomAddress` | include/storage/StorageUtils.hpp:213-223 | the next cell's start, whatever the size |
| `Cells.AssignConfined` | include/storage/IntervalMap.hpp:308-320 | an assignment inside one cell leaves the entries of all other cells as they are |
| `StorageSpec.AllocAddrMeaning` | include/storage/SimpleStorage.hpp:235-239 | a fresh address adds one unmapped interval in a new cell and changes no byte seen anywhere |
| `StorageSpec.WriteWithin` | include/storage/SimpleStorage.hpp:247-253 | a write that fits its range is seen there, leaves every other address and the header as they were, and keeps the storage sound |
| `StorageSpec.WriteMeaning` | include/storage/SimpleStorage.hpp:247-253 | for any range of a client interval and bytes of any length: what is accepted, what is kept anyway, and that an accepted write is seen, and seen alone, iff it stays within what is mapped after it |
| `StorageSpec.StrayNotSeen` | include/storage/SimpleStorage.hpp:250-252 | an accepted write that goes past what is mapped after it is not seen |
| `StorageSpec.StrayHits` | include/storage/SimpleStorage.hpp:250-252 | its bytes land on the address that has their place in the file |
| `StorageSpec.OverlongExample` | include/storage/SimpleStorage.hpp:248-252 | fifty bytes written to ten are accepted and overwrite another address |
| `StorageSpec.MiddleWriteExample` | include/storage/SimpleStorage.hpp:248-252 | ten bytes written to ten in the middle of an untouched address are accepted and overwrite another address |
| `StorageSpec.WritebIsWrite` | include/storage/SimpleStorage.hpp:272-277 | filling the window is writing to the address |
| `StorageSpec.ReadMeaning` | include/storage/SimpleStorage.hpp:263-283 | `readb` answers iff the interval is mapped, `read` iff the range also ends where the interval does, both with the bytes seen there |
| `StorageSpec.Unanswered` | include/storage/SimpleStorage.hpp:58-91 | a range that no interval holds whole is refused by write, read, writeb and readb, and nothing changes |
| `StorageSpec.HeaderGuard` | include/storage/SimpleStorage.hpp:247-283 | in the header's own range, what starts at its first byte is refused and what starts behind it is not |
| `StorageSpec.EraseMeaning` | include/storage/SimpleStorage.hpp:254-257 | erasing takes away exactly the range's bytes, or fails and changes nothing |
| `Slots.ReopenStepSucceeds` | include/storage/SimpleStorage.hpp:201-304 | writing the file and opening it succeeds with the mapping that was closed, its own space freed |
| `Slots.StepRefines` | include/storage/SimpleStorage.hpp:182-304 | each step of the storage is a step of a plain map of slots, with the same reply |
| `Slots.RunRefines` | include/storage/SimpleStorage.hpp:182-304 | over any run, reopening included, the storage replies as the plain map |
| `Slots.ReadsLastWrite` | include/storage/SimpleStorage.hpp:247-271 | whatever happens elsewhere, a read returns what was last written to the address |
| `Slots.ErasedReadsRejected` | include/storage/SimpleStorage.hpp:254-271 | reading an erased address is rejected until it is written again |
| `Slots.OversizeWrite` | include/storage/SimpleStorage.hpp:247-252 | a write longer than a whole address throws, having mapped it |
| `Elsewhere.StepElsewhere` | include/storage/SimpleStorage.hpp:182-304 | no step, closing and reopening included, touches an interval or a byte of a cell that has no slot, and how far the file reaches after it |
| `Slots.NewFileRefines` | include/storage/SimpleStorage.hpp:204-213 | a file without the magic number opens, and refines the map with the static section alone, full of zeros |
| `Persistence.MetaRoundTrip` | include/storage/SimpleStorage.hpp:190-197 | the header is read back as it was written |
| `Persistence.StoredMappingFits` | include/storage/SimpleStorage.hpp:293-298 | the mapping, once its own region is in it, still fits the region, which overlaps no client data |
| `Persistence.RegionFreed` | include/storage/SimpleStorage.hpp:218-219 | freeing the region on opening gives back exactly the block it took |
| `Persistence.ReopensIff` | include/storage/SimpleStorage.hpp:214-220 | a closed file opens with exactly the mapping it was closed with iff arguments are evaluated left to right and its static section is as large as asked for |
| `Persistence.OpensIff` | include/storage/SimpleStorage.hpp:214-220 | decoded in order, a closed file opens iff its static section is as large as asked for |
| `Persistence.OpenedStatic` | include/storage/SimpleStorage.hpp:201-221 | whatever file opens, new or existing, damaged or not, has a static section as large as asked for |
| `Persistence.ClosedFile` | include/storage/SimpleStorage.hpp:293-304 | the closed file has the header at its start, the mapping in its region, and every other byte as it was |
| `Persistence.MetaLayout` | include/storage/SimpleStorage.hpp:190-197 | the header byte by byte |
| `Persistence.ReservedIs` | include/storage/SimpleStorage.hpp:293-298 | the region is 1024 bytes longer than the mapping encoded before it |
| `Persistence.CloseReopenIdentity` | include/storage/SimpleStorage.hpp:201-304 | closing and opening changes no client translation, byte or interval and keeps the storage sound, so over any number of cycles |
| `Persistence.NewMeaning` | include/storage/SimpleStorage.hpp:204-213 | a new file shows the zeroed static section and nothing else |
| `SimpleStorages.SimpleStorage.GetRandomAddress` | include/storage/SimpleStorage.hpp:235-239 | for any size, the state after it and the address, or a throw for size 0; for sizes below 2^36 the meaning is `AllocAddrMeaning` |
| `SimpleStorages.SimpleStorage.Write` | include/storage/SimpleStorage.hpp:247-253 | the state after a write, its throwing cases included |
| `SimpleStorages.SimpleStorage.Read` | include/storage/SimpleStorage.hpp:263-270 | the bytes, or a throw; nothing changes |
| `SimpleStorages.SimpleStorage.Writeb` | include/storage/SimpleStorage.hpp:272-277 | for any intervals and any range, the window, or a throw, and the state after it |
| `SimpleStorages.SimpleStorage.Readb` | include/storage/SimpleStorage.hpp:278-283 | the bytes, or a throw; nothing changes |
| `SimpleStorages.SimpleStorage.Erase` | include/storage/SimpleStorage.hpp:254-257 | for any intervals and any range, the state after it; without overlap and wrapping its meaning is `EraseMeaning` |
| `SimpleStorages.SimpleStorage.Close` | include/storage/SimpleStorage.hpp:293-304 | the bytes of the closed file, every one of them |
| `SimpleStorages.SimpleStorage.Init` | include/storage/SimpleStorage.hpp:201-221 | the state any file opens to, new or existing, damaged or not, under any order of evaluation, with a static section as large as asked for, or a throw |
| `Sze.SerializeDeserialize` | include/storage/Serialize.hpp:28-56 | serializing succeeds, moves no other slot, and the value is read back from its address iff it is storable, padded if it has no NUL |
| `Sze.SerializeSeen` | include/storage/Serialize.hpp:28-42 | a value that fits stays at its address, any other goes to the next cell at its own size and its old address is erased; every byte of memory after it is given |
| `Sze.StringTail` | include/storage/Serialize.hpp:28-42 | a string leaves zeros from its end to the end of its address |
| `Sze.ValueTail` | include/storage/Serialize.hpp:28-42 | any other value leaves the bytes behind it as they were |
| `Sze.PrefixDecodes` | include/storage/Serialize.hpp:50-56 | a value is decoded from the front of its range whatever the range held behind it |
| `Sze.SerializeAnyIs` | include/storage/Serialize.hpp:28-42 | without overlap and wrapping, serializing step by step is placing the value and writing it |
| `Sze.Serialize` | include/storage/Serialize.hpp:28-42 | for any intervals and any address: in place if the value fits, else erased and placed at a fresh address, or the throw on the way |
| `Sze.Deserialize` | include/storage/Serialize.hpp:50-56 | the decoded value, or a throw; nothing changes |
| `ObjectBlocks.CutBlock` | include/storage/SimpleObjectStorage.hpp:33-41 | cutting a block keeps live and unused blocks disjoint and keyed by their size |
| `ObjectBlocks.TakeBack` | include/storage/SimpleObjectStorage.hpp:170-173 | returning a block keeps them so |
| `Packing.SplicedSizes` | include/storage/StorageHelpers.hpp:36-52 | on the sizes alone, `splice` takes a smallest that fits and leaves what exceeds the need |
| `Packing.TailIsEnough` | include/storage/SimpleObjectStorage.hpp:32-45 | a row of objects always finds blocks if the tail is as long as all of them together |
| `ObjectSpec.AddressForIsGiven` | include/storage/SimpleObjectStorage.hpp:32-71 | an address is found iff the store can hold the object; the block fits, is mapped or the tail's front, and overlaps no other block |
| `ObjectSpec.PutHolds` | include/storage/SimpleObjectStorage.hpp:90-99 | a put of any object of the type changes exactly its index's object, no byte outside the index's block, and no interval outside the base |
| `ObjectSpec.PutSucceedsIff` | include/storage/SimpleObjectStorage.hpp:57-71 | a put succeeds iff a block can be found |
| `ObjectSpec.PutThrows` | include/storage/SimpleObjectStorage.hpp:90-97 | a put without a block leaves the index marked, without object and address; the store still holds all other objects, and `has` and `get` are as before at every other index |
| `ObjectSpec.PutExample` | include/storage/SimpleObjectStorage.hpp:43-44 | seventeen bytes put into a fresh range of sixteen throw |
| `ObjectEffects.NewAddressTakes` | include/storage/SimpleObjectStorage.hpp:32-45 | a new block is the front of a smallest unused block that is large enough, whose rest alone comes back, or else of the tail; the free bytes drop by its size |
| `ObjectEffects.PutEffects` | include/storage/SimpleObjectStorage.hpp:57-99 | a put at any index, overwriting or not, refused or not: a reused block costs nothing, a new one is taken as above, a refused put takes none; the number of states is the larger of the old one and the index plus one; the cache changes at the index only |
| `ObjectEffects.PutLeavesOthers` | include/storage/SimpleObjectStorage.hpp:90-99 | `has` and `get` at every other index are exactly as before |
| `ObjectEffects.PutThenGet` | include/storage/SimpleObjectStorage.hpp:187-193 | with Keep access `get` returns the object exactly, else what storage makes of it |
| `ObjectSpec.PutKeepsRoom` | include/storage/SimpleObjectStorage.hpp:32-45 | file space for the tail is all the space puts ever need |
| `ObjectSpec.GetIsObject` | include/storage/SimpleObjectStorage.hpp:112-142 | `has` iff the index is marked; `get` throws where it holds no object; what comes back is the last one put, and from storage it is identical iff storable, padded if it has no NUL |
| `ObjectSpec.BlockDecodes` | include/storage/SimpleObjectStorage.hpp:129-130 | an object's block decodes to it iff it is storable, to its padded form if it has no NUL |
| `ObjectSpec.KeptHolds` | include/storage/SimpleObjectStorage.hpp:143-158 | reading into the cache changes no object |
| `ObjectEffects.KeptEffects` | include/storage/SimpleObjectStorage.hpp:143-158 | what was read is in the cache, nothing else is different, and every index reads as before |
| `ObjectSpec.ClearHolds` | include/storage/SimpleObjectStorage.hpp:164-174 | clearing removes exactly the index's object and makes its block available |
| `ObjectEffects.ClearEffects` | include/storage/SimpleObjectStorage.hpp:164-174 | the unused blocks are those before and the one given back; marks, addresses and cache lose exactly the index, and the states stay as many |
| `ObjectEffects.ClearCanHold` | include/storage/SimpleObjectStorage.hpp:164-174 | another index can hold what it could before, and whatever fits the block given back |
| `ObjectEffects.ClearLeavesOthers` | include/storage/SimpleObjectStorage.hpp:164-174 | every other index reads as before |
| `ObjectEffects.ClearRangeEffects` | include/storage/SimpleObjectStorage.hpp:175-179 | clearing a range forgets exactly its indices, and the free bytes grow by exactly their blocks |
| `ObjectEffects.ClearRangeLeavesOthers` | include/storage/SimpleObjectStorage.hpp:175-179 | what is read at every other index is as before |
| `ObjectSpec.NewHolds` | include/storage/SimpleObjectStorage.hpp:105-108 | a store over a fresh range is empty and sound |
| `ObjectEffects.NewEffects` | include/storage/SimpleObjectStorage.hpp:105-108 | a new store can hold at any index exactly what its range is long enough for |
| `ObjectSpec.OthersLeaveObjects` | include/storage/SimpleObjectStorage.hpp:16-19 | what the storage does for others leaves the objects as they are |
| `ObjectFill.FillHolds` | include/storage/SimpleObjectStorage.hpp:230-241 | where there is room, filling puts the given object at exactly the indices that were not marked, and the count is the number added |
| `ObjectFill.FillSucceedsIff` | include/storage/SimpleObjectStorage.hpp:230-241 | filling succeeds iff the sizes of the unused blocks and of the tail have room for the sizes that are missing |
| `ObjectFill.FillThrows` | include/storage/SimpleObjectStorage.hpp:230-241 | otherwise the filling is a successful one up to an index and a refused put there, which is left marked and empty; every other index is as it was |
| `ObjectFill.FillExample` | include/storage/SimpleObjectStorage.hpp:230-241 | of two objects of ten bytes the second does not go into a fresh range of sixteen |
| `ObjectEffects.FillEffects` | include/storage/SimpleObjectStorage.hpp:230-241 | filling takes exactly the missing bytes from the free ones, caches nothing, and makes as many states as are needed |
| `ObjectEffects.FillLeavesOthers` | include/storage/SimpleObjectStorage.hpp:230-241 | every index that was marked reads exactly as before |
| `ObjectRuns.StorageLeavesObjects` | include/storage/SimpleStorage.hpp:182-304 | whatever the storage does at its other addresses, every object stays where it is |
| `ObjectRuns.StepRefines` | include/storage/SimpleObjectStorage.hpp:112-241 | each step of either store is a step of a plain map beside a plain memory, with the same reply; a put or a filling throws iff blocks are missing |
| `ObjectRuns.StepExists` | include/storage/SimpleObjectStorage.hpp:112-241 | every enabled step can be taken |
| `ObjectRuns.RunRefines` | include/storage/SimpleObjectStorage.hpp:112-241 | over any run, of the store and of the storage at other addresses, refused puts and fillings included, the replies are those of the plain map and memory |
| `ObjectRuns.GetsLastPut` | include/storage/SimpleObjectStorage.hpp:122-193 | whatever else a run does, a get returns the object last put at the index, exactly if it is storable |
| `ObjectRuns.RefusedGetsNothing` | include/storage/SimpleObjectStorage.hpp:117-135 | after a refused put a get there throws, whatever else a run does |
| `ObjectRuns.NewReady` | include/storage/SimpleObjectStorage.hpp:105-108 | runs can start on any new store, beside any addresses in use, if the file has space for its range |
| `ObjectReload.ObjsRoundTrip` | include/storage/SimpleObjectStorage.hpp:245-264 | where arguments are evaluated left to right, a stored store reads back, states padded, whatever the order of its addresses and the bytes behind it |
| `ObjectReload.ObjsOutOfOrder` | include/storage/SerializeImpl.hpp:196-199 | evaluated right to left, as many unused blocks are read as the base's address says |
| `ObjectReload.ObjsLayout` | include/storage/SimpleObjectStorage.hpp:245-250 | the stored store number by number: base, states, addresses in the order they are walked, unused blocks by size |
| `ObjectReload.EmplaceKeeps` | include/storage/SerializeSpecialization.hpp:401-420 | an index stored twice keeps its first address |
| `ObjectReload.ReloadHolds` | include/storage/SimpleObjectStorage.hpp:251-259 | the store that is read back holds the same objects and marks, so that it can be used on |
| `ObjectReload.ReloadEffects` | include/storage/SimpleObjectStorage.hpp:251-259 | it has lost its tail but no block, used or not, and continues at the padded number of states |
| `ObjectReload.ReloadAgrees` | include/storage/SimpleObjectStorage.hpp:251-259 | it answers as the stored one at every index, padding and lost cache notwithstanding |
| `ObjectPersistence.SerializeLeavesObjects` | include/storage/Serialize.hpp:28-42 | serializing a value to another address of the storage moves no object |
| `ObjectPersistence.ReloadAfterReopen` | include/storage/SimpleObjectStorage.hpp:245-264 | stored at an address, closed with the file, opened and read back, the store is found, ready for further runs with the objects it had |
| `ObjectPersistence.RunsGoOn` | include/storage/SimpleObjectStorage.hpp:245-264 | whatever is done after that, the replies are those of the plain map of the objects there were before |
| `SimpleObjectStorages.SimpleObjectStorage.GetNewAddress` | include/storage/SimpleObjectStorage.hpp:32-45 | a best-fit unused block, else the tail's front, else a throw |
| `SimpleObjectStorages.SimpleObjectStorage.AllocAddrForIndex` | include/storage/SimpleObjectStorage.hpp:57-71 | the old block only if strictly larger, else a new one |
| `SimpleObjectStorages.SimpleObjectStorage.PutImpl` | include/storage/SimpleObjectStorage.hpp:90-99 | the fields and the storage after the mark, the allocation and the write, or after the throw |
| `SimpleObjectStorages.SimpleObjectStorage.Put` | include/storage/SimpleObjectStorage.hpp:186-193 | succeeds iff there is a block; either way the contents differ at the index alone, which holds the object or nothing, and no byte outside the base range is seen to change |
| `SimpleObjectStorages.SimpleObjectStorage.PutNew` | include/storage/SimpleObjectStorage.hpp:180-185 | puts at the number of states, which held nothing, and makes that one more |
| `SimpleObjectStorages.SimpleObjectStorage.Get` | include/storage/SimpleObjectStorage.hpp:122-142 | what storage or cache recalls of the object put last, or a throw; nothing but the cache changes |
| `SimpleObjectStorages.SimpleObjectStorage.GetRef` | include/storage/SimpleObjectStorage.hpp:144-158 | the same, and the object is cached |
| `SimpleObjectStorages.SimpleObjectStorage.Clear` | include/storage/SimpleObjectStorage.hpp:164-174 | the contents without the index |
| `SimpleObjectStorages.SimpleObjectStorage.ClearRange` | include/storage/SimpleObjectStorage.hpp:175-179 | the contents without the indices of the range; the fields are those whose meaning is `ClearRangeEffects` |
| `SimpleObjectStorages.SimpleObjectStorage.ForEachEmpty` | include/storage/SimpleObjectStorage.hpp:230-241 | the loop is the filling: it succeeds iff there is room by size, and then every index of the range has its old object or the one given; else it stops at an index that is left empty |
| `SimpleObjectStorages.SimpleObjectStorage.Serialize` | include/storage/SimpleObjectStorage.hpp:245-250 | the encoding in the window and no byte elsewhere; if the window is too short, a throw with the leading fields that fit written |
| `SimpleObjectStorages.SimpleObjectStorage.Deserialize` | include/storage/SimpleObjectStorage.hpp:251-259 | the store read from a buffer under any order of evaluation, or nothing when decoding throws |

## Left out

- `expand`, `expand_address` and `IntervalMap::expand`: the call at include/storage/SimpleStorage.hpp:137 passes the old size, and include/storage/IntervalMap.hpp:358 adds a length to what is an offset there, so their intent is not clear.
- The map `unmapped` and the constant `MIN_EMPTYSIZE`: never used; `unmapped` is stored and read as an empty field.
- Files, memory mapping and `madvise` (include/storage/RandomMemoryAccess.hpp): one array of bytes, read and written at an offset, stands for the mapped file.
- `StorageBuffer` as a pointer with sizes: a window is an offset into that array or a sequence of bytes; no aliasing of windows is modelled.
- `std::map`, `std::multimap` and `std::unordered_map` as nodes and iterators: they are Dafny maps and an ordered sequence; the walk order of an unordered map is an arbitrary parameter.
- `size()` and `count` of the object store: the counter moves with cache hits and not with live objects.
- Blocks dropped by an overwrite that needs more space: they are neither live nor unused afterwards, and no claim is made that they can be used again.
- `for_each` of the object store: it is `getRef` at each present index.
- Values whose encoding is empty, and the codec of `std::unique_ptr`, which writes nothing.
- `ObjectInstanceStorage` and `FixedSizeObjectStorage`: unfinished in the repository.
- `StorageManager`, unique identifiers, the virtual file catalog, `TypedObject` and `StoredObject`: ownership and global registries around the parts modelled here.
- Concepts, template dispatch and logging.
