# Realm Management Monitor: a verified model

A model, in Dafny, of the parts of the Realm Management Monitor (RMM) for Arm CCA that decide
what memory a realm sees and who may touch it, with proofs of what they promise. The system is
specified by section A5.5 (Realm Translation Table) of the Arm RMM specification, DEN0137, and
by the code itself, which the model follows where the two differ.

`dafny verify dfyconfig.toml` checks the whole project.

## What is modelled

**Translation tables.** `S2Geometry` and `RealmGeometry` say which address selects which entry
and which realm geometries are accepted. `S2tte` has the entries in decoded form, and `S2tteCodec`
the packed 64-bit words with creators and classifiers; its last part shows that the two forms
determine each other, so that the rest can speak about decoded entries; `HostWords` does the same for the
descriptors that the host passes, and `S2tteBits` says what the words of mappings tell the hardware. `Rtt` has the machine
(granule descriptors, tables, realms, RECs), the recursive walk, the flat map it defines (what every
address of a realm maps to) and the invariant: counts, a forest of tables, granule states.
`RttSteps` and `RttFlat` prove what the three ways of changing tables do to invariant and flat map;
`RttInvariants` adds what speaks about flat maps (protected and unprotected addresses do not mix, DATA
granules and protected mappings are in bijection). `RttCommands`, `DataCommands`, `RipasCommands`,
`RttQueries`, `RealmCommands` and `RecCommands` specify each command as a function of the state and
prove the operation on the flat map that it refines; `RttForest` says what shape all tables have together,
`Runs` and `RealmLifecycle` prove what holds over every run. `RttLeaves` has the level at which each
address is mapped, and `CommandOutcomes`, `MappingOutcomes`, `RipasOutcomes` and `RealmOutcomes` say in
terms of flat map, levels and granule states exactly when each command succeeds, what it reports
otherwise, and what commands that undo each other restore.
`TableScans`, `Rmm`, `RmmRealms`, `RmmRecs` and `IpaHelpers` carry the commands out as the code
does, with loops, locks and updates in place, and prove that they compute what is specified.

**Locks and RECs.** `GranuleWord` is the 16-bit granule descriptor, `GranuleLocks` the ordered
locking of several granules and the absence of circular waits, `RecProtocol` the ownership of RECs
as interleaved steps of any number of PEs, `RecScenarios` what whole commands and calls of one PE do.

**Heap.** `HeapLayout` is the heap as a sequence of blocks, `LinkedLists` and `HeapChain` its two
linked lists, `Allocator` the allocator on header fields.

**Shared memory.** `Registries` has the identifiers of regions and realms, `Apt` the table of shared
regions, `AptLaws` what its calls achieve and undo.

## Results about the code

- The unprotected map and unmap commands accept level 1 for a realm whose tables start at level 2, and
  then run into the walk's assertion on the level (`NsAssertion`, `NsAssertionReached`).
- REC_CREATE unlocks auxiliary granules a second time, and meets an assertion, when the first of them is
  DELEGATED but not all are, or one is named twice (`RecCreateAssertion`, `RecAssertionReached`).
- PSCI calls are recognised by the lower 32 bits of x0 (`runtime/core/exit.c:387`,
  `runtime/rsi/psci.c:284`), but PSCI_COMPLETE compares all 64 bits (`runtime/rsi/psci.c:388`): a CPU_ON or
  AFFINITY_INFO call with a non-zero upper half becomes pending, and completing it meets the assertion
  (`AssertionExactly`, `PanicExactly`, `WideCallPanics`; `NeverPanics` says that nothing else does).
- `map_ipa_to_pa` miscounts when the page is assigned already (`MapIpaCounts`, `MapTwiceMiscounts`).
- CSM creation does not compare master regions with each other, unlike the comment at
  `runtime/rsi/shared_memory.c:58` (`MastersMayOverlap`, `CreateKeepsMastersApart`), and CSM reservation
  reports success when the table is full (`FullTableIsSilent`, `ReservesNothing`).
- RTT reference counts leave out non-secure mappings (`runtime/rmi/rtt.c:258-263`), unlike the comment
  at `lib/granule/include/granule_types.h:178-184`; the model follows the code.

## Model

| member | source | states |
|---|---|---|
| `RealmGeometry.AcceptedExactly` | runtime/rmi/realm.c:80-144 | A triple is accepted exactly if width and level are in range, level 0 has at least 44 bits of physical address, and the address space is larger than one entry of the starting level and no larger than its root tables (16, or 1 at level 0 without LPA2, or 16 entries at level -1) can map. |
| `RealmGeometry.RootsNeeded` | runtime/rmi/realm.c:152-173 | The number of root tables is the smallest with which they map the address space. |
| `RealmGeometry.RootsCover` | runtime/rmi/realm.c:152-232 | The root tables cover exactly 2^ipa_bits: the IPA space and its protected half are whole numbers of starting-level entries, within one table or filling all concatenated ones; at level -1 within its 16 entries. |
| `RealmGeometry.RootInBounds` | lib/s2tt/src/s2tt.c:337-350 | The number of the concatenated root table is in bounds for every address of the realm. |
| `RealmGeometry.ParOnBoundary` | runtime/rmi/realm.c:184-232 | No entry of any level maps addresses on both sides of the PAR boundary or of the end of the IPA space. |
| `RmmRealms.InitRootTable` | runtime/rmi/realm.c:184-232 | The initialiser's inner loop fills a root table with the initial entries, and reaches the end of the IPA space exactly in the last root table. |
| `RmmRealms.InitStartingLevel` | runtime/rmi/realm.c:184-232 | The initialiser fills exactly the root tables and never reaches its final assertion. |
| `S2tteCodec.CreatedWord` | lib/s2tt/src/s2tt.c:385-556 | Each word built by a creator, for all nine kinds, formats and levels, satisfies exactly one classifier, and its address and host attributes are those it was built from. |
| `S2tteCodec.PaRoundTrip` | lib/s2tt/src/s2tt.c:21-52 | An aligned address packed with any non-address bits is read back unchanged, and collides with no type, HIPAS, RIPAS, NS, AF or XN bit. |
| `S2tteCodec.Lpa2Bits` | lib/s2tt/src/s2tt.c:137-147 | With LPA2, address bits 51:50 live in entry bits 9:8 and nowhere else. |
| `S2tteCodec.ExclusiveKinds` | lib/s2tt/src/s2tt.c:646-817 | The nine classifiers are mutually exclusive on words whose unassigned kinds keep NS and RIPAS apart, as created words do. |
| `S2tteCodec.PackedWord` | lib/s2tt/src/s2tt.c:1051-1076 | The word of a decoded entry is accepted by the classifier of its kind and no other, and s2tte_pa gives back its address. |
| `S2tteCodec.PackedPredicates` | lib/s2tt/src/s2tt.c:123-131 | On such words, s2tte_has_pa tells whether the entry is live and s2tte_has_ripas whether it has a RIPAS. |
| `S2tteCodec.PackInjective` | lib/s2tt/src/s2tt.c:427-470 | Two valid entries of a level with the same 64-bit word are equal, so restoring an entry restores the exact word. |
| `S2tteBits.RamWord` | lib/s2tt/src/s2tt_pvt_defs.h:98-158 | The word of a RAM mapping says: readable and writable, access flag, write-back, inner shareable unless LPA2, executable, not non-secure. |
| `S2tteBits.NsWordBits` | lib/s2tt/src/s2tt_pvt_defs.h:136-160 | The word of a non-secure mapping always has access flag, NS and execute-never set, whatever the host asked for. |
| `S2tteCodec.HostWord` | lib/s2tt/src/s2tt.c:561-596 | An accepted host descriptor consists of an aligned in-range address and host-controlled attributes and nothing else. |
| `HostWords.AcceptedDecodes` | lib/s2tt/src/s2tt.c:561-596 | A host descriptor word is accepted exactly if the decoded descriptor (address, attributes, reserved bits) that the command model works with is. |
| `HostWords.CreatedFromHost` | lib/s2tt/src/s2tt.c:532-556 | From an accepted host word the creator of non-secure mappings builds exactly the word of the entry that the command model stores for the decoded descriptor, in every format. |
| `HostWords.FromWordOk` | lib/s2tt/src/s2tt.c:39-52 | Reading a number from a word is the inverse of writing it. |
| `HostWords.AlignedIsClear` | lib/s2tt/src/s2tt.c:21-37 | An address is aligned to a level exactly if its word has no bit below the range of an entry. |
| `S2tteCodec.FoldedNsWord` | runtime/rmi/rtt.c:379-388 | Handing the whole first entry of a non-secure table to the creator gives the parent entry that its address and attributes alone would give. |
| `S2tte.SubEntryPage` | lib/s2tt/src/s2tt.c:939-1035 | Entry k of an unfolded leaf means for every address what the leaf meant. |
| `S2tte.SubEntryValid` | lib/s2tt/src/s2tt.c:939-1035 | The entries of an unfolded leaf are aligned to their level and in range. |
| `TableScans.InitUniform` | lib/s2tt/src/s2tt.c:857-930 | The initialisers for unassigned entries fill all 512 entries with the entry. |
| `TableScans.InitMapped` | lib/s2tt/src/s2tt.c:939-1035 | The initialisers for mappings produce exactly the unfolding of the block. |
| `TableScans.IsUniformBlock` | lib/s2tt/src/s2tt.c:1100-1113 | The scan answers whether all entries are the given unassigned entry. |
| `TableScans.MapsBlock` | lib/s2tt/src/s2tt.c:1163-1225 | The scan answers whether the table is the unfolding of its first entry, of the given kind and aligned to the parent level. |
| `TableScans.SkipNonLiveEntries` | lib/s2tt/src/s2tt.c:1294-1340 | The loop computes the address of the first live entry from the given one, or of the end of the table. |
| `TableScans.UpdateRipas` | runtime/rmi/rtt.c:1451-1520 | Changes any entry that has a RIPAS, also one that has the requested value already, except DESTROYED ones that were not released; only the RIPAS changes. |
| `TableScans.DecideFold` | runtime/rmi/rtt.c:359-453 | Deciding by the reference count which scans to make is the same as looking for a leaf whose unfolding the table is. |
| `TableScans.FoldUnreferenced` | runtime/rmi/rtt.c:359-398 | With count 0, the scans in their order find the unassigned or non-secure leaf if there is one. |
| `TableScans.FoldFull` | runtime/rmi/rtt.c:399-445 | With count 512, the scans find the protected leaf if there is one. |
| `TableScans.MixedCannotFold` | runtime/rmi/rtt.c:446-453 | A table with any other count is the unfolding of no leaf. |
| `Rmm.Monitor.WalkLockUnlock` | lib/s2tt/src/s2tt.c:308-380 | The loop returns the table, index and level of the recursive walk, concatenated roots and level -1 included, and ends holding the lock of exactly the last table instead of that of the first root; no table is locked twice. |
| `Rtt.RealmWalkPlace` | lib/s2tt/src/s2tt.c:269-380 | A walk ends in a table of the realm that maps the address, and above the target level only at an entry that is no table. |
| `RttFlat.WalkToTable` | lib/s2tt/src/s2tt.c:308-380 | Addresses of one table reach the same table. |
| `RttCommands.RttCreateFlat` | runtime/rmi/rtt.c:80-288 | RTT_CREATE leaves the flat map of every realm unchanged: HIPAS, RIPAS, physical address and non-secure attributes of every address. |
| `RttCommands.RttCreateInv` | runtime/rmi/rtt.c:80-288 | RTT_CREATE keeps the invariant, whether it succeeds or fails. |
| `Rmm.Monitor.CreateRtt` | runtime/rmi/rtt.c:80-288 | The step-by-step command computes the specified state and status for all nine parent kinds, fires no reference count assertion and holds no lock afterwards. |
| `Rmm.Monitor.BuildTable` | runtime/rmi/rtt.c:151-268 | Each parent kind gets its initialiser, and references move so that both counts stay equal to the counted entries. |
| `RttCommands.RttFoldFlat` | runtime/rmi/rtt.c:290-483 | RTT_FOLD leaves the flat map of every realm unchanged. |
| `RttCommands.RttFoldInv` | runtime/rmi/rtt.c:290-483 | RTT_FOLD keeps the invariant. |
| `Rmm.Monitor.FoldRtt` | runtime/rmi/rtt.c:290-483 | The step-by-step command computes the specified state, status and output, and holds no lock afterwards. |
| `RttCommands.CreateThenFold` | runtime/rmi/rtt.c:151-483 | RTT_FOLD right after RTT_CREATE always succeeds and restores the whole state: parent entry, both counts, and the child granule zeroed and DELEGATED. |
| `CommandOutcomes.RttCreateOutcome` | runtime/rmi/rtt.c:80-276 | RTT_CREATE succeeds exactly if the granule is DELEGATED and addressable and the address is mapped one level above the table asked for; each failure has its exact condition and level. |
| `CommandOutcomes.RttCreateLevels` | runtime/rmi/rtt.c:80-276 | Exactly the addresses of the new table are then mapped at its level, and exactly the granule changed its state. |
| `CommandOutcomes.RttFoldOutcome` | runtime/rmi/rtt.c:290-483 | RTT_FOLD succeeds exactly if a leaf that can exist one level up would map all addresses of the table as they are; each failure has its exact condition and level. |
| `CommandOutcomes.RttFoldLevels` | runtime/rmi/rtt.c:290-483 | Exactly the addresses of the table are then mapped one level up, and exactly its granule, which is returned, was released. |
| `CommandOutcomes.RttDestroyOutcome` | runtime/rmi/rtt.c:485-611 | RTT_DESTROY succeeds exactly if the table exists and its addresses are mapped by its own entries, none to protected memory; without the table it reports the level of the mapping and how far the host may skip. |
| `CommandOutcomes.RttDestroyLevels` | runtime/rmi/rtt.c:485-611 | After success exactly the addresses of the table are mapped one level up, its granule is released, and the reported top lies beyond the address: the next live entry of the table above, or its end. |
| `CommandOutcomes.SkipReport` | lib/s2tt/src/s2tt.c:1294-1340 | The skip address: the queried one exactly if a table or mapping is there, else the next live entry or the end of the table; no page on the way is live. |
| `RttCommands.RttDestroyFlat` | runtime/rmi/rtt.c:485-611 | RTT_DESTROY changes only the range of the table, where no protected mapping was live: to DESTROYED inside the PAR, to unmapped outside. |
| `RttCommands.RttDestroyInv` | runtime/rmi/rtt.c:485-611 | RTT_DESTROY keeps the invariant. |
| `Rmm.Monitor.DestroyRtt` | runtime/rmi/rtt.c:485-611 | The step-by-step command computes the specified state and outputs, the skip address included, and holds no lock afterwards. |
| `RttSteps.SetEntryInv` | runtime/rmi/rtt.c:624-737 | Overwriting a leaf by a valid leaf, with the count adjusted, keeps the invariant of all tables. |
| `RttSteps.AddTableInv` | runtime/rmi/rtt.c:274-279 | Hanging a new table below a leaf keeps the invariant of all tables. |
| `RttSteps.DropTableInv` | runtime/rmi/rtt.c:455-473 | Dropping a table whose entries are leaves keeps the invariant of all tables. |
| `RttSteps.OneParent` | runtime/rmi/rtt.c:343-349 | A table is named by exactly one entry of all tables of all realms. |
| `DataCommands.MapNsFlat` | runtime/rmi/rtt.c:624-737 | RTT_MAP_UNPROTECTED maps exactly the range of the entry, contiguously and with the host's attributes, where nothing was mapped and outside the PAR. |
| `DataCommands.UnmapNsFlat` | runtime/rmi/rtt.c:624-737 | RTT_UNMAP_UNPROTECTED unmaps exactly the range of the entry. |
| `DataCommands.NsInv` | runtime/rmi/rtt.c:624-737 | Both keep the invariant: non-secure mappings are not counted. |
| `MappingOutcomes.MapNsOutcome` | runtime/rmi/rtt.c:624-737 | RTT_MAP_UNPROTECTED succeeds exactly if the descriptor is valid and the address is unmapped at the level asked for; each failure has its exact condition and level. |
| `MappingOutcomes.UnmapNsOutcome` | runtime/rmi/rtt.c:624-737 | RTT_UNMAP_UNPROTECTED succeeds exactly if the address is mapped at the level asked for; otherwise it reports where the walk ended and how far the host may skip. |
| `MappingOutcomes.UnmapNsSkip` | runtime/rmi/rtt.c:704-730 | After success the reported top lies beyond the address: the next live entry of the table, or its end. |
| `MappingOutcomes.NsLevels` | runtime/rmi/rtt.c:624-737 | Neither command changes a granule or the level at which any address is mapped. |
| `MappingOutcomes.MapThenUnmapNs` | runtime/rmi/rtt.c:739-770 | Unmapping right after mapping succeeds and restores the state exactly. |
| `DataCommands.NsAssertion` | runtime/rmi/rtt.c:624-671 | The walk's level assertion is hit if and only if an otherwise valid call asks for level 1 in a realm that starts at level 2. |
| `DataCommands.NsAssertionReachable` | runtime/rmi/realm.c:110-144 | The parameters of such realms are accepted (33 address bits from level 2), and the first unprotected gigabyte is such a call. |
| `Runs.NsAssertionReached` | runtime/rmi/rtt.c:645-677 | In any good state with nine delegated granules REALM_CREATE with these parameters succeeds, and after it both commands, asked for that gigabyte, run into the assertion. |
| `Rmm.Monitor.MapUnmapNs` | runtime/rmi/rtt.c:624-770 | The step-by-step command computes the specified state and outputs and holds no lock afterwards, unless it hits that assertion. |
| `DataCommands.DataCreateFlat` | runtime/rmi/rtt.c:889-1007 | DATA_CREATE maps exactly the requested page, which was unassigned, to the granule; it becomes RAM, or keeps its RIPAS if the content is unknown. |
| `DataCommands.DataCreateInv` | runtime/rmi/rtt.c:889-1007 | DATA_CREATE keeps the invariant. |
| `Rmm.Monitor.CreateData` | runtime/rmi/rtt.c:889-1007 | The step-by-step command computes the specified state; a failed copy leaves the granule zeroed; no lock is held afterwards. |
| `DataCommands.DataDestroyFlat` | runtime/rmi/rtt.c:1346-1431 | DATA_DESTROY unmaps exactly the requested page and returns the granule it mapped, wiped and DELEGATED; RAM becomes DESTROYED, other RIPAS values stay. |
| `DataCommands.DataDestroyInv` | runtime/rmi/rtt.c:1346-1431 | DATA_DESTROY keeps the invariant. |
| `MappingOutcomes.DataCreateOutcome` | runtime/rmi/rtt.c:859-1007 | DATA_CREATE succeeds exactly if the granule is DELEGATED and addressable, the page is mapped at page level and unassigned, and for a copy the realm is new and the source readable; each failure has its exact condition. |
| `MappingOutcomes.DataCreateLevels` | runtime/rmi/rtt.c:889-1007 | Exactly the granule changed its state, to DATA, and no level changed. |
| `MappingOutcomes.DataDestroyOutcome` | runtime/rmi/rtt.c:1346-1431 | DATA_DESTROY succeeds exactly if the page is mapped at page level and assigned; otherwise it reports the level of the mapping and how far the host may skip. |
| `MappingOutcomes.DataDestroyLevels` | runtime/rmi/rtt.c:1346-1431 | After success exactly the returned granule was released, and the reported top lies beyond the page: the next live entry of the table, or its end. |
| `MappingOutcomes.DataThereAndBack` | runtime/rmi/rtt.c:889-1431 | Destroying right after creating returns the granule and restores every granule state and page, except that RAM becomes DESTROYED. |
| `Rmm.Monitor.DestroyData` | runtime/rmi/rtt.c:1346-1431 | The step-by-step command computes the specified state and outputs; the mapped granule is always a DATA granule, so its assertion holds; no lock is held afterwards. |
| `RipasCommands.SetRipasFlat` | runtime/rmi/rtt.c:1630-1791 | A successful RTT_SET_RIPAS advances the cursor, not beyond the requested top, gives exactly the pages it passes the requested RIPAS with HIPAS and address kept, DESTROYED ones only if allowed, and changes no other page. |
| `RipasCommands.NoRequestNoChange` | runtime/rmi/rtt.c:1737-1745 | Without a pending request RTT_SET_RIPAS fails and changes nothing. |
| `RipasOutcomes.ApplyExactly` | runtime/rmi/rtt.c:1451-1520 | An entry can be changed exactly if the pages it maps may be: they have a RIPAS, and DESTROYED only if released; tables never. |
| `RipasOutcomes.SetRipasOutcome` | runtime/rmi/rtt.c:1691-1791 | RTT_SET_RIPAS succeeds exactly if it continues a request from an address aligned to the level of its mapping, an entry of that level fits below the top, and the page is not DESTROYED or was released; each failure has its exact condition. |
| `RipasOutcomes.SetRipasReach` | runtime/rmi/rtt.c:1630-1689 | A successful call moves by whole entries, changes exactly the pages it passes to the requested RIPAS, and stops only where the next entry would pass the top, at the end of the table, at another level, or at a DESTROYED page that was not released. |
| `RipasOutcomes.SetRipasAll` | runtime/rmi/rtt.c:1630-1689 | If all pages up to an aligned top are in one table, mapped by its entries and changeable, one call changes them all. |
| `RipasOutcomes.RequestProgress` | runtime/rmi/rtt.c:1691-1791 | A request can always be served further unless its next page is DESTROYED and not released: RTT_SET_RIPAS succeeds, or RTT_CREATE with any DELEGATED granule maps the page one level further down; at page level the former. |
| `RipasCommands.RequestInv` | runtime/rmi/rtt.c:1691-1791 | RTT_SET_RIPAS keeps the invariant and leaves a well-formed request; other RECs are untouched. |
| `Rmm.Monitor.ServeRipas` | runtime/rmi/rtt.c:1691-1791 | The step-by-step command computes the specified state and outputs, and holds no lock afterwards. |
| `RipasCommands.InitRipasFlat` | runtime/rmi/rtt.c:1522-1628 | RTT_INIT_RIPAS turns exactly the unassigned EMPTY or RAM pages it passes into RAM. |
| `RipasOutcomes.InitRipasOutcome` | runtime/rmi/rtt.c:1522-1628 | RTT_INIT_RIPAS succeeds exactly for a page-aligned range inside the PAR of a new realm, from an address aligned to the level of its mapping, with room for an entry and an unassigned EMPTY or RAM page there; each failure has its exact condition. |
| `RipasOutcomes.InitRipasReach` | runtime/rmi/rtt.c:1522-1628 | A successful call goes as far as it can. |
| `Rmm.Monitor.InitialRipas` | runtime/rmi/rtt.c:1522-1628 | The step-by-step command computes the specified state and outputs, and holds no lock afterwards. |
| `Rmm.Monitor.UpdateRange` | runtime/rmi/rtt.c:1630-1689 | The range loop computes the specified range operation, and reads no entry a level -1 table does not have. |
| `RmmRecs.RequestRipas` | runtime/rsi/memory.c:13-46 | Granted exactly for a page-aligned, non-empty range inside the PAR and a RIPAS other than DESTROYED; the REC then has a well-formed request with nothing served yet, every other REC and the rest of the state are untouched, and the whole invariant is kept; a refused call changes nothing. |
| `RmmRecs.EndRequest` | runtime/rmi/run.c:85-106 | The realm learns an address within its request up to which the host got, and of a rejection exactly if a change to RAM was left incomplete and the host rejects; no request is left, nothing else changes and the invariant is kept. |
| `Runs.RipasRoundTrip` | runtime/rmi/run.c:85-106 | A RIPAS change from request through any number of host calls to completion: exactly the pages of the range up to the reported address changed, each as requested, no other page of any realm, and no request is left. |
| `Runs.RunFurther` | runtime/rmi/rtt.c:1691-1791 | Over any run of commands that does not end it, a request stays the same, its cursor only grows and never passes the requested top. |
| `Runs.ServeRequest` | runtime/rmi/rtt.c:1691-1791 | After any number of RTT_SET_RIPAS calls for a request, exactly the pages between the old and the new cursor have the requested RIPAS, everything else as before. |
| `RttQueries.SkipNonLiveFlat` | lib/s2tt/src/s2tt.c:1294-1340 | Every page from the queried address to the skip result is non-live. |
| `RttQueries.SkipNonLiveEnd` | lib/s2tt/src/s2tt.c:1294-1340 | The skip result is the queried address exactly if its entry is live, else a later entry that is live or the end of the table. |
| `RttQueries.IpaStateGetFlat` | runtime/rsi/realm_ipa_helper.c:190-252 | Every page from the queried start to the returned top, which lies beyond it, has the reported RIPAS. |
| `RttQueries.IpaStateGetError` | runtime/rsi/memory.c:48-74 | IPA_STATE_GET fails exactly for ranges that are malformed or not protected. |
| `RipasOutcomes.IpaStateGetReach` | runtime/rsi/realm_ipa_helper.c:190-252 | The reported top is as far as the RIPAS runs: the end of the query or of the table, an address mapped at another level, or a page with another RIPAS. |
| `IpaHelpers.ScanRipas` | runtime/rsi/realm_ipa_helper.c:190-252 | The scan loop computes the specified RIPAS and top. |
| `RttQueries.IpaToPaOwned` | runtime/rsi/realm_ipa_helper.c:40-95 | The address the RMM accesses for a realm is that of a DATA granule which this realm owns at this page. |
| `RipasOutcomes.IpaToPaExactly` | runtime/rsi/realm_ipa_helper.c:40-95 | The translation answers exactly for protected pages that are assigned and RAM, with the address they map to. |
| `IpaHelpers.MapIpaCounts` | runtime/rsi/realm_ipa_helper.c:253-289 | map_ipa_to_pa keeps the reference counts right if and only if the page it maps was not assigned. |
| `IpaHelpers.MapIpaInv` | runtime/rsi/realm_ipa_helper.c:253-289 | In that case, mapping an aligned address in range keeps the whole table invariant. |
| `IpaHelpers.MapTwiceMiscounts` | runtime/rsi/realm_ipa_helper.c:253-289 | Mapping the same page twice takes two references for one entry. |
| `IpaHelpers.UnmapIpaInv` | runtime/rsi/realm_ipa_helper.c:297-341 | unmap_ipa_from_rd always keeps the reference counts and the table invariant. |
| `IpaHelpers.HelpersFlat` | runtime/rsi/realm_ipa_helper.c:253-341 | Mapping and unmapping change exactly the page of the address, if it is mapped at page level, and no other page of any realm. |
| `IpaHelpers.MapIpaToPa` | runtime/rsi/realm_ipa_helper.c:253-289 | The helper as carried out computes the specified state and leaves the locks as they were. |
| `IpaHelpers.UnmapIpaFromRd` | runtime/rsi/realm_ipa_helper.c:297-341 | The helper as carried out computes the specified state and leaves the locks as they were. |
| `RealmCommands.RealmCreateFlat` | runtime/rmi/realm.c:393-477 | In a new realm every protected address is unassigned and EMPTY and every other one unmapped; no other realm changes. |
| `RealmCommands.RealmCreateInv` | runtime/rmi/realm.c:393-477 | REALM_CREATE keeps the invariant. |
| `RealmOutcomes.RealmCreateOutcome` | runtime/rmi/realm.c:234-477 | REALM_CREATE succeeds exactly if the address space fits the tables asked for, the root tables are as many as it needs, and RD and root tables are DELEGATED and apart. |
| `RealmOutcomes.RealmCreateLevels` | runtime/rmi/realm.c:393-477 | The new realm is new, has the geometry asked for and maps every address at its starting level; exactly RD and root tables changed their state. |
| `RealmOutcomes.CreateThenDestroyRealm` | runtime/rmi/realm.c:393-549 | REALM_DESTROY right after REALM_CREATE succeeds and restores the state exactly. |
| `RmmRealms.CreateRealm` | runtime/rmi/realm.c:393-477 | The step-by-step command computes the specified state, and holds no lock afterwards. |
| `RmmRealms.FindLockRealm` | runtime/rmi/realm.c:338-391 | RD and root tables are all locked if all are DELEGATED, else none. |
| `RealmCommands.RealmDestroyLeavesNothing` | runtime/rmi/realm.c:500-549 | A successful REALM_DESTROY leaves no table and no DATA granule of the realm behind: its root tables were all its tables. |
| `RmmRealms.DestroyRealm` | runtime/rmi/realm.c:479-549 | The step-by-step command computes the specified state, and holds no lock afterwards. |
| `RmmRealms.SumRefcounts` | runtime/rmi/realm.c:479-498 | The loop adds up the counts of the root tables, locking one at a time. |
| `RmmRealms.FreeRoots` | runtime/rmi/realm.c:326-336 | The loop wipes and releases exactly the root tables. |
| `RealmCommands.TotalZero` | runtime/rmi/realm.c:479-498 | The sum is zero exactly if every root table's count is. |
| `RealmOutcomes.RealmDestroyOutcome` | runtime/rmi/realm.c:500-549 | REALM_DESTROY succeeds exactly if the realm has no REC and its root tables refer to no table and no protected memory. |
| `RealmCommands.SetRealmStateInv` | runtime/rmi/realm.c:25-50 | REALM_ACTIVATE and PSCI_SYSTEM_OFF keep the invariant. |
| `RealmOutcomes.RealmActivateOutcome` | runtime/rmi/realm.c:25-50 | REALM_ACTIVATE succeeds exactly for a new realm, which becomes active; nothing else changes. |
| `RealmOutcomes.RealmActivateFlat` | runtime/rmi/realm.c:25-50 | Every address maps what it did, at its level. |
| `RealmLifecycle.SystemOffOutcome` | runtime/rsi/psci.c:215-250 | PSCI_SYSTEM_OFF turns off the realm of the REC and changes nothing else. |
| `RealmLifecycle.RealmGrowsOlder` | runtime/rmi/realm.c:25-50 | Over every run that does not destroy it a realm keeps its geometry and goes from new to active to off only, never back. |
| `RealmLifecycle.ActiveIsSealed` | runtime/rmi/rtt.c:873-887 | Once a realm is not new, over every run: no content is copied in, no RIPAS initialised, no REC added, and it is not activated again. |
| `RealmCommands.DelegateInv` | runtime/rmi/granule.c:14-69 | GRANULE_DELEGATE and GRANULE_UNDELEGATE keep the invariant. |
| `RealmOutcomes.DelegateOutcome` | runtime/rmi/granule.c:14-69 | Both commands: exact success condition, the new granule, and nothing else changes. |
| `RmmRecs.Delegate` | runtime/rmi/granule.c:14-44 | The step-by-step command computes the specified state: the granule is wiped before it is unlocked. |
| `RmmRecs.Undelegate` | runtime/rmi/granule.c:46-69 | The step-by-step command computes the specified state. |
| `RecCommands.AddRecInv` | runtime/rmi/rec.c:249-401 | REC_CREATE keeps the table invariants. |
| `RecCommands.AddRecRecs` | runtime/rmi/rec.c:249-401 | REC_CREATE keeps the RD's count equal to its number of RECs and auxiliary granules apart. |
| `RealmOutcomes.RecCreateOutcome` | runtime/rmi/rec.c:249-401 | REC_CREATE succeeds exactly if the parameters can be read, name sixteen different DELEGATED auxiliary granules and the next index, the REC granule is DELEGATED and none of them, and the realm is new with room for a REC; exactly these granules change their state. |
| `RealmOutcomes.RecDestroyOutcome` | runtime/rmi/rec.c:403-446 | REC_DESTROY removes exactly the REC; its granules are DELEGATED and wiped. |
| `RealmOutcomes.CreateThenDestroyRec` | runtime/rmi/rec.c:249-446 | REC_DESTROY right after REC_CREATE restores the state exactly. |
| `RmmRecs.CreateRec` | runtime/rmi/rec.c:249-401 | The step-by-step command computes the specified state and status on success, on failure, where the auxiliary granules are given back untouched, and where it runs into its assertion; no lock is held afterwards. |
| `RecCommands.RecCreateAssertion` | runtime/rmi/rec.c:285-300 | REC_CREATE runs into the assertion of the second unlock exactly if the parameters can be read and name at most 16 auxiliary granules, the first of which is DELEGATED, but not all are DELEGATED and different. |
| `Runs.RecAssertionReached` | runtime/rmi/rec.c:285-300 | One granule, delegated and then named twice, is enough to reach it. |
| `RecCommands.TakeGranulesInv` | runtime/rmi/rec.c:285-300 | The granules taken before that assertion leave every invariant intact. |
| `RecCommands.DropRecRecs` | runtime/rmi/rec.c:403-446 | REC_DESTROY keeps the RD's count equal to its number of RECs. |
| `RecCommands.DropRecCount` | runtime/rmi/rec.c:435-443 | The RD's count is positive before REC_DESTROY takes it down. |
| `RmmRecs.DestroyRec` | runtime/rmi/rec.c:403-446 | The step-by-step command computes the specified state: REC and auxiliary granules wiped and DELEGATED. |
| `RecCommands.NoRecs` | runtime/rmi/realm.c:508-518 | REALM_DESTROY's test of the RD count rules out RECs of the realm. |
| `Runs.ExecGood` | runtime/rmi/rtt.c:80-1791 | Every command keeps the whole invariant, whether it succeeds or fails. |
| `Runs.ReachableCounts` | lib/granule/include/granule.h:225-269 | In every reachable state the count of an RTT granule is its number of table entries and protected mappings, hence at most 512. |
| `Runs.ReachableForest` | runtime/rmi/rtt.c:343-349 | In every reachable state the tables form a forest whose roots are the root tables of the realms: RTT granules are exactly the tables found from them, each by one path, of at most 4 entries, from one root of one realm; no table is found below itself; one entry names a table, and none a root. |
| `RttForest.FoundFromRoot` | runtime/rmi/rtt.c:343-349 | Every table is found from a root table of its realm by the path recorded for it. |
| `RttForest.FoundOnce` | runtime/rmi/rtt.c:343-349 | A table is found from one root table of one realm only, and by one path. |
| `RttForest.NoCycle` | runtime/rmi/rtt.c:343-349 | No table is found below itself. |
| `Runs.ReachableData` | runtime/rmi/rtt.c:983-994 | In every reachable state each DATA granule is mapped at exactly one address of one realm, and every protected mapping is of a DATA granule. |
| `Runs.ReachablePar` | runtime/rmi/rtt.c:569-573 | In every reachable state non-secure memory is mapped outside the PAR only, and nothing else is there. |
| `Runs.ReachableZero` | lib/granule/include/granule_types.h:60-66 | In every reachable state a DELEGATED granule contains only zeroes and is unreferenced. |
| `Runs.ReachableDestroy` | runtime/rmi/realm.c:500-549 | In every reachable state, after a successful REALM_DESTROY the RD and all tables below its roots are DELEGATED, zero and unreferenced; every RTT granule left is below a root of another realm, every DATA granule is mapped by another realm, no REC belongs to it, and the other realms map what they did. |
| `GranuleLocks.SortGranules` | lib/granule/src/granule.c:138-152 | The in-place sort orders the items by address and permutes them. |
| `GranuleLocks.InsertGranule` | lib/granule/src/granule.c:140-151 | One round moves an item to its place among the sorted ones before it, keeping all items. |
| `GranuleLocks.Locker.FindLockGranules` | lib/granule/src/granule.c:182-213 | Either all granules are locked, in strictly ascending address order and their expected states, and returned, or no lock is held and no result written; it fails exactly on duplicates and mismatches. |
| `GranuleLocks.Locker.LockAll` | lib/granule/src/granule.c:188-212 | The locking loop with its rollback. |
| `GranuleLocks.RunNoCircle` | lib/granule/include/granule_types.h:12-58 | In every run from threads that hold nothing, at every moment: no lock has two holders, no chain of waiting threads returns to its start, and if a thread waits, one can acquire what it waits for or has all it wants. |
| `GranuleLocks.NoCircle` | lib/granule/include/granule_types.h:12-58 | Where no lock has two holders and all threads lock in ascending order, no chain of waiting threads returns to its start. |
| `GranuleLocks.SomebodyMoves` | lib/granule/include/granule_types.h:12-58 | If a thread waits, some thread can acquire its lock or has all it wants. |
| `GranuleLocks.RunExclusive` | lib/granule/include/granule.h:158-188 | In every run a lock is held by one thread at most. |
| `GranuleWord.SetStateFields` | lib/granule/include/granule.h:134-151 | Setting the state by exclusive-or leaves count and lock alone. |
| `GranuleWord.AddFields` | lib/granule/include/granule.h:225-232 | An increment within the field leaves state and lock alone. |
| `GranuleWord.SubtractFields` | lib/granule/include/granule.h:249-259 | A decrement to zero or more, as an addition of the negated value, leaves state and lock alone. |
| `RecProtocol.StepInv` | runtime/rmi/run.c:197-336 | Every step of REC_ENTER, REC_DESTROY, RTT_SET_RIPAS, PSCI_COMPLETE and of running RECs keeps the ownership invariant, and that a pending request comes from a REC that is on, is about another REC, and names a protected entry point. |
| `RecProtocol.SingleUser` | runtime/rmi/run.c:197-336 | In every interleaving a REC's count is 0 or 1, at most one PE uses it, and it exists while used. |
| `RecProtocol.WriteDiscipline` | runtime/rmi/rtt.c:1721-1732 | In every interleaving a REC's mutable state is changed only by the PE that runs it or by one that has locked it while its count is 0, and at any time at most one PE can take a step that changes it. |
| `RecProtocol.TurnedOnOnlyByRequest` | runtime/rsi/psci.c:333-429 | In every interleaving an off REC becomes runnable only by the completion of a CPU_ON request of a REC of its realm naming its index, not denied, and starts at the protected address given there, with the given context in x0. |
| `RecProtocol.AssertionExactly` | runtime/rsi/psci.c:388-420 | psci_complete_request meets its assertion exactly for a pending request of the same realm naming the target that was made with a non-zero upper half of x0: the call looks at the lower half, the completion at the whole register. |
| `RecProtocol.PanicExactly` | runtime/rsi/psci.c:388-420 | The same for the steps of any PE, in every interleaving. |
| `RecProtocol.NeverPanics` | runtime/rsi/psci.c:280-303 | In every interleaving in which all such calls have a zero upper half of x0, no PE meets the assertion. |
| `RecProtocol.WideCallPanics` | runtime/rsi/psci.c:280-420 | Every REC whose first call is a valid CPU_ON with a non-zero upper half of x0 leads to the assertion. |
| `RecProtocol.WideCallExists` | runtime/rsi/psci.c:280-303 | There is such a REC. |
| `RecProtocol.RecMemory.HandleCpuOn` | runtime/rsi/psci.c:123-167 | The request waits for the host exactly if it names a protected entry point and another REC of the realm; each other outcome has its exact condition; nothing but the pending flag changes, and a request of a running REC is well formed. |
| `RecProtocol.RecMemory.HandleAffinityInfo` | runtime/rsi/psci.c:169-213 | The request waits for the host exactly if it asks for the lowest affinity level and names another REC of the realm; each other outcome has its exact condition; nothing but the pending flag changes, and a request of a running REC is well formed. |
| `RecProtocol.RecMemory.TurnOn` | runtime/rsi/psci.c:333-357 | Only a REC that is off and unreferenced is changed, and only if the host does not deny; its x0 becomes the context, and since a REC that waits for an answer is on, no pending request is overwritten. |
| `RecProtocol.RecMemory.CompleteRequest` | runtime/rsi/psci.c:369-429 | An answered AFFINITY_INFO leaves 0 in x0 exactly if the target is referenced or runnable, else 1; an answered CPU_ON leaves -4, -3 or 0, each with its exact condition; x1 to x3 are zero; only a CPU_ON with 0 changes the target. The assertion is met exactly for a request made with a non-zero upper half of x0, with nothing changed. |
| `RecProtocol.CompletionAnswers` | runtime/rsi/psci.c:333-429 | The same for the specified completion, with the exact condition under which a request is answered. |
| `RecScenarios.PsciAnswered` | runtime/rsi/psci.c:333-429 | The same for the steps of any PE, in every interleaving; no other REC changes. |
| `RecScenarios.CallAnswers` | runtime/rsi/psci.c:123-213 | A call that is answered at once leaves -9, -2, -4 or 0 in x0, each with its exact condition; any other valid call waits for the host. |
| `RecScenarios.CallOffAnswers` | runtime/rsi/psci.c:65-92 | CPU_OFF turns the running REC off, with 0 in x0, and leaves the realm. |
| `RecScenarios.CpuOnStarts` | runtime/rsi/psci.c:123-429 | From call over completion to entry: the caller reads SUCCESS and can be entered again, and the target runs at the entry point with the context in x0. |
| `RecScenarios.IndexOfMpidr` | runtime/include/rec.h:343-353 | The index of a REC consists of the four affinity fields of its MPIDR; all other bits are ignored. |
| `RecScenarios.EnterRuns` | runtime/rmi/run.c:197-336 | REC_ENTER runs a REC that nobody uses, is on and waits for no answer, in an active realm, with the only reference and no lock left. |
| `RecScenarios.EnterRefused` | runtime/rmi/run.c:236-336 | In every other case of an unused REC it restores everything. |
| `RecScenarios.EnterBusy` | runtime/rmi/run.c:197-208 | A REC in use is not entered, and nothing changes. |
| `RecScenarios.EnterThenExit` | runtime/rmi/run.c:197-336 | Entering and leaving restores everything. |
| `RecScenarios.DestroyRemoves` | runtime/rmi/rec.c:403-446 | REC_DESTROY removes exactly a REC that nobody uses. |
| `RecScenarios.RipasMoves` | runtime/rmi/rtt.c:1721-1791 | RTT_SET_RIPAS moves the cursor of a REC that nobody uses, and nothing else. |
| `RecScenarios.CompleteAnswers` | runtime/rmi/rec.c:471-526 | PSCI_COMPLETE answers the request of a caller that nobody uses, where it can be answered, and changes nothing else. |
| `HeapLayout.PlaceTiled` | lib/allocator/src/memory_alloc.c:183-244 | Allocating in a free block keeps the tiling of the buffer, alignment, and no two free neighbours. |
| `HeapLayout.ReleaseTiled` | lib/allocator/src/memory_alloc.c:289-352 | Freeing with coalescing keeps the tiling, alignment, and no two free neighbours. |
| `HeapLayout.ReleasePlace` | lib/allocator/src/memory_alloc.c:183-352 | Freeing a block right after allocating it restores the layout. |
| `HeapLayout.ReleaseLive` | lib/allocator/src/memory_alloc.c:265-358 | Freeing removes exactly this allocation. |
| `HeapLayout.ReleaseAllOne` | lib/allocator/src/memory_alloc.c:265-358 | Freeing all live allocations in any order restores one free block. |
| `Allocator.NewIsDisjoint` | lib/allocator/src/memory_alloc.c:138-255 | A new allocation overlaps no live one, and all of those stay live. |
| `Allocator.FreeRestores` | lib/allocator/src/memory_alloc.c:265-358 | Freeing an allocation at once restores the block layout. |
| `Allocator.Heap.Calloc` | lib/allocator/src/memory_alloc.c:138-255 | NULL exactly for empty, overflowing or unsatisfiable requests; otherwise an aligned region in the buffer from a free block, with the requested bytes zero and all other bytes unchanged. |
| `Allocator.Heap.FindFit` | lib/allocator/src/memory_alloc.c:167-177 | The search returns the first block of the free list that is large enough, or there is none in the heap. |
| `Allocator.Heap.Free` | lib/allocator/src/memory_alloc.c:265-358 | The block is freed and joined with its free neighbours; NULL changes nothing. |
| `Allocator.Heap.Init` | lib/allocator/src/memory_alloc.c:417-453 | The heap is one free block from the first aligned address to the end of the buffer. |
| `Allocator.Heap.VerifyChain` | lib/allocator/src/memory_alloc.c:82-136 | verify_chain finds every reachable heap in order. |
| `HeapChain.TakeWholeLists` | lib/allocator/src/memory_alloc.c:184-200 | Taking a whole block removes it from the free list; both lists stay well formed and agree. |
| `HeapChain.SplitLists` | lib/allocator/src/memory_alloc.c:213-244 | Splitting inserts the rest into the block list and puts it in the place of the block in the free list. |
| `HeapChain.JoinBeforeLists` | lib/allocator/src/memory_alloc.c:291-303 | Joining with the block before unlinks the header from the block list; the free list stays. |
| `HeapChain.JoinAfterLists` | lib/allocator/src/memory_alloc.c:305-339 | Joining with the block after unlinks it and takes over its place in the free list. |
| `HeapChain.PushFreeLists` | lib/allocator/src/memory_alloc.c:342-352 | A block that joins none goes to the head of the free list. |
| `LinkedLists.InsertBehind` | lib/allocator/src/memory_alloc.c:213-225 | Relinking two nodes puts a new one between them. |
| `LinkedLists.Prepend` | lib/allocator/src/memory_alloc.c:346-352 | A node outside the list becomes the first. |
| `LinkedLists.Unlink` | lib/allocator/src/memory_alloc.c:188-200 | Relinking the neighbours of a node takes it out of the list. |
| `LinkedLists.Substitute` | lib/allocator/src/memory_alloc.c:227-238 | Relinking the neighbours of a node to another puts that one in its place. |
| `Apt.ReachableTable` | runtime/rsi/shared_memory.c:27-780 | Over every sequence of CSM calls on a table, packed lists and masks describe the same sets, enabled regions are used, no enabled slave range shares an address with another or with an enabled master, and share counts equal the shares in use, with distinct slaves. |
| `Apt.DoInv` | runtime/rsi/shared_memory.c:27-780 | Every CSM call keeps the invariant of the table. |
| `Apt.CreateKeepsMastersApart` | runtime/rsi/shared_memory.c:58-70 | A granted CSM creation keeps the enabled master regions apart exactly if the range conflicts with no enabled region, masters included. |
| `Apt.MastersMayOverlap` | runtime/rsi/shared_memory.c:58-70 | Two creations of the same range are both granted: the creation check skips masters. |
| `Apt.ReservesNothing` | runtime/rsi/shared_memory.c:288-300 | CSM reservation reports success and reserves nothing exactly if the request is valid, granted and free of conflicts and all slave slots are in use. |
| `Apt.FullTableIsSilent` | runtime/rsi/shared_memory.c:288-300 | After reservations of the first 20 pages, that of the next one reports success, leaves the table as it is, and no enabled region holds the page. |
| `Apt.AptGranule.Create` | runtime/rsi/shared_memory.c:27-100 | The call carried out on the table computes the specified table and status and keeps the invariant. |
| `AptLaws.CreateOutcome` | runtime/rsi/shared_memory.c:27-100 | CSM_CREATE is granted exactly for a page-aligned, non-empty range that overlaps no enabled slave region, with an identifier and a free slot. |
| `AptLaws.CreateFinds` | runtime/rsi/shared_memory.c:78-94 | After a granted CSM_CREATE with a new identifier exactly one used slot has it: it is enabled, with the requested range and no share, and nothing else changed. |
| `AptLaws.CreateThenShare` | runtime/rsi/shared_memory.c:145-160 | A region that was just created can be shared. |
| `AptLaws.CreateThenDestroy` | runtime/rsi/shared_memory.c:732-752 | CSM_DESTROY right after CSM_CREATE is granted and restores used and enabled regions. |
| `AptLaws.ShareOutcome` | runtime/include/apt.h:177-208 | CSM_SHARE is granted exactly if the region exists, is not shared with the slave and has a slot left; then one slot holds the given slave, RD and permission, and all else is as it was. |
| `AptLaws.ShareThenRevoke` | runtime/rsi/shared_memory.c:598-616 | CSM_REVOKE right after CSM_SHARE is granted and restores the shares in use and their count. |
| `AptLaws.RevokeEnds` | runtime/rsi/shared_memory.c:598-616 | CSM_REVOKE ends exactly the share with the slave. |
| `AptLaws.ReserveFinds` | runtime/rsi/shared_memory.c:288-300 | After a granted CSM_RESERVE with room exactly one used slot has the identifier, enabled, with exactly the entry. |
| `AptLaws.ReserveThenDetach` | runtime/rsi/shared_memory.c:487-509 | CSM_DETACH right after CSM_RESERVE is granted and restores used and enabled regions. |
| `AptLaws.ReleaseOutcome` | runtime/rsi/shared_memory.c:732-752 | CSM_DESTROY is granted exactly for a region that exists and is shared with nobody, and clears its slot; CSM_DETACH exactly for a reserved one. |
| `Apt.AptGranule.Reserve` | runtime/rsi/shared_memory.c:176-310 | The call carried out on the table of the slave computes the specified table and status, a full table included, and keeps the invariant. |
| `Apt.PushInPlace` | runtime/core/apt_helpers.c:19-35 | Pushing adds exactly the region to list, positions and mask; there is always room. |
| `Apt.PopInPlace` | runtime/core/apt_helpers.c:37-61 | Swap-pop removes exactly the region from list, positions and mask. |
| `Apt.RangeOverlaps` | runtime/core/apt_helpers.c:64-76 | In 64-bit arithmetic: ranges share an address, or one wraps around. |
| `Apt.DisjointRanges` | runtime/core/apt_helpers.c:64-76 | Ranges that do not overlap have no address in common. |
| `Apt.AptGranule.FindConflict` | runtime/core/apt_helpers.c:173-204 | The search answers whether the range overlaps an enabled slave or, if asked, master region. |
| `Apt.AptGranule.Add` | runtime/core/apt_helpers.c:84-111 | The first free master slot is filled and enabled, or the table is full. |
| `Apt.AptGranule.AddReserved` | runtime/core/apt_helpers.c:113-141 | The first free slave slot is filled and enabled, or the table is full. |
| `Apt.AptGranule.AddShare` | runtime/include/apt.h:177-208 | A new share goes to the first unused slot and is counted, unless there is one for the slave or none is left. |
| `Apt.AptGranule.Detach` | runtime/rsi/shared_memory.c:487-509 | The slave entry of the region is disabled and released. |
| `Apt.AptGranule.Revoke` | runtime/rsi/shared_memory.c:598-616 | The share of the slave is released and no longer counted. |
| `Apt.AptGranule.Destroy` | runtime/rsi/shared_memory.c:732-752 | The region is disabled, released and cleared if it has no shares. |
| `Apt.RevokeFinds` | runtime/rsi/shared_memory.c:598-616 | A share can be revoked exactly if it exists. |
| `Apt.DestroyInv` | runtime/rsi/shared_memory.c:739-752 | A region is destroyed only when no share of it is in use. |
| `Registries.RegionIds.Assign` | runtime/core/csm_id.c:43-80 | Fails exactly when all 64 slots are in use; otherwise the identifier is a non-zero byte not in use. |
| `Registries.RegionIds.FindId` | runtime/core/csm_id.c:57-66 | With a free slot, an unused identifier is found within 64 tries in spite of the wrapping 8-bit counter. |
| `Registries.RegionIds.Remove` | runtime/core/csm_id.c:82-101 | Releases exactly the identifier; fails exactly when it is not in use. |
| `Registries.RealmTags.Assign` | runtime/core/realm_tag.c:91-122 | Fails exactly when the RD has a tag or all 10 slots are in use; otherwise the tag is a non-zero byte not in use. |
| `Registries.RealmTags.FindNewTag` | runtime/core/realm_tag.c:33-115 | With a free slot, an unused tag is found within 16 tries. |
| `Registries.TooManyTags` | runtime/core/realm_tag.c:33-49 | Sixteen generated tags in a row contain ten different ones, the default tags and the replacement of 0 by 1 included. |
| `Registries.RealmTags.TagOf` | runtime/core/realm_tag.c:124-135 | The tag of an RD, which no other RD has. |
| `Registries.RealmTags.OwnerOf` | runtime/core/realm_tag.c:175-194 | The RD of a tag, which has no other tag: the inverse lookup. |
| `Registries.RealmTags.Remove` | runtime/core/realm_tag.c:137-153 | Releases exactly the tag of the RD. |
| `Registries.DistinctFit` | runtime/core/csm_id.c:57-66 | Pigeonhole: distinct candidates that are all in use are at most as many as the identifiers in use. |

## Left out

- Addresses and sizes are natural numbers; wrap-around is modelled where it matters: table entry words, granule descriptors, the allocator's product of sizes, range overlap, and the counters of the registries.
- Table contents are decoded entries outside `S2tteCodec`; a zeroed word is the unassigned EMPTY entry, as the encoding has it.
- Granule contents other than tables and REC fields are modelled as zero or not zero.
- Commands in `Rmm`, `RmmRealms` and `RmmRecs` run one at a time; interleaving is modelled in `GranuleLocks` and `RecProtocol`.
- Buffer mapping slots, TLB and cache maintenance, barriers, system registers, timers, GIC, SIMD, PMU and return address authentication.
- Measurement, attestation and the VMID table; the checks of realm parameters that do not concern the tables are one Boolean.
- The checks of the source granule and of the flags of DATA_CREATE, and RTT_READ_ENTRY.
- Sharing propagation on DATA_CREATE and DATA_DESTROY, CSM attach, APT_CREATE and APT_DESTROY: the commands are modelled for realms without an APT.
- CSM calls are modelled one table at a time: that the master's table grants a reservation is a parameter.
- Read-only protected mappings, which no command creates.
- A command that runs into an assertion returns `AssertionFailure`; a PE that does so takes no further step, and what the rest of the system does then is not modelled for table commands.
- The registers and system registers of RECs, beyond x0 to x3 and the program counter.
- The allocator's magic words: a header exists where the block list has a node; the verify flag is off, as initialisation leaves it.
- Spin locks of the registries, console, boot, EL3 interface beyond its answer to delegation, dispatch tables and the Python tooling.
- In the machine of the tables RECs carry no index, and whether REC_CREATE names the next one is a Boolean; `RecProtocol` has the indices.
