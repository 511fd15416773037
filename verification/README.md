# A model of the dynamic linker

The repository is a dynamic linker written in Go: it loads ELF shared objects, keeps a
registry of them, relocates them and resolves symbols. This project models its five parts
that hold the hard properties and proves those properties for all inputs, all runs and all
interleavings.

`dafny verify dfyconfig.toml` checks everything.

## The parts

1. **Library registry and loading protocol** (`dl/dl.go`).
   `RegistryModel` gives the values of `loaded`, `loading`, `globals` and `RefCount` and what
   each critical section under `mu` does to them. It is used twice.
   `Registry` is the code as one goroutine runs it: objects with fields, recursion over
   `DT_NEEDED`, each method tied to a function of `OpenSpec`. `Protocol` is a step system
   with any number of goroutines: a critical section is one step, each call has its own
   stack of frames and its own `visiting`, sleepers wait on the condition variable.
   `OneSchedule` proves that the first is one of the schedules of the second.
   On the step system: `Liveness` (exclusive loading, no lost wake-up, termination),
   `Deadlock` (deadlock happens exactly when two or more files depend on each other in a
   cycle), `Accounting` (conservation of reference counts, no dangling dependency),
   `Scenarios` (two concrete runs), `Flags` (which libraries are global), `GlobalScope` (symbol resolution and its stability along runs).
2. **Hash-indexed symbol lookup** (`symbol`). `Symbols` holds the entries, the string table
   and the linear scan, `GnuHash` and `SysvHash` the two hash tables over 32-bit words,
   `SymbolTable` the index and its choice among versions, `IndexAgreement` the agreement of
   all three.
3. **Mapping, relocation, GOT** (`elf/parse.go`, `loader/loader.go`). `Layout` is the 64-bit
   arithmetic of the program headers, `Image` the mapping into a paged memory with
   per-page protection, `Relocation` the RELA and JMPREL loops, `Got` the allocator of TLS
   GOT pairs.
4. **TLS** (`internal/tls`). `TlsModel` has the state as a value, its invariant and its runs;
   `Tls` the classes and their methods.
5. **ld.so.cache** (`dl/ldcache.go`). `LdCache` has the byte parser and the encoder of
   `dl/ldcache_test.go`.

`Bits`, `Words` and `Wrappers` are shared arithmetic on 64-bit words, bytes and masks.

## Foreign code

The file system, the ELF parser and `loader.Load` are an environment: which path a name
resolves to for a parent, which `DT_NEEDED` and `DT_SONAME` a path has, whether it loads.
In `Protocol` each load succeeds or fails at will; in `Registry` and `OpenSpec` the set of
loadable files is fixed. The kernel is an oracle bound by a contract: `mmap` fails or gives
whole pages clear of every live mapping, `mprotect` and `MAP_FIXED` act on exactly the pages
named, `munmap` fails or removes one mapping.

Names: a resolved path used as a name stands for itself, and a `DT_SONAME` is never the
path of another file (`Env.WellFormed`), because `registerLibrary` writes both kinds of key
into one map.

## What turned out false, and exactly when it holds

- Opens can wait for each other for ever: `visiting` belongs to one call, so a cycle through
  two or more files is not noticed across calls. `Deadlock.DeadlockIffCycle` proves that
  deadlock is possible if and only if there is such a cycle.
- A repeated request for a GOT pair does not always give the first address: the cached
  branch adds the offset to the first page. `Got.RepeatIsFirst` gives the exact condition,
  `Got.RepeatCanMiss` a run of 257 symbols where it fails.
- The alignment mask of TLS blocks rounds up to a multiple of the alignment if and only if
  the alignment is a power of two (`TlsModel.RoundsUpIffPower`); it covers the size if and
  only if the sum does not wrap (`TlsModel.AlignUpCovers`).
- RegisterModule takes any sizes, so an allocation can write beyond its mapping: it stays
  inside if and only if the template, if there is one, and the size, if there is something to
  zero, are at most the pages that the aligned size needs (`TlsModel.WritesInsideIff`).
  `TlsModel.CopiesBeyond` and `Tls.OverwritesNeighbour` are a module where it does not, with
  p_filesz above p_memsz.
- A segment is loaded as the file says, for every file, if and only if it has no file part or
  p_vaddr and p_offset are congruent modulo the page size (`Image.AsFileIffMappable`).
- The check of a relocation offset looks at the first byte only, so a store can reach behind
  the image: an entry stays inside if and only if its whole word lies before the end, which
  natural alignment ensures (`Relocation.StaysInsideIff`; `Relocation.StoresBehind` is an
  input where it does not).
- Unique names among the defined symbols do not make the three indexes agree: an undefined
  entry of the same name shadows the defined one in the SysV table
  (`IndexAgreement.UndefinedShadows`). All three find an accepted entry if and only if no
  entry of its name stands before it in the GNU table or on its SysV chain and it wins the
  choice among versions (`IndexAgreement.IndexesAgree`).
- A lookup is independent of the order of the symbol table if and only if the candidates of
  the name build the same symbol (`SymbolTable.OrderFreeIffOneMeaning`).
- `symbol/symbol.go:105` says that the loop over a table of unknown size stops at the first
  all-zero entry. It does not (`symbol/symbol.go:121-125`). Both make the same index if and
  only if what stands behind that entry adds nothing under any name
  (`SymbolTable.FallbackStopsIff`); `SymbolTable.ReadsBehindNull` is a table where they differ.
- A Close too many can unload a library that a loaded library needs
  (`Scenarios.OverClosingDangles`). A library is loaded exactly as long as the successful
  Closes are fewer than the references that clients and dependents have taken
  (`Accounting.LiveIffHeld`), so a dependency is safe as long as clients close no more often
  than they opened (`Accounting.NoDanglingDependency`).
- The documentation makes an RTLD_LOCAL library visible to its dependents. It is not
  (`Scenarios.LocalDependencyStaysOut`): a dependency is in scope if and only if it is loaded
  and was registered RTLD_GLOBAL, as a dependency or by an Open that asked for it
  (`Flags.DependencyInScopeIff`).

## Model

| member | source | states |
|---|---|---|
| Liveness.ExclusiveLoading | dl/dl.go:221-246 | in every reachable state of any number of goroutines `loading` is exactly the set of paths on the stacks in flight, each held by one frame of one call, and disjoint from the keys of `loaded` |
| Liveness.LoadsOnlyAbsentPaths | dl/dl.go:173-209 | no load is ever attempted for a path with a live library, and the cycle branch's incrementRefIfLoaded always returns nil |
| Liveness.NoSlotLeaks | dl/dl.go:173-246 | with no call in flight `loading` is empty, whichever way the calls ended |
| Liveness.NoLostWakeup | dl/dl.go:221-246 | a goroutine sleeps only on a slot that another call holds |
| Liveness.OpensTerminate | dl/dl.go:173-263 | under every scheduler the goroutines inside Open take at most Rank steps, cyclic graphs included |
| Deadlock.CycleNeverReturns | dl/dl.go:150-263 | once each file of a dependency cycle is being opened by its own call, none of those calls ever returns, whatever else happens |
| Deadlock.DeadlockIffCycle | dl/dl.go:150-263 | a state in which some Open is unfinished and no goroutine inside Open can step is reachable if and only if two or more different files form a dependency cycle |
| Deadlock.OpensComplete | dl/dl.go:140-263 | on a graph without such a cycle every run of goroutines inside Open ends within Rank steps with all Opens finished and no slot taken |
| Protocol.RunKeeps | dl/dl.go:154-285 | every step of every goroutine and client keeps the registry, the stacks and the shared slots consistent |
| RegistryModel.RegisterKeeps | dl/dl.go:265-285 | registering under path, request and soname keeps every key on a live library and each live library findable under its path |
| RegistryModel.CloseKeeps | dl/dl.go:315-360 | Close in any state of the count keeps the registry invariant |
| RegistryModel.LastCloseUnpublishes | dl/dl.go:315-340 | exactly the Close that brings the count to 0 takes the library from under every key and out of `globals`; all other keys and libraries stay |
| OpenSpec.LoadPath | dl/dl.go:173-209 | the recursion over possibly cyclic dependencies ends, releases its slot on every exit, and only adds libraries and references |
| OpenSpec.LoadDependencies | dl/dl.go:248-263 | the loop ends, whatever fails in it, and only adds libraries and references |
| OpenSpec.DependenciesFirst | dl/dl.go:173-285 | on an acyclic graph, whose edges are all DT_NEEDED entries that are found, one Open registers every loadable dependency before its dependent, and a loadable file is loaded at the end |
| OpenSpec.OpenAgain | dl/dl.go:154-169 | opening a library again, by its name or its path and with any flag, gives the same library and only counts |
| OpenSpec.OpenFilesSoname | dl/dl.go:265-285 | an Open that loads a file leaves its library under its path, under the name asked for and under its DT_SONAME, if it has one |
| OpenSpec.NoSonameNoKey | dl/dl.go:273-275 | the registration of a file without DT_SONAME writes the keys of its path and of the name asked for and no other |
| OneSchedule.OpenIsASchedule | dl/dl.go:140-285 | the uninterrupted Open is a run of the step system with the result that the recursion gives |
| OneSchedule.CloseIsASchedule | dl/dl.go:345-360 | and so is Close |
| Registry.Table.IncrementRefIfLoaded | dl/dl.go:211-219 | finds and counts a library of that path, or nothing |
| Registry.Table.CheckLoadingCache | dl/dl.go:221-239 | waits exactly if the slot is taken; otherwise either counts the library that is there or takes the slot |
| Registry.Table.ReleaseLoadingSlot | dl/dl.go:241-246 | exactly that slot is free again |
| Registry.Table.LoadPath | dl/dl.go:173-209 | the objects and maps end as the specified recursion says; `visiting` is as before |
| Registry.Table.LoadDependencies | dl/dl.go:248-263 | the loop acquires what the specified recursion acquires |
| Registry.Table.RegisterLibrary | dl/dl.go:265-285 | the new library is fresh and published under its keys, its slot free |
| Registry.Table.Open | dl/dl.go:140-169 | Open leaves the registry and returns the library that the specification gives, ready for the next call; it is RTLD_GLOBAL exactly if that is the first flag |
| Registry.Table.RemoveFromLoadedMap | dl/dl.go:324-330 | removes all keys of the library and no other |
| Registry.Table.RemoveFromGlobals | dl/dl.go:333-340 | removes its first occurrence and keeps the order of the rest |
| Registry.Table.Close | dl/dl.go:345-360 | the outcome, the error and the new registry in all cases: too many closes, still open, unloaded, failed to unload |
| Accounting.RefcountConservation | dl/dl.go:154-360 | in every reachable state a RefCount is the registration plus the cache hits minus the successful Closes; a library is unmapped exactly once, at 0, and is then under no key and not in `globals`, which has no duplicates |
| Accounting.NoDanglingDependency | dl/dl.go:248-263 | if clients close at most once per Open, every library acquired through loadDependencies is a dependency of the file that acquired it and stays loaded, cycles or not |
| Accounting.LiveIffHeld | dl/dl.go:315-360 | a library is loaded exactly as long as the successful Closes are fewer than the references taken by clients and dependents |
| Scenarios.OverClosingDangles | dl/dl.go:345-360 | a concrete run with one Close too many, after which a loaded library has lost its dependency |
| Flags.DependenciesAreGlobal | dl/dl.go:248-285 | in every reachable state a library that was loaded as a dependency is RTLD_GLOBAL and in `globals` while it is loaded |
| Flags.DependencyInScopeIff | dl/dl.go:221-263 | what was acquired as a dependency is in `globals` exactly while it is loaded and if its own registration was RTLD_GLOBAL |
| Scenarios.LocalDependencyStaysOut | dl/dl.go:229-232 | a run after which a loaded dependency, opened RTLD_LOCAL before, is not in scope |
| Flags.OpensAsAsked | dl/dl.go:140-285 | the library that an Open registers for its own name has the flag of that Open, however deep its dependencies were |
| GlobalScope.SearchGlobalsForSymbol | dl/dl.go:89-103 | the value of the first strong definition in load order, else of the first weak one, else an error; for an IFUNC, and only for one, what its resolver answers |
| GlobalScope.SearchGlobalsWithLibrary | dl/dl.go:106-120 | the same address, and the library that it comes from |
| GlobalScope.ResolveSymbolAddr | dl/dl.go:123-128 | the value of a symbol, or for an IFUNC the answer of its resolver |
| GlobalScope.ProviderMeans | dl/dl.go:89-120 | a strong definition anywhere beats every weak one; among equals the earliest wins |
| GlobalScope.RegisterEffect | dl/dl.go:280-282 | a new library changes a name only if it had no definition, or a weak one that the new strong one beats |
| GlobalScope.CloseEffect | dl/dl.go:333-340 | closing a library that is not the provider changes no resolution |
| GlobalScope.StrongResolutionIsStable | dl/dl.go:89-120 | along any run a name that resolves to a strong definition does so as long as its library is loaded |
| GlobalScope.StrongAddressIsStable | dl/dl.go:89-128 | and a search answers the same address in every state of that run |
| Symbols.ReadCStringMem | symbol/symbol.go:229-250 | the bytes up to the first zero byte, or the empty string when that is not below the limit |
| GnuHash.GnuHash | symbol/gnu_hash.go:12-18 | computes the hash step by step in 32 bits |
| GnuHash.HashIsPolynomial | symbol/gnu_hash.go:12-18 | the hash is the polynomial in 33 over the bytes of the name, modulo 2^32 |
| GnuHash.CheckBloomFilter | symbol/gnu_hash.go:55-61 | the masks and shifts read bits h mod 64 and h / 2^shift mod 64 of the 64-bit filter word number (h / 64) mod size |
| GnuHash.NotFiltered | symbol/gnu_hash.go:55-61 | the Bloom filter has no false negatives |
| GnuHash.LowBitIgnored | symbol/gnu_hash.go:68 | the comparison ignores the low bit and nothing else |
| GnuHash.SearchHashChain | symbol/gnu_hash.go:64-89 | the walk ends at the end of the bucket with the first symbol of the name, or with none |
| GnuHash.GnuLookup | symbol/gnu_hash.go:103-122 | on every well-formed table the lookup is the linear scan from symoffset: the first symbol of the name, and an error exactly if there is none |
| GnuHash.OneBucketIsWellFormed | symbol/gnu_hash.go:20-52 | every dynamic symbol table has a well-formed hash table, so the lookup theorem is about every list of symbols |
| GnuHash.BuiltIsWellFormed | symbol/gnu_hash.go:20-61 | for every grouped symbol table, number of buckets, filter size and shift, the table whose filter holds exactly the bits asked for is well formed |
| Bits.BitsOfAndXor | symbol/sysv_hash.go:13-17 | a mask and an exclusive or, as the model has them, work bit by bit |
| SysvHash.RoundsAgree | symbol/sysv_hash.go:13-17 | the loader's round clears the bits that the gABI's round clears, and leaves less than 2^28 |
| SysvHash.RoundIs | symbol/sysv_hash.go:13-17 | in numbers, a round keeps the low 28 bits and flips the top four into bits 4 to 7 |
| SysvHash.HashIsPolynomial | symbol/sysv_hash.go:10-20 | while the polynomial in 16 over the bytes of the name is below 2^28, it is the hash |
| SysvHash.SysvHash | symbol/sysv_hash.go:10-20 | computes the gABI's hash, below 2^28 |
| SysvHash.EndsIffAcyclic | symbol/sysv_hash.go:47-65 | a chain comes to its end if and only if no symbol is on it twice |
| SysvHash.SysvLookup | symbol/sysv_hash.go:28-68 | terminates on every chain that ends, with what a scan of the chain finds |
| SysvHash.FoundIsFirst | symbol/sysv_hash.go:47-67 | what is found is the first symbol of the name on the chain of its bucket; nothing is found exactly if the chain holds none |
| SysvHash.OneChainIsWellFormed | symbol/sysv_hash.go:33-45 | every symbol table has a well-formed table of this kind |
| SymbolTable.Table.LoadFromDynamic | symbol/symbol.go:114-135 | stores the entries in order, 4096 of them when the size is unknown; no table is the only error |
| SymbolTable.Table.LoadSymbolEntry | symbol/symbol.go:138-158 | an entry is stored, or skipped in favour of what is there, as the rules of acceptance and hiding say |
| SymbolTable.Table.ShouldProcessSymbol | symbol/symbol.go:161-173 | accepts exactly the defined GLOBAL and WEAK entries that are not null |
| SymbolTable.LoadAndLookup | loader/loader.go:408-421 | a fresh table, with or without versions, loaded and asked for a name answers the last exported entry of that name whose version word is below 2^15, or the first when there is none, and nothing exactly if no entry is exported under it; its value is base + st_value modulo 2^64, its version index the low 15 bits of the word, its version name that of the requirement, or else of the definition, from index 2 on |
| SymbolTable.Table.ShouldSkipSymbol | symbol/symbol.go:208-223 | skips exactly an entry with a version word of 2^15 or more whose name is there |
| SymbolTable.VersionTable.GetSymbolVersion | symbol/version.go:208-213 | the low 15 bits of the version word, 0 behind the end of the table |
| SymbolTable.VersionTable.GetVersionName | symbol/version.go:217-227 | the name of the requirement with that index, otherwise of the definition, otherwise none |
| SymbolTable.Table.LookupVersion | symbol/symbol.go:57-73 | the one symbol of the name if it has that version or none |
| SymbolTable.LookupFindsChosen | symbol/symbol.go:114-223 | after loading, a lookup finds the last non-hidden accepted entry of the name if there is one, otherwise the first hidden one |
| SymbolTable.OrderFreeIffOneMeaning | symbol/symbol.go:201-223 | the answer is the same for every order of the table if and only if all candidates of the name build the same symbol |
| SymbolTable.OneDefaultIsOrderFree | symbol/symbol.go:201-223 | with one default version every order finds it |
| IndexAgreement.GnuFindsIff | symbol/gnu_hash.go:103-122 | the GNU lookup of its name finds entry i if and only if no entry of that name stands before i from symoffset on |
| IndexAgreement.SysvFindsIff | symbol/sysv_hash.go:47-67 | the SysV lookup finds entry i if and only if no entry of that name comes before i on the chain of its bucket |
| IndexAgreement.IndexFindsIff | symbol/symbol.go:114-223 | the index holds accepted entry i if and only if it is the last default version, or the first of hidden ones |
| IndexAgreement.IndexesAgree | symbol/symbol.go:114-223 | all three find an accepted entry if and only if these three conditions hold; the hash lookups then give st_value, the index base + st_value modulo 2^64, and the rest of the symbol is the same |
| IndexAgreement.OnlyOneIsEnough | symbol/gnu_hash.go:103-122 | they agree on a name that no other entry has |
| IndexAgreement.UndefinedShadows | symbol/sysv_hash.go:47-65 | a table in which an undefined entry of the same name makes the SysV lookup differ from the index |
| SymbolTable.FallbackStopsIff | symbol/symbol.go:105 | reading a table of unknown size to its end and stopping at the first all-zero entry make the same index if and only if the rest adds nothing under any name |
| SymbolTable.ReadsBehindNull | symbol/symbol.go:121-125 | a table with a symbol behind an all-zero entry, which the index holds |
| Layout.PageAlignMeans | elf/parse.go:15-17 | the least page multiple, until the addition wraps; then 0, which the zero check catches |
| Layout.ParsedObject.CollectProgramHeaders | elf/parse.go:147-211 | accepts exactly the headers with sound PT_LOADs, at least one of them, and a PT_DYNAMIC; the span is tight around the PT_LOADs |
| Layout.ParsedObject.CalculateMemoryLayout | elf/parse.go:52-62 | rejects exactly empty spans and spans on which rounding wraps; MemSize is a page multiple with span <= MemSize < span + 4096 |
| Layout.ParsedObject.ParseLayout | elf/parse.go:110-118 | over all 64-bit headers, accepted if and only if they are acceptable and span an interval that can be rounded |
| Image.LayoutHolds | elf/parse.go:52-62 | an accepted layout with page-aligned base has room for every PT_LOAD |
| Image.Object.MapFileRegion | loader/loader.go:216-229 | the file's bytes under the mapping protection, or nothing if there is no file part |
| Image.Object.MapBSSTail | loader/loader.go:233-248 | zero pages behind the file part |
| Image.Object.ZeroBSSPage | loader/loader.go:251-256 | zeros from the end of the file part to the end of its page, on writable pages only |
| Image.Object.MapBSSRegion | loader/loader.go:259-276 | zeros up to p_memsz, and the protection the header asks for at the end |
| Image.Object.MapSegment | loader/loader.go:178-205 | one segment is loaded and no page outside it changes |
| Image.Object.MapSegments | loader/loader.go:168-175 | all segments are loaded, in any order, and recorded |
| Image.CreateAndMapObject | loader/loader.go:141-165 | for page-aligned base and page-disjoint PT_LOADs, each without file part or with congruent offset, it fails only if the kernel refuses a call; then each byte in the file part is its file byte, each byte up to p_memsz is zero, each page of a segment is readable, writable and executable exactly as bits 2, 1 and 0 of p_flags say, every other page allows nothing, and nothing leaves the reservation |
| Image.ElfProtAllows | loader/loader.go:77-89 | the masks give read, write and execute for bits 2, 1 and 0 of p_flags |
| Image.HasPageIff | loader/loader.go:178-205 | a segment gets exactly the pages that hold one of its bytes |
| Image.AsFileIffMappable | loader/loader.go:178-205 | every image that mapping a segment leaves is what the file says, bytes and protection, for every file, if and only if the segment has no file part or p_vaddr and p_offset are congruent modulo 4096 |
| Relocation.LoadedImage.StoreWord | loader/loader.go:542-565 | a little-endian store of 4 or 8 bytes and no other change |
| Relocation.LoadedImage.ResolveSymForReloc | loader/loader.go:1134-1158 | the value of a symbol: 0 without a name, base + st_value if the object defines it, else the address in another library, else 0 if it is weak, else an error |
| Relocation.LoadedImage.ApplyRelocation | loader/loader.go:896-910 | the effect and the error of one entry, type by type, wherever its word ends |
| Relocation.LoadedImage.ApplyRelaTable | loader/loader.go:867-893 | entries are applied in order up to the first error; a bad table size changes nothing |
| Relocation.LoadedImage.ProcessRelocations | loader/loader.go:531-539 | the two loops are one over both tables; a bad size of the second shows only after the first |
| Relocation.TableMeaning | loader/loader.go:542-625 | with disjoint targets each target holds the word of its entry and every other byte is unchanged |
| Relocation.AbiMeaning | loader/loader.go:542-625 | after a table without errors each target holds the calculation of section 4.4.1 of the System V AMD64 ABI, truncated to its field |
| Relocation.ImportedWords | loader/loader.go:1119-1150 | for an entry whose symbol only another library defines, the word is made of the address there, for each type by its number |
| Relocation.WeakWords | loader/loader.go:1152-1154 | a weak symbol that nobody defines counts as 0 in every type |
| Relocation.SucceedsIff | loader/loader.go:896-919 | a table is applied without an error if and only if each entry starts in the image, has a type that there is, and names no symbol that is undefined and not weak, RELATIVE and NONE aside |
| Relocation.OrderIndependent | loader/loader.go:867-893 | with disjoint targets any permutation of the table gives the same image |
| Relocation.ErrorStopsThere | loader/loader.go:879-883 | an error at entry k leaves exactly the earlier entries applied |
| Relocation.StaysInsideIff | loader/loader.go:913-919 | an entry that passes the check of its offset leaves the memory behind the image alone if and only if its whole word lies in the image; a naturally aligned one always does |
| Relocation.TableStaysInside | loader/loader.go:867-893 | a table all of whose entries do leaves every byte behind the image as it was |
| Relocation.StoresBehind | loader/loader.go:913-919 | an entry at the last byte of a one-page image passes the check and stores behind the image |
| Relocation.PositionIndependence | loader/loader.go:542-625 | relocating one image at two bases gives, for symbols of the object, absolute words that differ by exactly the difference modulo 2^64 and identical PC-relative words, and for symbols of other libraries identical absolute words and PC-relative words that differ by exactly minus the difference modulo 2^32, in every table without errors and with disjoint targets |
| Relocation.PositionIndependenceElsewhere | loader/loader.go:867-893 | and every other byte is the same |
| Got.Object.AllocateGOTEntryPair | loader/loader.go:977-1022 | the reply and the new state of one request, failures included |
| Got.PagesOfRun | loader/loader.go:1000-1008 | after any request sequence there are exactly as many pages as the pairs of the symbols served need |
| Got.PairsNeverOverlap | loader/loader.go:1010-1021 | pairs are 16-aligned, inside one page, and those of different symbols never overlap |
| Got.RunKeeps | loader/loader.go:977-1022 | over any request sequence pairs stay where they were put |
| Got.RepeatIsFirst | loader/loader.go:978-981 | a repeated request answers with the first address if and only if the page of the pair follows the first page without a gap, which it does for every pair of the first page |
| Got.RepeatCanMiss | loader/loader.go:978-981 | a run in which it answers with an address that is in no page |
| TlsModel.RunKeeps | internal/tls/tls.go:63-91 | in every run, whatever sizes are registered, modules[i].ID is i + 1, nextID is the number of modules plus 1 and at most 65536, and each block has a mapping of its own |
| TlsModel.RegisterFailsIff | internal/tls/tls.go:63-91 | a registration fails exactly when 65535 modules are registered or the alignment is above 4096, and otherwise answers the number of the new module |
| TlsModel.AlignUpCovers | internal/tls/tls.go:102 | for every alignment the aligned size covers the size if and only if the sum does not wrap |
| TlsModel.RoundsUpIffPower | internal/tls/tls.go:102 | it is a multiple of the alignment for every size, and then the least one that covers it, if and only if the alignment is a power of two |
| TlsModel.WritesInsideIff | internal/tls/tls.go:104-134 | an allocation writes only inside its own mapping if and only if the template and the size, as far as they are written, are at most the pages of the aligned size |
| TlsModel.RegularFits | internal/tls/tls.go:102-134 | it does for a module with no more file than memory and a size that can be rounded up |
| TlsModel.AllocationPanicsIff | internal/tls/tls.go:118-133 | for such a module an allocation panics if and only if the template runs past 2^64 or template or zeros are 2^63 bytes or longer |
| TlsModel.RegularAnswers | internal/tls/tls_get_addr.go:91-137 | a call for such a module answers base + offset, a failure exactly if memory is needed and refused, and panics exactly if that allocation does |
| TlsModel.UnknownModule | internal/tls/tls_get_addr.go:109-123 | a call with an ID of no module is an error, and panics exactly from 2^63 on |
| TlsModel.CoversIff | internal/tls/tls.go:102 | the mapping has room for the size exactly if the size can be rounded up |
| TlsModel.PagesAreLeast | internal/tls/tls.go:107-115 | the mapping of a block is the least multiple of 4096 that covers the aligned size |
| TlsModel.CopiesBeyond | internal/tls/tls.go:118-123 | a module whose template is copied beyond its mapping |
| TlsModel.TooLongIsRegistered | internal/tls/tls.go:63-91 | the registration of that module succeeds |
| TlsModel.BlocksNeverOverlap | internal/tls/tls_get_addr.go:91-137 | the mappings of different threads or modules never overlap each other or any other mapping; nor do the blocks of modules whose size can be rounded up |
| TlsModel.RepeatedCalls | internal/tls/tls_get_addr.go:91-137 | repeated calls of a thread for a module agree on the base, whatever happens in between, up to its cleanup, and allocate nothing |
| TlsModel.MappingsConserved | internal/tls/tls_get_addr.go:43-61 | over every run the mappings are those there were, those of live blocks and those the kernel refused to unmap: no leak, no foreign mapping touched |
| Tls.Manager.RegisterModule | internal/tls/tls.go:63-91 | the new module has the next ID, whatever its sizes, or the limit or the alignment is exceeded and nothing changes |
| Tls.Manager.AllocateBlock | internal/tls/tls.go:95-136 | when the allocation panics, and what memory it leaves otherwise, inside and outside the block |
| Tls.BlockContents | internal/tls/tls.go:118-133 | a block that fits holds the template and then zeros, and no other byte of the process changes |
| Tls.OverwritesNeighbour | internal/tls/tls.go:118-123 | one that does not fit overwrites the byte behind its mapping |
| Tls.Block.Free | internal/tls/tls.go:139-148 | unmaps once; a second call does nothing |
| Tls.ThreadLocalRegistry.GetTLSAddr | internal/tls/tls_get_addr.go:91-137 | the address, the new state and memory in all cases, and when the call panics: for IDs of 2^63 and more, and in an allocation |
| Tls.ThreadLocalRegistry.CleanupThread | internal/tls/tls_get_addr.go:43-61 | unmaps exactly the blocks of that thread, each once, and reports whether some unmap failed |
| LdCache.ParseCache | dl/ldcache.go:64-84 | for all bytes the parser stays in range and returns the last-wins scan of the included entries, or the error that fits; the magic is the characters glibc-ld.so.cache1.1 |
| LdCache.ParseCacheEntries | dl/ldcache.go:108-167 | every entry is read, and the file is truncated exactly if the entries do not fit |
| LdCache.Cache.ReadCacheEntry | dl/ldcache.go:121-143 | one entry adds its pair, or nothing if it is not included or a string is missing |
| LdCache.ShouldIncludeEntry | dl/ldcache.go:170-176 | the type byte is 3 and the architecture byte is 0 or 3 |
| LdCache.StringMeans | dl/ldcache.go:179-190 | the string at an offset is s if and only if the bytes of s stand there, none of them zero, and a zero byte of the table ends them |
| LdCache.ParsedIsLastWins | dl/ldcache.go:121-167 | a soname is mapped to a path if and only if its last included entry says so |
| LdCache.RoundTrip | dl/ldcache_test.go:13-63 | parsing the encoding of a map of NUL-free names gives exactly that map, in whatever orders the encoder runs through it, whichever accepted flags (0x0303 or 0x0003 in the low 16 bits) the entries carry and whatever entries with other flags stand between them |

## Left out

- `findLibrary` and the rest of `dl/search.go`: a fixed function from name and parent to path. Resolved paths stand for themselves as names, so search directories are not relative ones.
- A file system that changes between two Opens.
- Constructors, destructors, `init`/`fini` arrays and IFUNC resolvers: foreign calls. That they run while other goroutines work is not modelled; the order of constructors is the order of registration.
- `loader.Load` as a whole: in the registry it is an oracle that succeeds or fails; its mapping and relocation are separate modules.
- OpenSpec.OpenAgain: an Open of the empty name, under which no library is filed.
- Library.Sym, Library.Bind, `PrintSymbols`, `cmd/pgldd`: one-line uses of a lookup, or output. The special name `__tls_get_addr` of the global resolver likewise.
- Layout.ParsedObject.ParseLayout: the ELF header checks and the dynamic section are not modelled.
- Image.CreateAndMapObject: the mmap of the reservation itself and its release after an error are not modelled, nor is the page size of the system (4096 is assumed), nor `RELRO`.
- Image.Object.MapSegment: a private file mapping is taken to show zeros behind the end of the file, not a bus error.
- Relocation.LoadedImage.ApplyRelocation: COPY, IRELATIVE and the TLS types are not modelled; `BaseVAddr` is 0, because `applyRelative` and `buildSymbol` add the base without subtracting it. The memory behind the image is taken to be writable.
- Relocation.LoadedImage.ApplyRelaTable: likewise.
- Relocation.LoadedImage.ProcessRelocations: likewise.
- Relocation.TableMeaning: the symbol table, the string table and the relocation tables are taken not to be targets themselves.
- Got.Object.AllocateGOTEntryPair: `GOTSize` is unbounded; symbol indexes have 32 bits, so it cannot wrap.
- TlsModel.RunKeeps: unloading the library of a registered module, and with it the mapping of its template, is not modelled.
- Tls.Manager.AllocateBlock: a write to an address that is not mapped, which ends the process, is not told from one to a mapping of another owner.
- Tls.ThreadLocalRegistry.GetTLSAddr: a panic ends the process; that the manager's lock would stay taken is not modelled.
- TLS relocations: the loader's own comments call its thread-pointer offsets a simplification.
- Symbols.ReadCStringMem: memory behind the string table reads as zeros.
- GnuHash.GnuLookup: tables that are not well formed have no defined result.
- SymbolTable.Table.LoadFromDynamic: the chains of Verneed and Verdef are given as maps; only the hidden bit, the version index and the name matter.
- LdCache.RoundTrip: string tables and entry counts of 2^32 and more, whose offsets the encoder truncates.
- `lookupInCache` and its one-time initialization: I/O around the parser.
- ARM64 relocation numbers: the same handlers under other names.
