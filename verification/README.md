# AegisHV: a Dafny model of its hard core

AegisHV watches virtual machines from the host. It walks guest page tables and caches the translations, hashes guest
text, follows kernel lists in guest memory, finds out which VM a host thread belongs to, applies policy rules, sends QMP
commands, and keeps an event log on disk. This project models those parts and proves what they promise.

| file | models |
|---|---|
| `Machine.dfy` | machine integers and the shared outcome types |
| `PageTables.dfy` | exact division, page-table entries, a recursive table walk over any lawful entry format |
| `X86Paging.dfy` | the unrolled 4-level and LA57 walks of x86-64 |
| `Arm64Stage1.dfy` | ARM64 stage 1 translation for the 4K, 16K and 64K granules |
| `TranslationCache.dfy` | the bounded translation cache |
| `CacheCoherence.dfy` | runs of cache fills, page-table stores and invalidations |
| `Sha256.dfy`, `Sha256Abc.dfy` | FIPS 180-4 as a definition, its answer for "abc", and the streaming hash against it |
| `VirtualMemory.dfy` | synthetic guest memory as a byte map, and the two ways of hashing guest text |
| `ListWalks.dfy` | bounded walks of task, module, ftrace and kprobe lists |
| `KaslrScan.dfy` | the scan for the kernel's load slide |
| `Rle.dfy`, `SpoolSegment.dfy`, `DiskSpool.dfy` | run-length coding, the segment format, the disk spool |
| `LossTracking.dfy` | drop and gap accounting of event sequence numbers |
| `IdentityRegistry.dfy`, `IdentityResolver.dfy` | the libvirt domain registry, identity resolution, its cache, lifecycle events |
| `Patterns.dfy` | configuration patterns |
| `ActionGate.dfy` | which QMP socket an action may reach, and for which identities |
| `PolicyRules.dfy` | rule order and cooldown |
| `Calendar.dfy` | UTC dates from Unix time |

Where code and expectation part, the model follows the code, and a lemma says exactly when the expectation holds:

- A cached ARM64 page answers for every address of its page exactly when the page is no larger than the region it was
  found in (`PageSpeaksForRegion`, and for the cache in any run `HitsSpeakExactly`); a 1 GiB block in a 32 MiB region
  does not (`BlockBeyondRegion`, `CachedBlockBeyondRegion`).
- A compiled pattern means what its text says exactly when no `.*` stands at an anchored end: `^a.*$` is compiled to the
  exact text `a` (`CompileKeepsMeaning`, `AnchoredTailIsLost`).
- Two firings under one cooldown key are spaced by the later rule's cooldown exactly when the earlier rule has a cooldown
  or the later one has none, because rule ids need not be unique (`SpacedExactly`, `NamesakeIsNotSpaced`).
- A number reported missing can still be written later, when it arrives out of order or after an event that was only
  spooled (`ReportedThenWritten`, `SpooledThenWritten`). That happens exactly when an earlier event left it behind: an
  event with a larger number, after some accounted number, while all accounted numbers were smaller (`WrittenLate`).
- In a deterministic replay events are renumbered but skips are not. A skip can hide the loss of an event
  (`SkipHidesLoss`), and it can make a gap of events that came before anything was written (`SkipInventsGap`). What an
  event reports is stated exactly for every run (`ReplayGapExactly`): a lost event goes unreported exactly while the
  replay has not passed some skip (`ReplayHidesGaps`), and the reports are right exactly when no skip is ahead where an
  event was lost and, where skips but no written event came before, one of them still is (`ReplayGaps`).
- The date of a day is right exactly while its year fits 32 bits (`NarrowedExactly`, `YearWraps`).
- The KASLR scan is exact for any non-zero steps: the finest step is an anchor's own, so no slide all anchors allow is
  missed, and powers of two are not needed for that (`Scan`).

## Model

| member | source | states |
|---|---|---|
| `TableWalk.WalkRights` | src/vmi_x86.rs:128-245 | every right a walk grants is the conjunction of that right over all entries it visits |
| `TableWalk.WalkFrame` | src/vmi_x86.rs:128-245 | a walk depends on nothing but the entries in its footprint: equal cells there give an equal walk |
| `TableWalk.WalkWithinPage` | src/vmi_x86.rs:128-245 | any address of the page found walks to the same page, at its own offset |
| `TableWalk.WalkIsPath` | src/vmi_x86.rs:128-209 | what a walk reads is a path: one word a level, the first in the root table, each other in the table the word before names, at the index of the address |
| `TableWalk.WalkEnds` | src/vmi_x86.rs:128-209 | a walk ends where no word is, at a faulting entry, or at the page its last entry names |
| `X86Paging.TranslateX86` | src/vmi_x86.rs:128-209 | the unrolled walk, its canonical check and its CR3 error equal the recursive n-level walk |
| `X86Paging.CanonicalHalves` | src/vmi_x86.rs:283-300 | an address is canonical exactly in the lower and upper half of its mode |
| `X86Paging.La57IsPml5ThenFourLevel` | src/vmi_x86.rs:128-209 | LA57 is one PML5 step, then the four-level walk from the table it names, restricted by its rights and faults |
| `X86Paging.TranslationShape` | src/vmi_x86.rs:128-245 | page size 4K, 2M or 1G; gpa below 2^52 and congruent to gva; writable, user and executable exactly when bit 1 and bit 2 are set and bit 63 is clear in every entry |
| `X86Paging.DecodeExactly` | src/vmi_x86.rs:128-278 | in bits: when an entry is not present, names a table, names a page or is malformed, at each level, and which table or page it names |
| `X86Paging.TranslationPath` | src/vmi_x86.rs:128-209 | each entry is read in the page that bits 12 to 51 of CR3, or of the entry before, name, at the nine bits of the address for its level; all but the last name tables |
| `X86Paging.TranslationEnd` | src/vmi_x86.rs:128-209 | the translation is the failure of the read, the fault of the last entry by its bits, or the page those bits name with the offset of the address |
| `X86Paging.CanonicalWidth` | src/vmi_x86.rs:283-300 | the canonical addresses are exactly as many as the top level of the mode covers |
| `X86Paging.SamePageSameTranslation` | src/vmi_x86.rs:128-245 | every address of a translated page, canonical with it, translates to the same page |
| `X86Paging.NoEntryOverflow` | src/vmi_x86.rs:128-245 | no x86 walk computes an entry address beyond 64 bits, or ends without a leaf |
| `X86Paging.TranslateFrame` | src/vmi_x86.rs:128-209 | a translation changes only if an entry it reads changes |
| `Arm64Stage1.StartLevel` | src/vmi_arm64.rs:242-253 | the loop over levels finds the granule's first level exactly for sizes the granule can cover |
| `Arm64Stage1.TableIndexIsIndex` | src/vmi_arm64.rs:255-276 | shifting and masking give the index of the span the address falls in |
| `Arm64Stage1.SelectTtbr` | src/vmi_arm64.rs:291-323 | lower and upper region, their roots, input bits and errors, TTBR0 first |
| `Arm64Stage1.TranslateArm64` | src/vmi_arm64.rs:141-197 | the level loop equals the recursive walk of the selected region |
| `Arm64Stage1.RegionWalkWithinPage` | src/vmi_arm64.rs:152-197 | within a region, every input of the page found walks to that page |
| `Arm64Stage1.SamePageSameRegion` | src/vmi_arm64.rs:291-323 | addresses of one page no larger than the region select the same root |
| `Arm64Stage1.TranslationShape` | src/vmi_arm64.rs:152-197 | a page or block size of the granule; output below 2^48 and congruent to the input; each right exactly when every descriptor leaves it: bits 7, 6, 53 and 54 of a leaf, bits 62, 61, 59 and 60 of a table |
| `Arm64Stage1.DecodeExactly` | src/vmi_arm64.rs:351-470 | in bits: when a descriptor is invalid, names a table, a page or an allowed block, or is malformed, and which table or page it names |
| `Arm64Stage1.TranslationPath` | src/vmi_arm64.rs:141-197 | each descriptor is read in the page that the root, or the descriptor before, names, at the bits of the input for its level; the result is the failed read, the fault, or the page the last one names |
| `Arm64Stage1.GranuleShape` | src/vmi_arm64.rs:216-261 | a table fills a page, and the widest region is all that the first level covers |
| `Arm64Stage1.RegionSizes` | src/vmi_arm64.rs:325-341 | the size fields each granule supports |
| `Arm64Stage1.PageSpeaksForRegion` | src/vmi_arm64.rs:141-197 | a page translates all its addresses alike if and only if its size is at most 2^va_bits |
| `Arm64Stage1.BlockBeyondRegion` | src/vmi_arm64.rs:141-197 | tables and two addresses of one block, in a 25-bit region, of which only the first translates |
| `Arm64Stage1.TranslateFrame` | src/vmi_arm64.rs:141-197 | a translation changes only if a descriptor it reads changes |
| `Arm64Stage1.OtherRootIrrelevant` | src/vmi_arm64.rs:291-323 | a translation does not depend on the root of the other region |
| `TranslationCaching.TranslationCache.Create` | src/vmi_cache.rs:254-262 | a cache of capacity zero is refused; any other starts empty |
| `TranslationCaching.TranslationCache.LookupKey` | src/vmi_cache.rs:276-281 | the value of the entry with that key, if there is one |
| `TranslationCaching.TranslationCache.LookupResult` | src/vmi_cache.rs:283-295 | a hit only for an address on the key's page, rebased to that address |
| `TranslationCaching.TranslationCache.Insert` | src/vmi_cache.rs:297-307 | replaces in place, or appends and evicts the oldest entry when full |
| `TranslationCaching.TranslationCache.InsertTranslation` | src/vmi_cache.rs:309-322 | a failed walk, a wrong page size or an invalid page leave the cache as it was |
| `TranslationCaching.InsertMeaning` | src/vmi_cache.rs:297-307 | after an insert the key maps to the value, keys stay distinct within capacity, and only the evicted key changes besides |
| `TranslationCaching.KeysExactly` | src/vmi_cache.rs:167-184 | keys are equal exactly when VM, mode, root, page, size and access are |
| `TranslationCaching.SizesExactly` | src/vmi_cache.rs:357-362 | the sizes accepted are exactly the powers of two |
| `TranslationCaching.TranslationCache.RetainCount` | src/vmi_cache.rs:347-354 | keeps exactly the entries asked for, in order, and counts the rest |
| `TranslationCaching.TranslationCache.InvalidateVm` | src/vmi_cache.rs:324-326 | no entry of the VM remains, all others do, and the count of those removed |
| `TranslationCaching.TranslationCache.InvalidateRoot` | src/vmi_cache.rs:328-330 | no entry of the root remains, all others do, and the count of those removed |
| `TranslationCaching.TranslationCache.InvalidateCr3` | src/vmi_cache.rs:332-335 | no entry of the CR3's root remains, all others do, and the count of those removed |
| `TranslationCaching.TranslationCache.InvalidateAsid` | src/vmi_cache.rs:337-339 | no entry of the VM remains whose TTBR0, TTBR1 or explicit root carries the address space id, all others do, and the count of those removed |
| `TranslationCaching.TranslationCache.Flush` | src/vmi_cache.rs:341-345 | empties the cache and counts what it held |
| `TranslationCaching.CachedPage` | src/vmi_cache.rs:217-238 | a stored page, read back at an address, is the translation rebased to it |
| `CacheCoherence.EqualRootsWalkAlike` | src/vmi_cache.rs:71-75 | CR3 values with equal root keys translate alike |
| `CacheCoherence.StepExists` | src/vmi_cache.rs:276-354 | every fill, store or invalidation is possible in every state, with one result; a store marks exactly the roots some walk of which reads the word |
| `CacheCoherence.StepKeepsCoherence` | src/vmi_cache.rs:276-354 | each fill, store or invalidation keeps every clean entry the walk of an address of its page |
| `CacheCoherence.AnswersExactly` | src/vmi_cache.rs:217-238 | such an entry answers for its whole page as walks do if and only if the page fits the region of its root |
| `CacheCoherence.RunIsCoherent` | src/vmi_cache.rs:276-354 | so does every run |
| `CacheCoherence.HitIsFreshWalk` | src/vmi_cache.rs:283-295 | in every run, a hit under a root with no store left to invalidate equals a fresh walk of that address, when the page fits the region |
| `CacheCoherence.HitsSpeakExactly` | src/vmi_cache.rs:283-322 | in every run, the hits on a page of a clean root are the walks of all its addresses if and only if the page fits the region |
| `CacheCoherence.CachedBlockBeyondRegion` | src/vmi_cache.rs:283-322 | a run in which a cached block answers at an address that does not translate |
| `CacheCoherence.X86HitIsTranslation` | src/vmi_cache.rs:283-295 | for x86 that walk is the translation under the CR3 itself |
| `CacheCoherence.Arm64HitIsTranslation` | src/vmi_cache.rs:283-295 | for ARM64, on a page no larger than the region of the address, it is the translation in any context with that root in that region |
| `CacheCoherence.Take` | src/vmi_cache.rs:276-354 | each operation of the cache, with the walkers, is that step of a run: a fill stores the walk exactly when it succeeds with the size of a valid key |
| `CacheCoherence.CacheRun` | src/vmi_cache.rs:276-354 | any sequence of operations on the cache is a run, and a hit after it under a clean root, on a page that fits its region, is what a walk returns now |
| `Sha256Standard.FewestZeros` | src/linux_integrity.rs:196-215 | the padding is the shortest that fills the last block |
| `Sha256Standard.LengthExactly` | src/linux_integrity.rs:205-206 | the length field is the number of bits, most significant byte first |
| `Sha256Standard.WordRoundTrip` | src/linux_integrity.rs:210-221 | the big-endian bytes of a word read back as the word |
| `Sha256Abc.AbcDigest` | src/linux_integrity.rs:141-293 | the digest of "abc" is the one the standard gives |
| `StreamingSha256.FillSchedule` | src/linux_integrity.rs:217-241 | the array of 64 words is the message schedule of FIPS 180-4 |
| `StreamingSha256.CompressBlock` | src/linux_integrity.rs:217-270 | the in-place rounds compute the compression function |
| `StreamingSha256.Sha256.Update` | src/linux_integrity.rs:168-194 | whatever was hashed before, the chunk is appended to the message the state stands for |
| `StreamingSha256.Sha256.Finish` | src/linux_integrity.rs:196-215 | the digest of FIPS 180-4 of the whole message |
| `StreamingSha256.HashChunks` | src/linux_integrity.rs:168-215 | any split of a message into updates hashes to the digest of the message |
| `VirtualMemory.SyntheticMemory.MapRange` | src/linux_vmi.rs:124-156 | the ranges stay sorted and disjoint; success extends the byte map by exactly the new bytes; refused when empty, too high or touching a mapped address |
| `VirtualMemory.SyntheticMemory.RangeContaining` | src/linux_vmi.rs:159-163 | a range with the address, or the address is unmapped |
| `VirtualMemory.SyntheticMemory.ReadVirtual` | src/linux_vmi.rs:167-208 | copies exactly the mapped bytes across ranges, or fails at the first unmapped address with what precedes it copied |
| `VirtualMemory.PlacedContents` | src/linux_vmi.rs:149-154 | sorting a new range into place adds exactly its bytes to the map |
| `TextHash.HashLinux` | src/linux_integrity.rs:116-139 | the chunked hash is the digest of the range's bytes, or its first unmapped address |
| `TextHash.HashWindows` | src/windows_integrity.rs:119-153 | the same of the gathered bytes; refused exactly above 128 MiB |
| `TextHash.HashesAgree` | src/windows_integrity.rs:119-153 | both forms give the same answer exactly within the limit |
| `ListWalks.ListIsDistinct` | src/linux_vmi.rs:294-329 | a list that reaches its end never repeats a node |
| `ListWalks.WalkCircle` | src/linux_vmi.rs:294-329 | succeeds exactly on whole, readable lists within the limit with no node below the offset; only lists that never come back are called loops |
| `ListWalks.WalkModules` | src/linux_vmi.rs:294-329 | the records are those of the distinct orbit from the head back to the head; the ftrace walk is the same loop |
| `ListWalks.WalkTasks` | src/linux_vmi.rs:372-408 | the head's record first, then those of its orbit, all distinct, within the limit |
| `ListWalks.ProbesUnique` | src/linux_hooks.rs:156-227 | the table determines the chains of its buckets |
| `ListWalks.WalkBucket` | src/linux_hooks.rs:160-226 | one bucket's chain is accepted exactly when it ends, is readable, and adds no node seen before |
| `ListWalks.WalkKprobes` | src/linux_hooks.rs:127-227 | succeeds exactly when all buckets hold whole chains, pairwise disjoint and within the limit, and returns all records in order |
| `KaslrScan.MatchIsScanned` | src/vmi_linux_profile.rs:247-262 | a slide every anchor allows is a multiple of the finest step, up to the greatest slide |
| `KaslrScan.ProbeSlide` | src/vmi_linux_profile.rs:264-300 | the fault of the first applicable anchor to meet one, or whether all anchors hold there |
| `KaslrScan.OneAnswer` | src/vmi_linux_profile.rs:263-318 | the four answers exclude one another: the only match of a scan without fault, no match in such a scan, a second match before any fault, a fault before a second match |
| `KaslrScan.Scan` | src/vmi_linux_profile.rs:263-318 | the one answer that holds: found s if and only if no visited slide faults and s is the only slide at which every anchor holds, no match if and only if there is none, several if and only if two come before any fault, a fault if and only if it is the first and at most one match comes before it; probes are counted |
| `KaslrScan.Resolve` | src/vmi_linux_profile.rs:214-329 | fixed and known slides, no anchors, a zero step, and otherwise the scan's answer |
| `Rle.RepeatedRunLen` | src/main.rs:2366-2373 | the longest run of equal bytes from a place, up to the limit |
| `Rle.RleCompress` | src/main.rs:2334-2364 | the output expands to the input, and is at most n + n/128 + 1 bytes long |
| `Rle.RleDecompress` | src/main.rs:2526-2563 | the expansion of the payload if it is well formed and has the expected length, otherwise refused |
| `Rle.FormatExactly` | src/main.rs:2526-2563 | what a control byte means: 0x80 and above repeat the next byte, smaller ones announce literal bytes |
| `SpoolSegment.BuildRecord` | src/main.rs:2050-2071 | the record holds the line in the chosen form, and its stated size is that of the bytes written |
| `SpoolSegment.ParseFieldRoundTrip` | src/main.rs:2505-2523 | a length field reads back as the number, whatever follows |
| `SpoolSegment.DigitsExactly` | src/main.rs:2505-2523 | digits are written small and read small or capital |
| `SpoolSegment.ReadExactly` | src/main.rs:2505-2523 | a length is read exactly from digits, at least one, after at most one plus sign |
| `SpoolSegment.RecordRoundTrip` | src/main.rs:2420-2502 | a written record followed by anything decodes to its line and leaves the rest |
| `SpoolSegment.HeadersDiffer` | src/main.rs:2401-2417 | the two headers cannot be taken for each other |
| `SpoolSegment.HeaderTexts` | src/main.rs:49-51 | the text of the two headers |
| `SpoolSegment.SegmentRoundTrip` | src/main.rs:2401-2502 | a header and any written records decode to exactly the lines, in both formats |
| `SpoolSegment.SegmentGrammar` | src/main.rs:2401-2523 | a segment is accepted exactly when it is a header followed by frames with true lengths, valid text and, if compressed, a payload expanding to the stated length; the records are what the frames stand for |
| `SpoolSegment.DecodeSegment` | src/main.rs:2401-2502 | the decoding loops accept exactly that grammar |
| `DiskSpooling.ScanSpoolDir` | src/main.rs:2290-2308 | the bytes found, and one more than the largest index found, or 1 if there is none or it is the last index |
| `DiskSpooling.DiskSpool.CreateNextSegment` | src/main.rs:2211-2228 | the first index no file has; none exactly when the next 1024, or all below the last index, are taken |
| `DiskSpooling.DiskSpool.EnsureSegment` | src/main.rs:2161-2195 | exactly when a new segment is needed and opened, refused for space, or refused for want of an index; a refusal leaves every file as it was |
| `DiskSpooling.DiskSpool.Append` | src/main.rs:2127-2159 | the outcome in every case: too large, full, out of indices, or appended with the budget kept; a refused line changes no file |
| `DiskSpooling.RecoversAccepted` | src/main.rs:2401-2502 | reading the written files back gives every accepted line, once and in order |
| `DiskSpooling.AppendAll` | src/main.rs:2127-2195 | over any run the accepted lines are those not refused, and none is refused while budget and indices have room |
| `DiskSpooling.SpoolRun` | src/main.rs:2127-2233 | over any run of appends: the bytes stay within budget, indices stay distinct, found files stay as they were, a file with two or more lines keeps to the segment size, exactly the accepted lines are recovered, and none is refused while there is room |
| `LossTracking.ReportMeaning` | src/main.rs:1379-1392 | a report is due exactly for new drops or a gap; its drops bring the reported sum to the total, and its gap is exactly the numbers between the last accounted one and this one |
| `LossTracking.LossTracker.AccountSkipped` | src/main.rs:1400-1402 | a skipped number counts as accounted for |
| `LossTracking.LossTracker.EmitEvent` | src/main.rs:2989-3002 | an emit reports, then accounts for its number only if it was written |
| `LossTracking.DropsConserved` | src/main.rs:1379-1427 | in every run with growing totals the reported drops sum to the total at the last emit |
| `LossTracking.GapsAvoidAccounted` | src/main.rs:1379-1427 | no reported gap contains a number already written or skipped |
| `LossTracking.EveryNumberAccountedFor` | src/main.rs:1379-1427 | every number from the first accounted to the last was accounted for, reported missing, or passed over by a skip |
| `LossTracking.WrittenLinesTile` | src/main.rs:1379-1427 | on increasing runs without skips, each number from the first written to the last is written or in the gap of a written line, never both and never in two |
| `LossTracking.ReportedThenWritten` | src/main.rs:1379-1427 | out of order, a number reported missing is written after all |
| `LossTracking.SpooledThenWritten` | src/main.rs:1379-1427 | so is one above every accounted number, once a spooled event has reported it |
| `LossTracking.ReportsWhatItLeaves` | src/main.rs:1379-1427 | in any run of written, spooled and skipped numbers, an event reports exactly the numbers it leaves behind |
| `LossTracking.MissingExactly` | src/main.rs:1379-1427 | a number is reported missing in a run exactly when some event leaves it behind |
| `LossTracking.WrittenLate` | src/main.rs:1379-1427 | a line written now was reported missing before exactly when an earlier event left its number behind |
| `LossTracking.MissingWithoutSkips` | src/main.rs:1379-1427 | without skips, an unaccounted number above the first accounted one is reported missing exactly when a larger one is emitted after that first one |
| `LossTracking.ReplayGapExactly` | src/main.rs:1544-1554 | an event of a replay reports a gap exactly when something was accounted for before it and all of that has a number smaller by more than one |
| `LossTracking.LostMeans` | src/main.rs:1544-1554 | an event is lost before another exactly when some event was written and each written one was followed by another event in between, until the counter saturates |
| `LossTracking.ReplayHidesGaps` | src/main.rs:1544-1554 | the next event does not report a lost one exactly when a skip before it has a number the replay has not passed |
| `LossTracking.ReplayGaps` | src/main.rs:1544-1554 | an event reports a gap exactly for a lost event, if and only if no skip is ahead where one was lost and, where skips but no written event came before, one of them still is |
| `LossTracking.SkipHidesLoss` | src/main.rs:1544-1554 | a replay that loses an event and reports nothing |
| `LossTracking.SkipInventsGap` | src/main.rs:1544-1554 | a replay that reports a gap before any event was written |
| `IdentityRegistry.FindTask` | src/identity.rs:659-724 | the loop over the domains gives the owner, ambiguity, PID reuse, an unverified thread, or no domain |
| `IdentityRegistry.LookupMeaning` | src/identity.rs:659-724 | owner, ambiguity, reuse and absence, each exactly in terms of the domains that have the thread and their start times |
| `IdentityRegistry.MatchingElements` | src/identity.rs:659-724 | the matches are exactly the domains that have the host thread and agree on its start time |
| `IdentityRegistry.JudgeMeaning` | src/identity.rs:929-964 | the first known start time decides: equal matches, different is PID reuse; with none known only an unobserved start matches |
| `IdentityRegistry.Registry.UpsertDomain` | src/identity.rs:607-644 | other domains lose the threads claimed, empty ones go, and the domain takes its place |
| `IdentityRegistry.Registry.RemoveDomain` | src/identity.rs:646-650 | all domains of the uuid go, and whether any did |
| `IdentityRegistry.UpsertKeepsUnique` | src/identity.rs:607-644 | an upsert keeps uuids unique and registers the domain |
| `IdentityRegistry.RemoveKeepsUnique` | src/identity.rs:646-650 | so does a removal |
| `IdentityRegistry.UpsertExcludes` | src/identity.rs:607-644 | after an upsert no other domain has any of its threads |
| `IdentityRegistry.UpsertMeaning` | src/identity.rs:607-644 | after an upsert the registry lists the domain, and of the others exactly those with a thread left, without the threads it claims |
| `IdentityRegistry.UpsertOwns` | src/identity.rs:607-724 | the upserted domain owns each of its threads whose start time agrees, and nobody owns one whose does not |
| `IdentityRegistry.UpsertKeepsOwner` | src/identity.rs:607-724 | a thread the upsert neither names nor owned keeps its owner, with everything it depends on |
| `IdentityRegistry.RemoveKeepsOwner` | src/identity.rs:646-724 | so it does across a removal of another domain |
| `IdentityRegistry.UpsertKeepsUnowned` | src/identity.rs:607-724 | a thread without a domain stays without one until an upsert names it |
| `IdentityResolver.HostIdentityIsUnverified` | src/identity.rs:1505-1592 | the host's own facts never verify a start time or reach high confidence |
| `IdentityResolver.HostIdentityMeaning` | src/identity.rs:1505-1592 | clashing names are ambiguous unless a uuid settles them; uuid, name, pid make the VM id in that order; only a uuid gives medium confidence |
| `IdentityResolver.AdoptedFields` | src/identity.rs:1602-1663 | the owner's uuid, name, socket and vCPU are taken over; vCPU records that differ are ambiguous; a differing name is a conflict |
| `IdentityResolver.AmbiguousMeaning` | src/identity.rs:1594-1699 | a resolution is ambiguous exactly for several owners, a reused or unverified thread, a disagreeing owner, or clashing host names without a domain; then no name, uuid, socket, vCPU, source or verification is left |
| `IdentityResolver.VerifiedMeaning` | src/identity.rs:1594-1677 | a resolution is verified, and its confidence high, if and only if one domain owns the thread, agrees on uuid and socket, and records that start time |
| `IdentityResolver.VerifiesExactly` | src/identity.rs:1718-1730 | a start time is verified exactly when the domain records that thread with it |
| `IdentityResolver.SourcesExactly` | src/identity.rs:1505-1663 | the sources of an unambiguous identity are exactly the facts and the kind of domain it rests on |
| `IdentityResolver.ConflictExactly` | src/identity.rs:1505-1699 | the conflict of a resolution: its reason, in the order the checks are made, and its thread; an ambiguous id carries both |
| `IdentityResolver.EventNamesItsTasks` | src/identity.rs:425-465 | the domain made of an event has exactly the event's threads |
| `IdentityResolver.StoppedIsGone` | src/identity.rs:1218-1222 | after a stop, a domain is listed exactly if it was and has another uuid |
| `IdentityResolver.DescribedIsListed` | src/identity.rs:1210-1217 | after a start, resume or migration that describes a domain, that domain is listed with the name, uuid, socket, vCPUs and threads of the event, and no other keeps any of its threads |
| `IdentityResolver.OthersChangeNothing` | src/identity.rs:1209-1224 | a pause, and an event that describes no domain, leave the registry as it is |
| `IdentityResolver.EventKeepsEntry` | src/identity.rs:1196-1265 | an event that does not evict a cached identity does not change what a fresh resolution gives |
| `IdentityResolver.EventKeepsCoherent` | src/identity.rs:1196-1265 | so the whole cache stays current across an event |
| `IdentityResolver.Resolver.ResolvePid` | src/identity.rs:1066-1130 | in every run a hit equals a fresh resolution under the registry as it stands; when it hits, misses and refuses; a verified answer is vouched for by a registered domain |
| `IdentityResolver.Resolver.ApplyLifecycleEvent` | src/identity.rs:1196-1265 | the registry and the cache after each kind of event, both still in agreement |
| `Patterns.Find` | src/pattern.rs:103-106 | the leftmost place of a part |
| `Patterns.AltMatches` | src/pattern.rs:83-113 | true if and only if the parts occur in order without overlap, anchored as asked, although the end is only an `ends_with` |
| `Patterns.IsMatch` | src/pattern.rs:70-76 | true if and only if some alternative matches |
| `Patterns.FoldsLetters` | src/pattern.rs:70-76 | folding turns the ASCII capitals into small letters and changes nothing else |
| `Patterns.CompileKeepsMeaning` | src/pattern.rs:31-61 | the compiled form matches what the text says on all inputs if and only if no `.*` stands at an anchored end |
| `Patterns.AnchoredTailIsLost` | src/pattern.rs:31-61 | `^a.*$` does not match `ab` |
| `ActionGate.UniqueIdSocket` | src/actions.rs:444-471 | none, the only, or a clash of the sockets whose id pattern matches |
| `ActionGate.UniqueNameSocket` | src/actions.rs:473-506 | the same by name, and a clash when a matching name belongs to another id |
| `ActionGate.SocketFor` | src/actions.rs:361-403 | a socket if and only if it is the only applicable one; an error, or a timeout where its text says so, if and only if nothing applies; otherwise refused |
| `ActionGate.OrderIrrelevant` | src/actions.rs:361-506 | permuting the mappings changes neither |
| `ActionGate.ObjectsUnlessTrusted` | src/actions.rs:405-442 | the gate passes exactly present, unambiguous, conflict-free, verified identities at or above the threshold |
| `ActionGate.ObjectionExactly` | src/actions.rs:405-442 | a stale, conflicting or missing identity is named as such, in that order |
| `ActionGate.PresentObjection` | src/actions.rs:405-442 | then an ambiguous, pid-only, too little confident or unverified one |
| `ActionGate.Attempt` | src/actions.rs:708-757 | one attempt reaches the selected socket at most once, and only with a safe path and a named interface; otherwise it fails as unmapped, refused, unsafe or incomplete, each exactly when it is |
| `ActionGate.RunWithRetries` | src/actions.rs:649-706 | all attempts reach the selected socket, until one succeeds or the retries are spent; only a missing mapping is tried again without one; outcome and attempts are exact for every kind |
| `ActionGate.RunAction` | src/actions.rs:509-565 | a socket is reached if and only if the action is executed, the identity trusted, its path safe or interface named where it needs one, and exactly one socket applies; a dry run and an untrusted identity end at once; the rest is the run with retries |
| `ActionGate.RunsAlike` | src/actions.rs:649-706 | permuting the mappings changes neither the outcome of a run, nor its attempts, nor the sockets reached |
| `ActionGate.ActionsAlike` | src/actions.rs:509-565 | nor those of an action |
| `ActionGate.TrustedIsVouched` | src/identity.rs:1007-1060 | end to end: an enriched event passes the gate only if a registered domain records that very thread and start time, without conflict |
| `ActionGate.MergedExactly` | src/identity.rs:1436-1454 | an enriched event has the sources of both, is verified or ambiguous if either is, and reaches a threshold, unless ambiguous, if either does |
| `ActionGate.StaleIsTagged` | src/identity.rs:1039-1045 | the tag for a stale cache is added exactly for that conflict |
| `PolicyRules.SortedRules` | src/policy.rs:57-61 | the rules in order of priority, then name, each as often as configured |
| `PolicyRules.ActingRule` | src/policy.rs:50-88 | the acting rule is the enabled match that comes first by priority, then name, then place in the configuration; none acts if and only if none matches |
| `PolicyRules.NamesExactly` | src/policy.rs:57-61 | names are ordered letter by letter, a prefix first |
| `PolicyRules.DecideExactly` | src/policy.rs:77-88 | a call is ignored exactly for an ignored VM name; otherwise the first matching rule decides |
| `PolicyRules.TestRule` | src/policy.rs:236-269 | the tests of a rule against an event |
| `PolicyRules.TableIsLastFiring` | src/policy.rs:89-108 | in every run the table holds the time of the last firing of each key, and nothing else |
| `PolicyRules.KeysExactly` | src/policy.rs:271-289 | two matches share a cooldown exactly when rule id, VM, reason, trap type, page and joined kinds agree |
| `PolicyRules.JoinedExactly` | src/policy.rs:282-287 | joined kinds are equal exactly when the kinds are, if none is empty or has a plus sign |
| `PolicyRules.OtherVmsIrrelevant` | src/policy.rs:81-127 | in every run, what is decided for a call depends only on the earlier calls for its own VM |
| `PolicyRules.CooledExactly` | src/policy.rs:81-127 | with a monotone clock, a match is suppressed if and only if an earlier firing under its key is less than the rule's cooldown ago; suppressed matches never extend the window |
| `PolicyRules.FiringsAreSpaced` | src/policy.rs:81-127 | firings under one key lie the later rule's cooldown apart |
| `PolicyRules.SpacedExactly` | src/policy.rs:81-127 | for two events under one key, exactly when the first rule has a cooldown or the second has none |
| `PolicyRules.NamesakeIsNotSpaced` | src/policy.rs:81-127 | two rules with one id that fire within the later one's cooldown |
| `PolicyRules.Engine.Apply` | src/policy.rs:81-127 | the response and the new table are those of the decision after all earlier calls; actions are those of the first matching rule, executed exactly if it enforces |
| `PolicyRules.ExecutedExactly` | src/policy.rs:110-165 | actions are run exactly for a firing of a rule that has some and does not suppress, and executed exactly if it enforces |
| `Calendar.EraIsFloor` | src/util.rs:51-55 | although the division truncates, the era is the floor on both sides of zero |
| `Calendar.YearOfEraIs` | src/util.rs:56-58 | the corrected division gives the year the day falls in |
| `Calendar.CivilIsDate` | src/util.rs:51-64 | every day number gives a valid Gregorian date whose day number it is |
| `Calendar.DateIsCivil` | src/util.rs:51-64 | every valid date is the date of its day number |
| `Calendar.NextDayIsCivil` | src/util.rs:51-64 | consecutive day numbers give consecutive dates |
| `Calendar.NarrowedExactly` | src/util.rs:63 | narrowing the year keeps the date exactly from the first to the last day of the 32-bit years |
| `Calendar.YearWraps` | src/util.rs:63 | the first second of the year 2^31 is dated to the year -2^31 |
| `Calendar.Epoch` | src/util.rs:51-64 | day 0 is the first of January 1970 |
| `Calendar.UnixToUtc` | src/util.rs:40-49 | the time of day and date whose seconds since 1970 are the input, before 1970 too |

## Left out

- The gva, gpa and text carried in errors; error kinds are kept.
- The `readable` flag of cached pages and translations, which the source always sets.
- Reading /proc, control groups, libvirt XML, sockets and directories: what they show is an input.
- The two locks of the identity resolver: each call is one atomic step.
- Trimming of names and uuids in lifecycle events: the model's fields are the trimmed text.
- The rate limit on identity conflict events.
- The QMP client and its dialogue: the reply of each exchange is an input.
- The text of a pattern (escapes, alternation, the `(?i)` prefix, rejected operators): an alternative starts as its anchors and the pieces between its `.*`. In the source an untrimmed pattern with a space before `(?i)` folds its parts but not the text matched.
- I/O errors of the spool, its file names (a segment is known by its index) and file permissions.
- UTF-8 decoding of spooled lines: any predicate on byte strings stands for it.
- The fields of records read by list walks, and the findings reported about them.
- Symbols, offsets and parsing of Linux profiles; Windows profiles and lists.
- Hexadecimal text of digests and the comparison with baselines.
- Metrics, the admin and RBAC layers, policy bundles, the JSON writer, configuration parsing and sensors: each would only add easy members.
- SpoolSegment.DecodeSegment: a length field of 2^64 - 1 is rejected as truncated, while the source adds 1 to it first, which overflows; and the source reserves the declared uncompressed length before it decompresses, which panics above 2^63 - 1 bytes (src/main.rs:2527), where the model answers from the payload.
- SpoolSegment.BuildRecord: for lines shorter than 2^63 bytes, which is all a Rust byte vector can hold.
- IdentityResolver.Resolver.ResolvePid: a hit is compared with a resolution from the host facts that were read when the entry was stored.
- CacheCoherence.HitIsFreshWalk: for roots with no page-table store since their last invalidation, which is the source's own contract with its callers, and for pages that fit their region, without which it fails (`HitsSpeakExactly`).
