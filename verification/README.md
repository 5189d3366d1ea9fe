# Verified models of six Xen components

Dafny models of six stateful parts of the Xen tools, stub domains and Mini-OS, with proofs of what
each is for. `dafny verify dfyconfig.toml` checks all of them.

| component | files | what is proved |
|---|---|---|
| vTPM manager disk (`stubdom/vtpmmgr`) | `HashTree`, `DiskRecovery`, `DiskStore`, `VtpmManager`, `VtpmHistory`, `VtpmIndex` | a sync can be stopped after any sector write, torn or not: recovery finds the whole old tree or the whole new one, over every run of changes, syncs, aborts, crashes and restarts, and never an older one; writer and reader agree on every tree; the in-memory index stays dense |
| disk encryption (`stubdom/vtpmmgr/disk_crypto.c`) | `DiskCrypto` | counter mode round-trips for every accepted size, in place too; CMAC is that of RFC 4493 exactly for whole blocks |
| Remus checkpoint compression (`tools/libxc/xc_compression.c`) | `PageDelta`, `DeltaCache`, `Remus`, `RemusRun`, `RemusFailures` | codec round trip, LRU refinement of the linked list, agreement of sender cache and receiver memory over whole runs, from the sender's page loop to the receiver's pages; the two kinds of run in which they part |
| libvchan (`tools/libvchan/io.c`) | `VchanRing`, `Vchan` | in every interleaving the channel is a pair of bounded FIFO queues and no wakeup is lost, with one exception that is characterised exactly |
| Mini-OS page allocator (`extras/mini-os/mm.c`) | `AllocBitmap`, `Buddy`, `FreeLists`, `PageAllocator` | the free chunks are exactly the maximal free blocks of the bitmap, hence a partition, canonical, and independent of history; allocation fails only if no block exists; stale headers are harmless; over any history of requests no two blocks in use meet |
| PV-GRUB memory map (`stubdom/grub/kexec.c`) | `Kexec` | the map stays a permutation, the chase ends where the page sits, the collected updates invert the final map, over the whole launch of a kernel |
| Mini-OS block front-end (`extras/mini-os/blkfront.c`) | `Blkfront` | byte I/O over sectors refines a flat byte file; requests are tiled by their segments |

`Common` and `Remainders` hold small shared definitions and arithmetic.

The models keep the form of the code: classes with fields and arrays for what the code updates in
place, methods with loops for its loops, functions for what they compute. libvchan, where two
programs run at once, is a step machine, each step one access to shared memory; `VchanRing.Ring`
holds its copies as methods on an array, and `Vchan.CopyAllIsPut` and `Vchan.CopyAllIsTake` tie
the two together.

## Premises

- SHA-256 and the MACs of the disk format are ideal: digests are terms, equal exactly if the hashed
  data are equal. A torn sector is unreadable. AES is any function on blocks; where it matters it is
  assumed injective.
- Unsealing succeeds for every group that has a seal. Whether the TPM accepts a counter update is
  an input. In this source `TPM_disk_incr_counter` always accepts
  (stubdom/vtpmmgr/disk_tpm.c:249-253), so a refusal is a premise about a TPM that the code is
  written for but not yet connected to.
- Both ends of a channel run one operation at a time, notification does not fail, and the memory
  barriers of the source give program order.
- Mini-OS runs with virtual and physical page numbers equal, and `alloc_page` returns pages of the
  domain that were not returned before.
- The block device completes every request; `_xmalloc` returns an aligned block apart from the
  caller's buffer.

## Where the code does less than it promises

Each has a lemma or contract that says exactly when the promise holds.

- `load_verify_vtpm_pages` never advances its page pointer, so loading a group restores its page
  array if and only if the group has at most one page (`VtpmManager.Manager.LoadGroup`).
- If the TPM refuses the counter update of the first sync of a new disk, the manager switches back
  to a slot that was never written: the invariant holds afterwards if and only if the update
  succeeded or the old slot loads (`VtpmManager.Manager.SyncDisk`). The next sync then writes over
  the only committed tree, and a torn write leaves nothing (`VtpmHistory.RefusedCounterLosesTree`).
- `vtpm_new_disk` trusts that a device from which nothing could be loaded holds nothing: its
  manager satisfies the invariant if and only if neither slot has a readable header
  (`VtpmManager.Manager.NewDisk`).
- `disk_set_used` lets the first sector past the end through and indexes its map there
  (`VtpmManager.Manager.SetUsed`: in bounds if and only if the sector is not 0x200).
- A page refused for lack of space leaves every receiver in agreement if and only if it is cached
  or raw (`Remus.RefusedKeepsAgreementIff`, `Remus.Compressor.CompressPages`): after a miss the slot
  has another page's contents under the new PFN, and when the page is taken up again the receiver
  decodes a page that was not sent (`RemusFailures.RefusedMissCorrupts`). The space
  that `write_compressed` guarantees does not rule this out; room for a whole buffer does
  (`RemusRun.AmpleRoom`).
- A page may be sent raw if and only if it is not cached (`Remus.RawKeepsAgreementIff`). A page added
  raw after it was added as an ordinary page of the same batch breaks this
  (`RemusFailures.RawAfterOrdinaryCorrupts`).
- A blocking `libxenvchan_read` of zero bytes on an empty ring waits without having requested a
  notification (`Vchan.ZeroReadStalls`, `Vchan.NoLostWakeupIff`).
- The allocation bitmap covers all pages, and the one after the last, only if the number of pages
  divided by eight is not a multiple of 4096 (`PageAllocator.BitmapCoversIff`).
- `blkfront_posix_rwop` computes its first disk offset in 32 bits (`Blkfront.ByteFileIff`,
  `Blkfront.LocationIff`), its direct transfers are whole blocks only for sectors up to the page
  size (`Blkfront.SectorSizeIff`), and its result wraps at 2 GiB (`Blkfront.Int32Iff`).
- `aes_cmac` pads a partial block with zeros and no leading one bit (`DiskCrypto.AesCmac`).
- `do_exchange` keeps pages findable if and only if neither exchanged page can still be allocated
  (`Kexec.Grub.DoExchange`, `Kexec.ExchangeKeepsIff`), and a later `kexec_allocate` of a page keeps
  the map a permutation if and only if its MFN was not exchanged (`Kexec.AllocateAfterExchangeIff`).

## Model

| member | source | states |
|---|---|---|
| `HashTree.LevelIsLeast` | stubdom/vtpmmgr/disk_write.c:130-133 | the level of a tree is the least k for which n pages fit under h entries |
| `HashTree.ChildIsLower` | stubdom/vtpmmgr/disk_write.c:144-159 | every child lies at a strictly lower level even when it holds as many pages as its parent, so the recursion ends |
| `HashTree.EntriesFit` | stubdom/vtpmmgr/disk_write.c:126-168 | the entries of a level never exceed the array they are stored in |
| `HashTree.TreeFrame` | stubdom/vtpmmgr/disk_read.c:258-310 | a tree that verifies depends on its own sectors only |
| `HashTree.TreeBinding` | stubdom/vtpmmgr/disk_read.c:258-310 | two trees that verify against the same digests hold the same pages |
| `HashTree.TreeDigest` | stubdom/vtpmmgr/disk_write.c:126-168 | the digests at the top of a verified tree are those of its pages, whatever sectors they are on |
| `HashTree.KidsAppend` | stubdom/vtpmmgr/disk_write.c:144-159 | one more sector after full ones extends the walk by exactly its own subtree |
| `VtpmManager.SizeTree` | stubdom/vtpmmgr/disk_write.c:130-133 | the loop ends with the least power of 112 under which the pages fit |
| `VtpmManager.Manager.SetUsed` | stubdom/vtpmmgr/disk_io.c:97-105 | the sector gains the active slot and keeps the other; sectors past the end are ignored, and the access is in bounds if and only if the sector is not the first of them |
| `VtpmManager.Manager.FlushSlot` | stubdom/vtpmmgr/disk_io.c:107-112 | dynamic sectors lose the active slot and nothing else changes |
| `VtpmManager.Manager.FindFree` | stubdom/vtpmmgr/disk_io.c:114-125 | returns the first dynamic sector that carries no slot, marks it, and fails exactly if there is none |
| `VtpmManager.Manager.WriteCryptSector` | stubdom/vtpmmgr/disk_write.c:22-32 | the block goes to the lowest dynamic sector that carried no slot before, and nothing else changes |
| `VtpmManager.Manager.WriteVtpmPage` | stubdom/vtpmmgr/disk_write.c:43-65 | an unchanged page is left alone; a changed one ends up on disk under the active slot |
| `VtpmManager.Manager.WriteVtpmITree` | stubdom/vtpmmgr/disk_write.c:126-168 | a reader that walks the result finds every page in its place; every sector of the tree is marked and is recorded |
| `VtpmManager.Manager.WriteITreeNodes` | stubdom/vtpmmgr/disk_write.c:144-159 | one level of the tree over any number of pages, as the reader will walk it |
| `VtpmManager.Manager.WriteGroupSector` | stubdom/vtpmmgr/disk_write.c:173-212 | the group sector verifies with the digests of memory and all its sectors carry the active slot |
| `VtpmManager.Manager.PopulateUsedGroup` | stubdom/vtpmmgr/disk_write.c:101-120 | exactly the remembered sectors of the group gain the active slot |
| `VtpmManager.Manager.PopulateUsed` | stubdom/vtpmmgr/disk_write.c:266-274 | the same for all groups |
| `VtpmManager.Manager.WriteTrees` | stubdom/vtpmmgr/disk_write.c:317-372 | every tree write spares the committed tree of the other slot; the root is written last |
| `VtpmManager.Manager.WriteAll` | stubdom/vtpmmgr/disk_write.c:363-372 | the writes are a plan of tree, root and seal list, and afterwards the new slot loads and is protected |
| `VtpmManager.Manager.SyncDisk` | stubdom/vtpmmgr/vtpm_disk.c:23-105 | writes nothing if and only if the first group is not open or has no seal, is aborted only if no sector is free or there are too many seals, and otherwise ends; its writes are the tree in free sectors, then the root with the digests of memory, then the seal list, and every image a stop may leave is safe; a sync that ends has committed memory in the other slot under a higher sequence number, and recovery then takes it at its first attempt; the invariant holds afterwards if and only if the counter update succeeded or the old slot loads; the first write of a single group without vTPMs goes to the lowest sector that is free once the slot is flushed |
| `VtpmManager.Manager.LoadVtpmPages` | stubdom/vtpmmgr/disk_read.c:228-252 | succeeds exactly if all pages verify, marks their sectors, and leaves the page array as the unadvanced pointer does |
| `VtpmManager.Manager.LoadVtpmITree` | stubdom/vtpmmgr/disk_read.c:258-310 | succeeds exactly if the walk does; page index k is visited once, in order, with the sector and digest stored for k; exactly the sectors of the tree are recorded; of every 112 pages the last ends up in the slot of the first and the other slots keep what they held |
| `VtpmManager.Manager.LoadGroup` | stubdom/vtpmmgr/disk_read.c:314-375 | succeeds exactly if the group verifies, marks all its sectors, remembers only what is on disk; the page array is then that of the disk, in order, if and only if the group has at most one page |
| `VtpmManager.Manager.LoadRootPost` | stubdom/vtpmmgr/disk_read.c:454-529 | succeeds exactly if the slot loads; the loaded tree is then protected by its slot |
| `VtpmManager.Manager.LoadDisk` | stubdom/vtpmmgr/disk_read.c:531-602 | succeeds exactly if recovery selects a slot; ends in that slot, with its sequence number and group entries, and establishes the invariant; never writes |
| `VtpmManager.Manager.ChangeGroups` | stubdom/vtpmmgr/vtpm_disk.c:118-156 | changes that forget the location of whatever they change keep the invariant; `VtpmIndex.ChangeIsDerived` shows that adding and deleting vTPMs are such |
| `VtpmManager.Manager.NewDisk` | stubdom/vtpmmgr/disk_write.c:379-410 | keeps the device and the in-use marks that failed attempts to load have left; where nothing was recovered, the invariant holds if and only if neither slot has a readable header |
| `DiskRecovery.CrashAtomicity` | stubdom/vtpmmgr/disk_read.c:553-602 | after any prefix of a sync's writes, the next one torn or not, recovery takes at its first attempt the whole old tree or the whole new one |
| `DiskRecovery.CrashKeepsOld` | stubdom/vtpmmgr/disk_read.c:553-602 | whatever recovery prefers, the old tree survives every prefix, so recovery succeeds |
| `DiskRecovery.IntactLoads` | stubdom/vtpmmgr/disk_read.c:454-529 | a slot whose static sectors and tree sectors are unchanged still loads |
| `DiskRecovery.SyncImage` | stubdom/vtpmmgr/disk_write.c:317-372 | what every image of an interrupted sync looks like, slot by slot |
| `DiskStore.WritesSpare` | stubdom/vtpmmgr/disk_io.c:97-125 | writes to sectors without a slot never touch the tree committed in the other slot, and leave it protected |
| `DiskStore.SyncIsSafe` | stubdom/vtpmmgr/disk_write.c:363-372 | every stop of a complete plan leaves a safe image |
| `DiskStore.AbortIsSafe` | stubdom/vtpmmgr/disk_io.c:114-125 | so does every stop of a sync that aborts for want of sectors |
| `DiskStore.SyncCommits` | stubdom/vtpmmgr/disk_write.c:317-361 | a plan that ran to its end leaves a slot that loads, is protected and holds the digests of memory |
| `DiskStore.ReloadKeepsPagesIff` | stubdom/vtpmmgr/disk_read.c:228-310 | what the reader leaves in the page array of a group, for any number of pages, equals the pages on disk if and only if there is at most one |
| `DiskStore.SyncEnds` | stubdom/vtpmmgr/vtpm_disk.c:72-85 | after the last write recovery prefers the new slot; switching back keeps the invariant if and only if the old slot held a tree |
| `DiskRecovery.RecoverIsNewest` | stubdom/vtpmmgr/disk_read.c:553-602 | recovery never settles for a root older than that of any slot that loads |
| `VtpmHistory.Boot` | stubdom/vtpmmgr/init.c:481-490 | a restart takes over the tree that recovery selects, or starts a new manager; it satisfies the invariant if and only if something was recovered or neither slot has a readable header |
| `VtpmHistory.Step` | stubdom/vtpmmgr/vtpm_disk.c:23-105 | one event of a run, from any manager that satisfies the invariant: a change sets the groups; a sync leaves its writes on the device; a stopped sync leaves the first k of them, the next torn or not, and the manager restarts from that image; what was committed stays intact and never gets older, the preferred slot holds the whole previous tree or the whole tree of memory, and the invariant is lost exactly when the counter refuses the first sync that ever ends |
| `VtpmHistory.CommittedForever` | stubdom/vtpmmgr/vtpm_disk.c:23-105 | along a run the active slot, once it holds a tree, always does, under a sequence number that never falls |
| `VtpmHistory.RootsKnown` | stubdom/vtpmmgr/disk_write.c:317-361 | along a run every readable root was there at the start or is the root, with the digests of memory at that time, of a sync before |
| `VtpmHistory.PreferredForever` | stubdom/vtpmmgr/disk_read.c:553-602 | along a run in which no counter update is refused the active slot is always the one recovery tries first |
| `VtpmHistory.Run` | stubdom/vtpmmgr/vtpm_disk.c:23-105 | every run of changes, syncs that end, are aborted or refused, and syncs stopped at any write and restarted: each event does to memory and device what `Happens` says and keeps what `SafeStep` says, so a crash leaves the whole previous tree or the whole tree of memory; recovery succeeds wherever something was committed and never goes back behind it, finds a sync that ended right after it, finds only roots that were there or were written, and needs no second attempt unless a counter update was refused |
| `VtpmHistory.RefusedCounterLosesTree` | stubdom/vtpmmgr/vtpm_disk.c:76-84 | on an empty device, a sync that the counter refuses, a change of the group and a sync whose first write is torn: the first committed a tree that recovery found before the last, and afterwards recovery finds nothing |
| `VtpmIndex.MemGroup.CreateVtpm` | stubdom/vtpmmgr/vtpm_disk.c:159-187 | the new vTPM comes last, the index stays dense, and neither consistency abort is reached |
| `VtpmIndex.MemGroup.DeleteVtpm` | stubdom/vtpmmgr/vtpm_disk.c:189-212 | refused exactly while open; otherwise removes exactly that vTPM by moving the last one, keeps the index dense, and every page that changes has to be written again |
| `VtpmIndex.MemGroup.AddVtpm` | stubdom/vtpmmgr/vtpm_cmd_handler.c:725-731 | creating a vTPM and invalidating its page appends it, and every page is as it was or has to be written again |
| `VtpmIndex.ViewOfDense` | stubdom/vtpmmgr/disk_read.c:236-247 | what is written of a dense group is what the reader expects from the number of vTPMs: as many pages, and vTPM g on page g / 48 as entry g % 48 |
| `VtpmIndex.ChangeIsDerived` | stubdom/vtpmmgr/vtpm_disk.c:118-212 | after adding or deleting a vTPM the group remembers of the disk only what it remembered before |
| `VtpmIndex.CreateNeedsSyncIff` | stubdom/vtpmmgr/vtpm_disk.c:148-187 | without `vtpm_sync` the page of a new vTPM would be wrongly taken to be on disk if and only if it was on disk before |
| `VtpmIndex.MemGroup.Find` | stubdom/vtpmmgr/vtpm_disk.c:222-233 | the first vTPM of the group with the UUID, and none exactly if none is live |
| `VtpmIndex.FindVtpm` | stubdom/vtpmmgr/vtpm_disk.c:214-237 | succeeds if and only if some open group holds a live vTPM with the UUID, and returns one of the first such group |
| `VtpmIndex.SwapRemoveIs` | stubdom/vtpmmgr/vtpm_disk.c:199-209 | moving the last entry into a place removes exactly the entry that was there |
| `VtpmIndex.AppendDense` | stubdom/vtpmmgr/vtpm_disk.c:161-180 | appending keeps entry g at page g / 48, slot g % 48, on full pages except the last |
| `VtpmIndex.RemoveDense` | stubdom/vtpmmgr/vtpm_disk.c:191-209 | so does removing, including the last entry of a page |
| `DiskCrypto.CtrRoundTrip` | stubdom/vtpmmgr/disk_crypto.c:46-148 | decrypting what was encrypted yields the text for every text and every larger target |
| `DiskCrypto.Memory.EncryptCtr` | stubdom/vtpmmgr/disk_crypto.c:56-109 | aborts exactly for the sizes described by `Accepted`; otherwise the target is counter block and text xor key stream, with padding, also when the text is encrypted in place; nothing else changes |
| `DiskCrypto.Memory.DecryptCtr` | stubdom/vtpmmgr/disk_crypto.c:111-148 | aborts exactly if the source is too short; otherwise the decryption, also in place |
| `DiskCrypto.Memory.InPlace` | stubdom/vtpmmgr/disk_write.c:52-60 | a vTPM sector encrypted in place and decrypted in place is unchanged |
| `DiskCrypto.ShlMod` | stubdom/vtpmmgr/disk_crypto.c:150-157 | on bit strings, the subkey step of section 2.3 of RFC 4493 |
| `DiskCrypto.AesCmac` | stubdom/vtpmmgr/disk_crypto.c:166-193 | the MAC of section 2.4 of RFC 4493 for whole blocks and, for an injective cipher, for no other message |
| `PageDelta.CompressPage` | tools/libxc/xc_compression.c:134-205 | refused exactly below 4105 bytes of space; otherwise at most 4105 bytes that turn the cached page into the new one wherever they stand in a stream, and the cache holds the new page; an unchanged page is one byte |
| `PageDelta.UncompressPage` | tools/libxc/xc_compression.c:364-453 | in place, the same result, position and failures as the decoder function, on any input |
| `PageDelta.DecodeExecutes` | tools/libxc/xc_compression.c:402-448 | the decoder executes a list of runs that fills a page and consumes exactly it, whatever follows |
| `PageDelta.EncodingEnds` | tools/libxc/xc_compression.c:85-101 | the runs of a page fit the worst-case size and encode it; everything was skipped exactly if the page is unchanged |
| `PageDelta.FullEncodes` | tools/libxc/xc_compression.c:118-132 | a full page decodes to itself over any old page |
| `DeltaCache.Cache.constructor` | tools/libxc/xc_compression.c:467-536 | all slots free, linked in order, no PFN indexed |
| `DeltaCache.Cache.GetCachePage` | tools/libxc/xc_compression.c:207-251 | list and index represent the recency sequence after a hit or a miss, and the miss is reported |
| `DeltaCache.Cache.InvalidatePage` | tools/libxc/xc_compression.c:254-284 | list and index represent the recency sequence with the page's slot freed and last |
| `DeltaCache.TouchIsLru` | tools/libxc/xc_compression.c:207-251 | the live PFNs are those of an LRU cache: a page is evicted only if no slot is free and then it is the least recently used |
| `DeltaCache.InvalidateIsRemoval` | tools/libxc/xc_compression.c:254-284 | exactly one PFN is forgotten and the order of the others is kept |
| `DeltaCache.TouchOk` | tools/libxc/xc_compression.c:207-251 | free slots stay a suffix and no PFN is cached twice |
| `DeltaCache.InvalidateOk` | tools/libxc/xc_compression.c:254-284 | the same, and the PFN is no longer cached |
| `Remus.AgreeStep` | tools/libxc/xc_compression.c:327-343 | one page decodes at the receiver to what was sent and every cached page remains the receiver's copy |
| `Remus.BatchDecodes` | tools/libxc/xc_compression.c:311-356 | the stream of a batch decodes to exactly the pages sent, consuming exactly its bytes |
| `Remus.OrderlyIsRawInvalid` | tools/libxc/xc_compression.c:296-299 | if no PFN is added raw after having been added normally, every raw page is uncached when its turn comes |
| `Remus.AddKeepsAgreement` | tools/libxc/xc_compression.c:286-309 | buffering a batch keeps agreement and leaves none of its raw pages cached |
| `Remus.DeliverLast` | tools/libxc/xc_compression.c:311-356 | a PFN ends up with the last page sent for it |
| `Remus.RawKeepsAgreementIff` | tools/libxc/xc_compression.c:329-343 | sending a page raw keeps every receiver in agreement, whatever the page holds, if and only if it is not cached |
| `Remus.RefusedKeepsAgreementIff` | tools/libxc/xc_compression.c:329-350 | refusing a page keeps every receiver in agreement if and only if it is cached |
| `Remus.RefusedHitKeepsAgreement` | tools/libxc/xc_compression.c:329-350 | a refused hit keeps agreement and is idempotent |
| `Remus.ResumeAfterHit` | tools/libxc/xc_compression.c:345-350 | a refused hit or raw page can be taken up again as if it had never been refused |
| `Remus.Compressor.AddPage` | tools/libxc/xc_compression.c:286-309 | the page is buffered, a raw one is invalidated at once, and the result tells an invalid PFN and a full buffer |
| `Remus.Compressor.CompressNext` | tools/libxc/xc_compression.c:327-350 | refused exactly for want of the space this kind of page needs; otherwise a valid code and the next cache |
| `Remus.Compressor.CompressPages` | tools/libxc/xc_compression.c:311-356 | emits the buffered pages in order until none is left or one is refused, with the cache state of each outcome; every receiver stays in agreement if and only if no miss was refused; an empty buffer is reset |
| `Remus.ChainIsCodes` | tools/libxc/xc_compression.c:311-356 | calls that resume after refusing a raw or cached page emit, together, exactly what one call with enough space would, and leave the same cache |
| `RemusRun.RunAgreement` | tools/libxc/xc_compression.c:286-356 | over any number of flushes and calls, with hits, misses, evictions, raw pages and refusals other than of misses, every receiver that mirrors the cache decodes from the emitted bytes exactly the pages sent, and mirrors the cache again |
| `RemusRun.WriteCompressed` | tools/libxc/xc_domain_save.c:230-282 | the flush loop ends, with everything emitted and the buffer empty, and each call refused a page only for want of space |
| `RemusRun.SendPages` | tools/libxc/xc_domain_save.c:1408-1478 | the page loop of a checkpoint, with a flush whenever the buffer is full: the flushes together emit exactly the pages, in order, each in the space it was given |
| `RemusRun.ApplyBatch` | tools/libxc/xc_domain_restore.c:1344-1357 | the receiver's loop decodes in place to what the decoder function says, for any stream, and fails exactly if that does |
| `RemusRun.Checkpoint` | tools/libxc/xc_domain_save.c:1408-1478 | one checkpoint from the sender's page loop to the receiver's pages: they hold what was sent and mirror the cache, if no miss was refused in the spaces that were given |
| `RemusRun.Replicate` | tools/libxc/xc_domain_save.c:1408-1478 | the same over any number of checkpoints, and without that premise if every call is given room for a whole buffer |
| `RemusRun.AmpleRoom` | tools/libxc/xc_domain_save.c:230-282 | calls that are given room for a whole buffer of pages at their worst-case size never refuse a miss |
| `RemusFailures.RefusedMissCorrupts` | tools/libxc/xc_compression.c:329-350 | from any state of any compressor and any receiver that mirrors it, two uncached pages flushed with room for two pages: the second is refused, and the receiver decodes the emitted stream to a page that was not sent |
| `RemusFailures.RawAfterOrdinaryCorrupts` | tools/libxc/xc_compression.c:296-299 | from any such state, a page that is ordinary and then raw in one flush and ordinary again in the next: the receiver decodes the emitted stream to a page that is not the last one sent |
| `VchanRing.IndicesCount` | tools/libvchan/io.c:118-167 | data and space computed from wrapped 32-bit indices are exact for every total, however often they wrapped |
| `VchanRing.FilledUp` | tools/libvchan/io.c:159-167 | filling exactly the space there was leaves none, across the wrap |
| `VchanRing.WrapMove` | tools/libvchan/io.c:210-222 | a step from a wrapped index leads to the slot of the true one |
| `VchanRing.PutTake` | tools/libvchan/io.c:210-304 | what was stored, rolling over the end or not, is what is read back |
| `VchanRing.Ring.DoSend` | tools/libvchan/io.c:210-225 | the two copies store the bytes one after the other from the index on and touch no other slot; the index moves by their number |
| `VchanRing.Ring.DoRecv` | tools/libvchan/io.c:286-301 | the two copies read the bytes from the index on; the ring is unchanged |
| `Vchan.StepKeeps` | tools/libvchan/io.c:95-342 | every step of either end keeps the invariant |
| `Vchan.RunKeeps` | tools/libvchan/io.c:95-342 | so every state of every run satisfies it |
| `Vchan.PublishesData` | tools/libvchan/io.c:210-225 | what is published is the data of the operation, in order |
| `Vchan.Fifo` | tools/libvchan/io.c:118-304 | in every run what was delivered is a prefix of what was accepted and the rest is exactly the window of the ring, never longer than the ring |
| `Vchan.HistoryGrows` | tools/libvchan/io.c:210-304 | nothing accepted or delivered is taken back |
| `Vchan.NoLostWakeup` | tools/libvchan/io.c:95-185 | an end blocked with no event pending still has its request set and its index current, unless the peer is about to notify |
| `Vchan.NoLostWakeupIff` | tools/libvchan/io.c:327-342 | for rings of whatever sizes, this holds for an operation in all runs if and only if it is not a blocking read of no bytes |
| `Vchan.ZeroReadStalls` | tools/libvchan/io.c:327-342 | for rings of whatever sizes, a run in which such a read sleeps through data sent to it |
| `Vchan.BlockedForCause` | tools/libvchan/io.c:233-342 | an end blocked with no event pending or coming really lacks the space or data it waits for |
| `Vchan.StreamProgress` | tools/libvchan/io.c:251-342 | the writer and the reader of a stream are never both blocked with no event pending |
| `Vchan.CopyAllIsPut` | tools/libvchan/io.c:210-222 | the byte steps of the machine store what the two copies store |
| `Vchan.CopyAllIsTake` | tools/libvchan/io.c:286-298 | and read what the two copies read |
| `AllocBitmap.BelowBit` | extras/mini-os/mm.c:63-66 | (1 << n) - 1 has exactly the bits below n |
| `AllocBitmap.FromBit` | extras/mini-os/mm.c:63-66 | -(1 << n) has exactly the bits from n on |
| `AllocBitmap.MapAlloc` | extras/mini-os/mm.c:72-91 | exactly the bits of the range are set, within a word or across words |
| `AllocBitmap.MapFree` | extras/mini-os/mm.c:94-113 | exactly the bits of the range are cleared |
| `Buddy.Partition` | extras/mini-os/mm.c:200-362 | every free page lies in exactly one chunk |
| `Buddy.NoBuddies` | extras/mini-os/mm.c:322-351 | no two buddies are both free chunks |
| `Buddy.CanonicalUnique` | extras/mini-os/mm.c:200-362 | the chunks are determined by the bitmap, so freeing everything in any order restores the initial ones |
| `Buddy.EnoughIff` | extras/mini-os/mm.c:264-270 | a chunk of at least an order exists if and only if the bitmap has a free aligned block of that order |
| `Buddy.TakeChunk` | extras/mini-os/mm.c:272-275 | allocating a chunk as a whole leaves the maximal blocks otherwise unchanged |
| `Buddy.GiveChunk` | extras/mini-os/mm.c:279-295 | giving back a block whose buddy is not free adds exactly that block |
| `Buddy.HeaderIsCurrent` | extras/mini-os/mm.c:325-344 | the first page of the buddy, if free, is the head of a chunk, so its level is never stale, and it equals k exactly if the buddy is free as a whole |
| `FreeLists.PushIndexes` | extras/mini-os/mm.c:246-252 | linking a chunk in keeps all lists, their back pointers and the headers |
| `FreeLists.UnlinkIndexes` | extras/mini-os/mm.c:346-348 | unlinking through the chunk's own pointers removes exactly it, wherever it is in its list |
| `FreeLists.ScribbleIndexes` | extras/mini-os/mm.c:124-130 | whatever is written to an allocated page does not affect the lists |
| `PageAllocator.MergeTest` | extras/mini-os/mm.c:325-344 | the bitmap test and the level test together decide whether the buddy is free as a whole |
| `PageAllocator.BitmapCoversIff` | extras/mini-os/mm.c:216-224 | the bitmap has a bit for every page and for the one after if and only if the page count divided by eight is no multiple of 4096 |
| `PageAllocator.LargestIsChunk` | extras/mini-os/mm.c:232-240 | the block the initial loop cuts off is a maximal free block |
| `PageAllocator.Allocator.constructor` | extras/mini-os/mm.c:200-254 | the free pages are those between bitmap and end, and the lists hold exactly their maximal blocks |
| `PageAllocator.Allocator.AllocPages` | extras/mini-os/mm.c:258-306 | fails if and only if the bitmap has no free block of the order; otherwise returns an aligned managed block that was free, from a smallest chunk that is large enough, marks exactly it, and keeps lists and bitmap in step |
| `PageAllocator.Allocator.FreePages` | extras/mini-os/mm.c:308-362 | exactly the block becomes free and the lists again hold exactly the maximal free blocks |
| `PageAllocator.Allocator.FreeAll` | extras/mini-os/mm.c:308-362 | freeing a set of disjoint allocated blocks, in any order, restores the bitmap and the very chunks from before |
| `PageAllocator.NewIsDisjoint` | extras/mini-os/mm.c:258-306 | a block that is free beside the blocks in use meets none of them |
| `PageAllocator.Allocator.Serve` | extras/mini-os/mm.c:258-362 | over any history of allocations and releases no two blocks in use ever meet, and an allocation fails only if no aligned block of its order is free |
| `PageAllocator.Allocator.ServeAndFree` | extras/mini-os/mm.c:258-362 | after any history, freeing what is still in use restores the bitmap and the very chunks from before |
| `PageAllocator.Allocator.Scribble` | extras/mini-os/mm.c:124-134 | arbitrary contents of allocated pages keep the invariant |
| `Kexec.ChaseStep` | stubdom/grub/kexec.c:120-130 | recording a move leaves a chase where it was, or takes it on if it had reached the moved page |
| `Kexec.MoveKeeps` | stubdom/grub/kexec.c:110-138 | the chase from a fresh page ends at or above i exactly where its MFN sits, and the exchange keeps this for all pages still to come |
| `Kexec.Grub.Exchange` | stubdom/grub/kexec.c:110-138 | one iteration puts the fresh page at PFN i and the page from there where the chase ends; the map stays a permutation if and only if the fresh page was found there |
| `Kexec.PlacedKeepsIff` | stubdom/grub/kexec.c:131-138 | the same for any map and any place |
| `Kexec.Grub.Allocate` | stubdom/grub/kexec.c:103-144 | the map stays a permutation, each new PFN holds its fresh page, lower PFNs are untouched |
| `Kexec.Grub.DoExchange` | stubdom/grub/kexec.c:84-101 | one exchange in the map; pages stay findable if and only if neither MFN belongs to a page that can still be allocated |
| `Kexec.ExchangeKeepsIff` | stubdom/grub/kexec.c:84-101 | the same for any exchange of two different PFNs |
| `Kexec.AllocateAfterExchangeIff` | stubdom/grub/kexec.c:309-321 | allocating a page after an exchange keeps the map a permutation if and only if the MFN of the page is neither of the two exchanged |
| `Kexec.BelowIsTaken` | stubdom/grub/kexec.c:103-144 | whatever sits at a PFN that has been allotted belongs to no page that can still be allocated |
| `Kexec.Grub.ExchangeAll` | stubdom/grub/kexec.c:309-317 | putting pages of Mini-OS at PFNs that have been allotted keeps the map a permutation and all pages findable, puts every page in its place, and moves no other |
| `Kexec.Grub.CollectUpdates` | stubdom/grub/kexec.c:389-400 | the updates, applied to the old machine-to-physical map, make it the inverse of the new map |
| `Kexec.UpdatesInvert` | stubdom/grub/kexec.c:389-400 | and touch no other machine page |
| `Kexec.Grub.Launch` | stubdom/grub/kexec.c:309-400 | the whole sequence of allocating, exchanging the console, xenstore and boot pages, allocating the rest and collecting: the map is a permutation, every page is where it was put, and the updates make the machine-to-physical map its inverse |
| `Blkfront.SegmentsTile` | extras/mini-os/blkfront.c:351-374 | the segments of a request tile its bytes in order, without gap or overlap |
| `Blkfront.DirectOk` | extras/mini-os/blkfront.c:658-669 | a direct transfer is whole blocks, at least one, and at most eleven segments |
| `Blkfront.SectorSizeIff` | extras/mini-os/blkfront.c:658-669 | this holds for all requests, among the powers of two from 512 on, if and only if the sector size is at most 4096 |
| `Blkfront.LocationIff` | extras/mini-os/blkfront.c:628-641 | the operation begins at its file offset if and only if that is below 4 GiB |
| `Blkfront.Int32Iff` | extras/mini-os/blkfront.c:651-651 | the result is the number of bytes moved if and only if that is below 2 GiB |
| `Blkfront.ByteFileIff` | extras/mini-os/blkfront.c:574-722 | transfers do to a file of bytes what pread and pwrite do, for all contents, if and only if the offset is below 4 GiB |
| `Blkfront.File.AioWrite` | extras/mini-os/blkfront.c:335-392 | the device ends up with exactly the bytes of the buffer at the offset |
| `Blkfront.File.AioRead` | extras/mini-os/blkfront.c:335-392 | the buffer ends up with exactly the bytes of the disk; none of the zero bytes written before survives |
| `Blkfront.File.CopyBlock` | extras/mini-os/blkfront.c:654-702 | part of a block is moved through the copy buffer and the rest of the block is preserved |
| `Blkfront.File.Chunk` | extras/mini-os/blkfront.c:648-670 | each turn makes progress, meets the assertions of the request it issues, and has a copy buffer whenever it needs one |
| `Blkfront.File.Loop` | extras/mini-os/blkfront.c:652-716 | the turns together move exactly the n bytes |
| `Blkfront.File.RwOp` | extras/mini-os/blkfront.c:574-722 | refuses and clips as documented; otherwise moves exactly the admitted bytes between buffer and disk, preserving everything else, and advances the offset by its result |

## Left out

- vTPM manager: sealing, PCR digests, NVRAM, the rollback-MAC merge and trees of more than 16 groups.
- vTPM manager: the unused tail of tree sectors, nonces, and the encryption of sectors inside the tree model; `DiskCrypto` covers the encryption itself.
- vTPM manager: `MGR_KEY_UPDATE`, which aborts whenever there is a group.
- VtpmManager.Manager.SyncDisk: a group whose header is not invalidated is committed as it is on disk, as in the code, even if its vTPMs changed in memory.
- VtpmManager.Manager.LoadRootPost: roots of more than 16 groups count as failures; the code would read a group tree for them.
- VtpmHistory.Run: ends where the counter refuses the first sync that ever ends, see VtpmHistory.RefusedCounterLosesTree.
- VtpmManager.Manager.LoadVtpmPages: a read past the end of the device, where the code aborts, counts as a failure.
- VtpmIndex.MemGroup.CreateVtpm: does not make the page dirty; the code leaves that to `vtpm_sync`.
- Disk crypto: SHA-256, key schedules, single-block wrappers, and the constant-time comparisons.
- DiskCrypto.Memory.EncryptCtr: targets shorter than the counter block, which the code does not check, are excluded.
- DiskCrypto.Memory.DecryptCtr: sources shorter than the counter block, for which the code's subtraction wraps, are excluded.
- DiskCrypto.AesCmac: the empty message, for which the code reads out of bounds, is excluded.
- Remus: the framing of the stream, page types, and which pages a checkpoint sends.
- RemusRun.RunAgreement: assumes that no page is raw after having been ordinary in the same batch and that no miss is refused, the exact conditions of Remus.RawKeepsAgreementIff and Remus.RefusedKeepsAgreementIff.
- Remus.Compressor.AddPage: excludes the PFN equal to the size of the index, which the code admits and then uses out of bounds.
- libvchan: `libxenvchan_is_open`, closing, and errors of the event channel; ring setup.
- PageAllocator.Allocator.constructor: excludes the memory sizes for which the bitmap does not cover the end, see PageAllocator.BitmapCoversIff.
- Page allocator: chunk tails, which are written and never read, and debugging output.
- PageAllocator.Allocator.AllocPages: orders above the number of lists, for which the code indexes past its table, are excluded.
- PageAllocator.Allocator.Serve: a request for such an order is passed over.
- Kexec: building the domain, pinning page tables and the hypercalls.
- Blkfront.File.RwOp: sector sizes above the page size, see Blkfront.SectorSizeIff, are excluded.
- Block front-end: the shared ring, grants, completion and error status of requests, `fstat`.
