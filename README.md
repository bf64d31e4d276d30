# Sprinkler controller: flash record store, event log and file store

A model of the storage and request-handling core of an ESP8266 irrigation
controller, with proofs about it.

The firmware splits its SPI flash into four areas:

- the firmware itself;
- a read-only file store holding the web UI;
- a pool of 4096-byte sectors, used as a wear-levelling rotation of
  configuration records;
- five sectors reserved for the SDK.

The model covers these parts:

- **Configuration record.** Each record is a checksummed 1024-word sector with
  an `id`, a `timestamp` and a `first_timestamp`.
  - `load_config` finds the newest record by a binary search over the
    rotated pool.
  - `save_config` stamps a record and writes it into the next slot.
  - When more than 200 writes per day are being made, the write is deferred
    to the next midnight.
- **Event log.** Every record carries a ring of 491 eight-byte log entries.
  - `log_event` copies the ring of the slot it is about to overwrite and
    appends to it. Before any record was written (`cfg_addr` at
    `log_end`) it copies slot `1 mod N` while the write goes to slot 0;
    in a blank pool both hold the blank ring.
  - `get_event_history` therefore finds event `idx` in slot `idx mod N`,
    `idx / N` entries deep.
- **File store.** A directory of 28-byte entries and the file contents.
  - It is written by `write_fs`.
  - It is built by the image tool `mkfs.py` or by the host-side mock's
    `fsmaker`.
  - It is read back through `init_filesystem`, `find_file` and `load_file`.
- **Web front end.** The request-line tokenizer and path normaliser, the
  MIME lookup, the error reply and the header placement.
- **Zone handling.** The `manual` request validator, the one-zone-on
  state machine and `safe_concat`.
- **Host-side mocks.** The mock SPI flash with its erase-before-write
  contract, the mock checksum, `fsmaker::construct`, and the mock timer
  list.

Flash is a sequence of 32-bit words: the little-endian view of the byte
array. Sector `k` is words `[1024k, 1024k + 1024)`. All 32-bit arithmetic
of the source is written out with `% 2^32` where it can wrap. Flash
operations may fail at any call.

The central results are:

- **The locator.** `load_config` returns the newest record of every pool
  that `write_config_sector` can produce. Every such pool is rotated, and
  the newest slot is unique.
- **The event log.** After any run of logged events whose saves all wrote
  their record, `get_event_history` returns exactly the events, newest
  first, up to the pool's capacity; this holds across a reboot as well.
- **The file store.** An image built by `mkfs.py` or by `fsmaker` and
  stored by `write_fs` is accepted by `init_filesystem`, and every file
  `load_file` reads through its entry is the file that went in.

## Model

| member | source | states |
|---|---|---|
| Checksums.CalcChecksum | src/filesystem.cpp:140-148 | The subtracting loop returns 0 minus the sum of the words, mod 2^32. |
| Checksums.ChangedWordDetected | src/filesystem.cpp:140-148 | Changing any single word to a different value changes the checksum. |
| Checksums.ChecksumBytes | tools/mkfs.py:16-21 | The script's `Checksum` of a byte string whose length is a multiple of 4 equals `calc_checksum` of its little-endian words. |
| Checksums.ByteChecksumWords | tools/mkfs.py:16-21 | The byte checksum is the word checksum of the whole words. |
| Checksums.CalcChecksumMock | tests/mock.cpp:185-197 | The mock checksum covers whole words only and ignores a trailing partial word. |
| FlashLayout.ConfigureFlash | src/filesystem.cpp:56-127 | `log_end` is the flash size minus five sectors, in 32 bits. A known map sets the flash size; an unknown map keeps the previous globals. |
| FlashLayout.KnownMapLayout | src/filesystem.cpp:61-126 | For every known map: `data_begin` comes from the table, and `data_end = min(data_begin + 128 KiB, log_end)`. `log_begin` is `data_end`, and the pool has at least one sector. |
| FlashLayout.UnknownMapLeavesNoPool | src/filesystem.cpp:113-126 | An unknown map at boot gives `data_begin == data_end == log_end`, so the pool is empty. |
| FlashLayout.MockLayout | tests/mock.cpp:47-52 | The mock's 4 MiB 512+512 map gives data at `0x100000..0x120000`, `log_end` at `0x3FB000`, and 731 pool sectors. |
| FlashLayout.RfCalSectorAsWrittenIsInPool | src/filesystem.cpp:134-138 | The sector returned as written is the first pool sector, inside `[log_begin, log_end)`. |
| FlashLayout.RfCalSectorIsReserved | src/filesystem.cpp:129-133 | The corrected sector is the first of the five reserved sectors, at `log_end`, past the pool. |
| SectorStore.Flash.EraseSector | tests/mock.cpp:54-64 | On success the sector exists and all 1024 of its words become `0xFFFFFFFF`. Otherwise flash is unchanged. |
| SectorStore.Flash.Write | tests/mock.cpp:66-81 | Needs a sector-aligned address whose covered sectors are erased. On success it stores exactly the data there. Otherwise flash is unchanged. |
| SectorStore.Flash.Read | tests/mock.cpp:83-93 | On success it returns exactly the `n` words at the address. |
| SectorStore.BlankErased | tests/mock.cpp:61 | Erased words read as erased. |
| Records.ErasedSectorAccepted | src/filesystem.cpp:342-343 | An all-ones sector is accepted without its checksum being checked. |
| Records.CorruptedWordRejected | src/filesystem.cpp:345-351 | Changing any word of an accepted, non-erased record makes it rejected, unless the change makes it look erased. |
| Records.Seal | src/filesystem.cpp:519-522 | Sets id, timestamp and first timestamp, keeps words 4.., and puts the checksum of words 1..1023 in word 0. |
| Records.SealedAccepted | src/filesystem.cpp:519-522 | A sealed record is always accepted when read back. |
| Records.Stamp | src/filesystem.cpp:509-522 | `save_config`'s record: the id is `cfg_last.id + 1` (mod 2^32) and the timestamp is `now`. The first timestamp is carried forward once set, otherwise it is `now`. The record is accepted, and its payload is kept. |
| Records.Refresh | src/filesystem.cpp:542-547 | The deferred write's record: the next id, the timestamp `now`, and `cfg_last`'s first timestamp. It is accepted, and its payload is kept. |
| Records.SaveSequence | src/filesystem.cpp:509-519 | From the boot `cfg_last`, the k-th save gets id k-1, and every save keeps the first save's timestamp as `first_timestamp`. |
| Records.RotatedMax | src/filesystem.cpp:403-438 | In a rotated pool, the newest slot holds the largest id written. |
| Records.RotatedUnique | src/filesystem.cpp:403-438 | A rotated pool has exactly one newest slot. |
| Records.HighIsNewest | src/filesystem.cpp:407-413 | In a probed range, `high` is newer than `low` exactly when `high` is the newest slot. |
| Records.RotatedStep | src/filesystem.cpp:463-493 | Writing a larger id into the slot after the newest gives a rotated pool whose newest slot is that slot. |
| Records.RotatedFirst | src/filesystem.cpp:395-396 | The first write into a blank pool, at slot 0, gives a rotated pool. |
| Records.WrittenPoolRotated | src/filesystem.cpp:463-493 | After w round-robin writes of ids 0..w-1, the pool is rotated with the newest in slot `(w-1) mod N`. |
| Records.WrittenIdsStep | src/filesystem.cpp:463-493 | Writing id w into slot `w mod N` after w round-robin writes gives the ids of w+1 writes. |
| Records.WrittenIdAt | src/filesystem.cpp:463-493 | After the write of id w, slot `w mod N` holds w and every other slot keeps its id. |
| RecordStore.NextSlotRoundRobin | src/filesystem.cpp:465-468 | The next write address is in the pool. After the virgin `cfg_addr = log_end` it is slot 0; otherwise it is slot `(j+1) mod N`. |
| RecordStore.RelativeSlotNext | src/configlog.cpp:56 | `load_config(1)` reads the slot that the next write overwrites. |
| RecordStore.WriteKeepsCoherent | src/filesystem.cpp:463-493 | Writing the next id into the next slot keeps the pool rotated, `cfg_addr` at the newest slot, and `cfg_last` equal to its header. |
| RecordStore.FirstSaveNotDeferred | src/filesystem.cpp:509-524 | The first save after a virgin load gets id 0 and `first_timestamp = now`, so it is never rate-limited. |
| RecordStore.EarlyClockDeferred | src/filesystem.cpp:452-453 | A clock at or before the carried first timestamp always counts as writing too fast. |
| RecordStore.Store.constructor | src/filesystem.cpp:24-31 | Boot state: no record, `cfg_last = {~0, ~0, 0, 0}`, no deferred write. |
| RecordStore.Store.ReadConfig | src/filesystem.cpp:335-354 | Returns the sector's words only if the read succeeds and the sector is accepted. A sector that is not accepted always gives None. |
| RecordStore.Store.Probe | src/filesystem.cpp:407-435 | One round of the binary search narrows `[low, high)` strictly and keeps the newest slot inside it. |
| RecordStore.Store.Search | src/filesystem.cpp:398-438 | The search from a non-virgin slot 0 returns a slot that is the newest slot of every rotation the pool can be in. |
| RecordStore.Store.Narrow | src/filesystem.cpp:403-436 | The loop ends at the newest slot when the pool is rotated. |
| RecordStore.Store.LoadConfig | src/filesystem.cpp:356-445 | No pool gives None. A loaded record is returned again. A virgin slot 0 gives `cfg_addr = log_end`. A rotated pool gives its newest slot, with `cfg_last` equal to its header. A blank or rotated pool leaves the store coherent. |
| RecordStore.Store.WriteConfigSector | src/filesystem.cpp:463-493 | Erase, then write into the next slot (wrapping to `log_begin`). `cfg_addr` and `cfg_last` change only when both succeed. |
| RecordStore.Store.CoherentAfterWrite | src/filesystem.cpp:489-490 | A successful write of the next id keeps the store coherent. |
| RecordStore.Store.CoherentAfterSave | src/filesystem.cpp:519-557 | A save that writes keeps the store coherent. |
| RecordStore.Store.SaveConfig | src/filesystem.cpp:495-558 | Refuses with no record, or with no clock and no earlier timestamp. Otherwise it stamps the record. When rate-limited it returns 0 without touching flash and arms the next midnight only if no write is pending. Otherwise it writes the next slot. |
| RecordStore.Store.Tick | src/filesystem.cpp:531-551 | The deferred write fires only when armed and `now` has reached the deadline. It disarms, refreshes the record and writes it without a rate check. |
| RecordStore.Store.LoadRelative | src/configlog.cpp:56 | `load_config(n)`, as its call sites use it (the function itself is not in the source): the accepted record of slot `(current + n) mod N`, read without replacing `cfg`. A slot that is not accepted gives None. |
| RateLimit.Budget | src/filesystem.cpp:447-461 | After at least a day, writing is too fast exactly when `id * 86400 >= 201 * lifetime`, i.e. more than 200 writes per day. |
| RateLimit.QuotientFits | src/filesystem.cpp:455-458 | After at least a day, the 64-bit quotient is at most the id, so it fits in 32 bits. |
| RateLimit.TruncatedQuotient | src/filesystem.cpp:457-458 | Within the first day, the quotient is truncated to 32 bits: 2^25 writes in one second pass the check. |
| RateLimit.NextMidnightAhead | src/filesystem.cpp:527-528 | Until the clock's last day, the deadline is the first midnight strictly after `now`, at most a day later. |
| RateLimit.NextMidnightWraps | src/filesystem.cpp:527-528 | On the clock's last day the 32-bit deadline wraps to a small value. |
| ConfigLayout.ConfigFitsSector | src/configlog.h:82-89 | The record fits one sector with less than one entry of slack. The settings end where the log begins, and the capacity is 491. |
| ConfigLayout.EntryRoundTrip | src/configlog.h:72-80 | `log_entry` is two words: any two words are an entry, and an entry with a 4-bit code and 28-bit data survives storing. |
| ConfigLayout.ZoneFrame | src/configlog.h:28-41 | A zone's fields are read from its own six words only. |
| ConfigLayout.SetDefaultZone | src/configlog.cpp:24-34 | Zone i becomes order i+1 with zero time, days, dow and name. Its padding bits and every other word are kept. |
| ConfigLayout.CopyLog | src/configlog.cpp:60-62 | The ring and `last_log_idx` become the source record's; every other word, and the padding beside `last_log_idx`, is kept. |
| ConfigLog.GetConfig | src/configlog.cpp:9-37 | No pool or a failed load gives None. A non-virgin record is returned untouched. A virgin record gets the zone defaults and `last_log_idx = 0xFFFF`. |
| ConfigLog.DefaultKeepsZones | src/configlog.cpp:24-34 | Each round of the defaults loop keeps the zones already set. |
| ConfigLog.DefaultKeepsRest | src/configlog.cpp:24-34 | The defaults loop touches only the zones and `last_log_idx`. |
| ConfigLog.DefaultsLog | src/configlog.cpp:21 | A record with the defaults carries the empty ring with index 0xFFFF, and its header is unchanged. |
| ConfigLog.NewEntry | src/configlog.cpp:70-73 | The entry keeps the code, truncates the data to 28 bits, and is a valid history entry when the clock is not all ones. |
| ConfigLog.AppendInPlace | src/configlog.cpp:65-73 | Advancing `last_log_idx` and writing `log[idx]` in the record appends the entry to its ring. |
| ConfigLog.AppendEvent | src/configlog.cpp:39-73 | Up to the save: a bad code, no record, an unknown clock or a failed read of the next slot refuses without touching flash. Otherwise the cached record's ring is the next slot's ring (the empty ring for a virgin record) with the new entry appended. |
| ConfigLog.LogEvent | src/configlog.cpp:39-76 | Fails with nothing written for a bad code, a zero clock or no pool. Once the save is reached the cached record holds the appended ring, even if the save fails. A rate-limited save returns success with flash and `cfg_addr` unchanged and the midnight write armed. Otherwise a success has overwritten exactly the next slot with the record, and a failure keeps `cfg_addr`. |
| ConfigLog.LogTwiceDeferred | src/configlog.cpp:54-63 | Two `log_event` calls with the first save rate-limited: the record left holds the ring the flash held plus the second entry only, as if the first event had never been logged. The first entry is in it only if the flash ring already held it. |
| ConfigLog.EntryLost | src/configlog.cpp:65-73 | Appending one entry to a ring adds no other entry to it. |
| ConfigLog.AppendKeepingPending | src/configlog.cpp:39-73 | Corrected, up to the save: the ring is copied from the next slot only when the cached record is the one last written; while its write is pending the entry is appended to the record's own ring. |
| ConfigLog.LogEventKeepingPending | src/configlog.cpp:39-76 | Corrected `log_event`: the same refusals and save outcomes as `log_event`, appending to the pending ring. A rate-limited save also keeps `cfg_last`, so the write stays pending for the next call. |
| ConfigLog.LogTwiceKeepingPending | src/configlog.cpp:54-75 | Corrected, two calls with the first save rate-limited: the record left holds the first call's ring with both entries appended in order. |
| ConfigLog.PendingEntriesKept | src/configlog.cpp:65-73 | Two appends in a row keep both entries, the second right after the first. |
| ConfigLog.GetEventHistory | src/configlog.cpp:78-125 | Corrected at unreadable records (see Findings). A null buffer, a zero size, or `offset >= N * capacity` gives 0. The entries returned are the history from `offset` on, newest first. Unless a read failed, it stops short of `size` only where the history has no entry. |
| ConfigLog.FillHistory | src/configlog.cpp:92-124 | The loop fills the buffer with the history prefix and stops only at a missing entry, a failed read, or `size`. |
| ConfigLog.HistoryRound | src/configlog.cpp:94-122 | One round either appends history entry `offset + num` or stops where it is missing. |
| ConfigLog.PutEntry | src/configlog.cpp:121 | `buffer[num] = entry` extends the filled prefix by the entry and leaves the rest alone. |
| ConfigLog.ReadBack | src/configlog.cpp:96-119 | Corrected round: unless the read fails, the entry found is the history entry `idx`: slot `idx mod N` back, at depth `idx / N`. Where no record comes back it stops instead of reading through null. |
| ConfigLog.RoundOf | src/configlog.cpp:100-119 | The round as written on the slot image `load_config(-sec_idx)` reads: it reads through a null record exactly when the slot is not accepted, and otherwise finds or misses the entry at depth `idx / N`. |
| ConfigLog.CorruptSlotNullRecord | src/configlog.cpp:100-102 | One corrupted word past the header of an accepted record makes the round as written read `last_log_idx` through a null record, at any depth. |
| ConfigLog.ReadBackAsWritten | src/configlog.cpp:96-121 | The round as written: a slot that is not accepted always leads to the null read; any other outcome is the history entry `idx` or its absence. |
| ConfigLog.RoundOfHistory | src/configlog.cpp:98-119 | On an accepted slot the round as written finds exactly history entry `idx`, or stops where the history has none. |
| ConfigLog.BlankRelativeRing | src/configlog.cpp:54-62 | At `cfg_addr == log_end` `load_config(1)` reads slot `1 mod N` while the write goes to slot 0; in a blank pool both hold the blank ring. |
| ConfigLog.LoggedFirst | src/configlog.cpp:54-75 | The first `log_event` into a blank pool: the virgin ring with the entry appended, written into slot 0 (the slot after `log_end`), leaves the pool holding the logs of that one event. |
| ConfigLog.LoggedStep | src/configlog.cpp:54-75 | A later `log_event`: when the pool holds the logs of `es` and `cfg_addr` is the newest slot, the next slot's ring with `e` appended, written into that slot, leaves the pool holding the logs of `es + [e]`. |
| ConfigLog.NextAfterNewest | src/filesystem.cpp:465-468 | The slot after the one holding event m-1 is the slot `m mod N` that event m goes to. |
| ConfigLog.RunStep | src/configlog.cpp:54-75 | One written `log_event` of a run: the pool holds the logs of the events so far plus `e`, and the new `cfg_addr` is the slot of `e`. |
| ConfigLog.RunPool | src/configlog.cpp:54-75 | Along a run of `log_event` calls whose saves all wrote their record, the pool before event m holds the logs of the first m events, and `cfg_addr` is the slot of the newest. |
| ConfigLog.RunHistory | tests/configlog_unit.cpp:70-107 | After such a run, history entry `idx` is event `|es|-1-idx` while `idx < |es|` and absent beyond, up to `N * capacity`. |
| ConfigLog.PrefixOfEvents | src/configlog.cpp:92-124 | Entry k of a history read from offset `offset` over the pool of `es` is event `|es|-1-offset-k`. |
| ConfigLog.PoolReadBack | src/configlog.cpp:92-124 | Everything a history read returns from the pool of `es` is the events newest first from `offset`, and never runs past the oldest event. |
| ConfigLog.RunReadBack | tests/configlog_unit.cpp:89-101 | After a run whose saves all wrote, the entries `get_event_history(offset, ...)` finds are the events newest first from `offset`. |
| ConfigLog.RunIds | src/filesystem.cpp:509-522 | Along a run whose records carry ids 0, 1, 2, ..., the pool before event m holds the ids of m round-robin writes. |
| ConfigLog.IdsStep | src/filesystem.cpp:509-522 | Writing the record with id k into slot `k mod N` turns the ids of k writes into the ids of k+1 writes. |
| ConfigLog.RunIdsStep | src/filesystem.cpp:463-493 | Event k of such a run writes id k into slot `k mod N`, turning the ids of k writes into those of k+1. |
| ConfigLog.RunAddrs | src/filesystem.cpp:465-468 | Along a run whose saves all wrote, `cfg_addr` after event m-1 is slot `(m-1) mod N`, starting from slot 0 after `log_end`. |
| ConfigLog.RunLeaves | src/filesystem.cpp:395-438 | After such a run the pool is rotated with its newest slot `(|es|-1) mod N`, which is what `load_config` locates, and it holds the logs of the events. |
| ConfigLog.LoadAfterReboot | tests/configlog_unit.cpp:28-32 | A reboot and `load_config()` after such a run: when it loads, `cfg_addr` is the slot of the newest event of a pool holding the logs of the events. |
| ConfigLog.HistoryAfterReboot | tests/configlog_unit.cpp:28-41 | A run, a reboot, `load_config()` and `get_event_history(offset, buffer, size)`: the entries returned are the events newest first from `offset`, and unless a read failed fewer than `size` come back only where the events or `N * capacity` run out. |
| EventLog.ErasedLog | src/configlog.h:43-46 | An erased sector holds the virgin log: index 0xFFFF and erased entries. |
| EventLog.NextLogIdxRing | src/configlog.cpp:65-68 | The next index is `(last + 1) mod capacity`, and 0xFFFF becomes 0. |
| EventLog.WritesStep | src/configlog.cpp:54-75 | Event m is written to slot `m mod N` only, and extends that slot's chain by one. |
| EventLog.PoolIsChains | src/configlog.cpp:54-75 | Slot s of the pool holds the ring of the events `s, s+N, s+2N, ...`. |
| EventLog.HistoryOfPool | src/configlog.cpp:94-121 | After events `es`, history entry `idx` is event `|es|-1-idx` while `idx < |es|`, and is absent beyond that, up to `N * capacity`. |
| EventLog.HistoryOfBlankPool | src/configlog.cpp:116-119 | Before any event is logged, the history is empty. |
| EventLog.HistoryCurrentMod | src/configlog.cpp:98-100 | Only the newest slot's position mod N matters. |
| FileStore.MaxFilesFitSector | src/filesystem.cpp:168-176 | `max_files` is 145, so the largest directory fits one sector and one more entry would not. |
| FileStore.DecodeEncodeEntry | src/filesystem.h:7-13 | A `file_entry` survives its seven-word encoding. |
| FileStore.EncodeDecodeEntry | src/filesystem.h:7-13 | Any seven words decode to an entry that encodes back to them. |
| FileStore.StrnEqualMeaning | src/filesystem.cpp:218 | `strncmp(a, b, 16) == 0` exactly when the C strings the two buffers hold agree in their first 16 characters. |
| FileStore.FileNameMatch | src/filesystem.cpp:209-223 | A name matches a stored 16-byte field exactly when it equals the stored name, or when both are 16 characters long and agree. |
| FileStore.EntryInDataArea | src/filesystem.cpp:233-235 | A file inside the data area is read from `data_begin + offset` and accepted unless it is empty. |
| FileStore.FsWrittenReadBack | src/filesystem.cpp:272-328 | The bytes `write_fs` stores read back as the data. |
| FileStore.FsWrittenErasedTail | src/filesystem.cpp:291-300 | Past the padded data, the erased sectors stay erased. |
| FileStore.FsWrittenElsewhere | src/filesystem.cpp:291-325 | Every word outside the erased sectors keeps its value. |
| FileStore.EraseSectors | src/filesystem.cpp:291-300 | On success, exactly the covered sectors are erased. |
| FileStore.WriteChunks | src/filesystem.cpp:302-325 | On success, the 4096-byte chunks store the zero-padded data from `dest` on. |
| FileStore.EraseThenWrite | src/filesystem.cpp:291-325 | Erasing then writing the chunks gives the flash that `write_fs` leaves. |
| FileStore.FileSystem.InitFilesystem | src/filesystem.cpp:150-207 | Keeps a loaded directory. Otherwise it loads only a directory with the magic, 1..145 files and a matching header checksum, and it returns 1 whenever flash holds none. |
| FileStore.FileSystem.NoDirectoryBadHeader | src/filesystem.cpp:162-203 | A directory is accepted exactly when the magic, file count and checksum conditions hold at `data_begin`. |
| FileStore.FileSystem.FindFile | src/filesystem.cpp:209-223 | Returns the first entry whose name matches, and None exactly when no entry matches or no directory is loaded. |
| FileStore.FileSystem.LoadFile | src/filesystem.cpp:225-270 | Rejects a misaligned front room, an out-of-range or empty file, and a checksum mismatch. Otherwise it returns the front room followed by the zero-padded file bytes, whose checksum matches the entry's. |
| FileStore.FileSystem.WriteFs | src/filesystem.cpp:272-328 | Rejects a misaligned or oversized write and leaves flash unchanged. On success flash is as `write_fs` leaves it. A write at offset 0, or one with no directory loaded, reloads the directory. |
| Mkfs.MakeEntry | tools/mkfs.py:25-48 | Rejects a name longer than 16 bytes. Otherwise it keeps the name and the unpadded size, pads the contents with zeros, and checksums the padded contents. |
| Mkfs.MakeEntries | tools/mkfs.py:50 | Fails exactly when some name is too long; otherwise returns one entry per file. |
| Mkfs.PackFiles | tools/mkfs.py:53-62 | Packs the header words and the concatenated padded data exactly when the files are buildable. |
| Mkfs.BuildImage | tools/mkfs.py:50-67 | Produces the image (magic, header checksum, header, data) exactly when the files are buildable. |
| Mkfs.NameTooLong | tools/mkfs.py:32-34 | A name over 16 bytes makes the files unbuildable. |
| Mkfs.ImageOfParts | tools/mkfs.py:64-67 | The four parts written, in order, are the image. |
| Mkfs.DirectoryBytes | tools/mkfs.py:64-66 | Magic, checksum and header are the bytes of the directory `init_filesystem` reads. |
| Mkfs.ImageFileRun | tools/mkfs.py:58-62 | File i's padded contents sit in the image at its recorded offset. |
| Mkfs.ImageDirectory | tools/mkfs.py:53-67 | The image's words are the directory followed by the data's words. |
| Mkfs.DirectoryOfValid | src/filesystem.cpp:162-203 | The image's directory passes `init_filesystem`'s checks exactly when there are 1..145 files. |
| FlashImage.WriteFsStores | src/filesystem.cpp:272-328 | `write_fs(0, image)` leaves the directory and the data in flash from `data_begin` on. |
| FlashImage.DirectoryLoads | src/filesystem.cpp:150-207 | A stored image's directory is accepted exactly when it has 1..145 files. |
| FlashImage.EntryLoads | tools/mkfs.py:53-62 | Entry i records the padded name, the size, the checksum of the padded contents and an address inside the data area. The file is in range exactly when it is not empty. |
| FlashImage.FileStored | tools/mkfs.py:58-60 | File i's padded words are stored at its address. |
| FlashImage.ContentsLoad | src/filesystem.cpp:249-262 | The bytes `load_file` reads at entry i's address are file i's contents. |
| FsMaker.Maker.Construct | tests/mock.cpp:247-287 | The buffer holds the whole fsmaker image, and `size` is its length. |
| FsMaker.ImageSize | tests/mock.cpp:249-253 | The size is the header plus the word-aligned contents. |
| FsMaker.PutPreamble | tests/mock.cpp:261-262 | Stores the magic and `num_files`. |
| FsMaker.Put | tests/mock.cpp:268 | `memcpy`/`memset` put exactly the data at the position and leave the rest of the buffer alone. |
| FsMaker.PutContents | tests/mock.cpp:265-277 | Stores the zero-padded contents and returns their checksum. |
| FsMaker.PutFile | tests/mock.cpp:264-284 | Stores file i with `'x'` padding and its entry (strncpy'd name, size, checksum over zero padding, offset). |
| FsMaker.PutFiles | tests/mock.cpp:264-284 | After the loop every file and entry is built. |
| FsMaker.HeaderSum | tests/mock.cpp:286 | The checksum over bytes 8..`hdr_size` is the word checksum of the header words. |
| FsMaker.PutHeaderChecksum | tests/mock.cpp:286 | The finished buffer is magic, header checksum, header, contents. |
| FsMaker.MakerEntryMatches | tests/mock.cpp:273-278 | For names without NUL, fsmaker's entry equals the one mkfs.py packs. |
| FsMaker.MakerEntriesMatch | tests/mock.cpp:264-284 | All of fsmaker's entries equal mkfs.py's. |
| FsMaker.MakerDirectory | tests/mock.cpp:247-287 | fsmaker's image is mkfs.py's directory followed by the `'x'`-padded contents. |
| FsMaker.MakerWritten | tests/mock.cpp:298-307 | Stored at `data_begin`, fsmaker's image leaves the same directory as mkfs.py's, plus its own stored contents. |
| FsMaker.MakerFileLoads | src/filesystem.cpp:256-262 | `load_file`'s zero padding validates fsmaker's `'x'`-padded files: they read back, and their checksum matches. |
| Timers.WrittenTimers.Arm | tests/mock.cpp:133-142 | As written: an unlinked timer goes to the head, and the old head's `prev` is not set. |
| Timers.WrittenTimers.Disarm | tests/mock.cpp:144-159 | As written: relinks the neighbours through the timer's own links, and does nothing when both links are null. |
| Timers.RearmLinksToItself | tests/mock.cpp:133-159 | Arm, disarm and re-arm one timer: it ends up linked to itself. |
| Timers.DisarmDropsEarlierTimers | tests/mock.cpp:144-159 | Disarming the middle of three timers makes the last the head, so the first is lost. |
| Timers.DisarmKeepsLastTimer | tests/mock.cpp:144-159 | Disarming the first-armed of two timers leaves it linked. |
| Timers.TimerList.Arm | tests/mock.cpp:133-142 | Corrected: the armed timers become `[t] + old`, as a valid doubly-linked list. |
| Timers.TimerList.Disarm | tests/mock.cpp:144-159 | Corrected: the armed timers lose `t` and nothing else. |
| Timers.TimerList.Unlink | tests/mock.cpp:149-158 | Unlinking the timer at position k removes exactly that position. |
| Timers.TimerList.Fire | tests/mock.cpp:172-182 | One step of `run_timers`: the next timer is read before a non-repeating timer is disarmed. |
| Timers.TimerList.RunTimers | tests/mock.cpp:170-183 | Fires every armed timer in list order and keeps exactly the repeating ones, in order. |
| Webserver.DecimalRoundTrip | src/webserver.cpp:136-137 | `%d` of a number reads back as the number. |
| Webserver.GetMimeType | src/webserver.cpp:180-206 | html, css and js map to their types exactly when the path has that extension after a dot, with `len > ext_len`. Anything else gives None. |
| Webserver.SplitRequest | src/webserver.cpp:230-261 | The in-place tokenizer leaves the buffer, the state and the tokens that the splitting function describes. |
| Webserver.SplitRoundTrip | src/webserver.cpp:235-260 | A line `method SP+ path SP+ version \n rest` splits into those three tokens, NUL-terminated in place, with headers after the newline. |
| Webserver.GetRoundTrip | src/webserver.cpp:267-289 | A well-formed GET line is served as its normalised path. |
| Webserver.OtherMethod | src/webserver.cpp:326-327 | A well-formed line with any other method is a bad request. |
| Webserver.LowerInPlace | src/webserver.cpp:284-288 | A..Z in the path are lowercased in place; nothing else changes. |
| Webserver.NormalPath | src/webserver.cpp:270-289 | "/" becomes index.html with the buffer untouched. Otherwise one leading '/' is dropped and the rest is lowercased in place. |
| Webserver.Recv | src/webserver.cpp:208-289 | The request is a GET of the normalised path exactly for a GET with a non-empty path, and a bad request otherwise. |
| Webserver.Respond | src/webserver.cpp:291-327 | A file reply only for a GET of a found file with a known type that loads. A bad request gets 400, and every other failure gets 404. |
| Webserver.ErrorContentLengthMatches | src/webserver.cpp:166-175 | The declared Content-Length is the length of the body that follows. |
| Webserver.ErrorReplyFits | src/webserver.cpp:169-175 | The reply and its NUL fit the 128-byte buffer exactly for codes 400 and 404. |
| Webserver.Format | src/webserver.cpp:136-137 | `os_sprintf` puts the text and its NUL at the start of the buffer and leaves the rest. |
| Webserver.MoveUp | src/webserver.cpp:142 | `os_memmove` copies n characters upwards and leaves the rest. |
| Webserver.SendResponse | src/webserver.cpp:130-145 | When the header and its NUL fit the head room, the bytes sent are the header followed by the file, intact. |
| Webserver.SendBefore | src/webserver.cpp:139-144 | A header placed just before the file is sent followed by the file. |
| Webserver.ServeHeadRoomTooSmall | src/webserver.cpp:294 | With 64 bytes of head room a text/javascript header never fits, and a text/html header fits only for files under 100000 bytes. |
| Webserver.HttpHeadSizeFits | src/webserver.h:5 | With 72 bytes of head room every header of the MIME table fits for files under 10^7 bytes. |
| Webserver.ServeFile | src/webserver.cpp:294-316 | Corrected serving: the header and the file go out intact for every known type. |
| Zones.SafeConcat | src/main.cpp:104-113 | Returns `pos + strlen(in)` and copies only when that is below `buf_size`. |
| Zones.AppendsText | src/main.cpp:125-127 | The run of `print_json` appends that `sysinfo` builds its reply with (the SDK values it prints are left out): the run ends at the start plus the total length, never touches outside `[pos, buf_size)`, and holds all the text when it fits. |
| Zones.ZoneOnOff | src/main.cpp:217-232 | Disabled zones are kept. The zone is on exactly when requested and not disabled, and every other zone is off, so at most one zone is on. |
| Zones.ParseManual | src/main.cpp:240-266 | A payload is accepted only if it is 20 bytes of the fixed form with zone '1'..'6' and state '0'/'1'; byte 19 is free. |
| Zones.ManualRoundTrip | src/main.cpp:240-266 | Every well-formed payload parses back to its zone and state. |
| Zones.Manual | src/main.cpp:234-278 | 200 exactly for a well-formed payload naming a zone that is not disabled, which is then switched. Otherwise 400, with the zones unchanged. |

## Left out

- src/sprinkler_config.cpp and src/sprinkler_config.h are not part of this model. They are an earlier revision of the event log that redefines `zone_order`, `log_code` and `config` in conflict with configlog.h, so the two cannot be built together; only the configlog.h revision is modelled.
- ConfigLog.GetConfig: the virgin defaults for `last_watering`, `start_time`, `enabled` and `moisture_threshold` (src/configlog.cpp:18-22) are not modelled, because configlog.h declares none of these fields and gives them no place in the record. Only the zone defaults and `last_log_idx` are written.
- SectorStore.Flash.EraseSector: the mock accepts only sectors `0x100 <= sec < 0x3FB`. The model accepts every sector of the flash, because the firmware never addresses outside that window on the modelled map.
- SectorStore.Flash.Write: the destination window `[0x100000, 0x3FB000)` of the mock is widened to the whole flash. The alignment and erased-before-write conditions are kept.
- SectorStore.Flash.Read: the source window `[0x100000, 0x3FB000)` of the mock is widened to the whole flash.
- `mock::clear_flash` is not modelled as an operation. Erasing the whole flash is a fresh `Flash`, and it does not rerun `configure_flash`; the layout is a separate value.
- `mock::load_fs_from_file`, `load_fs_from_memory`, `reboot`, `set_timestamp` and `os_timer_setfn` are host-side plumbing. Only their effect is modelled: an image in flash, a fresh `Store`, and the clock as a parameter.
- `os_malloc` failure (src/filesystem.cpp:178-183, 243-247, 366-387) is dropped: allocation always succeeds.
- FileStore.FileSystem.LoadFile: `size_in_front` is a `nat`, so a negative value is not modelled. The uninitialised front room of the buffer is modelled as zeros.
- The SNTP clock is a parameter `now`. In `log_event` one `now` stands for both reads of the clock (the one in `log_event` and the one in `save_config`).
- RecordStore.Store.LoadConfig: it returns None for a layout that no flash-size map produces (a pool that is not sector-aligned, or that lies beyond the flash). The source has no such guard; every layout `configure_flash` produces passes it.
- ConfigLog.RunPool, ConfigLog.RunHistory, ConfigLog.RunReadBack and ConfigLog.HistoryAfterReboot: they cover runs of `log_event` calls whose saves all wrote their record. A rate-limited save (the deferred write) or a failed save breaks such a run; what those calls do is stated by ConfigLog.LogEvent and ConfigLog.LogTwiceDeferred instead.
- ConfigLog.HistoryAfterReboot: the run starts from a blank pool and its records carry the ids 0, 1, 2, ... in order, which Records.SaveSequence shows for successive saves from boot. The `get_event_history` call's read failures are not pinned down, so with a failed read the result may stop anywhere.
- RecordStore.Store.SaveConfig: it takes no `config` argument and always stamps the cached record `cfg`, while `save_config` (src/filesystem.cpp:495) takes a `config_base*`. The only modelled caller, `log_event` (src/configlog.cpp:75), passes `cfg`; the other callers are in src/sprinkler_config.cpp, which is not part of this model.
- RecordStore.Store.LoadRelative: `load_config(int)` and `get_num_log_sectors()` are called at src/configlog.cpp:56, :83 and :100 and src/sprinkler_config.cpp:29 but defined nowhere in src/ (src/filesystem.cpp:356 defines only `load_config()`). Their reading, the record `n` slots on from `cfg_addr` modulo N and the pool's sector count, is inferred from those call sites and from tests/configlog_unit.cpp:89-101. At `cfg_addr == log_end` the model takes `log_end` as slot 0, so `load_config(1)` reads slot `1 mod N`, not slot 0 where the next write goes; ConfigLog.BlankRelativeRing shows the ring copied is the same in a blank pool, and on other flash the choice is unconfirmed.
- ConfigLog.ReadBack: where `load_config(-sec_idx)` gives no record (a failed read or a slot failing its checksum), src/configlog.cpp:100-102 reads `last_log_idx` through a null pointer; ReadBack, and so ConfigLog.GetEventHistory, stop there instead. The null read is modelled by ConfigLog.ReadBackAsWritten and listed under Findings; what the device then does (an exception and a reboot) is not modelled.
- The deferred-write timer is modelled as the `writeDelayed` field and `Tick(now)`. The 60-second arming and the callback registration (src/filesystem.cpp:530-552) are not modelled.
- Mkfs.MakeEntry: the 16-character name limit is checked on the name's bytes, while the script counts characters and then truncates the UTF-8 encoding to 16 bytes. A short non-ASCII name the script accepts and truncates is rejected here.
- Mkfs: listing the directory and reading files are I/O; the files arrive as a sequence of names and contents.
- FsMaker.MakerEntryMatches: the match with the script is proved for names without NUL bytes only; `strncpy` stops at the first NUL.
- `upload_fs` and `sysinfo` in src/main.cpp are not modelled. They are SDK queries, header lookup and `sprintf` JSON; only their `safe_concat` appends are modelled.
- The `gpio` class and `user_init` are not modelled, and neither are the Wi-Fi, mDNS, SNTP, WPS and espconn set-up and callbacks of src/webserver.cpp. These are hardware and network I/O.
- Webserver: the socket send is the returned `sent` sequence.
- Webserver.Respond: `find_file` and `load_file` are inputs, the size found and whether the load succeeded.
- ConfigLog.LogTwiceDeferred: the two-call scenario starts from a store with a record already loaded (as after any earlier event), and concludes only when the first save's record id is not `~0u`, an id that would make the second call treat the record as virgin.
- ConfigLog.LogTwiceKeepingPending: the same starting store and the same id condition as `LogTwiceDeferred`.
- Timers: the timer callbacks and their arguments are not modelled; a fired timer is recorded in firing order.

## Findings

| source | as written | input that shows it | evidently intended | confidence | as-written member | corrected member |
|---|---|---|---|---|---|---|
| src/filesystem.cpp:134-138 | `user_rf_cal_sector_set` returns `data_end / 4096` | any known map, e.g. 4 MiB 512+512: it returns sector 0x120, the first sector of the record pool | the first of the five SDK sectors reserved at `log_end` (sector 0x3FB there), as the comment above the function says | high, not executed | FlashLayout.RfCalSectorAsWrittenIsInPool | FlashLayout.RfCalSectorIsReserved |
| src/webserver.cpp:294 | `head_room = 64` in front of the loaded file | a `.js` file of any size: the header is 64 bytes plus the digits of the size, so `out` lies before the buffer and the file's first bytes are overwritten | a head room that fits every header, as `HTTP_HEAD_SIZE` (72) does | high, not executed | Webserver.ServeHeadRoomTooSmall | Webserver.ServeFile |
| tests/mock.cpp:133-159 | `os_timer_arm` does not set the old head's `prev` | arm `a`, then `b`, then disarm `a`: `a` stays linked; arm, disarm and re-arm one timer: it links to itself | a doubly-linked list where disarm unlinks exactly the timer | high, not executed | Timers.DisarmKeepsLastTimer | Timers.TimerList.Disarm |
| src/configlog.cpp:54-63 | `log_event` copies the next slot's ring even while the previous save is deferred | two events logged while rate-limited: the second copy takes the ring from flash, which lacks the first event, so the first event is never written | append to the cached ring while its write is pending | medium, not executed | ConfigLog.LogTwiceDeferred | ConfigLog.LogTwiceKeepingPending |
| src/configlog.cpp:100-102 | `cfg = load_config(-sec_idx)` is followed by `cfg->last_log_idx` with no null check, while the same function's result is checked at :57 | a `get_event_history` call whose target slot, `idx mod N` slots back, fails to read or fails its checksum, e.g. one corrupted word in that slot: `last_log_idx` is read through a null pointer | stop the loop and return the entries found so far, as at a missing entry | high, not executed | ConfigLog.ReadBackAsWritten | ConfigLog.ReadBack |
