# Verified models of a small operating system's hard parts

This project models six pieces of the repository in Dafny and proves what they
promise, for every input and every run.

| modules | what they model |
|---|---|
| `DeviceImage`, `BlockDevice`, `Deployment` | the one-block write-back cache of the Limine installer, its undo journal, and whole deployments with roll back |
| `LittleEndian`, `UndeployFile`, `MbrDeploy`, `Crc32` | the undeploy file, the MBR write sequence, the table-driven CRC-32 |
| `HiRes` | the cached hi-res renderer of the Apple II emulator |
| `LanguageCard`, `Cpu6502`, `CpuArithmetic`, `CpuStack` | its banked memory and language card, and the 6502's arithmetic, stack and calls |
| `BlockList`, `Ownership`, `KernelHeap`, `DerpAlloc` | two heap allocators over one theory of tiled arenas and of what their clients own |
| `Rasteriser` | the integer line and circle routines of the VGA driver |

`Bytes` holds the byte and word types. Code that changes state step by step is
modelled by classes and loops (`Device`, `Renderer`, `AppleMemory`, `Cpu`,
`Heap`, `Alloc`); each method is proved against a function or a relation on
plain values, and the results over whole runs are proved about those.

## Main results

- **Roll back.** `Deployment.DeployOrRollBack`: after any sequence of reads and
  writes, with any overlaps, lengths and block straddles, either the disk holds
  them all, or it is byte for byte what it was. The invariant behind it is that
  disk and view differ only where the journal will write
  (`DeviceImage.RecordedWriteUndoable`). `UndeployFile.DeployThenUndeploy`
  extends this over a stored file and a second run.
- **Renderer cache.** `HiRes.RunShowsMemory`: a line is an uncached redraw once a
  frame with `flashCycle` 0 lies in the current stretch of frames, full-screen or
  mixed, that draw it in hi-res. Without such a frame it can be wrong after a mode
  switch: `StaleExactly` gives the exact condition and `StaleAfterSwitch` a run.
- **Kernel heap.** `KernelHeap.ClientSafe`, `Recovers` and `FreeAll`: over every
  client history, what is outstanding owns its bytes, returning it is legal, and
  returning everything restores the initial block. `malloc` in `Src/memory.c` never
  sets the `prev` of the split block's successor; `LosesLiveBlock` is a run on the
  real heap that loses a live block because of it, and `TakeBackward` says exactly
  when the links survive. For headers and links in memory the results hold with that
  one assignment added, which the parameter `repair` of `Heap.Malloc` selects.
- **DerpOS heap.** `DerpAlloc.Run`, for the code as written and all 32-bit sizes.
- **6502.** `DecimalChain` and `SubtractChain` for numbers of any length,
  `StackRefines` and `Cpu.PerformBalanced` for calls and breaks of any nesting.
- **Memory.** `SwitchHistory` gives the write enable as a function of the access
  history; `ReadAfter` gives every read as the latest accepted write.
- **CRC and rasterisers.** `Crc32.Crc32` against a bit-serial register,
  `DrawLine` against exact rounding, `DrawCircle` against the exact pixel set.

Where the code falls short of what one would expect, the model follows the code, a
failing input is given and the exact condition is proved:

| condition | failing input |
|---|---|
| `MbrDeploy.RecordedHalvesCoverStage2`: sizes of the halves cut to 16 bits | `MbrDeploy.LosesFirstHalf` |
| `KernelHeap.OwnsRequested`: rounding up wraps around | `KernelHeap.WrapsAround` |
| `KernelHeap.TakeBackward`: the missing back link | `KernelHeap.LosesLiveBlock` |
| `DerpAlloc.Overflows`, in the contract of `Alloc.Malloc`: sums wrap around | `DerpAlloc.RequestWraps` |
| `HiRes.StaleExactly`: cells not redrawn after a mode switch | `HiRes.StaleAfterSwitch` |

An empty record makes storing the undeploy file fail (`UndeployFile.Store`).

To check the project, use `dafny verify dfyconfig.toml`.

## Model

| member | source | states |
|---|---|---|
| `DeviceImage.ReplayReversedIsUndo` | Doc/fs-os-main/limine/limine-deploy.c:294-300 | Replaying the reversed journal first to last is undoing the journal newest first, for every journal and image, overlaps included. |
| `DeviceImage.ReplayFromFront` | Doc/fs-os-main/limine/limine-deploy.c:468-486 | Replaying a stored journal writes its first record first; later records win where they overlap. |
| `DeviceImage.UndoForgetsCovered` | Doc/fs-os-main/limine/limine-deploy.c:462-466 | Two images that differ only at bytes some record covers undo to the same image, so cache contents that were thrown away do not matter. |
| `DeviceImage.UndoRecordedWrite` | Doc/fs-os-main/limine/limine-deploy.c:427-433 | A write whose replaced bytes are recorded is undone by its record, and the older records then undo the rest. |
| `DeviceImage.RecordedWriteUndoable` | Doc/fs-os-main/limine/limine-deploy.c:409-460 | A recorded write keeps the whole deployment undoable, whichever of its blocks were flushed and whichever are still only in the cache. |
| `DeviceImage.SpliceInside` | Doc/fs-os-main/limine/limine-deploy.c:451-452 | Writing into a cached block and later the block to the disk is writing the block and then those bytes. |
| `DeviceImage.UndoableFromDisk` | Doc/fs-os-main/limine/limine-deploy.c:462-466 | From an undoable state the journal leads from the bare disk, cache discarded, back to the original image. |
| `BlockDevice.OffsetIsRemainder` | Doc/fs-os-main/limine/limine-deploy.c:390-398 | Block and offset of a position by division are those reached by stepping over whole blocks, and recompose the position. |
| `BlockDevice.BlocksInOrder` | Doc/fs-os-main/limine/limine-deploy.c:389-404 | Later positions lie in the same or in later blocks, so the last block touched decides whether an access can fail. |
| `BlockDevice.Locate` | Doc/fs-os-main/limine/limine-deploy.c:390-400 | One loop round takes the longest stretch of the request that lies in one block: either all that is left, or up to the block's end. |
| `BlockDevice.Device.constructor` | Doc/fs-os-main/limine/limine-deploy.c:199-230 | After `device_init` the cache is a clean copy of block 0, the view is the device, and the journal is empty. |
| `BlockDevice.Device.FlushCache` | Doc/fs-os-main/limine/limine-deploy.c:232-251 | Flushing makes the disk equal to the view when dirty, leaves it alone when clean, and never changes the view. |
| `BlockDevice.Device.LoadCache` | Doc/fs-os-main/limine/limine-deploy.c:267-273 | A block read succeeds exactly when the whole block is on the device, and then the cache is that block; a short read overwrites just the bytes it got. |
| `BlockDevice.Device.CacheBlock` | Doc/fs-os-main/limine/limine-deploy.c:253-278 | Switching blocks succeeds exactly when the block is present, never changes the view, and writes nothing but a dirty block. |
| `BlockDevice.Device.SelectBlock` | Doc/fs-os-main/limine/limine-deploy.c:439-449 | Before each round the block of the position is cached; it fails exactly when that block is missing, and never changes the view. |
| `BlockDevice.Device.CopyOut` | Doc/fs-os-main/limine/limine-deploy.c:402-402 | Bytes copied from the cache are the slice of the view at the block's place. |
| `BlockDevice.Device.ReadChunk` | Doc/fs-os-main/limine/limine-deploy.c:389-404 | One read round yields a non-empty slice of the unchanged view; if it fails, the block of the last byte wanted is missing. |
| `BlockDevice.Device.Read` | Doc/fs-os-main/limine/limine-deploy.c:386-407 | `_device_read` succeeds exactly when every touched block is present, and returns exactly the requested slice of the unchanged view unless an earlier failed read has spoilt the cache. |
| `BlockDevice.Device.PokeCache` | Doc/fs-os-main/limine/limine-deploy.c:451-452 | Storing into the cached block splices exactly those bytes into the view. |
| `BlockDevice.Device.WriteChunk` | Doc/fs-os-main/limine/limine-deploy.c:438-454 | One write round splices a non-empty prefix of the data into the view; the disk is either untouched or the old view. |
| `BlockDevice.Device.WriteBytes` | Doc/fs-os-main/limine/limine-deploy.c:435-454 | The write loop splices exactly the data into the view, succeeds exactly when every touched block is present, and changes the disk outside the written range only to bytes of the old view. |
| `BlockDevice.Device.SaveOld` | Doc/fs-os-main/limine/limine-deploy.c:414-433 | Before a write, the next free record receives exactly the slice of the view that is about to be replaced; view and journal stay. |
| `BlockDevice.Device.WriteSaved` | Doc/fs-os-main/limine/limine-deploy.c:435-459 | The record saved for a write counts only after the last byte was written. |
| `BlockDevice.Device.WriteRecorded` | Doc/fs-os-main/limine/limine-deploy.c:414-460 | A recorded write appends one record holding the replaced bytes after the last byte was written; a failing one appends none and leaves disk or old view. |
| `BlockDevice.Device.Write` | Doc/fs-os-main/limine/limine-deploy.c:409-460 | `_device_write` fails exactly when a touched block is missing or the journal is full, splices exactly its data into the view, and appends exactly one record unless undeploying. |
| `BlockDevice.Device.ReverseJournal` | Doc/fs-os-main/limine/limine-deploy.c:294-300 | The two-table copy reverses the journal in place. |
| `BlockDevice.Device.Restore` | Doc/fs-os-main/limine/limine-deploy.c:470-485 | A writable record is put back into the view; one past the end of the device changes nothing, and the retry on an emptied cache keeps the cache usable for the records that follow. |
| `BlockDevice.Device.RestoreAll` | Doc/fs-os-main/limine/limine-deploy.c:468-486 | The record loop replays in stored order whatever can be written, if no record straddles the end of the last whole block. |
| `BlockDevice.Device.Undeploy` | Doc/fs-os-main/limine/limine-deploy.c:462-495 | `undeploy` drops the cache and leaves the disk, flushed, equal to the replay of the journal on the disk, from any cache state; records past the end do not keep the others from being restored. |
| `Deployment.StopsUndoable` | Doc/fs-os-main/limine/limine-deploy.c:967-971 | A deployment stopped at any point can be undone from the disk alone. |
| `Deployment.ReadStep` | Doc/fs-os-main/limine/limine-deploy.c:497-501 | A read in mid-deployment returns the slice of the view and keeps the deployment undoable, also when it fails. |
| `Deployment.WriteStep` | Doc/fs-os-main/limine/limine-deploy.c:503-507 | A write in mid-deployment moves the view by its splice and keeps the deployment undoable, also when it fails. |
| `Deployment.ServeOne` | Doc/fs-os-main/limine/limine-deploy.c:497-507 | One request, read or write, behaves as on a flat byte array; it fails exactly when its blocks are missing or the journal is full. |
| `Deployment.RunRequests` | Doc/fs-os-main/limine/limine-deploy.c:497-507 | Any sequence of requests behaves as on a flat byte array, succeeds exactly when each is served and at most 256 are writes, and stays undoable. |
| `Deployment.RollBack` | Doc/fs-os-main/limine/limine-deploy.c:967-971 | From every broken deployment the clean-up restores the original device byte for byte. |
| `Deployment.Commit` | Doc/fs-os-main/limine/limine-deploy.c:954-968 | A deployment that succeeded leaves its view on the disk and a reversed journal that leads back to the original. |
| `Deployment.DeployOrRollBack` | Doc/fs-os-main/limine/limine-deploy.c:954-974 | Rollback theorem: either the disk holds all requests and the reversed journal leads back to the original, or the disk is the original. |
| `LittleEndian.FieldRoundTrip` | Doc/fs-os-main/limine/limine-deploy.c:318-328 | Decoding an encoded number gives it back at every width it fits. |
| `LittleEndian.FieldSound` | Doc/fs-os-main/limine/limine-deploy.c:355-365 | Every byte string is the encoding of the number it decodes to. |
| `LittleEndian.FieldReads` | Doc/fs-os-main/limine/limine-deploy.c:318-328 | A stored number reads at its place as the sum of its bytes, the lowest first. |
| `UndeployFile.EntryRoundTrip` | Doc/fs-os-main/limine/limine-deploy.c:360-372 | A stored record with at least one byte is read back, whatever follows it. |
| `UndeployFile.EntrySound` | Doc/fs-os-main/limine/limine-deploy.c:360-372 | What is read as a record is exactly the bytes storing it would write. |
| `UndeployFile.EntriesRoundTrip` | Doc/fs-os-main/limine/limine-deploy.c:322-332 | Loading inverts storing for every journal without empty records that fits the table. |
| `UndeployFile.EntriesSound` | Doc/fs-os-main/limine/limine-deploy.c:359-373 | A successful load used exactly the stored form of the records it returns. |
| `UndeployFile.LoadsExactly` | Doc/fs-os-main/limine/limine-deploy.c:345-384 | A file loads as a journal if and only if it starts with that journal's stored form, no record is empty and at most 256 are announced. |
| `UndeployFile.Store` | Doc/fs-os-main/limine/limine-deploy.c:308-343 | Storing succeeds exactly when no record is empty, and writes the stored form of the journal. |
| `UndeployFile.FileLayout` | Doc/fs-os-main/limine/limine-deploy.c:318-331 | The file holds the number of records at 0, and behind the records before it each record as place, length and bytes. |
| `UndeployFile.LoadEntry` | Doc/fs-os-main/limine/limine-deploy.c:360-372 | One record is parsed at the read position, which moves behind it; failure is exactly a short file or a zero count. |
| `UndeployFile.LoadEntries` | Doc/fs-os-main/limine/limine-deploy.c:359-373 | The record loop fills the table with exactly the parsed records, or reports truncation or running past the table. |
| `UndeployFile.Load` | Doc/fs-os-main/limine/limine-deploy.c:345-384 | Loading succeeds exactly on well-formed files that fit the table, and the journal is then what the file holds. |
| `UndeployFile.DeployThenUndeploy` | Doc/fs-os-main/limine/limine-deploy.c:595-609 | Cross-run undo: deploying, storing, loading in a later run and undeploying restores the original device; the file is written exactly when no write was empty. |
| `MbrDeploy.RecordedHalvesCoverStage2` | Doc/fs-os-main/limine/limine-deploy.c:779-788 | The two 16-bit sizes in the boot sector cover stage 2 if and only if the first half fits 16 bits. |
| `MbrDeploy.LosesFirstHalf` | Doc/fs-os-main/limine/limine-deploy.c:783-784 | A stage 2 of 130049 bytes is the shortest whose first half is recorded with size 0. |
| `MbrDeploy.FinalImage` | Doc/fs-os-main/limine/limine-deploy.c:930-952 | The whole write sequence leaves the image the layout promises: timestamp and partition table kept, halves described at 0x1a4, stage 2 contiguous, nothing changed past it. |
| `MbrDeploy.DeployedIsLaidOut` | Doc/fs-os-main/limine/limine-deploy.c:924-952 | In byte addresses: 218-223, 440-509 and all past the image are kept, size a, size b, place a and place b are numbers at 420, 422, 424 and 432, and the rest is the image. |
| `MbrDeploy.LoadsStage2` | Doc/fs-os-main/limine/limine-deploy.c:783-788 | Following the sizes and places found on the device, the boot sector loads all of stage 2 in order, when the first half fits 16 bits and both ranges lie on the device. |
| `MbrDeploy.WriteBoot` | Doc/fs-os-main/limine/limine-deploy.c:930-936 | Boot sector and both halves are one contiguous write of the image, also when the first size was cut to 16 bits. |
| `MbrDeploy.WriteConfig` | Doc/fs-os-main/limine/limine-deploy.c:938-946 | The four fields at 0x1a4 are one 20-byte description; they fail only for want of journal records. |
| `MbrDeploy.WriteBack` | Doc/fs-os-main/limine/limine-deploy.c:948-952 | Timestamp and partition table go back to their places. |
| `MbrDeploy.SaveFields` | Doc/fs-os-main/limine/limine-deploy.c:924-928 | Timestamp and partition table are read before anything is written. |
| `MbrDeploy.WriteFields` | Doc/fs-os-main/limine/limine-deploy.c:930-952 | The writes, with both sizes computed in 16 bits, make the promised image out of the view. |
| `MbrDeploy.WriteMbr` | Doc/fs-os-main/limine/limine-deploy.c:924-952 | The sequence succeeds exactly when the image's blocks are present and nine records are free, and then the view is the promised image. |
| `MbrDeploy.DeployMbr` | Doc/fs-os-main/limine/limine-deploy.c:924-971 | The MBR branch ends with the promised image on the disk, laid out at the byte addresses where the boot sector looks, or with the device as it was before the deployment. |
| `Crc32.Register.ClockSplits` | Doc/fs-os-main/limine/limine-deploy.c:128-138 | Clocking a register whose contents are a sum is shifting one part and clocking the other, the first acting as message. |
| `Crc32.Register.FeedSplits` | Doc/fs-os-main/limine/limine-deploy.c:128-138 | The same for any number of clocks, by induction. |
| `Crc32.ByteSplits` | Doc/fs-os-main/limine/limine-deploy.c:133-133 | Feeding a byte is a shift by eight and the feedback of the byte that left the register. |
| `Crc32.CrcIsLinear` | Doc/fs-os-main/limine/limine-deploy.c:128-138 | The CRC-32 register obeys the laws that the induction needs. |
| `Crc32.TableIsFeed` | Doc/fs-os-main/limine/limine-deploy.c:82-126 | Each of the 256 table entries is eight clocks of its index. |
| `Crc32.Step` | Doc/fs-os-main/limine/limine-deploy.c:133-133 | One table step is eight clocks of the bit-serial register. |
| `Crc32.Crc32` | Doc/fs-os-main/limine/limine-deploy.c:128-138 | For every byte string the table-driven CRC is the bit-serial reflected CRC-32 of section 8 of RFC 1952. |
| `Crc32.CheckValue` | Doc/fs-os-main/limine/limine-deploy.c:128-138 | The CRC of the digits 1 to 9 is 0xCBF43926. |
| `HiRes.LinesApart` | Apple2/AppleDevice.c:66-90 | The interleaved lines share no byte of video memory and lie within their page. |
| `HiRes.PageOnly` | Apple2/AppleDevice.c:596-596 | A line shows nothing but bytes of the page on display. |
| `HiRes.DotFromRam` | Apple2/AppleDevice.c:607-631 | The colour index of every dot from the RAM bytes at their addresses, line 64c + 8b + a starting at 0x400a + 0x80b + 0x28c of the page. |
| `HiRes.FlipShows` | Apple2/AppleDevice.c:607-631 | Flipping a low bit of a byte of a line changes its own dot of that line, and no other line. |
| `HiRes.FirstDot` | Apple2/AppleDevice.c:596-631 | With 0x7F at $2000 and zeros elsewhere, the first dot of page 1 has index 2 and that of page 2 index 0. |
| `HiRes.WordBits` | Apple2/AppleDevice.c:607-613 | The fourteen dots of a cell are the seven low bits of its two bytes. |
| `HiRes.CellsAreDots` | Apple2/AppleDevice.c:612-631 | Cells drawn with the right left-neighbour dot are, side by side, the dots of the line with their fringe colours. |
| `HiRes.PaintIsFullLine` | Apple2/AppleDevice.c:603-639 | Drawing all cells of a line is the full redraw from video memory. |
| `HiRes.RepaintIsPaint` | Apple2/AppleDevice.c:610-638 | Redrawing only cells whose word or left dot changed gives the full redraw, if the line was settled or `flashCycle` is 0. |
| `HiRes.Renderer.constructor` | Apple2/AppleDevice.c:182-185 | After reset the cache describes blank words and `flashCycle` is 0. |
| `HiRes.Renderer.DrawDots` | Apple2/AppleDevice.c:612-631 | Exactly the fourteen dots of the cell are written, and the last one is handed on. |
| `HiRes.Renderer.ReadWord` | Apple2/AppleDevice.c:607-608 | The word of a cell is read from its two bytes of the page, the second one high. |
| `HiRes.Renderer.RenderCell` | Apple2/AppleDevice.c:605-638 | One round redraws exactly when the cache entry differs or `flashCycle` is 0, and passes a changed last dot to the next cell by clearing its entry. |
| `HiRes.Renderer.RedrawsAsSpecified` | Apple2/AppleDevice.c:610-610 | The cached test redraws a cell if and only if its word or the dot to its left changed since the last frame, or `flashCycle` is 0. |
| `HiRes.Renderer.RenderLine` | Apple2/AppleDevice.c:603-639 | One line paints exactly the changed cells and its cache then describes the words shown; other lines stay. |
| `HiRes.Renderer.Tick` | Apple2/AppleDevice.c:700-701 | `flashCycle` counts modulo 30. |
| `HiRes.Renderer.RenderHiRes` | Apple2/AppleDevice.c:592-643 | The line loop repaints each of the first 160 or 192 lines as specified and no other. |
| `HiRes.Renderer.Overdraw` | Apple2/AppleDevice.c:645-686 | What text and lo-res modes draw may be any picture from a given line on; it leaves the hi-res cache as it was. |
| `HiRes.Renderer.RenderFrame` | Apple2/AppleDevice.c:590-701 | A frame of any mode, full-screen, mixed or other, moves the renderer as the display model says. |
| `HiRes.FrameSettles` | Apple2/AppleDevice.c:592-643 | A frame that draws a line in hi-res with `flashCycle` 0, or when the line is settled, shows exactly the video memory there. |
| `HiRes.StaleExactly` | Apple2/AppleDevice.c:610-638 | In every other case a line comes out right if and only if the cells that are not redrawn were right already. |
| `HiRes.StaleAfterSwitch` | Apple2/AppleDevice.c:592-643 | A run with a mode switch after which a dot is wrong. |
| `HiRes.FlashCounts` | Apple2/AppleDevice.c:700-701 | After any run of frames `flashCycle` is the number of frames modulo 30. |
| `HiRes.DrawsExactly` | Apple2/AppleDevice.c:600-600 | Full-screen frames draw lines 0-191 in hi-res, mixed ones 0-159, others none. |
| `HiRes.SettlingIs` | Apple2/AppleDevice.c:700-701 | The number of frames to settle ends at the first one drawn with `flashCycle` 0. |
| `HiRes.FramesSettle` | Apple2/AppleDevice.c:592-643 | From any screen, frames in a row that draw a line settle it once one has `flashCycle` 0; it stays settled, from mixed to full-screen frames and back. |
| `HiRes.RunShowsMemory` | Apple2/AppleDevice.c:592-643 | Cache coherence: after any history, once a `flashCycle` 0 frame lies in the current stretch of frames that draw a line in hi-res, full-screen or mixed, the line is an uncached redraw of the memory and page now shown. |
| `HiRes.RunsCompose` | Apple2/AppleDevice.c:592-643 | Runs of frames compose, so the coherence result applies after any earlier run. |
| `HiRes.Play` | Apple2/AppleDevice.c:592-701 | The renderer with its caches follows the display model through every run of frames of any mode. |
| `LanguageCard.TouchByParity` | Apple2/AppleDevice.c:423-484 | Even switches disable writing; odd ones enable it if the flip-flop is armed and arm it by reading. |
| `LanguageCard.SwitchHistory` | Apple2/AppleDevice.c:423-484 | Writing is enabled exactly when no even switch was touched yet, or since the last even one an odd read was directly followed by another odd access; the other switches depend on the last access alone. |
| `LanguageCard.EvenDisables` | Apple2/AppleDevice.c:423-429 | After an even access the history does not enable writing. |
| `LanguageCard.OddMayEnable` | Apple2/AppleDevice.c:431-437 | After an odd access it does exactly when it did before or the access before was an odd read. |
| `LanguageCard.ContentIsLatest` | Apple2/AppleMem.c:88-109 | A byte of a store is the latest write accepted there, or its initial value if there was none. |
| `LanguageCard.RomIsConstant` | Apple2/AppleMem.c:88-109 | No trace changes the ROM or the slot-6 PROM. |
| `LanguageCard.BankKeeps` | Apple2/AppleMem.c:95-102 | A bank keeps its bytes through any accesses that go elsewhere, so they are back when it is selected again. |
| `LanguageCard.AppleMemory.constructor` | Apple2/AppleMem.c:42-54 | A new memory has five cleared stores and the switches of a reset. |
| `LanguageCard.AppleMemory.Reset` | Apple2/AppleMem.c:42-54 | Reset clears all five stores and sets the switches. |
| `LanguageCard.AppleMemory.SoftSwitch` | Apple2/AppleDevice.c:423-484 | Exactly $C080-$C08F move the switches. |
| `LanguageCard.AppleMemory.ReadByte` | Apple2/AppleMem.c:57-86 | A read returns the byte of the store the switches select and changes at most the switches. |
| `LanguageCard.AppleMemory.WriteByte` | Apple2/AppleMem.c:88-109 | A write changes exactly one byte of the selected store, or none, or the switches. |
| `LanguageCard.RunTrace` | Apple2/AppleMem.c:57-109 | After any trace of accesses every store is its initial image under the accepted writes and the switches are those of the history. |
| `LanguageCard.ReadAfter` | Apple2/AppleMem.c:57-86 | Bank isolation: outside $C000-$CFFF a read after any trace returns the latest write accepted at that place into the store now selected. |
| `LanguageCard.WriteThenRead` | Apple2/AppleMem.c:57-109 | RAM always, and $D000-$FFFF when the last language-card access and the history enable reading and writing, gives back what was written. |
| `LanguageCard.ReadsRom` | Apple2/AppleMem.c:62-64 | From $D000 on the ROM shows while the last language-card access does not enable reading, or there was none. |
| `LanguageCard.BanksApart` | Apple2/AppleMem.c:66-99 | In $D000-$DFFF a write to one bank is not seen while the other is selected, and is back when its own is selected again. |
| `CpuArithmetic.Adjustment` | Apple2/AppleCpu.c:1915-1916 | The two bits that the decimal adjustment taps are the carries out of the two digits. |
| `CpuArithmetic.DecimalAdd` | Apple2/AppleCpu.c:1909-1920 | With D set, valid digits and a carry that together are the decimal sum. |
| `CpuArithmetic.BinaryAdd` | Apple2/AppleCpu.c:1909-1920 | With D clear, result and carry together are the sum. |
| `CpuArithmetic.AdcFitsWord` | Apple2/AppleCpu.c:1913-1916 | The 16-bit result never wraps, whatever the operands. |
| `CpuArithmetic.OverflowIsSigned` | Apple2/AppleCpu.c:155-164 | In binary mode V is set exactly when the signed sum is outside -128..127. |
| `CpuArithmetic.DecimalChain` | Apple2/AppleCpu.c:1909-1920 | A chain of decimal ADCs over any number of bytes yields valid digits and a carry equal to the decimal sum. |
| `CpuArithmetic.BinaryChain` | Apple2/AppleCpu.c:1909-1920 | A chain of binary ADCs of any length is exact. |
| `CpuArithmetic.SubtractChain` | Apple2/AppleCpu.c:1934-1937 | A chain of binary SBCs of any length is exact modulo its width, and its carry is clear exactly when it borrowed. |
| `CpuStack.PackRoundTrip` | Apple2/AppleCpu.c:21-38 | The flags survive being pushed as one byte. |
| `CpuStack.PackBits` | Apple2/AppleCpu.c:21-38 | Every flag is its bit of the pushed byte, carry lowest. |
| `CpuStack.CallOnStack` | Apple2/AppleCpu.c:614-620 | JSR leaves the address of its last byte on the stack, high byte above low byte, and SP two lower around the page. |
| `CpuStack.BreakOnStack` | Apple2/AppleCpu.c:1718-1729 | BRK leaves the address behind its second byte and below it the flags with B, SP three lower; I is set and D cleared. |
| `CpuStack.PushBalanced` | Apple2/AppleCpu.c:223-252 | A body that uses fewer than 256 bytes below a pushed byte leaves that byte on top. |
| `CpuStack.CallReturns` | Apple2/AppleCpu.c:604-645 | A balanced subroutine resumes behind its JSR with SP restored. |
| `CpuStack.InterruptReturns` | Apple2/AppleCpu.c:1718-1753 | A balanced BRK handler resumes two bytes on, with the flags restored and only B forced on. |
| `CpuStack.StackRefines` | Apple2/AppleCpu.c:216-267 | With at most 256 bytes outstanding, any nesting of calls, saves and breaks on the wrapping page behaves as an ideal stack machine, and SP is back. |
| `Cpu6502.Cpu.constructor` | Apple2/AppleCpu.c:49-57 | Registers and flags after reset. |
| `Cpu6502.Cpu.Adc` | Apple2/AppleCpu.c:1909-1920 | ADC updates accumulator and the four flags as the arithmetic says, other flags kept. |
| `Cpu6502.Cpu.Sbc` | Apple2/AppleCpu.c:1934-1937 | SBC is ADC of the complement. |
| `Cpu6502.Cpu.AddBytes` | Apple2/AppleCpu.c:1909-1920 | A multi-byte addition loop computes the chain of which exactness is proved. |
| `Cpu6502.Cpu.PushByte` | Apple2/AppleCpu.c:223-229 | A push changes one byte of the stack page and SP, and no other store. |
| `Cpu6502.Cpu.PopByte` | Apple2/AppleCpu.c:245-252 | A pop returns the byte above SP and moves SP only. |
| `Cpu6502.Cpu.PushWord` | Apple2/AppleCpu.c:232-242 | A word is pushed high byte first. |
| `Cpu6502.Cpu.PopWord` | Apple2/AppleCpu.c:255-267 | A word is popped low byte first. |
| `Cpu6502.Cpu.Jsr` | Apple2/AppleCpu.c:604-623 | JSR pushes the address of its last byte and jumps to the word that follows it in memory. |
| `Cpu6502.Cpu.Rts` | Apple2/AppleCpu.c:640-645 | RTS resumes behind the popped address. |
| `Cpu6502.Cpu.Pha` | Apple2/AppleCpu.c:680-685 | PHA pushes the accumulator. |
| `Cpu6502.Cpu.Pla` | Apple2/AppleCpu.c:689-697 | PLA pops it and sets Z and N. |
| `Cpu6502.Cpu.Brk` | Apple2/AppleCpu.c:1718-1730 | BRK pushes address and flags with B, sets I, clears D and jumps through the word at $FFFE. |
| `Cpu6502.Cpu.Rti` | Apple2/AppleCpu.c:1739-1753 | RTI pops flags and address. |
| `Cpu6502.Cpu.Fetch` | Apple2/AppleCpu.c:166-171 | An opcode fetch reads the byte at PC through the switches, moves them if it reads one, and steps PC. |
| `Cpu6502.Cpu.PerformOne` | Apple2/AppleCpu.c:604-645 | One nested activity run by these instructions on the banked memory, opcodes fetched through the switches, does what its value-level form does, at the addresses memory holds. |
| `Cpu6502.Cpu.PerformBalanced` | Apple2/AppleCpu.c:216-267 | Stack refinement on the machine: any nesting within 256 bytes ends with the registers of the ideal machine, SP back, and the page unchanged above it. |
| `BlockList.Disjoint` | Src/memory.c:45-54 | Blocks that tile an arena share no byte, header or payload, and all lie inside it. |
| `BlockList.TotalIsArena` | Src/memory.c:45-88 | Conservation: headers and payloads together are always the whole arena. |
| `BlockList.SplitTiled` | Src/memory.c:45-51 | Splitting a block keeps the tiling. |
| `BlockList.MergeTiled` | Src/memory.c:72-88 | Merging neighbours keeps the tiling. |
| `BlockList.LiveSplit` | Src/memory.c:43-54 | A split adds exactly the carved block to the live ones. |
| `BlockList.LiveMerge` | Src/memory.c:72-88 | Merging free blocks changes no live one. |
| `BlockList.AllFree` | Src/memory.c:64-91 | With nothing live and no two free neighbours, only the initial block is left. |
| `BlockList.CoalescingUnique` | Doc/DerpOS-master/Code/alloc/alloc.cpp:95-120 | Around given live blocks there is exactly one tiling without free neighbours. |
| `Ownership.OwnedDisjoint` | Src/memory.c:30-91 | What two outstanding pointers own is disjoint, from each other and from every header, and inside the arena. |
| `Ownership.OwnedIsLive` | Src/memory.c:64-91 | An outstanding pointer is that of a block in use, and returning it takes nothing from the others. |
| `Ownership.FreeIsNobodys` | Src/memory.c:41-54 | A free block belongs to no outstanding pointer. |
| `KernelHeap.TakeForward` | Src/memory.c:43-54 | `malloc`'s assignments keep the `next` links and headers in step with the blocks, repaired or not. |
| `KernelHeap.TakeBackward` | Src/memory.c:45-51 | The back links survive `malloc` as written if and only if it does not split a block that has a successor. |
| `KernelHeap.JoinLinked` | Src/memory.c:72-88 | Absorbing the right neighbour keeps both link directions. |
| `KernelHeap.ReleaseLinked` | Src/memory.c:64-91 | `free`'s assignments keep both link directions and the tiling. |
| `KernelHeap.ReleaseKeeps` | Src/memory.c:64-91 | `free` keeps links, tiling and the absence of free neighbours together. |
| `KernelHeap.FreeKeepsPairs` | Src/memory.c:70-89 | `free` leaves no two free neighbours. |
| `KernelHeap.FreeLive` | Src/memory.c:64-91 | `free` removes exactly the freed block from the live ones. |
| `KernelHeap.TakeLive` | Src/memory.c:41-54 | `malloc` adds exactly one live block, of at least the size asked for. |
| `KernelHeap.FirstFit` | Src/memory.c:37-59 | The first free block that is long enough, none before it. |
| `KernelHeap.FailsExactly` | Src/memory.c:34-61 | `malloc` of a positive size answers NULL exactly when every block is in use or shorter than the size rounded up to a multiple of four. |
| `KernelHeap.OwnsRequested` | Src/memory.c:34-54 | A pointer that `malloc` answers owns the bytes asked for if and only if rounding them up does not wrap around 32 bits. |
| `KernelHeap.WrapsAround` | Src/memory.c:34-54 | On the heap that `k_init_mem` sets up, a request for 0xFFFFFFFD bytes is answered with a block of none. |
| `KernelHeap.Heap.InitMem` | Src/memory.c:14-24 | The first call makes one free block of the arena; a second call, or an arena below one header, changes nothing. |
| `KernelHeap.Heap.Search` | Src/memory.c:37-59 | The search loop stops at the first fit, or at the end if there is none. |
| `KernelHeap.Heap.Malloc` | Src/memory.c:30-62 | `malloc` answers the first fit or NULL, splits when a header fits in the rest, owns the bytes asked for exactly when rounding does not wrap, and keeps the links intact exactly when it splits no block with a successor or mends the back link. |
| `KernelHeap.Heap.UseBlock` | Src/memory.c:43-54 | The assignments to a fitting block, with or without the back link mended. |
| `KernelHeap.Heap.Free` | Src/memory.c:64-91 | What `free` does to the headers is stated for every heap; on one with intact links a live pointer is freed, merged on both sides, and the heap stays valid. |
| `KernelHeap.Heap.MergeEntry` | Src/memory.c:69-89 | The assignments of `free` to the headers. |
| `KernelHeap.Heap.Absorb` | Src/memory.c:83-88 | One header swallows its successor. |
| `KernelHeap.StepKeeps` | Src/memory.c:30-91 | Every call keeps the tiling and leaves no free neighbours. |
| `KernelHeap.RunKeeps` | Src/memory.c:14-91 | So does every run of calls. |
| `KernelHeap.RunAligned` | Src/memory.c:34-54 | On an arena of aligned base and size, every block address and length and every answer after every run is a multiple of four. |
| `KernelHeap.FiveThenFour` | Src/memory.c:34-54 | On the heap that `k_init_mem` sets up, requests for 5 and then 4 bytes are answered 0x00100010 and 0x00100028. |
| `KernelHeap.RequestOwns` | Src/memory.c:30-62 | An answered request owns its rounded bytes, which were nobody's; all others keep theirs. |
| `KernelHeap.ReturnOwns` | Src/memory.c:64-91 | Returning an outstanding pointer meets what `free` expects, and all others keep their bytes. |
| `KernelHeap.ClientSafe` | Src/memory.c:14-91 | Safety over every client history: a client that returns only answers it has not returned yet never breaks what `free` expects, is never answered with an outstanding pointer, and owns the rounded bytes of everything outstanding; the blocks tile the arena without free neighbours. |
| `KernelHeap.OwnsAsked` | Src/memory.c:30-62 | After every client history each outstanding pointer owns the bytes asked for, if their size did not wrap around. |
| `KernelHeap.Recovers` | Src/memory.c:14-91 | Full recovery: whenever nothing is outstanding, after any history, the initial block is back. |
| `KernelHeap.FreeAll` | Src/memory.c:64-91 | Freeing all live pointers, in any order without repeats, is legal at every step and restores the initial block. |
| `KernelHeap.Serve` | Src/memory.c:14-91 | With the back link repaired, headers and links in memory follow the blocks through every client history, with all that `ClientSafe` promises. |
| `KernelHeap.LosesLiveBlock` | Src/memory.c:45-51 | On the heap that `k_init_mem` sets up, the code as written runs into a state where a block in use is out of the list and inside a free one. |
| `KernelHeap.MergesPast` | Src/memory.c:72-88 | The step at which it happens: `free` follows the stale back link and merges past the block in use. |
| `DerpAlloc.MergeLinked` | Doc/DerpOS-master/Code/alloc/alloc.cpp:62-74 | Removing a node keeps list and tiling. |
| `DerpAlloc.SplitLinked` | Doc/DerpOS-master/Code/alloc/alloc.cpp:145-155 | Splitting a node keeps list and tiling. |
| `DerpAlloc.AppendLinked` | Doc/DerpOS-master/Code/alloc/alloc.cpp:43-60 | Appending a node keeps list and tiling, which grows to the new heap pointer. |
| `DerpAlloc.FirstSplit` | Doc/DerpOS-master/Code/alloc/alloc.cpp:136-162 | The first node large enough to split, the last node excepted. |
| `DerpAlloc.SmallFits` | Doc/DerpOS-master/Code/alloc/alloc.cpp:143-165 | Sizes that with a header and the smallest block stay below 4 GB never overflow. |
| `DerpAlloc.RefusesExactly` | Doc/DerpOS-master/Code/alloc/alloc.cpp:132-174 | With the larger of size and smallest size as request: NULL exactly when no free node before the last is longer than it, and than it with a header and the smallest size, and it does not fit the room left with a header; an append is a node of just that size. |
| `DerpAlloc.ChainIsInList` | Doc/DerpOS-master/Code/alloc/alloc.cpp:43-60 | The links in memory determine the nodes from the head on. |
| `DerpAlloc.AppendLeadsOut` | Doc/DerpOS-master/Code/alloc/alloc.cpp:76-92 | A node whose size wraps around leaves a list that no blocks up to the heap pointer describe. |
| `DerpAlloc.SplitLeadsOut` | Doc/DerpOS-master/Code/alloc/alloc.cpp:145-157 | So does a split without room for the second header. |
| `DerpAlloc.Alloc.InitMalloc` | Doc/DerpOS-master/Code/alloc/alloc.cpp:27-41 | Heaps below 1024 bytes are refused; others start as one empty used node. |
| `DerpAlloc.Alloc.RemoveNode` | Doc/DerpOS-master/Code/alloc/alloc.cpp:62-74 | The predecessor absorbs the node, and the shared cursor ends on it. |
| `DerpAlloc.Alloc.CleanMemoryList` | Doc/DerpOS-master/Code/alloc/alloc.cpp:95-120 | One pass terminates, leaves no two free neighbours, keeps every used node and all bytes, although each removal resets the cursor. |
| `DerpAlloc.Alloc.AddNode` | Doc/DerpOS-master/Code/alloc/alloc.cpp:43-92 | One used node is appended at the heap pointer, which moves in 32 bits; the heap stays valid exactly when that does not wrap. |
| `DerpAlloc.Alloc.Extend` | Doc/DerpOS-master/Code/alloc/alloc.cpp:164-175 | Out of room by the 32-bit check sets the error and changes nothing; else a node is appended. |
| `DerpAlloc.Alloc.FindNode` | Doc/DerpOS-master/Code/alloc/alloc.cpp:136-162 | The search stops at the first node that can be split. |
| `DerpAlloc.Alloc.SplitFound` | Doc/DerpOS-master/Code/alloc/alloc.cpp:145-157 | The node found is split; the heap stays valid exactly when the second header fits. |
| `DerpAlloc.Alloc.SplitNode` | Doc/DerpOS-master/Code/alloc/alloc.cpp:145-157 | The assignments to the node and the new one behind it. |
| `DerpAlloc.Alloc.Malloc` | Doc/DerpOS-master/Code/alloc/alloc.cpp:127-175 | For every 32-bit size: after coalescing, the first node that can be split is split, else a node is appended, else the error is set; some blocks describe the heap afterwards if and only if neither the split nor the room check has overflown. |
| `DerpAlloc.FirstRequest` | Doc/DerpOS-master/Code/alloc/alloc.cpp:132-174 | On a fresh heap of 1024 bytes with smallest size 16, a request for 100 bytes is answered behind the second header and moves the heap by 109. |
| `DerpAlloc.RequestWraps` | Doc/DerpOS-master/Code/alloc/alloc.cpp:165-174 | On a heap of 1024 bytes a request for 0xFFFFFFFF bytes is answered, and the heap ends one byte before what was handed out. |
| `DerpAlloc.Alloc.Free` | Doc/DerpOS-master/Code/alloc/alloc.cpp:177-182 | Exactly the node of the pointer becomes free. |
| `DerpAlloc.OwnsSplit` | Doc/DerpOS-master/Code/alloc/alloc.cpp:145-157 | A split hands out bytes that nobody owned. |
| `DerpAlloc.OwnsAppended` | Doc/DerpOS-master/Code/alloc/alloc.cpp:171-174 | So does an append. |
| `DerpAlloc.ServedOwns` | Doc/DerpOS-master/Code/alloc/alloc.cpp:127-175 | Whichever way a request is served, its bytes were nobody's and all others keep theirs. |
| `DerpAlloc.MallocStep` | Doc/DerpOS-master/Code/alloc/alloc.cpp:127-175 | Each successful request is answered with a pointer not outstanding, and all outstanding pointers keep their bytes. |
| `DerpAlloc.FreeStep` | Doc/DerpOS-master/Code/alloc/alloc.cpp:177-182 | A return ends exactly one ownership. |
| `DerpAlloc.Run` | Doc/DerpOS-master/Code/alloc/alloc.cpp:27-182 | Safety over all runs from a heap of at least 1024 bytes and for all 32-bit sizes: nodes tile up to the heap pointer, which stays within the limit, every outstanding pointer owns the bytes requested, and no pointer is handed out twice; a run ends early only at a request within a header and a smallest block of 4 GB, and then no blocks describe the heap. |
| `Rasteriser.DrawShallow` | Doc/DerpOS-master/Old Code/vga.c:200-221 | The error term draws in every column the exactly rounded row, halves away from the start row. |
| `Rasteriser.DrawSteep` | Doc/DerpOS-master/Old Code/vga.c:222-243 | The same by rows, with halves rounded towards the start column. |
| `Rasteriser.DrawLine` | Doc/DerpOS-master/Old Code/vga.c:194-244 | For all endpoints the pixels are those of exact rounding, in order. |
| `Rasteriser.LineIsNearest` | Doc/DerpOS-master/Old Code/vga.c:194-244 | After k major steps with m minor steps, 2·abs(m·major - k·minor) is at most major. |
| `Rasteriser.ShallowExact` | Doc/DerpOS-master/Old Code/vga.c:200-221 | In coordinates: one pixel a column from left to right, at the nearest row, halfway cases away from the left end. |
| `Rasteriser.SteepExact` | Doc/DerpOS-master/Old Code/vga.c:222-243 | One pixel a row from top to bottom, at the nearest column, halfway cases towards the top end. |
| `Rasteriser.LineReachesFinish` | Doc/DerpOS-master/Old Code/vga.c:194-244 | The first and last pixels are the endpoints, in every octant. |
| `Rasteriser.LineIgnoresDirection` | Doc/DerpOS-master/Old Code/vga.c:202-227 | Swapping the endpoints draws the same pixels. |
| `Rasteriser.ArcIsNearest` | Doc/DerpOS-master/Old Code/vga.c:253-265 | On the arc, y is the nearest integer to the root of r² - x², and the only one. |
| `Rasteriser.ArcIsUnique` | Doc/DerpOS-master/Old Code/vga.c:253-265 | There is only one such arc. |
| `Rasteriser.ReflectedIsCircle` | Doc/DerpOS-master/Old Code/vga.c:255-262 | The reflections of the arc are the pixels of the circle and no others. |
| `Rasteriser.CircleByDistance` | Doc/DerpOS-master/Old Code/vga.c:255-262 | A pixel is on the circle exactly when the smaller and larger of its two distances from the centre are on the arc. |
| `Rasteriser.ArcStep` | Doc/DerpOS-master/Old Code/vga.c:263-264 | One midpoint step stays on the nearest arc or leaves the octant for good. |
| `Rasteriser.NothingBeyond` | Doc/DerpOS-master/Old Code/vga.c:253-264 | When the loop stops, no point of the arc is missing. |
| `Rasteriser.DrawCircle` | Doc/DerpOS-master/Old Code/vga.c:246-266 | The loop ends; the pixels are the eight reflections of the nearest arc column by column, in order; a pixel is written if and only if the smaller and larger of its distances from the centre are on the arc, and none for radius 0 or below. |

## Left out

- Physical I/O faults of the installer's device, failing memory allocation and failing file access; a read past the end of the device is modelled, with what it leaves in the cache.
- A write that fails after some of its blocks were changed. With the blocks just read and no I/O fault it cannot happen, and `Device.WriteRecorded` shows that.
- The choice of block size in `device_init`: the model starts from an accepted size of at least 512 bytes, on a device below 2^63 bytes.
- UndeployFile.Load: a count above 256 makes the program write past its table; the model stops there with `LoadOverrun`.
- MbrDeploy.WriteMbr: expects stage 2 to be at least one sector long; below that the program reads past its image and computes a negative length for the second half.
- MbrDeploy.DeployMbr: starts after the checks of the partition table, whose own reads and writes are not modelled; earlier records in the journal are allowed for.
- The GPT branch, option parsing and messages of the installer.
- BlockDevice.Device.constructor: takes the block size that the guessing would accept.
- BlockDevice.Device.Read: promises nothing of the bytes read after a failed read has spoilt the cache; `main` never reads again then.
- BlockDevice.Device.Undeploy: says nothing of the disk when a record straddles the end of the last whole block, which no journal of the program's own does; such a record leaves a spoilt cache behind.
- BlockDevice.Device.RestoreAll: as `Undeploy`.
- UndeployFile.LoadEntries: stops where the program would write past its table.
- MbrDeploy.WriteConfig: expects stage 2 to be at least one sector long, as `WriteMbr` does.
- HiRes.Renderer.Overdraw: text and lo-res drawing is an arbitrary picture; their own caches and fonts are not modelled.
- The table of line starts is given as its closed form, and the colour buffer as rows rather than one flat array.
- LanguageCard.AppleMemory.SoftSwitch: other switches and devices only answer, with a byte that is a parameter.
- Cpu6502.Cpu.Sbc: nothing is claimed about decimal subtraction, which lacks its adjustment in the active branch.
- Cpu6502.Cpu.PerformOne: opcodes are fetched, but the byte read is not compared with the instruction that the activity names.
- Cpu6502.Cpu.PerformBalanced: as `PerformOne`.
- CpuStack.StackRefines: code between pushes and pulls is any change of registers that leaves SP and the stack page alone; the remaining instructions, addressing modes and cycle counts are not modelled.
- `calloc`, `realloc` and the contents of payloads in both allocators; `expandMemory` and the destructor of the DerpOS one.
- KernelHeap.Serve: with the back link mended; what the unmended code does to the headers is in `Heap.Malloc` and `Heap.Free`.
- Headers that overlap once a DerpOS request has overflown: the model stops there with an unsound heap.
- DerpAlloc.Alloc.Free: expects a pointer that was handed out and not yet returned.
- Rasteriser.DrawLine: coordinates are unbounded, so `short` overflow is not modelled; neither is the frame buffer behind the pixel writes.
- Disk II data indexing, paddles, the other allocators, schedulers, drivers, shells and games of the repository.
