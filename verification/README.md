# Verified model of the Cleopatra Fortune Plus Dreamcast conversion

A Naomi cartridge game runs on a Dreamcast because a loader patches its boot image, and a small resident
shim then stands in for the arcade board: it streams the cartridge from the disc, answers the Maple/JVS
traffic and calls the console's GD syscalls on a private stack. This project models that machinery in Dafny
and proves what it is relied on for. `dafny verify dfyconfig.toml` checks the whole project.

| file | models |
|---|---|
| `Words.dfy`, `Bits.dfy`, `Options.dfy` | machine words and byte layout, bitwise operations over naturals, optional values |
| `Iface.dfy` | `shims/include/shim_iface.h`: the region map everything else shares |
| `Trampoline.dfy` | `shims/src/gdstack.S`: the GD syscall trampoline, instruction by instruction on an SH-4 state |
| `CacheMem.dfy` | RAM behind a write-back cache whose lines may be filled, written back or evicted at any moment |
| `Drive.dfy` | `shims/src/gd.c`: send, pump, check, retry and recover over a drive that may refuse, stall, fail or scribble |
| `Cart.dfy` | `shims/src/cart.c` and the track layout of `scripts/make_gdi.py`: byte-granular reads from the disc |
| `Maple.dfy`, `Jvs.dfy` | `shims/src/main.c`, `shims/src/jvs.c`: the Maple service over whole runs, and its reply frames |
| `Patch.dfy` | `scripts/build_patch_table.py` and `apply_patches`: the table, its algebra, and what a thunk does when run |
| `Handoff.dfy` | `loader/main.c`, `loader/handoff.S`: place, purge, uncached copy, jump |
| `Morton.dfy`, `Pvr.dfy`, `Bmp.dfy` | the disc-art pipeline across `make_gdi.py`, `pvrview.py` and `bmp2rgb565.py` |
| `Scan.dfy`, `Crc.dfy` | the two find-driven scans, and the disc header's CRC |
| `System.dfy` | the pieces joined: generator, loader, jump, service |

## The environment

Everything outside the modelled code is nondeterministic. These are all the facts taken from it; the proofs
hold for every behaviour that respects them.

* *A GD syscall, as the trampoline sees it* (`Trampoline.Abides`) is an arbitrary function on the processor
  state. It keeps r8-r15, the private frame, the three saved words of the trampoline and the stack slot of the
  caller's PR. It may store to MMUCR.
* *The drive* may refuse, stall, fail, report any progress and store anything into the buffer of the current
  request, by that request's route (cached, uncached or DMA), any number of times and in any order. COMPLETED
  for the current request means that its bytes have all arrived.
* *The BIOS and the drive emulation* otherwise store, cached or not, only into lines of their own
  (`CacheMem.Mem.bios`), which may be any lines but those of the bounce buffer. What is proved about memory is
  proved of all other lines.
* *Nobody else stores* while a request is being served; the shim polls with the game waiting.
* *The cache* may fill, write back or evict any line at any moment of a request, the buffer's lines included.
  Dirty lines are written back only by cached activity. DMA and uncached stores bypass the cache; OCBI drops a
  line without writing it back, OCBP writes it back first, and the loader's CCR store drops every line without
  writing any back.
* *The rest of the loader* stores through the cache, anywhere outside the placed regions and the mirrors.
* *The game's engine* may change any memory between Maple frames, but not the latch and the pad cache the shim
  keeps for itself. Pad words, the poll timer and the video cable are arbitrary at each use.
* *While a Maple list is walked* nobody else stores to memory, and no dirty cache line is written back over the
  list, its receive buffers or the mirror, all of which the game uses uncached.
* *Parameters* are the captured reply blobs, the BIOS slices, the ROM, the boot image, the stub's bytes and the
  images.

## What came out of it

* `cart_read` does not always deliver. Its uncached stores can be undone by a dirty cache line that covered
  the destination: every way a request can come out leaves the requested bytes in RAM if and only if, outside
  a DMA body, no such line held another value (`Cart.RequestExact`; a failing run is `Cart.HeadSpoils`). The
  loader's zeroing of the register mirrors has the same exception (`Handoff.MirrorsExact`).
* The comment at `shims/src/gd.c:174-179` says that after the invalidation later reads fetch fresh from RAM. A
  DMA body always reaches RAM, but the cached view agrees with it if and only if no line of the buffer is
  filled between its invalidation and the arrival (`CacheMem.CoherentIffUnfilled`, `CacheMem.FillSpoils`).
* `pvrview.py` says that what it cannot decode errors loudly. A twiddled texture wider than 1024 instead
  decodes without error from wrapped positions (`Pvr.SquareExactly`, `Pvr.ApartExactly`).
* The viewer reads the first "PVRT" in a file, the disc builder checks for the one at byte 16 only. They mean the
  same texture when none starts earlier, the condition of `Pvr.EncodedDecodes`; `Pvr.HeaderReads` says what is
  read otherwise.
* `write_bmp` raises when the file would not fit in 32 bits, so the image round trip holds for exactly the
  sizes that can be printed (`Bmp.PrintsExactly`); a texture can decode and yet not be printed
  (`Bmp.TooLarge`).
* A thunk's pooled target lands where its load reads exactly for even addresses (`Patch.ThunkShape`).
* The comment at `shims/src/main.c:698-707` says that its two window tests keep replies from spraying live code.
  They admit the shim's own home (`Maple.WindowAdmitsHome`); a walk is safe from that exactly when no reply due
  covers it (`Maple.Shim.Walk`).
* The header CRC detects every error of odd weight, and every burst of at most 16 bits at any bit offset; two
  appended bytes bring it to zero if and only if they are the CRC itself.

## Model

| member | source | states |
|---|---|---|
| Trampoline.FpscrBits | shims/src/gdstack.S:34-42 | FR, SZ and PR are bits 21, 20 and 19 of FPSCR |
| Trampoline.PushFrontBank | shims/src/gdstack.S:43-58 | sixteen pushes put fr0-fr15 of the front bank at descending addresses and change no other word |
| Trampoline.PopFrontBank | shims/src/gdstack.S:160-175 | sixteen pops refill the front bank from memory in reverse and leave the other bank alone |
| Trampoline.SwapStack | shims/src/gdstack.S:34-42 | PR is on the caller's stack, its SP in the saved cell, FPSCR and FPUL on top of the private stack; nothing else moves |
| Trampoline.SaveContext | shims/src/gdstack.S:34-76 | for any entry FPSCR and any FPU contents, both banks, FPSCR, FPUL, PR and SP are in their save slots, 136 bytes down the private stack |
| Trampoline.Probe | shims/src/gdstack.S:117-129 | r3 is 1 exactly when the vectors are 8 apart or the entry lies above the BIOS syscall RAM |
| Trampoline.OpenWindow | shims/src/gdstack.S:130-140 | the verdict is latched; MMUCR is saved and zeroed exactly when it is 1, by one store |
| Trampoline.CloseWindow | shims/src/gdstack.S:147-155 | MMUCR gets its saved value back exactly when the gate was latched open; r0 survives |
| Trampoline.RestoreBanks | shims/src/gdstack.S:157-192 | both physical banks come back from memory whatever FPSCR the syscall left |
| Trampoline.RestoreContext | shims/src/gdstack.S:157-200 | FPU banks, FPSCR, FPUL, r15 and PR equal the entry state's |
| Trampoline.SavedPersists | shims/src/gdstack.S:117-155 | a memory that keeps the guarded words still holds the saved context |
| Trampoline.Enter | shims/src/gdstack.S:33-143 | everything before the call: context saved, r4-r7 intact, the vector's target in r0, the MMU window open exactly for isoldr, and no word of memory changed but the private frame, the saved cells, the caller's next slot and MMUCR |
| Trampoline.GdcCall | shims/src/gdstack.S:33-200 | against any abiding syscall, one that itself stores to MMUCR included, the caller gets back all 32 FP registers, FPSCR, FPUL, PR, r15, r8-r14; r0 is the syscall's; it runs 136 bytes down the private stack with r4-r7 unchanged; to the syscall's own MMUCR stores the trampoline adds none, or a zero before and the entry value after: the pair at every placement of an isoldr vector pair, none under either stock pair; no other word of memory is changed before the syscall than those it saves into, and none but MMUCR after it |
| Trampoline.ProbeVerdict | shims/src/gdstack.S:121-127 | the wrapped add and compare is the +8 test, and the mask is the 16 MB offset |
| CacheMem.UncachedWriteSticks | shims/src/cart.c:86-98 | no later eviction can undo an uncached write if and only if no dirty line with a differing byte covers it |
| CacheMem.DmaCoherentExactly | shims/src/gd.c:174-179 | a DMA'd byte is coherent whatever runs next exactly when no dirty line covers it and no clean line holds another value |
| CacheMem.FillSpoils | shims/src/gd.c:174-179 | a line filled between its invalidation and the arrival leaves its bytes coherent only where RAM already held them |
| CacheMem.CoherentIffUnfilled | shims/src/gd.c:174-184 | a DMA into invalidated lines is sure to end coherent, cached and uncached views both new, if and only if none of them is filled in between |
| CacheMem.NothingWrittenBack | loader/handoff.S:10-14 | no run of uncached accesses moves a cache line or changes RAM anywhere but where it stores |
| CacheMem.CachedMayWriteBack | loader/handoff.S:10-14 | one cached access can write any dirty line back |
| CacheMem.DriftKeeps | shims/src/cart.c:86-98 | fills, write-backs and evictions anywhere keep every byte's cached value unless stale and RAM value unless dirty |
| Drive.Traffic | shims/src/gd.c:205-212 | n attempts send exactly n reads, and a DMA read invalidates each line of its buffer, and no other, exactly n times |
| Drive.ReadIsBounded | shims/src/gd.c:143-171 | whatever the drive does: at most four sends, a finished recovery before each retry, at most 100,000,001 polls an attempt |
| Drive.AttemptOrder | shims/src/gd.c:205-216 | in every attempt the recovery and the invalidation are over when its one read is sent |
| Drive.DoneMeans | shims/src/gd.c:143-169 | done: at most three failed attempts, each a refusal or a poll that ended at -1 or less or at a late 0, then one polled, every poll but the last still busy, until it showed 2 |
| Drive.GaveUpMeans | shims/src/gd.c:143-171 | given up: four attempts that failed so, gd_last_err being 0xcafe0002 for a refusal, the drive's word for a failure, 0xcafe0001 for a lost request |
| Drive.DiedMeans | shims/src/gd.c:90-93 | died: code 5 after 100,000,001 busy polls, with the sector and count of the read, or 0xdead1217 in a recovery |
| Drive.InvalidateIsExact | shims/src/gd.c:174-184 | invalidating a range loses no byte outside it, for every cache state, if and only if both ends are 32-byte aligned |
| Drive.InvalidatedSpares | shims/src/gd.c:174-184 | invalidating a DMA buffer keeps everything outside it and leaves none of its lines in the cache |
| Drive.PutWorks | shims/src/gd.c:153-168 | bytes arriving anywhere in the buffer by any route disturb nothing outside it and fetch no line of a DMA buffer |
| Drive.ArrivedDelivers | shims/src/gd.c:224-227 | arrived bytes are what the disc holds, where the transfer's own route puts them |
| Drive.Completes | shims/src/gd.c:224-227 | a DMA that finds no dirty line is in RAM however the cache is filled and evicted around it, and coherent wherever no clean line held another value as it arrived |
| Drive.Gd.Stir | shims/src/gd.c:145-168 | any number of scribbles into the buffer, fills, write-backs and evictions anywhere and BIOS stores of its own keep everything outside the buffer |
| Drive.Gd.Check | shims/src/gd.c:158-161 | any verdict, any activity; COMPLETED for the current request means complete: delivered, and a DMA coherent as far as the cache was clear when it landed |
| Drive.Gd.Await | shims/src/gd.c:153-168 | the poll loop ends on COMPLETED, a failure or late NOT_FOUND, or hangs after exactly 100,000,001 polls; its trace is one EXEC and one CHECK a turn |
| Drive.Gd.InitDrive | shims/src/gd.c:80-95 | CMD_INIT refused, or polled to an end, or hung |
| Drive.Gd.Recover | shims/src/gd.c:105-131 | system re-init, then drive re-init, then in a CDI build the sector mode, in that order |
| Drive.Gd.DcacheInval | shims/src/gd.c:180-184 | for any range, aligned or not, exactly its lines are dropped, one OCBI each, in order; RAM is untouched |
| Drive.Gd.SendAndAwait | shims/src/gd.c:145-168 | one send, polled only if accepted; completion delivers |
| Drive.Gd.Try | shims/src/gd.c:207-231 | a DMA attempt invalidates first, so completion puts the bytes in RAM from any cache state, and no line of the buffer is then in the cache unless fetched since |
| Drive.Gd.Pass | shims/src/gd.c:143-169 | recovery before every attempt but the first, then one attempt, classified as completed, failed or hung |
| Drive.Gd.Record | shims/src/gd.c:155-167 | each classified attempt ends the read with its verdict, or extends the failed history and records gd_last_err |
| Drive.Gd.Retry | shims/src/gd.c:143-170 | the loop's history is one of: done after k failed attempts, given up after four, or died of a hang; gd_last_err is the last failed attempt's verdict |
| Drive.Gd.Read | shims/src/gd.c:133-234 | 0 only after a COMPLETED check of the current request with the sectors delivered, a DMA into RAM with fills allowed everywhere; memory outside the buffer kept; a DMA clears bit 14 of all three masks, no other bit of any, and acknowledges once |
| Cart.Mastered | scripts/make_gdi.py:176-190 | the byte the shim reads at CART_FAD * 2048 + i is rom[i] of the mastered track |
| Cart.LoaderMastered | scripts/make_gdi.py:176-190 | the track starts with the loader and is zero from its end to the cart |
| Cart.MasteredHolds | scripts/make_gdi.py:176-190 | so the mastered disc holds the whole cart where the streamer looks for it |
| Cart.CartSplit | shims/src/cart.c:12-26 | head, body and tail cut the request in order with nothing between them |
| Cart.CutsIsUnique | shims/src/cart.c:12-26 | the cut has only one solution |
| Cart.CutsHead | shims/src/cart.c:17-24 | the head ends at the first sector boundary, the body takes every whole sector |
| Cart.GuardIsExact | shims/src/cart.c:147-153 | the 32-bit check accepts exactly the requests that satisfy the same bounds over the integers |
| Cart.ByDmaMeans | shims/src/cart.c:112-120 | in the split's own terms, the bytes that go by DMA are the whole sectors of a 32-byte-aligned body |
| Cart.RequestExact | shims/src/cart.c:86-130 | every possible outcome of a request leaves its bytes in RAM if and only if, outside a DMA body, no dirty line with another value covered the destination |
| Cart.PromptPossible | shims/src/cart.c:99-130 | a request served at once and then evicted is one of the possible outcomes, whatever the cache held |
| Cart.HeadSpoils | shims/src/cart.c:107-111 | the failing run: the drive delivers at once, the copy goes out, every line is evicted, and a byte under a dirty line ends as that line had it |
| Cart.Streamer.ReadOrDie | shims/src/cart.c:75-83 | success delivers; giving up dies with code 4, the sector and gd_last_err |
| Cart.Streamer.Bounced | shims/src/cart.c:107-111 | part of one sector through the bounce buffer: every byte has one of the outcomes an uncached store can have, and nothing else changes |
| Cart.Streamer.Body | shims/src/cart.c:112-125 | whole sectors land; an aligned body is in RAM whatever the cache held or fetched, and coherent wherever no clean line fetched since the invalidation held another value as it arrived |
| Cart.Streamer.CartRead | shims/src/cart.c:99-130 | every byte of RAM[dest..dest+len) comes out in one of the possible ways for rom[off..off+len), an aligned body always in RAM and coherent as far as nobody fetched its lines; everything outside it and the bounce buffer is kept, even when the read fails |
| Cart.Streamer.Service | shims/src/cart.c:138-178 | requests outside the exact bounds die with code 2 and touch nothing; accepted ones come out as cart_read does, and SB_GDST is cleared exactly when they are served |
| Patch.ApplyPatches | loader/main.c:123-136 | the in-place loop computes Apply: entry by entry, stopping at the first mismatch |
| Patch.DisjointApplies | loader/main.c:123-136 | a disjoint table whose old bytes match applies, and equals replacing all sites at once |
| Patch.OrderIndependent | loader/main.c:123-136 | any reordering of it gives the same image |
| Patch.SwapUndoes | loader/main.c:123-136 | exchanging old and new takes the patched image back |
| Patch.FailureStops | loader/main.c:123-136 | a failure stops at a definite entry: those before it are in, its old bytes are not there, no other byte changed |
| Patch.SubstitutedUnique | loader/main.c:123-136 | simultaneous substitution is determined by the set of entries |
| Patch.Generator.Word | scripts/build_patch_table.py:70-80 | a pool or pointer patch is emitted exactly when the word is inside the image and reads as expected |
| Patch.Generator.Insn16 | scripts/build_patch_table.py:82-87 | an instruction patch is emitted exactly when the opcode reads as expected |
| Patch.LoadOpcode | scripts/build_patch_table.py:105 | or-ing an eight-bit displacement into 0xd000 adds it |
| Patch.Assemble | scripts/build_patch_table.py:101-106 | the bytes packed with the or-ed opcode are the thunk of the address and the target |
| Patch.Generator.Hook | scripts/build_patch_table.py:89-107 | a hook is emitted exactly when the thunk fits and the first opcode matches; every emitted entry fits, is equal-length and matches the image |
| Patch.GeneratedApplies | scripts/build_patch_table.py:63-107 | every table the generator can emit, if disjoint, applies to its image, equals substituting all sites at once, and is undone by exchanging old and new |
| Patch.ThunkShape | scripts/build_patch_table.py:101-106 | the thunk is 12 bytes at a 4-aligned address, else 10 for even ones; its target is in the loaded slot exactly for even addresses |
| Patch.DecodeForms | scripts/build_patch_table.py:89-106 | the three instructions of a thunk, by opcode, for every register and displacement |
| Patch.ThunkReads | scripts/build_patch_table.py:105-106 | its bytes decode as the three instructions and the pooled target |
| Patch.ThunkTransfers | scripts/build_patch_table.py:89-107 | executing it from any even address lands on the target with only r0 changed |
| Patch.HookIsLive | scripts/build_patch_table.py:89-107 | a hook in an applied disjoint table transfers control in the loaded image |
| Handoff.RegionMap | shims/include/shim_iface.h:6-57 | what the loader places is pairwise disjoint and shares no cache line with the mirrors |
| Handoff.WriteShows | loader/main.c:207-220 | a cached write shows where it went and hides no other region |
| Handoff.PurgeCommits | loader/main.c:241-248 | a purge puts what cached code saw into RAM and changes nothing it sees |
| Handoff.MirrorsExact | loader/main.c:225-235 | every possible outcome has the mirrors zeroed at the jump if and only if no dirty line with a non-zero byte covered a mirror byte when the loader started |
| Handoff.BothZeroed | loader/main.c:225-235 | one mirror zeroed and then the other, with other stores between: each byte has one of the outcomes of an uncached zero |
| Handoff.Loader.CopyWords | loader/handoff.S:18-25 | because both pointers are uncached aliases, the word loop copies exactly len bytes of RAM, writes nothing back and moves no cache line |
| Handoff.Loader.Stub | loader/handoff.S:18-31 | from any cache state the copy is exact, and after the CCR store every line is absent, so nothing can be written back over it |
| Handoff.Loader.ZeroMirror | loader/main.c:225-235 | each byte of the mirror has one of the outcomes of an uncached zero; the other mirror is kept and placed regions still show |
| Handoff.Loader.PlaceAll | loader/main.c:207-239 | every region shows its bytes to cached code, and both mirrors are zeroed but for what dirty lines covered |
| Handoff.Loader.PurgeAll | loader/main.c:241-248 | the five purges together commit every region to RAM |
| Handoff.Loader.Launch | loader/main.c:207-295 | at the jump, by address: RAM holds the image, the shim, zeros from its end to the end of its budget, both BIOS slices and the stub; a mirror byte is zero or what a dirty line over it held at the start; no cache line is present |
| Handoff.Boot | loader/main.c:202-295 | a mismatching table halts with nothing placed; otherwise all that Launch proves holds at the jump, with the patched boot image as the game |
| Jvs.DcToJvs | shims/src/jvs.c:8-19 | each of the seven JVS bits is set exactly where its pad bit, by number, is clear, and every other bit is clear |
| Jvs.PressesUnite | shims/src/jvs.c:8-19 | the word of the bitwise and of two pad words is the bitwise or of their words |
| Jvs.IdleIsZero | shims/src/jvs.c:8-19 | no button gives 0, and the low byte is never used |
| Jvs.ComboIsFive | shims/src/jvs.c:25-28 | the reset combination is A, B, X, Y and Start, all held |
| Jvs.MaskWhole | shims/src/jvs.c:25-28 | masking returns the mask exactly when every bit of it is present |
| Jvs.Checksum | shims/src/jvs.c:34-39 | the loop sums bytes 0x1b to 0x39 modulo 256 |
| Jvs.Digital | shims/src/main.c:214-221 | the frame built in place is the digital frame of both pads |
| Jvs.FrameIsSound | shims/src/main.c:214-221 | for all words it differs from the template only at 0x20-0x23 and 0x3a, its checksum covers what was stored, and both big-endian words read back |
| Jvs.FrameHeader | shims/src/jvs.c:46-51 | the header is a response whose word count covers the frame, with the status bytes behind it |
| Jvs.FramePacket | shims/src/jvs.c:46-51 | after the sync the length byte counts what follows up to the checksum; coin and eight idle analog channels are in their places, the rest is zero |
| Jvs.IdleFrame | shims/src/jvs.c:46-51 | the template is itself the frame of two idle pads, checksum 0x22 included |
| Maple.ChipRepeats | shims/src/main.c:699-708 | two addresses are one byte of RAM exactly when they are a whole number of 16 MB chips apart |
| Maple.HeaderFields | shims/src/main.c:717-742 | length, start-of-frame and last-entry tests are the shifts and masks of the header word |
| Maple.ReceiveField | shims/src/main.c:718 | the receive address is the word masked with 0x1fffffe0 |
| Maple.FrameFields | shims/src/main.c:724-728 | the board is addressed exactly when the two low bytes of the frame header are 0x86 and 0x20 |
| Maple.InRamExactly | shims/src/main.c:708 | the wrapping comparison accepts exactly the 32 MB window |
| Maple.Shim.constructor | shims/src/main.c:63 | as loaded, with a zeroed mirror: latch 0xff, pads idle, nothing triggered, the given memory |
| Maple.Shim.PollPads | shims/src/main.c:176-190 | no pad word with the reset combination is ever kept; it reboots exactly when one of the two words held shows it |
| Maple.Shim.MapleReply | shims/src/main.c:228-318 | the reply stored is the answer to the subcommand; an unknown one dies with code 3 and stores nothing; only a live poll that finds the reset combination reboots; a reply over memory of the shim's own is told apart |
| Maple.AnswersAre | shims/src/main.c:236-316 | which reply each subcommand gets, a receive after each command on the wire included; no other is answered |
| Maple.EchoWord | shims/src/main.c:788-793 | the reply header is the word the C builds by shifts and ors |
| Maple.LadderAre | shims/src/main.c:791-815 | each rung of the bring-up ladder, lengths and checksum included |
| Maple.PutPieces | shims/src/main.c:251-254 | a reply stored in pieces leaves, byte for byte, what the whole one stored at once leaves |
| Maple.PutThenByte | shims/src/main.c:283-285 | so does one stored whole with a byte of it then replaced |
| Maple.Shim.MieProbeReply | shims/src/main.c:786-816 | the bring-up ladder's reply, checksum echo included |
| Maple.Shim.Serve | shims/src/main.c:720-740 | one entry: the latch moves even when the receive address is rejected, memory changes only by the reply due, and the walk ends here for one of three stated reasons or goes on |
| Maple.OwnKept | shims/src/main.c:734-738 | a reply told apart as missing the shim's own memory changes none of it |
| Maple.OwnHit | shims/src/main.c:734-738 | and one told apart as hitting it overwrites some of it |
| Maple.WindowAdmitsHome | shims/src/main.c:734-738 | the window test lets a 132-byte reply go over the shim's own home |
| Maple.Shim.Walk | shims/src/main.c:708-745 | visits the entries one after another up to the first marked last or 32, each on the memory and latch its predecessor left; it is cut short only at an entry that calls for it: reset combination, unknown subcommand, or a reply over the shim's own code, data or stack |
| Maple.Shim.Steady | shims/src/main.c:401-416 | one frame: the engine runs with nothing pending, a triggered list is walked if its base is in RAM, and bit 0 is clear at return either way; a frame that does not return stopped at an entry that calls for it |
| Maple.Shim.Run | shims/src/main.c:687-770 | over any number of frames the engine never finds its transaction still pending, each frame is serviced whole with the latch the one before left, and the run ends early only at an entry that calls for it |
| Maple.ChainGrows | shims/src/main.c:709-742 | the latch chain runs unbroken from one list into the next |
| Maple.LatchIsLastWire | shims/src/main.c:728-733 | after any visit of any run the latch is what the last transmit or reset anywhere before put there, 0xff if none |
| Maple.ReceiveAnswers | shims/src/main.c:236-250 | every answered receive gets the board's reply to that last command, or the live pads |
| Maple.TrailBounds | shims/src/main.c:722-744 | visit i lies between 12 i and 1032 i bytes above the base |
| Maple.ReadsStayNear | shims/src/main.c:708-742 | every byte read lies in [base, base + 31 * 1032 + 0x28), inside RAM, with no wrap |
| Maple.WalkIsParse | shims/src/main.c:709-745 | when no receive buffer overlaps an entry, each visit reads the list as it was when triggered |
| Maple.WalkIsWholeParse | shims/src/main.c:709-745 | and the visits are all of its entries |
| Maple.ListVisited | shims/src/main.c:709-745 | a list laid out in memory, each entry a header word counting its words, a receive word and the words, is visited at the running sums of 4 * (2 + n), up to the one with bit 31 set or the thirty-second, and read as laid |
| Maple.ListAnswered | shims/src/main.c:720-742 | by their words, entries that are no command or whose buffer lies outside the window get nothing; every other gets one reply at its buffer, the board's or the ladder's; the latch moves by the words alone |
| Maple.ReplyDelivered | shims/src/main.c:734-738 | a reply byte no later reply covers stands when the walk is over |
| Maple.Untouched | shims/src/main.c:708-745 | memory no reply covers is as the engine left it |
| Maple.EachFrameAnswered | shims/src/main.c:708-745 | with buffers apart from the list, shared or not, every frame with a buffer in RAM gets exactly one reply, its due, of at most 132 bytes, 32-byte aligned |
| Maple.EachReplyDelivered | shims/src/main.c:708-745 | and where no later frame shares the buffer, the reply is in memory at the end |
| Morton.Bijection | scripts/make_gdi.py:113-118 | for every k, the or of spread(y) and spread(x) << 1 is a bijection from [0, 2^k)^2 to [0, 4^k) |
| Morton.TableIndex | scripts/make_gdi.py:113-118 | the encoder's table form, or and sum alike, is that index |
| Morton.Detwiddle | scripts/pvrview.py:22-27 | the viewer's ten-bit loop computes it |
| Morton.FormsAgree | scripts/make_gdi.py:113-118 | both forms agree for 256-wide textures |
| Pvr.FitsExactly | scripts/pvrview.py:47-49 | all n x n twiddled subscripts are in range exactly for zero, powers of two and n >= 1024 |
| Pvr.ApartExactly | scripts/pvrview.py:22-27 | pixels have positions of their own exactly up to 1024 a side |
| Pvr.SquareExactly | scripts/pvrview.py:38-52 | for all three pixel formats: which square textures decode at all, and which decode faithfully |
| Pvr.RasterAlways | scripts/pvrview.py:45-46 | a raw-rectangle texture with all its data always decodes |
| Pvr.Twiddle | scripts/make_gdi.py:112-120 | the encoder's loops put every pixel of the row-major file at its slot |
| Pvr.TwiddledUnique | scripts/make_gdi.py:112-120 | source and payload determine one another |
| Pvr.HeaderReads | scripts/pvrview.py:40-43 | a file of anything without the signature, then "PVRT", a length, format, layout, size and data, is read as exactly those |
| Pvr.HeaderMissing | scripts/pvrview.py:17-20 | without a signature, or cut off inside the header, a file is not decoded |
| Pvr.Refused | scripts/pvrview.py:38-52 | other layouts, twiddled textures that are not square, missing data and unknown formats are not decoded |
| Pvr.ColourIsShifts | scripts/pvrview.py:29-36 | the three pixel formats, in shifts and masks |
| Pvr.RasterDecodes | scripts/pvrview.py:45-46 | a raw rectangle shows its words row after row |
| Pvr.EncodedDecodes | scripts/make_gdi.py:130-139 | decoding a donor's 32-byte header, the encoder's output and anything behind it gives the source image, pixel for pixel |
| Bmp.PrintsExactly | scripts/pvrview.py:54-61 | a bitmap is printed exactly when its length fits in 32 bits |
| Bmp.TooLarge | scripts/pvrview.py:38-61 | a 65535 x 65535 raster texture decodes and is not printed |
| Bmp.Bmp2Rgb565 | scripts/bmp2rgb565.py:14-34 | the row and pixel loops compute Converted: bottom-up unless the height is negative, nothing on a short file |
| Bmp.HeadersPrinted | scripts/pvrview.py:54-61 | every header field of a printed bitmap; its two lengths are the file's |
| Bmp.FieldsOfPrinted | scripts/bmp2rgb565.py:20-23 | the parser reads back the header the printer wrote |
| Bmp.BitmapConverts | scripts/bmp2rgb565.py:20-33 | 24 or 32 bits a pixel, bottom row first or top row first, rows filled to four bytes: whatever rows a file shows are what is converted, top first |
| Bmp.HeaderIs | scripts/bmp2rgb565.py:20-23 | the fields are read off the bytes, width and height signed |
| Bmp.ConvertRefuses | scripts/bmp2rgb565.py:19-25 | another file type, compression, pixel size or image size is turned down |
| Bmp.LineInside | scripts/bmp2rgb565.py:30-33 | no pixel of a converted line lies off the end of the file |
| Bmp.PrintedConverts | scripts/bmp2rgb565.py:26-33 | parsing a printed image gives its rows, top first, packed |
| Bmp.FoldColour | scripts/bmp2rgb565.py:33 | expanding an RGB565 word and packing it again is the identity |
| Bmp.RoundTrip | scripts/pvrview.py:38-61 | decoded, printed and parsed, every pixel comes back as its own word, row-major, for every texture whose bitmap fits in 32 bits; no other is printed |
| Bmp.Retwiddled | scripts/make_gdi.py:108-120 | a 256 x 256 texture prints and parses, and twiddling the result reproduces its payload |
| Scan.Scan | scripts/test_maple_literals.py:51-64 | the find-driven scan is the set of all aligned matching words |
| Scan.MapleBytes | scripts/test_maple_literals.py:60-62 | in bytes, the mask is the searched pair and a mirror in the top byte |
| Scan.CdiMarks | scripts/make_gdi.py:196-206 | every occurrence of the magic, in order, overlaps and a truncated end included |
| Scan.MarkFound | scripts/make_gdi.py:196-206 | a mark planted in a loader with its little-endian word is among those found |
| Scan.MarkComesFrom | scripts/make_gdi.py:196-206 | and nothing is found that does not follow a mark |
| Crc.RoundIsInteger | scripts/make_gdi.py:71-72 | one round of the bit register is the masked integer shift, with 0x1021 folded in exactly when the top bit is set |
| Crc.FoldIsInteger | scripts/make_gdi.py:70 | folding a byte into the register is n ^= b << 8 |
| Crc.IpCrc16 | scripts/make_gdi.py:62-73 | the integer bit loops compute the value of the register CRC |
| Crc.CrcOfNothing | scripts/make_gdi.py:68 | the register starts at 0xffff |
| Crc.Affine | scripts/make_gdi.py:62-73 | the integers returned for three byte strings of one length combine by exclusive or as the strings do |
| Crc.FlatIsNumber | scripts/make_gdi.py:69-72 | the bits fed to the register are, in order, those of the message read as one big-endian number |
| Crc.BurstsDetected | scripts/make_gdi.py:62-73 | byte strings of one length whose numbers differ by a pattern of at most 16 bits, any number of places up, never return the same integer |
| Crc.OneByteDetected | scripts/make_gdi.py:62-73 | nor do strings that differ in one byte |
| Crc.OddErrorsDetected | scripts/make_gdi.py:62-73 | nor do strings of one length whose numbers differ in an odd number of bits |
| Crc.SelfCheck | scripts/make_gdi.py:62-73 | two bytes appended to a message bring the integer to 0 if and only if they are its CRC, high byte first |
| System.AllHooksLive | scripts/build_patch_table.py:89-107 | when RAM holds the image a disjoint generated table was applied to, every hook in it transfers control from RAM |
| System.MirrorUntriggered | loader/main.c:230-235 | a zeroed Maple mirror meets the starting condition of the service |
| System.PowerOn | loader/main.c:202-295 | any disjoint generated table on its own boot image launches, with every hook live in RAM at the jump and the mirrors zeroed where nothing dirty was in the way; the service starts from the memory found at the jump, and every frame it plays is serviced whole |

## Left out

- Trampoline.GdcCall: does not model a syscall that calls gdc_call again, nor a caller whose next stack slot lies on the private frame, the save cells, the vectors or MMUCR.
- Cart.Streamer.CartRead: does not model the read counters, the first-read mark and the activity blink.
- Cart.Streamer.Service: does not model the preload bar countdown that follows the read.
- Maple.Shim.MapleReply: stores each reply in one step, where the code stores the EEPROM's in two pieces and masks one byte of the DIP-switch reply in place; Maple.PutPieces and Maple.PutThenByte show that each of these leaves the same bytes. Does not model the EEPROM-write trace.
- Maple.Shim.Walk: promises nothing after a reply that goes over the shim's own code, data or stack; what the machine then does is not modelled.
- Maple.Shim.PollPads: decides arbitrarily when the pad cache is stale, where the code compares timer ticks.
- Maple.Shim.Steady: reads and writes memory through the uncached view only, no dirty line being written back over what a walk uses; the free-play stamp, a cached store, is a field of its own.
- Handoff.Boot: leaves out the disc reads and their NAOMI signature checks, the splash, the MMUCR store and the TA and interrupt resets before the jump.
- Patch.Generator.Hook: models the assertions as a refusal; the table's comments and its emission as C are not modelled.
- The boot-time Maple entry points, which nothing hooks any more, the configuration-time enumeration and EEPROM stubs and the monitor setup: constants with at most one branch.
- `make_cdi.py` and the track layout of the CDI build, whose cart starts at another sector; its recovery is modelled.
- The drive's, the BIOS's, the Maple devices' and the game engine's own behaviour, beyond the facts listed under "The environment".
- On-screen diagnostics, serial traces and everything compiled only into diagnostic builds.
- Header branding, the license logo, locating the art inside the track, archive extraction, log parsers and disassembler scripts: file plumbing.
- The bitwise operators of the scripts are defined on naturals; their results on negative Python integers are never needed.
