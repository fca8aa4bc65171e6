# A verified model of the SE4VM device emulation

SE4VM runs the e1000 network card of QEMU under symbolic execution. This project models the parts of
the emulator and of the harness where the arithmetic and the state are hardest to get right, and proves
what they are meant to guarantee. The model follows the code: where a property that the code suggests
does not hold, the model keeps the code's behaviour, shows an input on which the property fails, and
proves exactly when it holds.

| module | what it models | main results |
|---|---|---|
| `PhysPageMaps`, `MemoryDispatches` | the radix tree of guest pages, sub-pages and `mem_add` | `PageSet`, `Rebuild`: tree and sub-pages refine a flat map from address to section; at most 2*levels-1 nodes per range |
| `RamBlocks` | the RAM block list and its best-fit allocator | `Alloc`, `GetRamBlock`, `RunLive`, `RunOwner` |
| `KvmSlots` | the KVM slot table as an interval map | `SetRange`, `SetPhysMem`; the page trimming law `TrimIsWholePages` |
| `E1000Transmit` | TCP segmentation | `SendPacket`, `PayloadLaw`, `PacketLaw`, `FrameCount`, `SequenceNumber` |
| `E1000Filter` | the receive filter | `ReceiveFilter`, `ExactFilter`, `VlanBit`, `HashIs` |
| `E1000Receive` | the receive descriptor ring | `HasRxBufsIsRoom`, `Receive`, `ReceivedMeans`, `DeliveredBytes`, `DeliveredDescriptors` |
| `E1000Eeprom` | the bit-banged EEPROM and EERD | `Read`, `ReadBothWays` |
| `E1000Interrupts` | causes, mask and mitigation timer | `RunGood`, `RunMask`, `RunCauses`, `EdgesAreSpaced`, `Run` |
| `InternetChecksum` | checksum insertion | `PutSumLaw`, `PutSumIsChecksum` |
| `SoftTlb` | the software TLB and its large-page window | `FlushPage`, `Run` |
| `MigrationBitmap` | the dirty bitmap and the page scan | `SaveBlock`, `Complete`; the page lost at the end of the first pass |
| `MigrationStream` | the RAM migration stream | `Migrate`, `OnlyKnown`, `MismatchLaw` |
| `Migration` | scan and stream together, with the guest running | `ArrivalLaw`, `LiveMigration`: exactly which pages arrive; `PassSends`, `OneLoss` |
| `SectorIo` | byte access to a disk of sectors | `Pread`, `Pwritev`, `WriteThenRead` |
| `Multiwrite` | merging of write requests | `MergeLaw`, `UncappedLaw`, `MultiwriteMerge`, `MergedAnyOrder` |
| `DumpIndex` | file offsets of the guest memory dump | `GetOffsetRange`, `Dump` |
| `NapReset`, `NapResetLaw` | the partial reset of a device to a snapshot | `ResetIs`, `StaticReset`, `IdempotentLaw`, `NumberLost` |
| `Common`, `Bytes` | options, bounds, bytes | |

Objects that the source updates in place are classes with the source's fields. A contract ties the new
state to a specification on values, and lemmas state what the specification means. Guest memory, disks,
files and streams are sequences of bytes. Where the source aborts, a method returns an outcome that says so. Page size, table
sizes and register bits that come from headers outside the files modelled are constants with their values.

Properties that turned out not to hold as one would expect, with their exact conditions:

- `kvm_set_phys_mem` computes the distance to the next page from the size instead of the start, so whole pages survive only when start and size agree modulo the page size (`TrimIsWholePages`, `TrimDropsAlignedStart`).
- Segmentation sends an empty last frame when mss divides the payload (`FrameCount`); sequence numbers are right exactly while the 16-bit frame counter loses nothing (`SequenceNumber`).
- Segmentation writes its fields wherever the context descriptor puts them, in the payload too; frames keep the payload exactly under `PayloadLaw` (`PacketLaw`, `FlagsInPayload`, `IpOverPayload`, `SequenceAcross`).
- A checksum field at an odd distance from the start of the range is right exactly when 257 divides the sum (`PutSumLaw`, `OddDistanceFails`).
- The page on which the first pass of a migration ends is lost when it is dirtied again and no other page is dirty (`SaveBlock`, `LostPage`). Over a whole migration a page arrives exactly unless some send, or the last round, starts in that state, the page was sent with other contents before, and no later guest write makes it dirty again (`RunSettled`, `ArrivalLaw`, `LiveMigration`); it can only be the last page (`OnlyLastLost`), at most once (`OneLoss`), only at the end of the first pass (`PassOver`), and only if the guest writes to it (`NoneLost`).
- A setup section whose blocks do not match the receiver's is not rejected: the error is overwritten, and the load reads on behind the first block that does not match (`MismatchExample`, `SetupMismatch`). It is then accepted when that is the last block (`LastMismatchAccepted`), and otherwise according to byte 7 of the next block's entry (`MismatchLaw`, when that byte asks for nothing more to be read; for other bytes the law is one way only, `SetupMismatch`). With matching blocks it is accepted and writes nothing (`SetupStep`).
- Merging drops the tail of a request behind a later one that ends earlier; it keeps the meaning exactly when the last request kept at every such byte has the same value (`MergedByte`, `MergeLaw`, `UncappedLaw`, `ContainedExample`).
- A second nap reset can change the state when a stored number of elements is not itself a field (`IdempotentLaw`, `NumberLost`, `ResetNotIdempotent`).

## Model

| member | source | states |
|---|---|---|
| `PhysPageMaps.FindFrame` | harness/qemu/exec.c:212-227 | a lookup gives the same section in any two tables that agree on the nodes on the way to its page |
| `PhysPageMaps.FindPrefix` | harness/qemu/exec.c:143-150 | moving the nodes to a larger table changes no lookup |
| `PhysPageMaps.SlotWrite` | harness/qemu/exec.c:187-199 | overriding a range of pages through one slot of a node is the same override seen from the node, with every other slot untouched |
| `PhysPageMaps.AllocBound` | harness/qemu/exec.c:167-199 | a call at level l allocates between l+1 and 2l+1 nodes at most, whatever the range |
| `PhysPageMaps.CursorStep` | harness/qemu/exec.c:187-199 | only the first and the last partly covered slot of a node recurse, so that their costs stay inside the bound of the node |
| `PhysPageMaps.PhysPageMap.constructor` | harness/qemu/exec.c:1656-1674 | a new map has every page unassigned |
| `PhysPageMaps.PhysPageMap.NodeReserve` | harness/qemu/exec.c:143-150 | room for n more nodes, with all nodes and all lookups kept |
| `PhysPageMaps.PhysPageMap.NodeAlloc` | harness/qemu/exec.c:152-183 | an empty entry gets the next node, fresh for its level; no other entry changes and the tree stays without sharing |
| `PhysPageMaps.PhysPageMap.Descend` | harness/qemu/exec.c:175-186 | an absent node is allocated as a node whose pages read as before, and the tree stays without sharing; it stops exactly when a node is needed and all node numbers are in use |
| `PhysPageMaps.PhysPageMap.SetSlot` | harness/qemu/exec.c:190-197 | one entry, by a large leaf or by recursion: exactly the pages of the range under it change, the index and count advance past them; it stops only when all node numbers are in use |
| `PhysPageMaps.PhysPageMap.WriteSlot` | harness/qemu/exec.c:189-199 | one round of the loop over slots keeps the written range, the cursor and the allocation budget |
| `PhysPageMaps.PhysPageMap.WriteNode` | harness/qemu/exec.c:187-199 | the loop over the slots of a node writes exactly the part of the range under the node |
| `PhysPageMaps.PhysPageMap.SetLevel` | harness/qemu/exec.c:167-200 | phys_page_set_level overrides exactly the part of the range under its entry, keeps the tree well formed and stays inside the allocation bound; it stops only when all node numbers are in use and the bound does not fit |
| `PhysPageMaps.PhysPageMap.PageSet` | harness/qemu/exec.c:202-210 | phys_page_set is an override of the flat map from page to section, for every unassigned range; it allocates at most 2*levels-1 nodes, so the reserve of 3*levels suffices and the table does not move; it stops only when all node numbers are in use |
| `PhysPageMaps.PhysPageMap.PageFind` | harness/qemu/exec.c:212-227 | the loop of phys_page_find computes the section of the flat map |
| `MemoryDispatches.SubpageRegister` | harness/qemu/exec.c:1587-1605 | exactly the entries start..end get the section, none when start is behind end; out-of-range bounds are refused with the table unchanged |
| `MemoryDispatches.Dispatch.constructor` | harness/qemu/exec.c:1656-1674 | after mem_begin every address is unassigned |
| `MemoryDispatches.Dispatch.LookupRegion` | harness/qemu/exec.c:235-248 | lookup with and without resolving sub-pages agrees with the flat lookup |
| `MemoryDispatches.Dispatch.LookupInside` | harness/qemu/exec.c:235-248 | every assigned address is inside the piece it is looked up to |
| `MemoryDispatches.Dispatch.SectionAdd` | harness/qemu/exec.c:769-786 | a section is added under the next number and no lookup changes; it stops exactly when all section numbers are in use |
| `MemoryDispatches.Dispatch.CreateSubpage` | harness/qemu/exec.c:812-831 | an unassigned page gets a sub-page table of unassigned entries, no lookup changes; it stops only with all section or node numbers in use |
| `MemoryDispatches.Dispatch.FillSubpage` | harness/qemu/exec.c:832-836 | exactly the addresses of the piece are looked up to it |
| `MemoryDispatches.Dispatch.RegisterSubpage` | harness/qemu/exec.c:809-836 | exactly the addresses of a piece inside one page are looked up to it; it stops only with all section or node numbers in use |
| `MemoryDispatches.Dispatch.RegisterMultipage` | harness/qemu/exec.c:839-849 | exactly the addresses of a piece of whole pages are looked up to it; it stops only with all section or node numbers in use |
| `MemoryDispatches.Dispatch.RegisterHead` | harness/qemu/exec.c:858-866 | the part before the first page boundary is registered; what remains starts at a page boundary; it stops only with all section or node numbers in use |
| `MemoryDispatches.Dispatch.RegisterNext` | harness/qemu/exec.c:868-880 | the next piece of what remains is registered and moves the cut to its end; it stops only with all section or node numbers in use |
| `MemoryDispatches.Dispatch.RegisterRest` | harness/qemu/exec.c:867-881 | the loop of mem_add terminates with the whole section registered; it stops only with all section or node numbers in use |
| `MemoryDispatches.Dispatch.MemAdd` | harness/qemu/exec.c:851-882 | mem_add: the pieces tile the section, each with the translation of the section, and no other address changes; it stops only where the source aborts, with all section numbers or all node numbers in use |
| `MemoryDispatches.PlacedStep` | harness/qemu/exec.c:867-881 | a piece registered at the cut extends what is registered, with the translation of the section |
| `MemoryDispatches.FlatMapSome` | harness/qemu/exec.c:235-248 | on disjoint sections the flat map gives the translation of the one section that contains the address |
| `MemoryDispatches.FlatMapNone` | harness/qemu/exec.c:235-248 | the flat map is undefined exactly outside all sections |
| `MemoryDispatches.FlatStep` | harness/qemu/exec.c:851-882 | one mem_add turns the flat map of k sections into that of k+1 |
| `MemoryDispatches.Rebuild` | harness/qemu/exec.c:851-882 | after mem_begin and mem_add of any pairwise disjoint sections, every address translates as in the flat map, and is unassigned exactly outside all sections - unless the run stopped where the source aborts, with all section or node numbers in use |
| `RamBlocks.GapIsFree` | harness/qemu/exec.c:1024-1032 | no block starts inside the gap found after a block end |
| `RamBlocks.FitsGap` | harness/qemu/exec.c:1024-1036 | a block placed in a gap that fits is apart from every block |
| `RamBlocks.InsertGood` | harness/qemu/exec.c:1168-1178 | inserting before the first shorter block keeps the list disjoint and sorted by decreasing length |
| `RamBlocks.RemoveGood` | harness/qemu/exec.c:1223-1252 | removing a block keeps the list disjoint and sorted |
| `RamBlocks.RemoveMembers` | harness/qemu/exec.c:1223-1252 | exactly the block that starts at the address goes |
| `RamBlocks.OwnerIs` | harness/qemu/exec.c:649-670 | in a disjoint list a block that has the address is its owner |
| `RamBlocks.OwnerNone` | harness/qemu/exec.c:649-670 | an address has no owner exactly when no block has it |
| `RamBlocks.WrappedHasIs` | harness/qemu/exec.c:653-660 | the unsigned comparison with wrap-around is containment |
| `RamBlocks.AlignLaw` | harness/qemu/exec.c:1125-1125 | the aligned size is the least whole number of pages that holds the size, and zero exactly for size zero or when the 64-bit sum wraps |
| `RamBlocks.RoundedUnique` | harness/qemu/exec.c:1125-1125 | there is one rounded size |
| `RamBlocks.RamList.NextBlock` | harness/qemu/exec.c:1024-1032 | the inner loop finds where the gap that starts at a block end stops |
| `RamBlocks.RamList.FindRamOffset` | harness/qemu/exec.c:1013-1046 | the smallest fitting gap that follows a block; none exactly when no gap fits |
| `RamBlocks.RamList.Alloc` | harness/qemu/exec.c:1120-1198 | the new block is as long as the size rounded up to whole pages, takes the best gap and stands in front of the first shorter block, the list stays disjoint and sorted, the block used last is forgotten; it stops exactly when the size is zero, wraps in 64 bits when rounded, or no gap fits |
| `RamBlocks.RamList.Free` | harness/qemu/exec.c:1223-1252 | exactly the block that starts at the address is dropped; without one nothing changes |
| `RamBlocks.RamList.GetRamBlock` | harness/qemu/exec.c:649-670 | the unique owner of the address, whatever block was used last |
| `RamBlocks.RamList.Step` | harness/qemu/exec.c:1120-1252 | each operation takes its step, or stops exactly where the source aborts |
| `RamBlocks.NextGood` | harness/qemu/exec.c:1120-1252 | every step keeps the list disjoint and sorted and the block used last in it |
| `RamBlocks.RunGood` | harness/qemu/exec.c:1120-1252 | so in every state of every run |
| `RamBlocks.NextMembers` | harness/qemu/exec.c:1120-1252 | an allocation adds one block of its size rounded up to whole pages, a free takes out the one that starts at its address, and nothing else changes the members |
| `RamBlocks.RunLive` | harness/qemu/exec.c:1120-1252 | at every point of every run the list holds exactly the blocks allocated before, each of the rounded size asked for, and not freed since |
| `RamBlocks.RunOwner` | harness/qemu/exec.c:649-670 | at every point of every run the owner of an address is the one such block that has it |
| `RamBlocks.Run` | harness/qemu/exec.c:1120-1252 | the states of any run of allocations, frees and lookups form a run, up to where the source aborts |
| `KvmSlots.HostIs` | harness/qemu/kvm-all.c:159-181 | in a disjoint table the slot that contains an address decides its host address |
| `KvmSlots.HostNone` | harness/qemu/kvm-all.c:159-181 | an address has no host memory exactly when no slot contains it |
| `KvmSlots.HostMeans` | harness/qemu/kvm-all.c:159-181 | an address maps to a host address if and only if a slot contains it and both are at the same distance from the starts of the slot |
| `KvmSlots.HostUpdate` | harness/qemu/kvm-all.c:630-788 | replacing a slot changes the map only on the addresses of the old and the new slot |
| `KvmSlots.OnlyOverlap` | harness/qemu/kvm-all.c:728-766 | a slot that reaches out of the range on both sides is the only one that overlaps it |
| `KvmSlots.TrimIsWholePages` | harness/qemu/kvm-all.c:644-655 | the trimmed range is the whole pages of the section exactly when start and size agree modulo the page size or there is no whole page |
| `KvmSlots.WholePagesAre` | harness/qemu/kvm-all.c:644-655 | the whole pages of a range are exactly the pages that lie in it from their first byte to their last |
| `KvmSlots.TrimDropsAlignedStart` | harness/qemu/kvm-all.c:644-655 | a page-aligned section of one page and a half loses its whole page |
| `KvmSlots.KvmState.AllocSlot` | harness/qemu/kvm-all.c:124-136 | the first free slot; none exactly when every slot is in use |
| `KvmSlots.KvmState.LookupOverlapping` | harness/qemu/kvm-all.c:159-181 | an overlapping slot with the lowest start; none exactly when no slot overlaps |
| `KvmSlots.KvmState.Register` | harness/qemu/kvm-all.c:776-787 | a new slot adds exactly its addresses to the map; refused exactly when every slot is in use |
| `KvmSlots.KvmState.RemoveOverlap` | harness/qemu/kvm-all.c:684-766 | one round: exactly the addresses of the slot inside the range leave the map, one slot fewer overlaps, and the number of slots grows only when nothing overlaps any more; it stops exactly when the slot must be split and the table is full |
| `KvmSlots.KvmState.SetRange` | harness/qemu/kvm-all.c:669-788 | the loop terminates; the map is overridden (add) or erased (delete) exactly on the range, slots stay disjoint, at most two more are live; it stops only with the table full, never with two free slots |
| `KvmSlots.KvmState.SetPhysMem` | harness/qemu/kvm-all.c:630-788 | by the attributes of the section: RAM is mapped or erased as asked on its trimmed range, read-only memory is mapped only in ROM mode and erased otherwise, and anything else, or a range without a page, changes nothing |
| `E1000Transmit.PatchIp` | harness/e1000/e1000.c:588-596 | length and identification fields get the frame length and the counted identification, all other bytes stay |
| `E1000Transmit.PatchTransport` | harness/e1000/e1000.c:597-606 | sequence number and flags, bit by bit, or the UDP length are set, all other bytes stay |
| `E1000Transmit.ClearPshFin` | harness/e1000/e1000.c:603-604 | bits 0 and 3 become zero and the other six stay |
| `E1000Transmit.PatchedIsFrame` | harness/e1000/e1000.c:581-634 | with all patched fields in the header, the patched buffer is the header with the fields of frame k, followed by the payload unchanged |
| `E1000Transmit.CutAppend` | harness/e1000/e1000.c:697-703 | appending bytes and saving a header that became complete keeps the relation between packet, pieces and buffer |
| `E1000Transmit.CutFlush` | harness/e1000/e1000.c:705-709 | a full buffer becomes the next piece and frame, and the buffer starts over with the saved header |
| `E1000Transmit.CutEnd` | harness/e1000/e1000.c:722-724 | what is left becomes the last piece and frame: the packet is cut up completely |
| `E1000Transmit.Transmitter.XmitIp` | harness/e1000/e1000.c:588-596 | the IP part in place |
| `E1000Transmit.Transmitter.XmitTransport` | harness/e1000/e1000.c:597-606 | the TCP or UDP part in place |
| `E1000Transmit.Transmitter.XmitSeg` | harness/e1000/e1000.c:581-634 | the buffer is patched, one frame goes out and the 16-bit frame counter advances |
| `E1000Transmit.Transmitter.Append` | harness/e1000/e1000.c:697-703 | bytes are appended and the header is saved when it becomes complete |
| `E1000Transmit.Transmitter.SendFrame` | harness/e1000/e1000.c:705-706 | the frame sent is what xmit_seg makes of the buffer, under the number of the frame in its packet |
| `E1000Transmit.Transmitter.Flush` | harness/e1000/e1000.c:705-709 | a full frame is sent and the next one starts with the saved header |
| `E1000Transmit.Transmitter.Take` | harness/e1000/e1000.c:693-709 | one round of the loop consumes exactly its bytes |
| `E1000Transmit.Transmitter.Segment` | harness/e1000/e1000.c:691-710 | the loop terminates and consumes exactly the descriptor |
| `E1000Transmit.Transmitter.EndOfPacket` | harness/e1000/e1000.c:720-730 | the rest of the packet is sent and the state is ready for the next packet |
| `E1000Transmit.Transmitter.ProcessData` | harness/e1000/e1000.c:637-730 | a data descriptor continues or completes the segmentation of its packet |
| `E1000Transmit.Transmitter.SendPacket` | harness/e1000/e1000.c:637-730 | for any split of a packet over descriptors the pieces are the header followed by the next mss bytes of the payload, together exactly the payload in order, and each frame is what xmit_seg makes of its piece; for any position of the patched fields |
| `E1000Transmit.Transmitter.SetContext` | harness/e1000/e1000.c:649-668 | a context descriptor starts a packet of which nothing is there yet |
| `E1000Transmit.MadeIsFrame` | harness/e1000/e1000.c:581-634 | with all patched fields in the header, a frame is the header with the fields of its number and the payload as it was |
| `E1000Transmit.PayloadLaw` | harness/e1000/e1000.c:581-634 | wherever the fields lie, also across the end of the header or of the frame: frame k keeps its payload if and only if PSH and FIN are not cleared in it (flags byte outside, at most mss bytes remain, or clear already), every payload byte of a length field holds the length, and no payload byte of the identification or the sequence number is changed by the count or by count*mss added, digit by digit |
| `E1000Transmit.FrameSame` | harness/e1000/e1000.c:581-634 | the payload of a frame is that of its piece exactly if the part in it of each kind of field is |
| `E1000Transmit.IpKept` | harness/e1000/e1000.c:588-596 | the IP part changes no payload byte exactly when those of the length hold the length and counting changes none of the identification |
| `E1000Transmit.TransportKept` | harness/e1000/e1000.c:597-606 | the transport part changes no payload byte exactly when adding count*mss changes no such digit of the sequence number, or the bytes of the UDP length are right already |
| `E1000Transmit.DigitLaw` | harness/e1000/e1000.c:597-602 | adding m leaves a digit to the base 256 alone exactly when what it carries into that digit is a multiple of 256 |
| `E1000Transmit.PacketLaw` | harness/e1000/e1000.c:581-730 | the payloads of the frames concatenate to the payload of the packet if and only if every frame keeps its payload in that sense |
| `E1000Transmit.Buffers` | harness/e1000/e1000.c:581-634 | every segmentation has the buffers its frames were made from |
| `E1000Transmit.PacketCarried` | harness/e1000/e1000.c:581-730 | with all patched fields in the header, the payloads concatenate to the payload of the packet and every frame has the header of its number |
| `E1000Transmit.FlagsInPayload` | harness/e1000/e1000.c:603-604 | a header that ends behind the sequence field: the first frame does not carry its payload |
| `E1000Transmit.IpOverPayload` | harness/e1000/e1000.c:588-596 | an IP header behind a header of fourteen bytes: the second frame never carries its payload |
| `E1000Transmit.SequenceAcross` | harness/e1000/e1000.c:597-602 | a header that ends in the middle of the sequence number: the second frame keeps its payload if and only if 65536 divides mss |
| `E1000Transmit.FrameCount` | harness/e1000/e1000.c:691-730 | a packet becomes payload/mss+1 frames, all with mss bytes of payload but the last, which has payload mod mss: an empty one when mss divides the payload |
| `E1000Transmit.SequenceNumber` | harness/e1000/e1000.c:600-602 | frame k has sequence number base+k*mss modulo 2^32 if and only if the 16-bit frame counter lost nothing; always for the first 65536 frames |
| `E1000Transmit.PushOnLast` | harness/e1000/e1000.c:603-604 | frame k has the flags of the packet bit by bit, with PSH and FIN cleared exactly when more than (k+1)*mss bytes of payload follow: on all but the last frame with payload and an empty frame after it |
| `E1000Receive.OverwriteIs` | harness/e1000/e1000.c:959-962 | writing over a buffer list writes over the bytes it stands for |
| `E1000Receive.StripIs` | harness/e1000/e1000.c:955-970 | moving the addresses over the tag and skipping four bytes takes out the tag |
| `E1000Receive.RestIsFlatten` | harness/e1000/e1000.c:996-1006 | reading on from the start of a buffer reads the rest of the list |
| `E1000Receive.Pad` | harness/e1000/e1000.c:929-941 | short frames are padded with zeros to 60 bytes, others stay |
| `E1000Receive.ContentIs` | harness/e1000/e1000.c:929-970 | what is delivered is the frame with zeros up to 60 bytes, without bytes 12 to 15 and with the tag in them reported exactly when VLAN is on and the type matches |
| `E1000Receive.UntaggedCarried` | harness/e1000/e1000.c:929-970 | without a tag that is the frame and nothing but zeros behind it |
| `E1000Receive.Strip` | harness/e1000/e1000.c:955-970 | what is left to read is the frame without its tag, and the tag is reported |
| `E1000Receive.Skip` | harness/e1000/e1000.c:963-966 | reading starts after the skipped bytes |
| `E1000Receive.HasRxBufsIsRoom` | harness/e1000/e1000.c:866-882 | e1000_has_rxbufs accepts a frame if and only if ceil(total/buffer) descriptors are available |
| `E1000Receive.PlanIsFrame` | harness/e1000/e1000.c:979-1031 | the parts hold exactly the frame and their lengths add up to frame and FCS |
| `E1000Receive.PlanCount` | harness/e1000/e1000.c:979-1031 | there are ceil(total/buffer) parts, all full but the last |
| `E1000Receive.SentBytes` | harness/e1000/e1000.c:989-1007 | the bytes written by the first descriptors, followed by the parts left, are the frame, whatever descriptors are passed over |
| `E1000Receive.Receiver.CopyOut` | harness/e1000/e1000.c:996-1006 | the inner loop reads exactly the next n bytes, across buffers |
| `E1000Receive.Receiver.StoreDesc` | harness/e1000/e1000.c:980-1023 | a descriptor with a buffer gets its bytes, length, DD and, on the last, EOP; one without is marked done and passed over |
| `E1000Receive.NeededIs` | harness/e1000/e1000.c:979-1031 | the number of descriptors it takes to find as many with a buffer as there are parts |
| `E1000Receive.TrackStep` | harness/e1000/e1000.c:988-1016 | a descriptor with a buffer takes the next part of the plan |
| `E1000Receive.TrackSkip` | harness/e1000/e1000.c:1017-1019 | one without is passed over |
| `E1000Receive.Receiver.Store` | harness/e1000/e1000.c:979-1031 | the loop takes descriptors from head on until those with a buffer hold the plan, and reports overrun exactly when that takes the whole ring; every descriptor it took is as the plan says and all others are untouched |
| `E1000Receive.Receiver.DeliverFrame` | harness/e1000/e1000.c:955-1031 | no room: nothing changes and overrun is reported; otherwise the frame is stored, or as much of it as a ring with null descriptors takes |
| `E1000Receive.Receiver.Receive` | harness/e1000/e1000.c:902-1054 | e1000_receive_iov: refusal, discard by size or by the receive filter, overrun and delivery, each with its exact condition, for any ring; of a frame received, from its bytes alone, what is written to memory and what every descriptor says: done, the tag, the end of the packet, and lengths that add up to frame and FCS |
| `E1000Filter.ReceiveFilter` | harness/e1000/e1000.c:797-848 | a frame passes if and only if its VLAN does and it is promiscuous, a multicast or broadcast that is let in, for one of the stations, or hashed into the multicast table |
| `E1000Filter.StationNames` | harness/e1000/e1000.c:821-832 | the two registers a driver writes for an address name that address and no other |
| `E1000Filter.VlanBit` | harness/e1000/e1000.c:804-811 | which bit of the VLAN table a tagged frame tests, from bytes 14 and 15 |
| `E1000Filter.HashIs` | harness/e1000/e1000.c:837-838 | which twelve bits of the last two address bytes the hash is, for each of the four offsets |
| `E1000Filter.HashBit` | harness/e1000/e1000.c:839-840 | the bit of the multicast table tested for a hash |
| `E1000Filter.ExactFilter` | harness/e1000/e1000.c:797-848 | with only station addresses set, exactly the frames for those addresses pass, whatever they are |
| `E1000Receive.DeliveredBytes` | harness/e1000/e1000.c:979-1031 | the bytes written for a received frame concatenate to the frame, whatever descriptors were passed over |
| `E1000Receive.DeliveredDescriptors` | harness/e1000/e1000.c:979-1031 | without null descriptors and with room, the frame is received: exactly ceil(total/buffer) descriptors from head on are used, EOP is set on the last only, lengths sum to the total, and the tail descriptor is untouched |
| `E1000Receive.DeliveredReports` | harness/e1000/e1000.c:979-1031 | every descriptor taken is done and has the tag, of those with a buffer the last alone ends the packet, their lengths add up to the total, and all others are untouched |
| `E1000Receive.ReceivedMeans` | harness/e1000/e1000.c:929-1031 | so for every received frame: the bytes written are the padded frame without its tag, and the descriptors report them with four bytes of FCS exactly when it is not stripped |
| `E1000Eeprom.Eeprom.SetEecd` | harness/e1000/e1000.c:474-505 | what every combination of chip select and clock edges does to shift register, bit counters and read mode |
| `E1000Eeprom.Eeprom.ClockIn` | harness/e1000/e1000.c:474-505 | one bit in; the ninth sets the output position to the address, with the wrap at address 0 undone by the falling edge |
| `E1000Eeprom.Eeprom.ClockOut` | harness/e1000/e1000.c:460-505 | one bit out: the bit of the word at the output position, most significant first |
| `E1000Eeprom.Eeprom.SendCommand` | harness/e1000/e1000.c:474-505 | nine bits in leave the device reading exactly for the read opcode, at the address |
| `E1000Eeprom.Eeprom.ReadWord` | harness/e1000/e1000.c:460-505 | sixteen clocks read one word and stand before the next |
| `E1000Eeprom.Eeprom.Read` | harness/e1000/e1000.c:460-505 | the whole protocol reads any number of consecutive words from any address, wrapping at the end |
| `E1000Eeprom.Eeprom.ReadBothWays` | harness/e1000/e1000.c:460-520 | the word read bit by bit is the word flash_eerd_read returns for the address |
| `E1000Eeprom.EerdData` | harness/e1000/e1000.c:508-520 | the data field of EERD is the word and the done bit is set |
| `E1000Eeprom.Position` | harness/e1000/e1000.c:460-471 | the word and bit a position of the bit stream stands for, across the 16-bit wrap |
| `E1000Interrupts.Delay` | harness/e1000/e1000.c:311-319 | the delay is the smallest of the nonzero delays that apply, zero exactly when none does |
| `E1000Interrupts.NextGood` | harness/e1000/e1000.c:269-350 | every operation keeps: ICS equals ICR, and the line is the pending causes except while the timer runs with the line low |
| `E1000Interrupts.RunGood` | harness/e1000/e1000.c:269-350 | the same in every state of every run |
| `E1000Interrupts.RunMask` | harness/e1000/e1000.c:1153-1164 | at every point of every run the mask holds exactly the bits written to IMS and not written to IMC, nor reset, since |
| `E1000Interrupts.RunCauses` | harness/e1000/e1000.c:1073-1151 | at every point of every run the causes are exactly those set by ICS and not cleared by a write or read of ICR, nor reset, since |
| `E1000Interrupts.TimerStep` | harness/e1000/e1000.c:292-331 | only an expiry or a reset stops the timer, only then can the line rise while it runs, and a rise with mitigation on and ITR nonzero starts it |
| `E1000Interrupts.TimerRuns` | harness/e1000/e1000.c:302-342 | a started timer runs until it expires or the device is reset |
| `E1000Interrupts.ArmedEdges` | harness/e1000/e1000.c:269-342 | after an edge that started the timer the next edge needs an expiry or a reset |
| `E1000Interrupts.EdgesAreSpaced` | harness/e1000/e1000.c:269-342 | with mitigation on, a rising edge at a nonzero ITR and any later one have a timer expiry or a reset between them, in every run |
| `E1000Interrupts.NoMitigation` | harness/e1000/e1000.c:305-331 | without mitigation the timer never runs and the line is always the pending causes |
| `E1000Interrupts.Interrupts.constructor` | harness/e1000/e1000.c:375-405 | power-on state |
| `E1000Interrupts.Interrupts.SetInterruptCause` | harness/e1000/e1000.c:269-332 | when the line rises, falls or is held back by the running timer, when the timer starts, and that nothing else changes |
| `E1000Interrupts.Interrupts.SetIcs` | harness/e1000/e1000.c:345-350 | causes are added |
| `E1000Interrupts.Interrupts.MitTimer` | harness/e1000/e1000.c:335-342 | after the timer the line is exactly the pending causes |
| `E1000Interrupts.Interrupts.DoReset` | harness/e1000/e1000.c:375-405 | reset leaves the power-on state: timer stopped, line low, causes, mask and delays cleared |
| `E1000Interrupts.Interrupts.Step` | harness/e1000/e1000.c:1073-1164 | every register access, timer expiry and reset takes the step it stands for, and no other; a read returns the causes it clears |
| `E1000Interrupts.Run` | harness/e1000/e1000.c:269-350 | the states of any run of operations from power-on form a run, to which the lemmas on runs apply |
| `InternetChecksum.Fold` | harness/e1000/klee_external_function_calls.c:596-601 | folding keeps the value modulo 2^16-1 and is zero only for zero |
| `InternetChecksum.FoldIsOnes` | harness/e1000/klee_external_function_calls.c:596-601 | a folded sum is all ones exactly for positive multiples of 2^16-1 |
| `InternetChecksum.ChecksumAdd` | harness/e1000/klee_external_function_calls.c:549-562 | the 32-bit accumulator never overflows: it is the weighted sum of the bytes |
| `InternetChecksum.ChecksumFinish` | harness/e1000/klee_external_function_calls.c:596-601 | the folding loop terminates with the complement of the folded sum |
| `InternetChecksum.SumPut16` | harness/e1000/e1000.c:523-533 | storing the field changes the sum by the field at its weight |
| `InternetChecksum.CoveredTo` | harness/e1000/e1000.c:523-533 | the range ends behind byte cse, when that is not zero and inside the packet, and with the packet otherwise |
| `InternetChecksum.PutSum` | harness/e1000/e1000.c:523-533 | the field alone changes, to the checksum of the covered range, when it lies inside the packet |
| `InternetChecksum.EvenCarry` | harness/e1000/e1000.c:523-533 | at an even distance sum and complement make a multiple of 2^16-1 |
| `InternetChecksum.OddCarry` | harness/e1000/e1000.c:523-533 | at an odd distance they do exactly when 257 divides the sum |
| `InternetChecksum.ChecksumLaw` | harness/e1000/e1000.c:523-533 | re-summing gives all ones if and only if the distance is even or 257 divides the old sum |
| `InternetChecksum.PutSumLaw` | harness/e1000/e1000.c:523-533 | the same for putsum on a packet, over exactly the bytes from css on that cse does not exclude |
| `InternetChecksum.OddDistanceFails` | harness/e1000/e1000.c:523-533 | the packet 0 0 0 1 with its field at byte 1: after putsum the range does not re-sum to all ones |
| `InternetChecksum.PutSumIsChecksum` | harness/e1000/e1000.c:523-533 | a zero field at an even distance: the covered range re-sums to all ones and no other byte changes |
| `SoftTlb.SameBlock` | harness/qemu/cputlb.c:99-106 | masked addresses are equal exactly for addresses of one aligned block |
| `SoftTlb.ShrIs` | harness/qemu/cputlb.c:99-106 | shifting right divides by a power of two |
| `SoftTlb.AlignIs` | harness/qemu/cputlb.c:99-106 | masking rounds down to a multiple of it |
| `SoftTlb.PageOf` | harness/qemu/cputlb.c:245-310 | the page number and the place of the invalid bit of an address, by division |
| `SoftTlb.Tlb.constructor` | harness/qemu/cputlb.c:55-80 | an empty TLB |
| `SoftTlb.Tlb.Flush` | harness/qemu/cputlb.c:55-80 | no entry is live, the window is closed, the record of what was set is kept |
| `SoftTlb.Tlb.FlushEntries` | harness/qemu/cputlb.c:82-92 | exactly the matching entries of the page are cleared, in every mode |
| `SoftTlb.Tlb.WindowMiss` | harness/qemu/cputlb.c:99-106 | an address outside the window is in no large page |
| `SoftTlb.Tlb.NotHeld` | harness/qemu/cputlb.c:94-124 | an entry that does not match the page does not come from a page that holds the address |
| `SoftTlb.Tlb.FlushPage` | harness/qemu/cputlb.c:94-124 | no entry made from a page or large page that holds the address remains; outside the window all other entries stay; the record of what was set is kept |
| `SoftTlb.Tlb.AddLargePage` | harness/qemu/cputlb.c:215-234 | the widening loop terminates with the smallest aligned window that holds the new page and the old window, so all earlier pages |
| `SoftTlb.Tlb.SetPage` | harness/qemu/cputlb.c:239-310 | exactly one entry is placed, at the page number modulo the table size; each of its three fields holds the page and its own flags exactly when its protection is given, and can hit exactly when the invalid bit is clear; the page is on record |
| `SoftTlb.Step` | harness/qemu/cputlb.c:55-310 | one operation keeps: every entry that can hit is that of the last operation on its place, its page was not flushed since, and the window holds every large page set since everything was flushed |
| `SoftTlb.Run` | harness/qemu/cputlb.c:55-310 | in any run of set, flush and flush-page, whatever entry can hit was set by the last operation on its place, and its page, small or large, holds no address flushed since; the window holds every large page set since everything was flushed |
| `MigrationBitmap.DirtyAfter` | harness/qemu/arch_init.c:339-360 | clearing a bit cleans that page and no other |
| `MigrationBitmap.NothingAhead` | harness/qemu/arch_init.c:339-360 | when only the page at the cursor is dirty in the first pass, the cursor is on the last page |
| `MigrationBitmap.Scan.constructor` | harness/qemu/arch_init.c:609-658 | all pages dirty, counter equal to the number of bits, first pass |
| `MigrationBitmap.Scan.SetDirty` | harness/qemu/arch_init.c:362-374 | one bit is set, the counter stays the number of set bits |
| `MigrationBitmap.Scan.FindNextBit` | harness/qemu/arch_init.c:352-352 | the first set bit in the range, or its end |
| `MigrationBitmap.Scan.FindAndReset` | harness/qemu/arch_init.c:339-360 | the first dirty page from start on (the page after start in the first pass) is cleared and the counter follows |
| `MigrationBitmap.Scan.Search` | harness/qemu/arch_init.c:460-530 | the round-robin loop terminates; when it finds nothing every page was looked at |
| `MigrationBitmap.ScanNext` | harness/qemu/arch_init.c:470-477 | leaving a block without a dirty page for the next one, or for the first in the last round, keeps what the search knows |
| `MigrationBitmap.ScanFound` | harness/qemu/arch_init.c:463-478 | the page found is dirty; in the first pass it is the one after the cursor |
| `MigrationBitmap.ScanEnd` | harness/qemu/arch_init.c:466-469 | back at the cursor every page was looked at |
| `MigrationBitmap.ScanPass` | harness/qemu/arch_init.c:470-477 | the first pass is over exactly when no page is next in it |
| `MigrationBitmap.SweptSoonest` | harness/qemu/arch_init.c:463-478 | a page found with nothing dirty on the way to it is the first dirty one in the order of the scan |
| `MigrationBitmap.SoonestUnique` | harness/qemu/arch_init.c:463-478 | which determines it |
| `MigrationBitmap.TookPage` | harness/qemu/arch_init.c:451-533 | a page is found only if one is dirty and the cursor's is not the only one; the pages after the new cursor are still dirty in the first pass |
| `MigrationBitmap.TookNothing` | harness/qemu/arch_init.c:451-533 | nothing is found only if no page is dirty or just the last one, under the cursor at the end of the first pass; then none is left dirty |
| `MigrationBitmap.Scan.SaveBlock` | harness/qemu/arch_init.c:451-533 | returns nothing if and only if every page is clean or the only dirty page is the one the first pass ended on; otherwise takes the first dirty page in the order of the scan and clears exactly its bit; the first pass goes on exactly as long as there is a next page in it, and does not come back; the cursor in all cases |
| `MigrationBitmap.Scan.Complete` | harness/qemu/arch_init.c:729-757 | the last round sends every dirty page exactly once, if and only if it does not start in the state that loses a page |
| `MigrationBitmap.LostPage` | harness/qemu/arch_init.c:451-533 | a run that loses a page: two pages, the first pass ends on the second, which is dirtied again |
| `MigrationStream.Get64At` | harness/qemu/arch_init.c:255-270 | a word put big-endian is read back |
| `MigrationStream.FlagBits` | harness/qemu/arch_init.c:255-270 | offset and flags of a header word do not disturb each other |
| `MigrationStream.WireFormat` | harness/qemu/arch_init.c:255-270 | the bytes of a page on the wire: a big-endian word of offset and flags, length and name exactly for a new block, then one zero byte or the contents |
| `MigrationStream.NameAt` | harness/qemu/arch_init.c:815-843 | the receiver finds the sender's block when both remember the same block |
| `MigrationStream.RoundIs` | harness/qemu/arch_init.c:913-932 | one round writes the page the header announces |
| `MigrationStream.PageStep` | harness/qemu/arch_init.c:481-526 | a page is loaded as it was sent, and both sides remember its block |
| `MigrationStream.UnknownFails` | harness/qemu/arch_init.c:815-843 | a page of a block the receiver does not have is not written and fails the load |
| `MigrationStream.NoBlockFails` | harness/qemu/arch_init.c:822-829 | so does one that continues a block when there is none |
| `MigrationStream.OnlyKnown` | harness/qemu/arch_init.c:856-961 | whatever the stream holds, a load writes only whole pages of the receiver's own blocks, after those written before |
| `MigrationStream.PagesStep` | harness/qemu/arch_init.c:481-526 | any interleaving of pages of any blocks is loaded as it was sent |
| `MigrationStream.EosStep` | harness/qemu/arch_init.c:947-949 | the end mark ends the section |
| `MigrationStream.SectionStep` | harness/qemu/arch_init.c:660-727 | a section is loaded as it was sent |
| `MigrationStream.BlocksStep` | harness/qemu/arch_init.c:880-912 | the block list is accepted by a machine with the same blocks |
| `MigrationStream.SetupStep` | harness/qemu/arch_init.c:642-655 | the setup section is accepted and writes nothing |
| `MigrationStream.BlocksStop` | harness/qemu/arch_init.c:880-912 | reading the block list stops behind the first block that does not match |
| `MigrationStream.SetupMismatch` | harness/qemu/arch_init.c:874-956 | a block that is unknown or of another length does not fail the load: it reads on behind that block, because the error is overwritten by that of the file |
| `MigrationStream.LastMismatchAccepted` | harness/qemu/arch_init.c:874-956 | when the last block is the one that does not match, the setup section is accepted |
| `MigrationStream.MismatchExample` | harness/qemu/arch_init.c:874-956 | a receiver with a block "a" accepts the setup section of a sender with a block "b" |
| `MigrationStream.DecidedRound` | harness/qemu/arch_init.c:868-954 | a header whose flags ask for nothing to be read is accepted exactly when it is an end mark |
| `MigrationStream.MismatchLaw` | harness/qemu/arch_init.c:874-956 | when the first mismatch is before the last block, byte 7 of the next block's entry (byte 6 of its name, or a byte of its length when the name is shorter) is read as flags: if it asks for nothing to be read, the load is accepted if and only if it is an end mark |
| `MigrationStream.Sender.PutName` | harness/qemu/arch_init.c:263-268 | the name is sent exactly for a new block |
| `MigrationStream.Sender.PutBlocks` | harness/qemu/arch_init.c:644-648 | name and length of every block |
| `MigrationStream.Sender.Setup` | harness/qemu/arch_init.c:636-655 | the setup section, and no block is remembered |
| `MigrationStream.Sender.SavePage` | harness/qemu/arch_init.c:481-526 | exactly the encoded page is added, and its block is remembered |
| `MigrationStream.Sender.SaveSection` | harness/qemu/arch_init.c:660-757 | exactly the encoded section is added |
| `MigrationStream.Receiver.RamLoad` | harness/qemu/arch_init.c:856-961 | the loop terminates; accepted or not, position, remembered block and page writes are those of the specification; another version changes nothing |
| `MigrationStream.Migrate` | harness/qemu/arch_init.c:609-961 | setup and any rounds of any pages: every section is accepted, and the receiver performs exactly the sender's page writes in order |
| `Migration.Source.constructor` | harness/qemu/arch_init.c:609-655 | all pages are dirty, none is sent and the first pass has begun |
| `Migration.Source.GuestWrites` | harness/qemu/arch_init.c:378-405 | a guest write changes its page, in memory and in the dirty log, and nothing else |
| `Migration.Source.ReadsLog` | harness/qemu/arch_init.c:378-405 | exactly the pages of the log become dirty, besides those that are, and the log is empty |
| `Migration.Source.SendsPage` | harness/qemu/arch_init.c:451-533 | nothing is sent if and only if no page is dirty or the scan is stuck on the last page; otherwise the first dirty page from the cursor on is sent as it is now, and that page alone is marked clean; cursor and first-pass flag as determined by the state before |
| `Migration.Source.Step` | harness/qemu/arch_init.c:660-727 | each operation is a step of the state machine of scan, log, memory and pages sent |
| `Migration.Source.Finishes` | harness/qemu/arch_init.c:729-757 | exactly the dirty pages are sent as they are, or none when the scan is stuck |
| `Migration.NextSettled` | harness/qemu/arch_init.c:451-533 | a page that is dirty, logged or sent as it is stays so in every step exactly unless the step loses it: a send while the scan is stuck on it, not logged and sent with other contents; once lost only a guest write to it helps |
| `Migration.PassOver` | harness/qemu/arch_init.c:470-477 | once over, the first pass does not come back, and the scan is never stuck again |
| `Migration.OneLoss` | harness/qemu/arch_init.c:451-533 | of all operations of a run and the last round at most one loses a page |
| `Migration.SendsWhenDirty` | harness/qemu/arch_init.c:451-533 | after the first pass a send sends nothing if and only if no page is dirty |
| `Migration.PassSends` | harness/qemu/arch_init.c:451-533 | at every point of the first pass every page up to the cursor was sent |
| `Migration.StuckSent` | harness/qemu/arch_init.c:451-533 | when the scan is stuck every page was sent at least once |
| `Migration.RunSettled` | harness/qemu/arch_init.c:451-533 | at every point of every run a page is dirty, logged or sent as it is if and only if no operation lost it without a guest write to it afterwards |
| `Migration.FinalWrite` | harness/qemu/arch_init.c:729-757 | what the pages of the last round leave behind |
| `Migration.FinishArrives` | harness/qemu/arch_init.c:729-757 | after the last round the last write of a page was of its contents if and only if the page was settled and the last round does not lose it |
| `Migration.ArrivalLaw` | harness/qemu/arch_init.c:451-757 | over every run: a page arrives as it is in memory if and only if it is not lost, by an operation or by the last round |
| `Migration.OnlyLastLost` | harness/qemu/arch_init.c:451-533 | only the last page of the last block can be lost |
| `Migration.NothingLost` | harness/qemu/arch_init.c:451-533 | as long as the guest does not write to the last page the scan is never stuck |
| `Migration.NoneLost` | harness/qemu/arch_init.c:451-533 | if the guest never writes to the last page no page is lost |
| `Migration.FinalMemory` | harness/qemu/arch_init.c:660-757 | the memory in the end is what the guest's writes made of it |
| `Migration.Prolong` | harness/qemu/arch_init.c:660-727 | an operation prolongs the run of the state machine by one step |
| `Migration.Round` | harness/qemu/arch_init.c:660-727 | a round with the guest running prolongs the run by its operations; the pages it sends are those added |
| `Migration.Rounds` | harness/qemu/arch_init.c:660-727 | any number of rounds, each a section of the stream |
| `Migration.LastRound` | harness/qemu/arch_init.c:729-757 | the log is read and the dirty pages are sent: then every page has arrived exactly unless it is lost over the run |
| `Migration.LiveMigration` | harness/qemu/arch_init.c:451-961 | any rounds with guest writes in between, then the last round: the receiver accepts the stream, and it ends with a page of the sender's memory if and only if the page is not lost over the run |
| `SectorIo.PatchSlice` | harness/qemu/block.c:2475-2483 | changing part of a sector and writing it back changes that part of the disk |
| `SectorIo.Disk.Read` | harness/qemu/block.c:2428-2430 | exactly the sectors, or an error when one cannot be read |
| `SectorIo.Disk.Write` | harness/qemu/block.c:2496-2500 | nothing outside the sectors changes; on success they hold the data, on an error any of them may |
| `SectorIo.Disk.ReadPart` | harness/qemu/block.c:2427-2436 | exactly the bytes inside one sector |
| `SectorIo.Disk.PreadAligned` | harness/qemu/block.c:2438-2458 | whole sectors and the part of the last one |
| `SectorIo.Disk.Pread` | harness/qemu/block.c:2416-2459 | exactly the flat bytes, for every offset and length; an error if and only if one of their sectors cannot be read |
| `SectorIo.Disk.ReadModifyWrite` | harness/qemu/block.c:2475-2486 | exactly the part of the sector changes, to the data; on an error no other byte does |
| `SectorIo.Disk.LastPart` | harness/qemu/block.c:2508-2515 | the partial last sector completes the write |
| `SectorIo.Disk.PwritevAligned` | harness/qemu/block.c:2488-2515 | whole sectors and the part of the last one |
| `SectorIo.Disk.Pwritev` | harness/qemu/block.c:2461-2516 | exactly the bytes [offset, offset+len) change, to the data; an error if and only if a sector does not allow it, and then no byte outside the range changes and none to anything but the data |
| `SectorIo.Disk.WriteThenRead` | harness/qemu/block.c:2416-2516 | what was written is read back, and every other range reads as before |
| `Multiwrite.TakeIs` | harness/qemu/block.c:3674-3677 | the first bytes of an I/O vector |
| `Multiwrite.JoinedIs` | harness/qemu/block.c:3670-3688 | the joined request: the first up to the start of the second, then the second; it ends where the second ends |
| `Multiwrite.JoinedAt` | harness/qemu/block.c:3670-3688 | which bytes a joined request writes, and with what: the second wins, and the tail of the first behind it is dropped |
| `Multiwrite.MergeLast` | harness/qemu/block.c:3655-3697 | the last request left ends where the last one seen ends |
| `Multiwrite.MergeByte` | harness/qemu/block.c:3655-3697 | a request seen wins where it writes and takes nothing away but, when it is joined, the tail behind it |
| `Multiwrite.PrefixPreserved` | harness/qemu/block.c:3655-3697 | at a byte that is not lost and not still to be written, the merged requests do what the requests seen do |
| `Multiwrite.RisingLosesNothing` | harness/qemu/block.c:3655-3697 | with non-decreasing ends no tail is lost |
| `Multiwrite.MergePreserves` | harness/qemu/block.c:3644-3698 | when no tail is lost, the merged requests do to every image what the sorted requests do, whether or not IOV_MAX is met |
| `Multiwrite.MergeGapped` | harness/qemu/block.c:3655-3697 | when IOV_MAX is not met, the requests left are apart, with a gap between them |
| `Multiwrite.CoverStep` | harness/qemu/block.c:3655-3697 | what joining a request does to the bytes covered |
| `Multiwrite.LostByte` | harness/qemu/block.c:3670-3688 | a dropped byte that no later request writes is in no request left |
| `Multiwrite.LastWins` | harness/qemu/block.c:3644-3698 | the last request that covers a byte decides it |
| `Multiwrite.MergedByte` | harness/qemu/block.c:3644-3698 | after the merge a byte has the value of the last request that covers it and is not cut off by one joined behind it, for requests and limits of any kind; without one it stays |
| `Multiwrite.GroupFront` | harness/qemu/block.c:3655-3697 | what stands in front of a group of joined requests is the merge of the requests before the group |
| `Multiwrite.KeptCut` | harness/qemu/block.c:3655-3697 | a joined request that ends at or before a byte cuts off its whole group there, and nothing in front of the group |
| `Multiwrite.MergeLaw` | harness/qemu/block.c:3644-3698 | the merge keeps the meaning on every image if and only if, wherever joining a request takes a byte away for good, the last request that is still kept there has the same value |
| `Multiwrite.UncappedLaw` | harness/qemu/block.c:3644-3698 | when IOV_MAX is not met: if and only if every tail behind a request that ends early is written again by a later request |
| `Multiwrite.LostImage` | harness/qemu/block.c:3674-3683 | an image on which the merged requests differ, for every byte that is lost and not kept with the same value by another request |
| `Multiwrite.ContainedLosesTail` | harness/qemu/block.c:3674-3683 | a request inside another cuts the other short, for all such pairs |
| `Multiwrite.ContainedExample` | harness/qemu/block.c:3674-3683 | sectors 0 and 1, then sector 0 again: sector 1 is not written |
| `Multiwrite.ShortVectors` | harness/qemu/block.c:3664-3666 | short vectors never meet IOV_MAX |
| `Multiwrite.VectorsFit` | harness/qemu/block.c:3664-3666 | no request left has a longer vector than IOV_MAX if none of the caller's had |
| `Multiwrite.MergeableIs` | harness/qemu/block.c:3657-3668 | two requests are joined exactly when the second starts at or before the end of the first and both vectors together stay below the limit |
| `Multiwrite.AnyOrder` | harness/qemu/block.c:3623-3638 | requests that do not conflict may be carried out in any order |
| `Multiwrite.MergedAnyOrder` | harness/qemu/block.c:3644-3698 | when IOV_MAX is not met, any completion order of the requests left gives the image of the sorted requests |
| `Multiwrite.MergeInPlace` | harness/qemu/block.c:3653-3697 | the loop leaves the merged requests in the front of the array and does not touch the rest |
| `Multiwrite.Sort` | harness/qemu/block.c:3650-3650 | sorted by sector, with the same requests |
| `Multiwrite.DisjointSorted` | harness/qemu/block.c:3644-3698 | requests that do not overlap have rising ends once sorted |
| `Multiwrite.MultiwriteMerge` | harness/qemu/block.c:3644-3698 | for requests that do not overlap the requests left do to every image what the caller's requests do in the caller's order |
| `DumpIndex.CutIs` | harness/qemu/dump.c:442-462 | the part of a block inside the filter is the wanted addresses of the block; a block out of range has none |
| `DumpIndex.MemorySkip` | harness/qemu/dump.c:615-640 | blocks out of range add nothing to the file |
| `DumpIndex.MemoryAt` | harness/qemu/dump.c:643-670 | where the part of a block is in the file |
| `DumpIndex.RangeUnique` | harness/qemu/dump.c:394-417 | on disjoint blocks the bytes of a range of guest memory are determined |
| `DumpIndex.DumpState.GetOffsetRange` | harness/qemu/dump.c:420-479 | an offset if and only if the address is dumped; it is that of the address in its block, and the size is the smaller of the mapping length and the rest of the block part |
| `DumpIndex.DumpState.WriteData` | harness/qemu/dump.c:380-391 | all of the data, or as much as fits and an error |
| `DumpIndex.DumpState.WriteMemory` | harness/qemu/dump.c:394-417 | page by page, exactly the range of the block |
| `DumpIndex.DumpState.GetNextBlock` | harness/qemu/dump.c:615-640 | the next block with something to dump, at its first byte to dump; none exactly when no block is left |
| `DumpIndex.DumpState.GetStartBlock` | harness/qemu/dump.c:689-715 | the first such block; -1 exactly when there is none |
| `DumpIndex.DumpState.BlockSize` | harness/qemu/dump.c:653-659 | the size computed from the cursor is that of the part inside the filter |
| `DumpIndex.DumpState.DumpBlock` | harness/qemu/dump.c:651-664 | the wanted part of one block |
| `DumpIndex.DumpState.DumpIterate` | harness/qemu/dump.c:643-670 | the file grows by the wanted part of every block, in order, or is what of it fits |
| `DumpIndex.DumpState.InFile` | harness/qemu/dump.c:420-479 | the bytes at the offset are guest memory from the address on, all of it to be dumped |
| `DumpIndex.DumpState.Dump` | harness/qemu/dump.c:420-715 | the index agrees with the writer for every block list, filter, address and mapping length |
| `NapReset.LoadByte` | harness/e1000/klee_external_function_calls.c:658-723 | the walk copies exactly the named bytes, whatever the nesting |
| `NapReset.NumberBytes` | harness/e1000/klee_external_function_calls.c:680-697 | stored numbers byte by byte: little-endian, the four-byte ones with a sign |
| `NapReset.SameLoad` | harness/e1000/klee_external_function_calls.c:658-723 | the walk depends on the named bytes and the stored numbers only |
| `NapReset.ResetIs` | harness/e1000/klee_external_function_calls.c:736-770 | every named byte keeps its value and every other byte is that of the snapshot |
| `NapReset.ResetConverges` | harness/e1000/klee_external_function_calls.c:736-770 | states that agree on the named bytes and stored numbers become the same |
| `NapReset.ResetIdempotent` | harness/e1000/klee_external_function_calls.c:736-770 | a second reset changes nothing when the stored numbers are themselves kept or are those of the snapshot |
| `NapReset.ResetNotIdempotent` | harness/e1000/klee_external_function_calls.c:736-770 | a stored number of elements that is not named: the second reset names less |
| `NapReset.StaticReads` | harness/e1000/klee_external_function_calls.c:658-723 | a description without stored numbers reads none |
| `NapReset.StaticReset` | harness/e1000/klee_external_function_calls.c:736-770 | without stored numbers the reset is idempotent on every state, and states that agree on the kept bytes become the same |
| `NapReset.RestoreField` | harness/e1000/klee_external_function_calls.c:667-719 | one field in place, as specified |
| `NapReset.RestoreElement` | harness/e1000/klee_external_function_calls.c:699-716 | one element in place: a nested structure or a copy |
| `NapReset.DeviceLoadState` | harness/e1000/klee_external_function_calls.c:658-723 | the loops and the recursion compute the specified state in place |
| `NapReset.FindSnapshot` | harness/e1000/klee_external_function_calls.c:740-765 | the first entry with the name |
| `NapReset.DeviceNapReset` | harness/e1000/klee_external_function_calls.c:736-770 | the state is reset with the entry found and the snapshot is untouched; without an entry nothing changes |
| `NapResetLaw.ReadIs` | harness/e1000/klee_external_function_calls.c:680-697 | the number a second reset reads: the state's if its bytes are named, the snapshot's if none is |
| `NapResetLaw.LoadNames` | harness/e1000/klee_external_function_calls.c:658-723 | the walk restores exactly the bytes the description names by the numbers and tests it meets, and leaves the state exactly if they do not fit; for the first reset and for a second one |
| `NapResetLaw.ElementsLoad` | harness/e1000/klee_external_function_calls.c:699-716 | the same for the elements of a field |
| `NapResetLaw.IdempotentLaw` | harness/e1000/klee_external_function_calls.c:736-770 | for every description, nested numbers and tests included: a second reset changes nothing if and only if, by what it reads, the description stays inside the state and still names every named byte that differs from the snapshot; a condition on description, snapshot and state |
| `NapResetLaw.SeparateLaw` | harness/e1000/klee_external_function_calls.c:736-770 | when fields share no bytes, that is a condition on each field alone: what it names no longer is that of the snapshot already |
| `NapResetLaw.LostElements` | harness/e1000/klee_external_function_calls.c:680-716 | for a plain array, what it names no longer are the elements between the two numbers |
| `NapResetLaw.NumberLost` | harness/e1000/klee_external_function_calls.c:736-770 | every array whose stored number is not named, on every state with more elements than the snapshot of which one differs from it: the second reset changes the state |

## Left out

- PhysPageMaps.PhysPageMap.PageSet: requires the range to be unassigned, because `phys_page_set_level` assumes that sections do not overlap; writing over part of a large leaf is not modelled.
- PhysPageMaps.PhysPageMap.SetLevel: the same, for the part of the range it writes.
- PhysPageMaps.PhysPageMap.WriteNode: the same, for the part of the range it writes.
- PhysPageMaps.PhysPageMap.WriteSlot: the same, for the part of the range it writes.
- PhysPageMaps.PhysPageMap.SetSlot: the same, for the part of the range it writes.
- MemoryDispatches.Dispatch.MemAdd: requires the addresses of the section to be unassigned, as above.
- RamBlocks.RamList.Alloc: host memory, duplicate names and the pre-allocated host pointer are not modelled.
- KvmSlots.KvmState.SetPhysMem: slot flags, ioctls, dirty-log syncing and the `broken_set_mem_region` workaround depend on the kernel.
- E1000Transmit.Transmitter.SendPacket: checksum and VLAN insertion are off, legacy descriptors and descriptors that do not belong to a segmented packet are not modelled.
- E1000Transmit.PayloadLaw: fields that overlap each other in the payload or behind it are left to `SendPacket`, which holds for any position.
- E1000Transmit.PacketLaw: the same, for every piece of the packet.
- E1000Transmit.FrameSame: the same.
- E1000Transmit.TransportKept: the same.
- E1000Transmit.PatchedIsFrame: the patched fields lie in the header, IP before transport, as in every packet that is one; the same for `MadeIsFrame` and `PacketCarried`.
- E1000Transmit.MadeIsFrame: as `PatchedIsFrame`.
- E1000Transmit.PacketCarried: as `PatchedIsFrame`.
- E1000Receive.Receiver.Receive: receive statistics and interrupts are not modelled.
- E1000Interrupts.Interrupts.SetInterruptCause: time is not modelled, only the order of timer starts and expiries; migration of the mitigation state is out.
- E1000Interrupts.Interrupts.DoReset: the line is the device's own record of it; the source does not drive the pin on reset.
- InternetChecksum.PutSum: the packet is under 64 KiB, which the transmit buffer guarantees.
- SoftTlb.Tlb.SetPage: places the entry only; the physical side, watchpoints and dirty tracking rest on code that is not part of this model.
- MigrationStream.Migrate: XBZRLE, RDMA and hooks are out; a stream that ends early is an error, where the source reads zeros and reports the error of the file at the end; block names hold no zero byte, and page offsets are not compared with the block length, as in the source.
- MigrationStream.MismatchLaw: when the deciding byte asks for a block list, a hook or a page with a name, what follows it in the stream decides; `SetupMismatch` gives where the load reads on.
- MigrationStream.Receiver.RamLoad: where the stream ends early the state is that before the last round, as the zeros that the source goes on with are not modelled.
- Migration.LiveMigration: a page is read when it is sent; a guest write in the middle of a page is before or after it.
- MigrationBitmap.Scan.SaveBlock: the RAM list does not change during the run; syncing with the hypervisor's log is any number of `SetDirty`.
- SectorIo.Disk.Pwritev: an I/O vector is its bytes; requests to a growable device beyond its end are errors.
- SectorIo.Disk.Write: when the medium fails, an arbitrary set of sectors is written all the same, which stands for the unspecified result of a failed transfer.
- Multiwrite.Sort: one of the orders the library sort may give; `MergeInPlace` and the laws of the merge hold for every sorted order.
- DumpIndex.DumpState.Dump: the headers are any bytes of the announced size; 64-bit overflow of begin plus length is not modelled, and without a filter there is at least one block.
- NapReset.DeviceNapReset: descriptions without pointers; accesses outside the state, which the source leaves undefined, are excluded; printing is left out, and so is overflow of sizes.
- block-migration.c, coroutines, AIO, the main loop and CPU threads: their order of events is decided by code outside the repository's core.
- gdbstub.c, ioport.c, hmp.c, blockdev.c, device_tree.c, disas.c, balloon.c: framing, port splitting and user interface, which would only add easier members.
- memory.c, IOMMU and endian accessors: not part of this model.
- klee_main.c, PCI setup and the VMState tables: harness glue and static data.
