# DRAMSim3_DRAM Meta-RQ

`DRAMSim3_DRAM` is the ChampSim memory-request consumer that sits in front of the
DRAMsim3 timing model. DRAMsim3 reports a completed read only by its address, while
ChampSim's producers expect `return_data(packet)` calls carrying the original packet.
The wrapper bridges the two with the "Meta-RQ": a fixed vector of
`DRAM_RQ_SIZE * DRAM_CHANNELS` packet slots. `add_rq` and `add_pq` copy an admitted
read into the first empty slot and hand its address to DRAMsim3. `ReadCallBack(addr)`
finds the live slot holding that block, calls `return_data` on each of the packet's
return targets in order, and clears the slot. `add_wq` only forwards writes.
`get_occupancy` and `get_size` report a per-queue-type view that the upper level uses
to decide whether it may call `add_*q`.

The project has four modules:

- `Packets` (packets.dfy) holds the packet fields the Meta-RQ uses: validity, address
  and return targets. It also defines the block-number comparison behind
  `eq_addr<PACKET>(address, LOG2_BLOCK_SIZE)`, the `return_data` notifications, and
  the explicit `uint32_t` / `int` conversions.
- `TimingModel` (timing_model.dfy) models DRAMsim3 as a `MemorySystem` class. Its
  state is the history of submitted transactions and clock ticks. Whether it accepts
  a transaction is an arbitrary policy function of that history, given as a
  parameter.
- `MetaRq` (meta_rq.dfy) holds the specification functions. Each operation is a
  function from the old slots and history to the outcome, the new slots, the new
  history and the notifications made. It also holds the lemmas about those functions.
- `DramSim3Wrapper` (dramsim3_wrapper.dfy) is the class itself. `rq` is an
  `array<Packet>` and the scans are `while` loops.
  - `AddRq` and `AddPq` produce exactly the results and new state of
    `MetaRq.ReadAdmission`.
  - `AddWq` does the same for `WriteAdmission`, `ReadCallBack` for `ReadCompletion`,
    and `GetOccupancy` for `Occupancy`.
  - The `to_return` loop `NotifyTargets` produces exactly `Packets.NotifyAll`.
  - `AddRq`, `AddPq` and `ReadCallBack` preserve the invariant `Valid()`: at most one
    live slot per block, and a capacity below 2^31.
  - `AddWq`, `Operate`, `GetOccupancy` and `WriteCallBack` do not modify `rq`.
    `Operate` appends one clock tick to DRAMsim3's history, and `WriteCallBack`
    changes nothing.

A fatal `assert(0)` branch is modelled as an `Aborted(fault)` outcome, with slots and
history left as they were. A fatal branch of `ReadCallBack` is modelled as
`aborted == true`. The warm-up test `all_warmup_complete < NUM_CPUS` is a boolean
parameter `warmingUp`.

Where the code and the interface's design differ, the model follows the code:

- A read whose block is already live in the Meta-RQ is fatal (`DuplicateInFlight`).
  It is not merged with return value 0.
- A successful `add_wq` returns 0. The return-code comment in
  `inc/memory_class.h:57-65` gives 0 as "merged" and >0 as "new occupancy".
- A successful `add_rq` returns `get_occupancy(1, address)` taken after the
  submission. It is the live count when DRAMsim3 still accepts a read at that
  address, and the capacity otherwise (`ReadAdmissionCode`).

## Model

| member | source | states |
|---|---|---|
| Packets.ToInt32 | inc/dramsim3_wrapper.hpp:62 | The `uint32_t` to `int` conversion of add_rq's return: it lies in the 32-bit int range, is the identity below 2^31, and converts back to the same `uint32_t`. |
| Packets.ToUint32 | inc/dramsim3_wrapper.hpp:102 | The conversion to `uint32_t`: the identity on 32-bit values, and `-1` becomes 0xFFFFFFFF. |
| Packets.BlockNumber | inc/dramsim3_wrapper.hpp:41-42 | `address >> LOG2_BLOCK_SIZE` inside `eq_addr`: the index of the 64-byte block that contains the address. |
| Packets.IsValid | inc/dramsim3_wrapper.hpp:50 | `is_valid<PACKET>()`, also at line 93: a live slot is never the empty sentinel. |
| Packets.EmptySlotIsFree | inc/dramsim3_wrapper.hpp:120 | The value-initialised `{}` that clears a slot (line 120) and fills every slot at construction (line 132) is not live, matches no address and has no return targets. |
| Packets.EqAddr | inc/dramsim3_wrapper.hpp:41-42 | `eq_addr` at a slot: only a live slot matches, a live slot always matches its own address, and a live slot matches exactly the addresses with the same 64-byte-aligned base address. |
| Packets.NotifyAll | inc/dramsim3_wrapper.hpp:118-119 | The `return_data` calls of a target loop: one per target, in target order, each carrying the same packet. |
| TimingModel.Submitted | inc/dramsim3_wrapper.hpp:56 | The transactions handed to DRAMsim3 so far: an element is in the log exactly when it is a Submit event of the history, and the log is never longer than the history. |
| TimingModel.SubmittedAppend | inc/dramsim3_wrapper.hpp:56 | The log of a concatenated history is the concatenation of the logs, so submissions stay in the order they were made. |
| TimingModel.MemorySystem.WillAcceptTransaction | inc/dramsim3_wrapper.hpp:51 | DRAMsim3's acceptance answer (also at lines 70, 88 and 97) is the policy applied to the history of everything it has been given so far. |
| TimingModel.MemorySystem.AddTransaction | inc/dramsim3_wrapper.hpp:56 | A submission appends exactly one Submit event for that address and direction. |
| TimingModel.MemorySystem.ClockTick | inc/dramsim3_wrapper.hpp:83 | A clock tick appends exactly one Tick event. |
| TimingModel.SubmittedCounts | inc/dramsim3_wrapper.hpp:56 | The submission log keeps every submitted transaction with its multiplicity, and holds no ticks. |
| MetaRq.ValidCount | inc/dramsim3_wrapper.hpp:93 | `count_if(is_valid)`: the number of live slots, never more than the number of slots. |
| MetaRq.Occupancy | inc/dramsim3_wrapper.hpp:86-103 | `get_occupancy`: for queue types 1 to 3 never more than the capacity; 0xFFFFFFFF for any other type. |
| MetaRq.Size | inc/dramsim3_wrapper.hpp:104-112 | `get_size`: the capacity for queue types 1 to 3, type 3 through type 1; 0xFFFFFFFF for any other type. |
| MetaRq.ReadAdmission | inc/dramsim3_wrapper.hpp:32-63 | `add_rq`: the slot vector never changes size. An abort leaves slots and history alone and notifies nobody. After warm-up a success notifies nobody and submits exactly one transaction. |
| MetaRq.WriteAdmission | inc/dramsim3_wrapper.hpp:65-76 | `add_wq`: always returns a code, never touches the slots and notifies nobody. It returns 0 exactly when it changes DRAMsim3's history. |
| MetaRq.ReadCompletion | inc/dramsim3_wrapper.hpp:114-127 | `ReadCallBack`: the slot vector never changes size. The fatal branch leaves the slots alone and notifies nobody. |
| MetaRq.UniqueBlocks | inc/dramsim3_wrapper.hpp:40-47 | The invariant the duplicate check keeps: no two live slots share a block. Equivalently, each live slot's address is matched by `eq_addr` at that slot only. |
| MetaRq.FirstMatchIndex | inc/dramsim3_wrapper.hpp:41-42 | `find_if` with `eq_addr`: the index of the first live slot in the packet's block, or the capacity if there is none; no earlier slot matches. |
| MetaRq.FirstFreeIndex | inc/dramsim3_wrapper.hpp:50 | `find_if_not` with `is_valid`: the index of the first empty slot, or the capacity if every slot is live; every earlier slot is live. |
| MetaRq.ValidCountAllValid | inc/dramsim3_wrapper.hpp:93 | When every slot is live, the count equals the capacity. |
| MetaRq.ValidCountUpdate | inc/dramsim3_wrapper.hpp:60 | Overwriting one slot changes the live count by the validity of the packet that left and the packet that came. |
| MetaRq.FreeSlotWhenNotFull | inc/dramsim3_wrapper.hpp:50-51 | If fewer slots are live than the capacity, `find_if_not` finds an empty slot. |
| MetaRq.OccupancyWithinSize | inc/dramsim3_wrapper.hpp:86-112 | For every queue type, `get_occupancy` never exceeds `get_size`. |
| MetaRq.ReadOccupancyReflectsAcceptance | inc/dramsim3_wrapper.hpp:87-94 | Read and prefetch occupancy is the capacity when DRAMsim3 refuses a read at the address, and the live count when it accepts. |
| MetaRq.WriteOccupancyAndSize | inc/dramsim3_wrapper.hpp:96-111 | Write occupancy is 0 when DRAMsim3 accepts the write and the capacity otherwise. Size is the capacity for types 1 to 3. Any other type gives 0xFFFFFFFF for both. |
| MetaRq.ReadPrecheckSound | inc/dramsim3_wrapper.hpp:49-54 | If the caller's check passes for queue type 1 or 3 (occupancy below size), add_rq cannot take the "no slot or DRAMsim3 refuses" fatal branch. |
| MetaRq.WritePrecheckExact | inc/dramsim3_wrapper.hpp:65-76 | With at least one slot, a write queue reported as not full holds exactly when add_wq submits and returns 0. |
| MetaRq.ReadFastForward | inc/dramsim3_wrapper.hpp:33-38 | During warm-up add_rq returns -1. It notifies every return target once, in order, with the packet, and changes neither slots nor DRAMsim3. |
| MetaRq.ReadAdmissionFaults | inc/dramsim3_wrapper.hpp:40-54 | After warm-up add_rq aborts as a duplicate if and only if a live slot holds the block. It aborts for want of a slot or acceptance if and only if there is no duplicate and either every slot is live or DRAMsim3 refuses. An abort changes nothing. |
| MetaRq.ReadAdmissionSuccess | inc/dramsim3_wrapper.hpp:49-60 | A successful add_rq copies the packet into the first empty slot, leaves every other slot alone, submits exactly one read and makes no return_data call. |
| MetaRq.ReadAdmissionCode | inc/dramsim3_wrapper.hpp:56-62 | A successful add_rq returns a code between 0 and the capacity, positive for a live packet. It is the old live count plus the packet when DRAMsim3 still accepts a read at the address, and the capacity when it does not. |
| MetaRq.ReadAdmissionKeepsUniqueBlocks | inc/dramsim3_wrapper.hpp:40-60 | add_rq keeps at most one live slot per block. |
| MetaRq.WriteAdmissionCases | inc/dramsim3_wrapper.hpp:65-76 | add_wq never touches the slots and makes no notification. During warm-up it returns -1 with no effect. If DRAMsim3 refuses, it returns -2 with no effect. Otherwise it returns 0 after appending exactly one write submission and nothing else. |
| MetaRq.MatchIsTheLiveSlot | inc/dramsim3_wrapper.hpp:115-116 | With unique blocks, `find_if` finds exactly the live slot that holds the block. |
| MetaRq.ReadCompletionEffect | inc/dramsim3_wrapper.hpp:114-127 | With at most one live slot per block, ReadCallBack aborts if and only if no live slot holds the block, and then changes nothing. Otherwise it notifies the slot's targets in order with the stored packet and empties only that slot. The live count drops by one and blocks stay unique. |
| MetaRq.AdmitThenComplete | inc/dramsim3_wrapper.hpp:32-127 | The round trip: after a successful add_rq of a live packet, the completion of its address does not abort. It returns that same packet to each of its targets in order and frees the slot it took, which restores the live count. |
| MetaRq.FourSlotRun | inc/dramsim3_wrapper.hpp:32-127 | A concrete run on four slots: read A gets code 1; a second read of A's block aborts instead of merging and changes nothing; read B, admitted after that abort, gets code 2; A's completion notifies A's target and leaves one live slot; a refused write returns -2. |
| DramSim3Wrapper.NotifyTargets | inc/dramsim3_wrapper.hpp:34-35 | The loop over `to_return` makes exactly the notifications of `NotifyAll`. |
| DramSim3Wrapper.DramSim3Dram.Valid | inc/dramsim3_wrapper.hpp:132 | The class invariant over `RQ`: the capacity survives the `uint32_t` and `int` conversions unchanged, and the slot `find_if` locates for a block is the only live slot holding it. |
| DramSim3Wrapper.DramSim3Dram.constructor | inc/dramsim3_wrapper.hpp:22-29 | A fresh wrapper has `DRAM_RQ_SIZE * DRAM_CHANNELS` empty slots and a DRAMsim3 with an empty history, and satisfies `Valid()`. |
| DramSim3Wrapper.DramSim3Dram.FindMatching | inc/dramsim3_wrapper.hpp:41-42 | The scan returns `FirstMatchIndex` of the slots. |
| DramSim3Wrapper.DramSim3Dram.FindFree | inc/dramsim3_wrapper.hpp:50 | The scan returns `FirstFreeIndex` of the slots. |
| DramSim3Wrapper.DramSim3Dram.CountValid | inc/dramsim3_wrapper.hpp:93 | The counting loop returns `ValidCount` of the slots, at most the capacity. |
| DramSim3Wrapper.DramSim3Dram.GetSize | inc/dramsim3_wrapper.hpp:104-112 | `get_size` on this Meta-RQ: its capacity for queue types 1 to 3, and 0xFFFFFFFF for any other type. |
| DramSim3Wrapper.DramSim3Dram.GetOccupancy | inc/dramsim3_wrapper.hpp:86-103 | Returns `Occupancy` of the current slots and DRAMsim3 history, for every queue type. |
| DramSim3Wrapper.DramSim3Dram.AddRq | inc/dramsim3_wrapper.hpp:32-63 | Keeps `Valid()`. Produces exactly the outcome, slots, history and notifications of `ReadAdmission` on the old state. |
| DramSim3Wrapper.DramSim3Dram.AddWq | inc/dramsim3_wrapper.hpp:65-76 | Produces exactly the outcome and history of `WriteAdmission` on the old state; the slots are not in its frame. |
| DramSim3Wrapper.DramSim3Dram.AddPq | inc/dramsim3_wrapper.hpp:78-80 | Behaves exactly as AddRq. |
| DramSim3Wrapper.DramSim3Dram.Operate | inc/dramsim3_wrapper.hpp:82-84 | Appends exactly one clock tick to DRAMsim3's history. |
| DramSim3Wrapper.DramSim3Dram.ReadCallBack | inc/dramsim3_wrapper.hpp:114-127 | Keeps `Valid()`. Produces exactly the abort flag, slots and notifications of `ReadCompletion` on the old slots. |
| DramSim3Wrapper.DramSim3Dram.WriteCallBack | inc/dramsim3_wrapper.hpp:128 | A write completion changes neither the slots nor DRAMsim3's history. |

The Meta-RQ's fixed size (inc/dramsim3_wrapper.hpp:132) follows from
`rq` being a `const` array.

## Left out

- Construction of DRAMsim3 from a configuration file and output directory, and the
  binding of the two callbacks: DRAMsim3's internals are not part of this model. It is
  an opaque acceptance policy over the history of submissions and ticks.
- When DRAMsim3 calls `ReadCallBack` is left out. The model lets it be called at any
  time with any address; its fatal branch covers an address with no live slot.
- `PrintStats`, the `std::cout` diagnostics and the `freq_scale` clock scaling of
  `champsim::operable`: output and clocking outside the Meta-RQ.
- The model assumes assertions are enabled, so `assert(0)` ends the process. It returns
  an `Aborted` outcome with the state unchanged and says nothing about what follows.
  A build with `NDEBUG` defined is not modelled. There the branches at lines 46 and 53
  fall through, so a duplicate can be admitted, and with no free slot line 60 writes
  through `end()`.
- `return_data` calls are recorded as notifications. What the producers do with them,
  including any re-entrant call into the wrapper, is not part of this model.
- PACKET fields other than validity, address and `to_return`, and the other producer
  hooks, are not part of this model.
- `is_valid<PACKET>` and `eq_addr<PACKET>` are taken to test the packet's valid flag
  and to compare `address >> LOG2_BLOCK_SIZE`. Their header is not part of this model.
- `LOG2_BLOCK_SIZE` is taken as 6 (64-byte blocks). Its header is not part of this
  model.
- DramSim3Wrapper.DramSim3Dram.constructor: requires a capacity below 2^31, so that
  the `size_t` to `uint32_t` to `int` conversions never wrap. The conversions are still
  written out explicitly.
- `detail::ceil` in inc/memory_class.h is not used by the wrapper and is not modelled.
