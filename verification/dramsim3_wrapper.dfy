/**
 DRAMSim3_DRAM: the ChampSim memory-request consumer in front of DRAMsim3. It keeps a
 fixed vector of packet slots (the Meta-RQ) so that an address-only read completion
 from DRAMsim3 can be turned back into the full packet and its return targets.

 AddRq, AddPq, AddWq, ReadCallBack and GetOccupancy are proved to compute the MetaRq
 functions ReadAdmission, WriteAdmission, ReadCompletion and Occupancy of the slot
 contents and the timing model's history; the properties are lemmas there. AddRq, AddPq
 and ReadCallBack keep Valid(); the other methods leave the slots alone.
 */
module DramSim3Wrapper {
  import opened Packets
  import opened TimingModel
  import opened MetaRq

  /** The calls `ret->return_data(p)` for each `ret` in `targets`, in order. */
  method NotifyTargets(targets: seq<ProducerId>, p: Packet) returns (notes: seq<Notification>)
    ensures notes == NotifyAll(targets, p)
  {
    notes := [];
    var k := 0;
    while k < |targets|
      invariant 0 <= k <= |targets|
      invariant |notes| == k
      invariant forall j :: 0 <= j < k ==> notes[j] == Notify(targets[j], p)
    {
      notes := notes + [Notify(targets[k], p)];
      k := k + 1;
    }
  }

  class DramSim3Dram {
    /** `memory_system_` */
    const memorySystem: MemorySystem
    /** `RQ`, sized `DRAM_RQ_SIZE * DRAM_CHANNELS` once and never resized. */
    const rq: array<Packet>

    /** At most one live slot per block, and a capacity that fits the int return codes. */
    ghost predicate Valid(): (r: bool)
      reads this, rq
      ensures r ==> ToInt32(ToUint32(rq.Length)) == rq.Length
      ensures r ==> forall i, address :: 0 <= i < rq.Length && EqAddr(rq[i], address) ==> FirstMatchIndex(rq[..], address) == i
    {
      rq.Length < 0x8000_0000 && UniqueBlocks(rq[..])
    }

    constructor (rqSize: nat, channels: nat, policy: Policy)
      requires rqSize * channels < 0x8000_0000
      ensures Valid() && fresh(rq) && fresh(memorySystem)
      ensures rq.Length == rqSize * channels
      ensures forall i :: 0 <= i < rq.Length ==> rq[i] == Empty
      ensures memorySystem.policy == policy && memorySystem.history == []
    {
      memorySystem := new MemorySystem(policy);
      rq := new Packet[rqSize * channels](_ => Empty);
    }

    /** `std::find_if(RQ, eq_addr(address, LOG2_BLOCK_SIZE))`; `rq.Length` stands for `end()`. */
    method FindMatching(address: uint64) returns (i: nat)
      ensures i == FirstMatchIndex(rq[..], address)
      ensures i <= rq.Length
      ensures i < rq.Length ==> EqAddr(rq[i], address)
      ensures forall j :: 0 <= j < i ==> !EqAddr(rq[j], address)
    {
      i := 0;
      while i < rq.Length && !EqAddr(rq[i], address)
        invariant i <= rq.Length
        invariant forall j :: 0 <= j < i ==> !EqAddr(rq[j], address)
      {
        i := i + 1;
      }
    }

    /** `std::find_if_not(RQ, is_valid)`; `rq.Length` stands for `end()`. */
    method FindFree() returns (i: nat)
      ensures i == FirstFreeIndex(rq[..])
      ensures i <= rq.Length
      ensures i < rq.Length ==> !IsValid(rq[i])
      ensures forall j :: 0 <= j < i ==> IsValid(rq[j])
    {
      i := 0;
      while i < rq.Length && IsValid(rq[i])
        invariant i <= rq.Length
        invariant forall j :: 0 <= j < i ==> IsValid(rq[j])
      {
        i := i + 1;
      }
    }

    /** `std::count_if(RQ, is_valid)` */
    method CountValid() returns (n: nat)
      ensures n == ValidCount(rq[..])
      ensures n <= rq.Length
    {
      n := 0;
      var i := 0;
      while i < rq.Length
        invariant i <= rq.Length
        invariant n + ValidCount(rq[i..]) == ValidCount(rq[..])
        invariant n <= i
      {
        assert rq[i..][1..] == rq[i + 1..];
        n := n + Bit(rq[i]);
        i := i + 1;
      }
      assert rq[..] == rq[0..];
    }

    /** `get_occupancy(queue_type, address)` */
    method GetOccupancy(queueType: uint8, address: uint64) returns (r: uint32)
      ensures r == Occupancy(memorySystem.policy, memorySystem.history, rq[..], queueType, address)
      decreases if queueType == 3 then 1 else 0
    {
      if queueType == 1 {
        if !memorySystem.WillAcceptTransaction(address, false) {
          return ToUint32(rq.Length);
        } else {
          var n := CountValid();
          return ToUint32(n);
        }
      } else if queueType == 2 {
        return if memorySystem.WillAcceptTransaction(address, true) then 0 else ToUint32(rq.Length);
      } else if queueType == 3 {
        r := GetOccupancy(1, address);
        return;
      }
      return ToUint32(-1);
    }

    /** `get_size(queue_type, address)`: depends only on the capacity. */
    function GetSize(queueType: uint8, address: uint64): (r: uint32)
      ensures 1 <= queueType <= 3 && rq.Length < 0x1_0000_0000 ==> r == rq.Length
      ensures !(1 <= queueType <= 3) ==> r == 0xFFFF_FFFF
    {
      Size(rq.Length, queueType, address)
    }

    /** `add_rq(packet)`; `warmingUp` is `all_warmup_complete < NUM_CPUS`. */
    method AddRq(packet: Packet, warmingUp: bool) returns (r: Outcome, notes: seq<Notification>)
      requires Valid()
      modifies rq, memorySystem
      ensures Valid()
      ensures var st := ReadAdmission(memorySystem.policy, old(memorySystem.history), old(rq[..]), packet, warmingUp);
        && r == st.outcome && rq[..] == st.slots && memorySystem.history == st.history && notes == st.notes
    {
      if warmingUp {
        notes := NotifyTargets(packet.toReturn, packet);
        return Returned(-1), notes;
      }
      notes := [];
      var dup := FindMatching(packet.address);
      if dup < rq.Length {
        return Aborted(DuplicateInFlight), notes;
      }
      var free := FindFree();
      if free == rq.Length || !memorySystem.WillAcceptTransaction(packet.address, false) {
        return Aborted(SlotOrTimingUnavailable), notes;
      }
      ghost var s := rq[..];
      memorySystem.AddTransaction(packet.address, false);
      rq[free] := packet;
      assert rq[..] == s[free := packet];
      ReadAdmissionKeepsUniqueBlocks(memorySystem.policy, old(memorySystem.history), s, packet, false);
      var occ := GetOccupancy(1, packet.address);
      r := Returned(ToInt32(occ));
    }

    /** `add_wq(packet)`: the slots are not touched. */
    method AddWq(packet: Packet, warmingUp: bool) returns (r: Outcome)
      modifies memorySystem
      ensures var st := WriteAdmission(memorySystem.policy, old(memorySystem.history), rq[..], packet, warmingUp);
        r == st.outcome && memorySystem.history == st.history
    {
      if warmingUp {
        return Returned(-1);
      }
      if !memorySystem.WillAcceptTransaction(packet.address, true) {
        return Returned(-2);
      }
      memorySystem.AddTransaction(packet.address, true);
      r := Returned(0);
    }

    /** `add_pq(packet)`: handled exactly as a read. */
    method AddPq(packet: Packet, warmingUp: bool) returns (r: Outcome, notes: seq<Notification>)
      requires Valid()
      modifies rq, memorySystem
      ensures Valid()
      ensures var st := ReadAdmission(memorySystem.policy, old(memorySystem.history), old(rq[..]), packet, warmingUp);
        && r == st.outcome && rq[..] == st.slots && memorySystem.history == st.history && notes == st.notes
    {
      r, notes := AddRq(packet, warmingUp);
    }

    /** `operate()`: one clock tick of DRAMsim3. */
    method Operate()
      modifies memorySystem
      ensures memorySystem.history == old(memorySystem.history) + [Tick]
    {
      memorySystem.ClockTick();
    }

    /** `ReadCallBack(addr)`: DRAMsim3 reports that the read of `address` completed. */
    method ReadCallBack(address: uint64) returns (aborted: bool, notes: seq<Notification>)
      requires Valid()
      modifies rq
      ensures Valid()
      ensures var c := ReadCompletion(old(rq[..]), address);
        && aborted == c.aborted && rq[..] == c.slots && notes == c.notes
    {
      var i := FindMatching(address);
      if i < rq.Length {
        notes := NotifyTargets(rq[i].toReturn, rq[i]);
        ghost var s := rq[..];
        rq[i] := Empty;
        assert rq[..] == s[i := Empty];
        ReadCompletionEffect(s, address);
        aborted := false;
      } else {
        aborted, notes := true, [];
      }
    }

    /** `WriteCallBack(addr)`: writes need no notification, so nothing happens. */
    method WriteCallBack(address: uint64)
      ensures rq[..] == old(rq[..]) && memorySystem.history == old(memorySystem.history)
    {
    }
  }
}
