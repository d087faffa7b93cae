/**
 The Meta-RQ as values: the slot vector is a sequence of packets, and each operation of
 DRAMSim3_DRAM is a function from the old slots and timing-model history to the outcome,
 the new slots, the new history and the return_data calls made. The class in
 DramSim3Wrapper is proved to compute exactly these; the lemmas here state what the
 functions guarantee.
 */
module MetaRq {
  import opened Packets
  import opened TimingModel

  /** The fatal `assert(0)` branches of add_rq. */
  datatype Fault =
    | DuplicateInFlight        // a live slot already holds this block
    | SlotOrTimingUnavailable  // no empty slot, or DRAMsim3 refuses the read

  /** What an add_* call does: return an int code, or abort the simulation. */
  datatype Outcome = Returned(code: int) | Aborted(fault: Fault)

  /** The effect of one add_rq / add_wq call. */
  datatype Step = Step(outcome: Outcome, slots: seq<Packet>, history: seq<Event>, notes: seq<Notification>)

  /** The effect of one ReadCallBack call; `aborted` is set on its fatal branch (no live slot holds the block). */
  datatype Completion = Completion(aborted: bool, slots: seq<Packet>, notes: seq<Notification>)

  function Bit(p: Packet): nat
  {
    if IsValid(p) then 1 else 0
  }

  /** `std::count_if(RQ, is_valid)` */
  function ValidCount(s: seq<Packet>): (n: nat)
    ensures n <= |s|
  {
    if s == [] then 0 else Bit(s[0]) + ValidCount(s[1..])
  }

  /** `std::find_if(RQ, eq_addr(address))`, with |s| standing for `end()`. */
  function FirstMatchIndex(s: seq<Packet>, address: uint64): (i: nat)
    ensures i <= |s|
    ensures i < |s| ==> EqAddr(s[i], address)
    ensures forall j :: 0 <= j < i ==> !EqAddr(s[j], address)
  {
    if s == [] then 0
    else if EqAddr(s[0], address) then 0
    else 1 + FirstMatchIndex(s[1..], address)
  }

  /** `std::find_if_not(RQ, is_valid)`, with |s| standing for `end()`. */
  function FirstFreeIndex(s: seq<Packet>): (i: nat)
    ensures i <= |s|
    ensures i < |s| ==> !IsValid(s[i])
    ensures forall j :: 0 <= j < i ==> IsValid(s[j])
  {
    if s == [] then 0
    else if !IsValid(s[0]) then 0
    else 1 + FirstFreeIndex(s[1..])
  }

  /**
   At most one live slot per block address: equivalently, each live slot's address is
   matched by `eq_addr` at that slot only.
   */
  predicate UniqueBlocks(s: seq<Packet>): (r: bool)
    ensures r <==> forall i, j :: 0 <= i < |s| && 0 <= j < |s| && IsValid(s[j]) && EqAddr(s[i], s[j].address) ==> i == j
  {
    forall i, j :: 0 <= i < j < |s| && IsValid(s[i]) && IsValid(s[j]) ==>
      BlockNumber(s[i].address) != BlockNumber(s[j].address)
  }

  /** `get_occupancy(queue_type, address)` against slots `s` and a timing model in state `history`. */
  function Occupancy(policy: Policy, history: seq<Event>, s: seq<Packet>, queueType: uint8, address: uint64): (r: uint32)
    ensures 1 <= queueType <= 3 && |s| < 0x1_0000_0000 ==> r <= |s|
    ensures !(1 <= queueType <= 3) ==> r == 0xFFFF_FFFF
    decreases if queueType == 3 then 1 else 0
  {
    if queueType == 1 then
      if !policy(history, address, false) then ToUint32(|s|) else ToUint32(ValidCount(s))
    else if queueType == 2 then
      if policy(history, address, true) then 0 else ToUint32(|s|)
    else if queueType == 3 then
      Occupancy(policy, history, s, 1, address)
    else
      ToUint32(-1)
  }

  /** `get_size(queue_type, address)` for a Meta-RQ of `capacity` slots. */
  function Size(capacity: nat, queueType: uint8, address: uint64): (r: uint32)
    ensures 1 <= queueType <= 3 && capacity < 0x1_0000_0000 ==> r == capacity
    ensures !(1 <= queueType <= 3) ==> r == 0xFFFF_FFFF
    decreases if queueType == 3 then 1 else 0
  {
    if queueType == 1 then ToUint32(capacity)
    else if queueType == 2 then ToUint32(capacity)
    else if queueType == 3 then Size(capacity, 1, address)
    else ToUint32(-1)
  }

  /** `add_rq(packet)`; `warmingUp` is `all_warmup_complete < NUM_CPUS`. */
  function ReadAdmission(policy: Policy, history: seq<Event>, s: seq<Packet>, packet: Packet, warmingUp: bool): (r: Step)
    ensures |r.slots| == |s|
    ensures r.outcome.Aborted? ==> r.slots == s && r.history == history && r.notes == []
    ensures r.outcome.Returned? && !warmingUp ==> r.notes == [] && r.history == history + [Submit(packet.address, false)]
  {
    if warmingUp then
      Step(Returned(-1), s, history, NotifyAll(packet.toReturn, packet))
    else if FirstMatchIndex(s, packet.address) < |s| then
      Step(Aborted(DuplicateInFlight), s, history, [])
    else
      var i := FirstFreeIndex(s);
      if i == |s| || !policy(history, packet.address, false) then
        Step(Aborted(SlotOrTimingUnavailable), s, history, [])
      else
        var history' := history + [Submit(packet.address, false)];
        var s' := s[i := packet];
        Step(Returned(ToInt32(Occupancy(policy, history', s', 1, packet.address))), s', history', [])
  }

  /** `add_wq(packet)` */
  function WriteAdmission(policy: Policy, history: seq<Event>, s: seq<Packet>, packet: Packet, warmingUp: bool): (r: Step)
    ensures r.slots == s && r.notes == [] && r.outcome.Returned?
    ensures r.outcome.code == 0 <==> r.history != history
  {
    if warmingUp then Step(Returned(-1), s, history, [])
    else if !policy(history, packet.address, true) then Step(Returned(-2), s, history, [])
    else Step(Returned(0), s, history + [Submit(packet.address, true)], [])
  }

  /** `ReadCallBack(address)` */
  function ReadCompletion(s: seq<Packet>, address: uint64): (r: Completion)
    ensures |r.slots| == |s|
    ensures r.aborted ==> r.slots == s && r.notes == []
  {
    var i := FirstMatchIndex(s, address);
    if i == |s| then Completion(true, s, [])
    else Completion(false, s[i := Empty], NotifyAll(s[i].toReturn, s[i]))
  }

  // ---------------------------------------------------------------------------
  // Counting live slots

  lemma {:induction false} ValidCountAllValid(s: seq<Packet>)
    requires forall j :: 0 <= j < |s| ==> IsValid(s[j])
    ensures ValidCount(s) == |s|
  {
    if s != [] {
      ValidCountAllValid(s[1..]);
    }
  }

  /** Overwriting one slot changes the count by the validity of what left and what came. */
  lemma {:induction false} ValidCountUpdate(s: seq<Packet>, i: nat, p: Packet)
    requires i < |s|
    ensures ValidCount(s[i := p]) == ValidCount(s) - Bit(s[i]) + Bit(p)
  {
    if i > 0 {
      assert s[i := p][1..] == s[1..][i - 1 := p];
      ValidCountUpdate(s[1..], i - 1, p);
    } else {
      assert s[i := p][1..] == s[1..];
    }
  }

  /** Fewer live slots than capacity means find_if_not finds an empty slot. */
  lemma {:induction false} FreeSlotWhenNotFull(s: seq<Packet>)
    requires ValidCount(s) < |s|
    ensures FirstFreeIndex(s) < |s|
  {
    if FirstFreeIndex(s) == |s| {
      ValidCountAllValid(s);
    }
  }

  // ---------------------------------------------------------------------------
  // Occupancy and size

  /** For every queue type the reported occupancy never exceeds the reported size. */
  lemma {:induction false} OccupancyWithinSize(policy: Policy, history: seq<Event>, s: seq<Packet>, queueType: uint8, address: uint64)
    requires |s| < 0x1_0000_0000
    ensures Occupancy(policy, history, s, queueType, address) <= Size(|s|, queueType, address)
  {
  }

  /** Read and prefetch occupancy is full capacity when DRAMsim3 refuses the address, else the live count. */
  lemma {:induction false} ReadOccupancyReflectsAcceptance(policy: Policy, history: seq<Event>, s: seq<Packet>, queueType: uint8, address: uint64)
    requires |s| < 0x1_0000_0000
    requires queueType == 1 || queueType == 3
    ensures !policy(history, address, false) ==> Occupancy(policy, history, s, queueType, address) == |s|
    ensures policy(history, address, false) ==> Occupancy(policy, history, s, queueType, address) == ValidCount(s)
  {
  }

  /** Write occupancy is 0 or full, depending only on write acceptance; size is the capacity for types 1-3. */
  lemma {:induction false} WriteOccupancyAndSize(policy: Policy, history: seq<Event>, s: seq<Packet>, queueType: uint8, address: uint64)
    requires |s| < 0x1_0000_0000
    ensures Occupancy(policy, history, s, 2, address) == if policy(history, address, true) then 0 else |s|
    ensures 1 <= queueType <= 3 ==> Size(|s|, queueType, address) == |s|
    ensures !(1 <= queueType <= 3) ==> Size(|s|, queueType, address) == 0xFFFF_FFFF
    ensures !(1 <= queueType <= 3) ==> Occupancy(policy, history, s, queueType, address) == 0xFFFF_FFFF
  {
  }

  /**
   The admission check callers perform: a read or prefetch queue reported as not full
   means add_rq cannot abort for want of a slot or of timing-model acceptance.
   */
  lemma {:induction false} ReadPrecheckSound(policy: Policy, history: seq<Event>, s: seq<Packet>, packet: Packet, queueType: uint8)
    requires |s| < 0x1_0000_0000
    requires queueType == 1 || queueType == 3
    requires Occupancy(policy, history, s, queueType, packet.address) < Size(|s|, queueType, packet.address)
    ensures ReadAdmission(policy, history, s, packet, false).outcome != Aborted(SlotOrTimingUnavailable)
  {
    FreeSlotWhenNotFull(s);
  }

  /** With at least one slot, a write queue reported as not full is exactly the case where add_wq submits. */
  lemma {:induction false} WritePrecheckExact(policy: Policy, history: seq<Event>, s: seq<Packet>, packet: Packet)
    requires 0 < |s| < 0x1_0000_0000
    ensures Occupancy(policy, history, s, 2, packet.address) < Size(|s|, 2, packet.address)
        <==> WriteAdmission(policy, history, s, packet, false).outcome == Returned(0)
  {
  }

  // ---------------------------------------------------------------------------
  // add_rq / add_pq

  /** During warm-up add_rq returns -1 after notifying every target once, in order, and changes nothing. */
  lemma {:induction false} ReadFastForward(policy: Policy, history: seq<Event>, s: seq<Packet>, packet: Packet)
    ensures var st := ReadAdmission(policy, history, s, packet, true);
      && st.outcome == Returned(-1) && st.slots == s && st.history == history
      && |st.notes| == |packet.toReturn|
      && forall k :: 0 <= k < |st.notes| ==> st.notes[k] == Notify(packet.toReturn[k], packet)
  {
  }

  /** After warm-up add_rq aborts exactly in the three fatal cases, and then changes nothing. */
  lemma {:induction false} ReadAdmissionFaults(policy: Policy, history: seq<Event>, s: seq<Packet>, packet: Packet)
    ensures var st := ReadAdmission(policy, history, s, packet, false);
      && (st.outcome == Aborted(DuplicateInFlight) <==>
            exists j :: 0 <= j < |s| && EqAddr(s[j], packet.address))
      && (st.outcome == Aborted(SlotOrTimingUnavailable) <==>
            (forall j :: 0 <= j < |s| ==> !EqAddr(s[j], packet.address)) &&
            ((forall j :: 0 <= j < |s| ==> IsValid(s[j])) || !policy(history, packet.address, false)))
      && (st.outcome.Aborted? ==> st.slots == s && st.history == history && st.notes == [])
  {
    var st := ReadAdmission(policy, history, s, packet, false);
    var m := FirstMatchIndex(s, packet.address);
    if m < |s| {
      assert EqAddr(s[m], packet.address);
    } else {
      var f := FirstFreeIndex(s);
      if f < |s| {
        assert !IsValid(s[f]);
      }
    }
  }

  /**
   A successful add_rq fills the first empty slot with a copy of the packet, leaves every
   other slot alone, submits exactly one read, and makes no return_data call.
   */
  lemma {:induction false} ReadAdmissionSuccess(policy: Policy, history: seq<Event>, s: seq<Packet>, packet: Packet)
    requires ReadAdmission(policy, history, s, packet, false).outcome.Returned?
    ensures var st := ReadAdmission(policy, history, s, packet, false);
      exists i :: 0 <= i < |s| && !IsValid(s[i]) && (forall j :: 0 <= j < i ==> IsValid(s[j]))
        && st.slots == s[i := packet]
        && st.history == history + [Submit(packet.address, false)]
        && Submitted(st.history) == Submitted(history) + [Submit(packet.address, false)]
        && st.notes == []
  {
    var i := FirstFreeIndex(s);
    var h' := history + [Submit(packet.address, false)];
    assert h'[..|h'| - 1] == history;
  }

  /**
   A successful add_rq returns get_occupancy(1, address) taken after the insertion: a
   code between 0 and the capacity, and positive when the admitted packet is live.
   */
  lemma {:induction false} ReadAdmissionCode(policy: Policy, history: seq<Event>, s: seq<Packet>, packet: Packet)
    requires |s| < 0x8000_0000
    requires ReadAdmission(policy, history, s, packet, false).outcome.Returned?
    ensures var st := ReadAdmission(policy, history, s, packet, false);
      && 0 <= st.outcome.code <= |s|
      && (IsValid(packet) ==> st.outcome.code > 0)
      && (policy(st.history, packet.address, false) ==> st.outcome.code == ValidCount(s) + Bit(packet))
      && (!policy(st.history, packet.address, false) ==> st.outcome.code == |s|)
  {
    var i := FirstFreeIndex(s);
    var s' := s[i := packet];
    var h' := history + [Submit(packet.address, false)];
    var occ := Occupancy(policy, h', s', 1, packet.address);
    assert ReadAdmission(policy, history, s, packet, false) == Step(Returned(ToInt32(occ)), s', h', []);
    ValidCountUpdate(s, i, packet);
    assert Bit(s[i]) == 0;
    if policy(h', packet.address, false) {
      assert occ == ValidCount(s') == ValidCount(s) + Bit(packet);
    } else {
      assert occ == |s|;
    }
  }

  /** add_rq keeps at most one live slot per block. */
  lemma {:induction false} ReadAdmissionKeepsUniqueBlocks(policy: Policy, history: seq<Event>, s: seq<Packet>, packet: Packet, warmingUp: bool)
    requires UniqueBlocks(s)
    ensures UniqueBlocks(ReadAdmission(policy, history, s, packet, warmingUp).slots)
  {
    var i := FirstFreeIndex(s);
    if !warmingUp && FirstMatchIndex(s, packet.address) == |s| && i < |s| {
      var s' := s[i := packet];
      forall a, b | 0 <= a < b < |s'| && IsValid(s'[a]) && IsValid(s'[b])
        ensures BlockNumber(s'[a].address) != BlockNumber(s'[b].address)
      {
        if a == i {
          assert !EqAddr(s[b], packet.address);
        } else if b == i {
          assert !EqAddr(s[a], packet.address);
        }
      }
    }
  }

  // ---------------------------------------------------------------------------
  // add_wq

  /**
   add_wq never touches the slots: -1 with no effect during warm-up, -2 with no effect
   when DRAMsim3 refuses the write, otherwise 0 after submitting exactly one write.
   */
  lemma {:induction false} WriteAdmissionCases(policy: Policy, history: seq<Event>, s: seq<Packet>, packet: Packet, warmingUp: bool)
    ensures var st := WriteAdmission(policy, history, s, packet, warmingUp);
      && st.slots == s && st.notes == []
      && (warmingUp ==> st.outcome == Returned(-1) && st.history == history)
      && (!warmingUp && !policy(history, packet.address, true) ==>
            st.outcome == Returned(-2) && st.history == history)
      && (!warmingUp && policy(history, packet.address, true) ==>
            st.outcome == Returned(0) &&
            st.history == history + [Submit(packet.address, true)] &&
            Submitted(st.history) == Submitted(history) + [Submit(packet.address, true)])
  {
    var h' := history + [Submit(packet.address, true)];
    assert h'[..|h'| - 1] == history;
  }

  // ---------------------------------------------------------------------------
  // ReadCallBack

  /** With unique blocks, the slot find_if locates for a live block is the only one holding it. */
  lemma {:induction false} MatchIsTheLiveSlot(s: seq<Packet>, i: nat, address: uint64)
    requires UniqueBlocks(s)
    requires i < |s| && EqAddr(s[i], address)
    ensures FirstMatchIndex(s, address) == i
  {
  }

  /**
   ReadCallBack aborts exactly when no live slot holds the block; otherwise it notifies
   the slot's targets in order with that packet, empties that slot only, lowers the live
   count by one and keeps blocks unique.
   */
  lemma {:induction false} ReadCompletionEffect(s: seq<Packet>, address: uint64)
    requires UniqueBlocks(s)
    ensures var c := ReadCompletion(s, address);
      && (c.aborted <==> forall j :: 0 <= j < |s| ==> !EqAddr(s[j], address))
      && (c.aborted ==> c.slots == s && c.notes == [])
      && (!c.aborted ==>
            exists i ::
              && 0 <= i < |s| && EqAddr(s[i], address)
              && c.slots == s[i := Empty]
              && |c.notes| == |s[i].toReturn|
              && (forall k :: 0 <= k < |c.notes| ==> c.notes[k] == Notify(s[i].toReturn[k], s[i])))
      && (!c.aborted ==> ValidCount(c.slots) == ValidCount(s) - 1)
      && UniqueBlocks(c.slots)
  {
    var i := FirstMatchIndex(s, address);
    if i < |s| {
      ValidCountUpdate(s, i, Empty);
    }
  }

  /**
   The round trip the Meta-RQ exists for: after a successful add_rq of a live packet,
   the completion of its address returns that very packet to each of its targets in
   order and frees its slot, restoring the live count.
   */
  lemma {:induction false} AdmitThenComplete(policy: Policy, history: seq<Event>, s: seq<Packet>, packet: Packet)
    requires UniqueBlocks(s) && IsValid(packet)
    requires ReadAdmission(policy, history, s, packet, false).outcome.Returned?
    ensures var st := ReadAdmission(policy, history, s, packet, false);
      var c := ReadCompletion(st.slots, packet.address);
      && !c.aborted
      && c.notes == NotifyAll(packet.toReturn, packet)
      && c.slots == s[FirstFreeIndex(s) := Empty]
      && ValidCount(c.slots) == ValidCount(s)
  {
    var i := FirstFreeIndex(s);
    var st := ReadAdmission(policy, history, s, packet, false);
    ReadAdmissionKeepsUniqueBlocks(policy, history, s, packet, false);
    MatchIsTheLiveSlot(st.slots, i, packet.address);
    assert st.slots[i := Empty] == s[i := Empty];
    ValidCountUpdate(s, i, Empty);
    assert Bit(s[i]) == 0;
  }

  // ---------------------------------------------------------------------------
  // A worked run

  /** A timing model that takes every read and refuses every write. */
  function ReadsOnly(history: seq<Event>, address: uint64, isWrite: bool): bool
  {
    !isWrite
  }

  /**
   Four slots after warm-up: read A is admitted with code 1; a second read of A's block
   aborts instead of merging; read B is admitted with code 2; the completion of A
   notifies A's one target and leaves one live slot; a refused write returns -2.
   */
  lemma {:induction false} FourSlotRun()
    ensures
      var a := Packet(true, 0x1000, [7]);
      var a2 := Packet(true, 0x1008, [8]);
      var b := Packet(true, 0x2000, [9]);
      var c := Packet(true, 0x3000, []);
      var s0 := [Empty, Empty, Empty, Empty];
      var st1 := ReadAdmission(ReadsOnly, [], s0, a, false);
      var st2 := ReadAdmission(ReadsOnly, st1.history, st1.slots, a2, false);
      var st3 := ReadAdmission(ReadsOnly, st2.history, st2.slots, b, false);
      var done := ReadCompletion(st3.slots, a.address);
      var w := WriteAdmission(ReadsOnly, st3.history, done.slots, c, false);
      && st1.outcome == Returned(1) && st1.slots == [a, Empty, Empty, Empty]
      && st2.outcome == Aborted(DuplicateInFlight) && st2.slots == st1.slots && st2.history == st1.history
      && st3.outcome == Returned(2) && st3.slots == [a, b, Empty, Empty]
      && st3.history == [Submit(0x1000, false), Submit(0x2000, false)]
      && !done.aborted && done.notes == [Notify(7, a)] && done.slots == [Empty, b, Empty, Empty]
      && Occupancy(ReadsOnly, st3.history, done.slots, 1, 0x1000) == 1
      && w.outcome == Returned(-2) && w.slots == done.slots && w.history == st3.history
  {
    var a := Packet(true, 0x1000, [7]);
    var a2 := Packet(true, 0x1008, [8]);
    var b := Packet(true, 0x2000, [9]);
    var s0 := [Empty, Empty, Empty, Empty];
    var s1 := [a, Empty, Empty, Empty];
    var s3 := [a, b, Empty, Empty];
    var s4 := [Empty, b, Empty, Empty];
    assert FirstMatchIndex(s0, a.address) == 4 by {
      assert s0[1..] == [Empty, Empty, Empty];
      assert s0[1..][1..] == [Empty, Empty];
      assert s0[1..][1..][1..] == [Empty];
      assert s0[1..][1..][1..][1..] == [];
    }
    assert FirstFreeIndex(s0) == 0;
    assert s0[0 := a] == s1;
    assert [Empty][1..] == [];
    assert ValidCount([Empty]) == 0;
    assert [Empty, Empty][1..] == [Empty];
    assert ValidCount([Empty, Empty]) == 0;
    assert [Empty, Empty, Empty][1..] == [Empty, Empty];
    assert ValidCount(s1) == 1 by {
      assert s1[1..] == [Empty, Empty, Empty];
    }
    assert FirstMatchIndex(s1, a2.address) == 0;
    assert FirstMatchIndex(s1, b.address) == 4 by {
      assert s1[1..] == [Empty, Empty, Empty];
      assert s1[1..][1..] == [Empty, Empty];
      assert s1[1..][1..][1..] == [Empty];
      assert s1[1..][1..][1..][1..] == [];
    }
    assert FirstFreeIndex(s1) == 1 by {
      assert s1[1..] == [Empty, Empty, Empty];
    }
    assert s1[1 := b] == s3;
    assert ValidCount(s3) == 2 by {
      assert s3[1..] == [b, Empty, Empty];
      assert s3[1..][1..] == [Empty, Empty];
    }
    assert FirstMatchIndex(s3, a.address) == 0;
    assert s3[0 := Empty] == s4;
    assert ValidCount(s4) == 1 by {
      assert s4[1..] == [b, Empty, Empty];
      assert s4[1..][1..] == [Empty, Empty];
    }
  }
}
