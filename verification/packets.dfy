/**
 The request entity that the Meta-RQ stores, the block-address comparison used to
 find a slot, and the `return_data` notifications the wrapper issues.
 */
module Packets {

  type uint8 = x: int | 0 <= x < 0x100
  type uint32 = x: int | 0 <= x < 0x1_0000_0000
  type uint64 = x: int | 0 <= x < 0x1_0000_0000_0000_0000

  /** Conversion of a wider unsigned value (size_t, ptrdiff_t, -1) to uint32_t. */
  function ToUint32(n: int): (r: uint32)
    ensures 0 <= n < 0x1_0000_0000 ==> r == n
    ensures n == -1 ==> r == 0xFFFF_FFFF
  {
    n % 0x1_0000_0000
  }

  /** Conversion of a uint32_t to a two's-complement 32-bit int. */
  function ToInt32(u: uint32): (r: int)
    ensures -0x8000_0000 <= r < 0x8000_0000
    ensures u < 0x8000_0000 ==> r == u
    ensures ToUint32(r) == u
  {
    if u < 0x8000_0000 then u else u - 0x1_0000_0000
  }

  /** log2 of the cache block size; 64-byte blocks. */
  const LOG2_BLOCK_SIZE: nat := 6

  function Pow2(n: nat): (r: nat)
    ensures r > 0
  {
    if n == 0 then 1 else 2 * Pow2(n - 1)
  }

  /** `1 << LOG2_BLOCK_SIZE` */
  const BLOCK_SIZE: nat := Pow2(LOG2_BLOCK_SIZE)

  /** `address >> LOG2_BLOCK_SIZE`: the index of the 64-byte block holding `address`. */
  function BlockNumber(address: uint64): (b: nat)
    ensures b * BLOCK_SIZE <= address < (b + 1) * BLOCK_SIZE
  {
    address / BLOCK_SIZE
  }

  /** Identity of a MemoryRequestProducer that must be told when a request completes. */
  type ProducerId = nat

  /**
   The fields of a PACKET that the Meta-RQ reads or writes: whether the slot is live,
   the physical address, and the ordered list of return targets.
   */
  datatype Packet = Packet(valid: bool, address: uint64, toReturn: seq<ProducerId>)

  /** The value-initialised packet `{}`: the empty-slot sentinel. */
  const Empty: Packet := Packet(false, 0, [])

  /** `is_valid<PACKET>()`: the slot holds a live request; the empty sentinel never does. */
  predicate IsValid(p: Packet): (r: bool)
    ensures r ==> p != Empty
  {
    p.valid
  }

  /** `eq_addr<PACKET>(address, LOG2_BLOCK_SIZE)`: a live slot in the same block. */
  predicate EqAddr(p: Packet, address: uint64): (r: bool)
    ensures r ==> IsValid(p)
    ensures IsValid(p) && p.address == address ==> r
    ensures IsValid(p) ==> (r <==> p.address - p.address % BLOCK_SIZE == address - address % BLOCK_SIZE)
  {
    IsValid(p) && BlockNumber(p.address) == BlockNumber(address)
  }

  /** A slot reset to `{}` is free and matches no address, and has nobody to notify. */
  lemma {:induction false} EmptySlotIsFree()
    ensures !IsValid(Empty) && Empty.toReturn == []
    ensures forall address: uint64 :: !EqAddr(Empty, address)
  {
  }

  /** One call `target->return_data(&packet)`. */
  datatype Notification = Notify(target: ProducerId, packet: Packet)

  /** The calls made by `for (auto ret : to_return) ret->return_data(p)`. */
  function NotifyAll(targets: seq<ProducerId>, p: Packet): (r: seq<Notification>)
    ensures |r| == |targets|
    ensures forall k :: 0 <= k < |targets| ==> r[k] == Notify(targets[k], p)
  {
    if targets == [] then [] else [Notify(targets[0], p)] + NotifyAll(targets[1..], p)
  }
}
