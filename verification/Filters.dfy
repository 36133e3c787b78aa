/** utils/bitarray.go and the filter registry of filters.go. */
module Filters {
  import opened Common

  // ---- one 64-bit word -------------------------------------------------------------------

  function Mask(k: nat): bv64
    requires k < 64
  {
    1 << k
  }

  predicate Bit(word: bv64, k: nat)
    requires k < 64
  {
    And(word, Mask(k)) != 0
  }

  function And(a: bv64, b: bv64): bv64 {
    a & b
  }

  /** `word ^ ((-b ^ word) & mask)`: the bits of the mask become b, without a branch. */
  function Blend(word: bv64, b: bv64, mask: bv64): bv64 {
    word ^ (((0 - b) ^ word) & mask)
  }

  function WithBit(word: bv64, k: nat, v: bool): bv64
    requires k < 64
  {
    Blend(word, if v then 1 else 0, Mask(k))
  }

  lemma OutsideMaskKept(word: bv64, b: bv64, mask: bv64, other: bv64)
    requires And(mask, other) == 0
    ensures And(Blend(word, b, mask), other) == And(word, other)
  {
  }

  lemma InsideMaskSet(word: bv64, mask: bv64)
    ensures And(Blend(word, 1, mask), mask) == mask
    ensures And(Blend(word, 0, mask), mask) == 0
  {
  }

  lemma MaskNotZero(k: nat)
    requires k < 64
    ensures Mask(k) != 0
  {
  }

  lemma MasksApart(j: nat, k: nat)
    requires j < 64 && k < 64 && j != k
    ensures And(Mask(k), Mask(j)) == 0
  {
  }

  lemma OwnBitSet(word: bv64, k: nat, v: bool)
    requires k < 64
    ensures Bit(WithBit(word, k, v), k) == v
  {
    hide Mask, Blend, And;
    MaskNotZero(k);
    InsideMaskSet(word, Mask(k));
  }

  lemma OtherBitKept(word: bv64, k: nat, v: bool, j: nat)
    requires j < 64 && k < 64 && j != k
    ensures Bit(WithBit(word, k, v), j) == Bit(word, j)
  {
    hide Mask, Blend, And;
    MasksApart(j, k);
    OutsideMaskKept(word, if v then 1 else 0, Mask(k), Mask(j));
  }

  // ---- the bit array ---------------------------------------------------------------------

  class Bitarray {
    const words: array<bv64>

    constructor (bits: nat)
      requires bits % 64 == 0
      ensures fresh(words) && words.Length == bits / 64
      ensures forall i :: 0 <= i < bits ==> !Get(i)
    {
      words := new bv64[bits / 64](i => 0);
    }

    predicate Get(i: nat)
      requires i < 64 * words.Length
      reads words
    {
      Bit(words[i / 64], i % 64)
    }

    method Set(i: nat, v: bool)
      requires i < 64 * words.Length
      modifies words
      ensures forall j :: 0 <= j < 64 * words.Length ==> Get(j) == if j == i then v else old(Get(j))
    {
      hide Bit, WithBit;
      ghost var before := words[i / 64];
      words[i / 64] := WithBit(words[i / 64], i % 64, v);
      forall j | 0 <= j < 64 * words.Length
        ensures Get(j) == if j == i then v else old(Get(j))
      {
        if j == i {
          OwnBitSet(before, i % 64, v);
        } else if j / 64 == i / 64 {
          OtherBitKept(before, i % 64, v, j % 64);
        }
      }
    }
  }

  // ---- the registry ----------------------------------------------------------------------

  const MAX_PACKET_ID := 256

  /** The slot handler.go looks in: int(direction-1)*256 + int(id). */
  function Slot(direction: Direction, id: int): int {
    (if direction == ServerBound then 0 else 1) * 256 + id
  }

  /** Two packets share a slot only if they are the same, except that the server-bound ID 256,
      which the frame reader lets pass, falls on the client-bound ID 0. */
  lemma SlotsExact(d1: Direction, id1: int, d2: Direction, id2: int)
    requires 0 <= id1 <= MAX_PACKET_ID && 0 <= id2 <= MAX_PACKET_ID
    ensures Slot(d1, id1) == Slot(d2, id2) <==>
      || (d1 == d2 && id1 == id2)
      || ((d1, id1) == (ServerBound, 256) && (d2, id2) == (ClientBound, 0))
      || ((d1, id1) == (ClientBound, 0) && (d2, id2) == (ServerBound, 256))
  {
  }

  /** The only packet the frame reader lets pass whose slot is outside both tables: client-bound
      ID 256. */
  lemma SlotsInTables(direction: Direction, id: int)
    requires 0 <= id <= MAX_PACKET_ID
    ensures 0 <= Slot(direction, id)
    ensures Slot(direction, id) < 2 * MAX_PACKET_ID <==> (direction, id) != (ClientBound, 256)
  {
  }

  /** The guard `i/64 > len(b)` of Get and Set is off by one word: exactly the 64 bits behind the
      array pass it and make the index panic, and slot 512 is one of them. */
  lemma GuardMissesExactly(words: nat, i: nat)
    ensures i / 64 <= words && i >= 64 * words <==> 64 * words <= i < 64 * words + 64
    ensures var slot := Slot(ClientBound, 256);
      var length := 2 * MAX_PACKET_ID / 64;
      slot / 64 <= length && slot >= 64 * length
  {
  }

  class Registry<F> {
    const packetFilters: array<seq<F>>
    const packetsParsed: Bitarray

    /** A packet is parsed exactly if someone filters it. */
    ghost predicate Valid()
      reads this, packetFilters, packetsParsed, packetsParsed.words
    {
      && packetFilters.Length == 2 * MAX_PACKET_ID
      && packetsParsed.words.Length == 2 * MAX_PACKET_ID / 64
      && forall i :: 0 <= i < packetFilters.Length ==> (packetsParsed.Get(i) <==> packetFilters[i] != [])
    }

    constructor ()
      ensures Valid() && fresh(packetFilters) && fresh(packetsParsed.words)
      ensures forall i :: 0 <= i < packetFilters.Length ==> packetFilters[i] == []
    {
      packetFilters := new seq<F>[2 * MAX_PACKET_ID](i => []);
      packetsParsed := new Bitarray(2 * MAX_PACKET_ID);
    }

    /** RegisterPacketFilter: appends to one bucket, touches no other, sets its bit. */
    method Register(direction: Direction, id: nat, callback: F)
      requires Valid() && id < MAX_PACKET_ID
      modifies packetFilters, packetsParsed.words
      ensures Valid()
      ensures packetFilters[Slot(direction, id)] == old(packetFilters[Slot(direction, id)]) + [callback]
      ensures forall i :: 0 <= i < packetFilters.Length && i != Slot(direction, id) ==>
        packetFilters[i] == old(packetFilters[i])
    {
      match direction {
        case ServerBound =>
          var i := id;
          packetFilters[i] := packetFilters[i] + [callback];
          packetsParsed.Set(i, true);
        case ClientBound =>
          var i := id + 256;
          packetFilters[i] := packetFilters[i] + [callback];
          packetsParsed.Set(i, true);
      }
    }

    /** The decision of read_packets. */
    predicate ShouldParse(direction: Direction, id: nat)
      requires Valid() && id < MAX_PACKET_ID
      reads this, packetFilters, packetsParsed, packetsParsed.words
      ensures ShouldParse(direction, id) <==> packetFilters[Slot(direction, id)] != []
    {
      packetsParsed.Get(Slot(direction, id))
    }
  }
}
