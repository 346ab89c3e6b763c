/** The distance slots of the LZ token loop: tools/decode_kernel_probe.cpp. */
module DistanceCode {
  import opened PowersOfTwo

  /** Bits that follow a slot. */
  function ExtraBits(slot: nat): nat { if slot < 4 then 0 else slot / 2 - 1 }

  /** The distance decoded from a slot, the raw bits above the low four, and the rest: a low-distance symbol when
      there are at least four bits, raw bits otherwise. */
  function Distance(slot: nat, high: nat, low: nat): nat {
    var start := if slot < 4 then 1 + slot else 1 + (2 + slot % 2) * Pow2(ExtraBits(slot));
    if ExtraBits(slot) > 4 then start + high * 16 + low else start + low
  }

  /** What a stream can hold after a slot. */
  predicate Readable(slot: nat, high: nat, low: nat) {
    var bits := ExtraBits(slot);
    && high < (if bits > 4 then Pow2(bits - 4) else 1)
    && low < (if bits >= 4 then 16 else Pow2(bits))
  }

  /** The smallest distance of a slot, less one. */
  function Start(slot: nat): nat { if slot < 4 then slot else (2 + slot % 2) * Pow2(ExtraBits(slot)) }

  /** The slots tile the distances: each ends where the next starts. */
  lemma Tiles(slot: nat)
    ensures Start(slot + 1) == Start(slot) + Pow2(ExtraBits(slot))
  {
    hide Pow2;
    Pow2Next(0);
    if slot == 3 {
    } else if slot >= 4 && slot % 2 == 1 {
      Pow2Next(ExtraBits(slot));
    }
  }

  lemma {:induction false} StartGrows(a: nat, b: nat)
    requires a <= b
    ensures Start(a) <= Start(b)
    decreases b
  {
    if a < b {
      StartGrows(a, b - 1);
      Tiles(b - 1);
    }
  }

  lemma Pow16(bits: nat)
    requires bits >= 4
    ensures Pow2(bits) == 16 * Pow2(bits - 4)
  {
    assert Pow2(bits) == 4 * Pow2(bits - 2) && Pow2(bits - 2) == 4 * Pow2(bits - 4);
  }

  /** The payload of a reading: its position within its slot. */
  function Payload(slot: nat, high: nat, low: nat): nat { if ExtraBits(slot) > 4 then high * 16 + low else low }

  lemma PayloadFits(slot: nat, high: nat, low: nat)
    requires Readable(slot, high, low)
    ensures Payload(slot, high, low) < Pow2(ExtraBits(slot)) &&
        Distance(slot, high, low) == 1 + Start(slot) + Payload(slot, high, low)
  {
    hide Pow2;
    if ExtraBits(slot) >= 4 {
      Pow16(ExtraBits(slot));
      Pow2Next(0);
    }
  }

  /** The slot that holds a distance, sought from slot s on. */
  function SlotFrom(distance: nat, s: nat, slots: nat): (slot: nat)
    requires s < slots && Start(s) < distance <= Start(slots)
    ensures s <= slot < slots && Start(slot) < distance <= Start(slot + 1)
    decreases slots - s
  {
    if distance <= Start(s + 1) then s else SlotFrom(distance, s + 1, slots)
  }

  datatype Reading = Reading(slot: nat, high: nat, low: nat)

  function Encode(distance: nat, slots: nat): Reading
    requires slots > 0 && 1 <= distance <= Start(slots)
  {
    var slot := SlotFrom(distance, 0, slots);
    var payload := distance - 1 - Start(slot);
    if ExtraBits(slot) > 4 then Reading(slot, payload / 16, payload % 16) else Reading(slot, 0, payload)
  }

  lemma EncodeReads(distance: nat, slots: nat)
    requires slots > 0 && 1 <= distance <= Start(slots)
    ensures var r := Encode(distance, slots);
      r.slot < slots && Readable(r.slot, r.high, r.low) && Distance(r.slot, r.high, r.low) == distance
  {
    hide Pow2, SlotFrom;
    var slot := SlotFrom(distance, 0, slots);
    Tiles(slot);
    if ExtraBits(slot) >= 4 {
      Pow16(ExtraBits(slot));
      Pow2Next(0);
    }
  }

  /** Two readings of one distance are the same reading. */
  lemma DistanceInjective(r: Reading, s: Reading)
    requires Readable(r.slot, r.high, r.low) && Readable(s.slot, s.high, s.low)
    requires Distance(r.slot, r.high, r.low) == Distance(s.slot, s.high, s.low)
    ensures r == s
  {
    hide Pow2, Distance;
    PayloadFits(r.slot, r.high, r.low);
    PayloadFits(s.slot, s.high, s.low);
    Tiles(r.slot);
    Tiles(s.slot);
    if r.slot < s.slot { StartGrows(r.slot + 1, s.slot); }
    if s.slot < r.slot { StartGrows(s.slot + 1, r.slot); }
    Sixteenths(r.high, r.low, s.high, s.low);
  }

  lemma Sixteenths(a: nat, b: nat, c: nat, d: nat)
    ensures b < 16 && d < 16 && a * 16 + b == c * 16 + d ==> a == c && b == d
  {
  }

  lemma Limits()
    ensures Start(64) == 0x1_0000_0000 && Start(80) == 0x100_0000_0000
  {
    assert Pow2(8) == 256;
    assert Pow2(16) == 65536;
    assert Pow2(24) == 0x100_0000;
    assert Pow2(31) == 0x8000_0000;
    assert Pow2(39) == 0x80_0000_0000;
  }

  /** With 64 slots every distance from 1 to 2^32, and with 80 slots every distance from 1 to 2^40, has exactly one
      reading, and no reading gives any other distance. */
  lemma DistanceBijection(slots: nat, distance: nat)
    requires slots == 64 || slots == 80
    ensures 1 <= distance <= (if slots == 64 then 0x1_0000_0000 else 0x100_0000_0000) <==>
      exists r: Reading :: r.slot < slots && Readable(r.slot, r.high, r.low) &&
          Distance(r.slot, r.high, r.low) == distance
  {
    hide Pow2, Distance, Readable;
    Limits();
    if 1 <= distance <= Start(slots) {
      EncodeReads(distance, slots);
    }
    forall r: Reading | r.slot < slots && Readable(r.slot, r.high, r.low) && Distance(r.slot, r.high, r.low) == distance
      ensures 1 <= distance <= Start(slots)
    {
      PayloadFits(r.slot, r.high, r.low);
      Tiles(r.slot);
      StartGrows(r.slot + 1, slots);
    }
  }

  /** Distances grow with the slot, then with the high part, then with the low part; with the bijection this leaves one
      way to assign them. */
  lemma DistanceOrder(r: Reading, s: Reading)
    requires Readable(r.slot, r.high, r.low) && Readable(s.slot, s.high, s.low)
    requires r.slot < s.slot || (r.slot == s.slot && (r.high < s.high || (r.high == s.high && r.low < s.low)))
    ensures Distance(r.slot, r.high, r.low) < Distance(s.slot, s.high, s.low)
  {
    hide Pow2, Distance, Start;
    PayloadFits(r.slot, r.high, r.low);
    PayloadFits(s.slot, s.high, s.low);
    if r.slot < s.slot {
      Tiles(r.slot);
      StartGrows(r.slot + 1, s.slot);
    } else {
      PayloadOrder(r, s);
    }
  }

  lemma PayloadOrder(r: Reading, s: Reading)
    requires Readable(r.slot, r.high, r.low) && Readable(s.slot, s.high, s.low) && r.slot == s.slot
    requires r.high < s.high || (r.high == s.high && r.low < s.low)
    ensures Payload(r.slot, r.high, r.low) < Payload(s.slot, s.high, s.low)
  {
    hide Pow2;
  }
}
