/**
 The 256-bit capability mask of `src/identity/narrowing.rs` against plain sets of bit
 positions, and the registry that hands out positions without collisions.
 */
module Narrowing {
  import opened Basics
  import opened Encoding

  /** A `[u8; 32]`. */
  type Mask = m: seq<bv8> | |m| == 32 witness seq(32, _ => 0)

  type Slot = n: nat | n < 256

  // ---------------------------------------------------------------- bits of one byte

  /** `1u8 << k`. */
  function Bit(k: nat): bv8
    requires k < 8
  {
    (1 as bv8) << k
  }

  lemma BitTable(k: nat)
    requires k < 8
    ensures Bit(k) == if k == 0 then 1 else if k == 1 then 2 else if k == 2 then 4 else if k == 3 then 8
                      else if k == 4 then 16 else if k == 5 then 32 else if k == 6 then 64 else 128
  {
  }

  predicate HasBit(b: bv8, k: nat)
    requires k < 8
  {
    b & Bit(k) != 0
  }

  lemma SetBitAdds(b: bv8, j: nat, k: nat)
    requires j < 8 && k < 8
    ensures HasBit(b | Bit(j), k) <==> HasBit(b, k) || j == k
  {
    BitTable(j);
    BitTable(k);
  }

  lemma ZeroHasNoBit(k: nat)
    requires k < 8
    ensures !HasBit(0, k)
  {
    BitTable(k);
  }

  lemma AndMeetsBits(a: bv8, b: bv8, k: nat)
    requires k < 8
    ensures HasBit(a & b, k) <==> HasBit(a, k) && HasBit(b, k)
  {
    BitTable(k);
  }

  predicate ByteSubset(a: bv8, b: bv8) {
    a & b == a
  }

  lemma EightBitsDecide(a: bv8, b: bv8)
    requires a & 1 != 0 ==> b & 1 != 0
    requires a & 2 != 0 ==> b & 2 != 0
    requires a & 4 != 0 ==> b & 4 != 0
    requires a & 8 != 0 ==> b & 8 != 0
    requires a & 16 != 0 ==> b & 16 != 0
    requires a & 32 != 0 ==> b & 32 != 0
    requires a & 64 != 0 ==> b & 64 != 0
    requires a & 128 != 0 ==> b & 128 != 0
    ensures a & b == a
  {
  }

  lemma ByteSubsetIsInclusion(a: bv8, b: bv8)
    ensures ByteSubset(a, b) <==> forall k :: 0 <= k < 8 ==> HasBit(a, k) ==> HasBit(b, k)
  {
    forall k | 0 <= k < 8
      ensures Bit(k) == if k == 0 then 1 else if k == 1 then 2 else if k == 2 then 4 else if k == 3 then 8
                        else if k == 4 then 16 else if k == 5 then 32 else if k == 6 then 64 else 128
    {
      BitTable(k);
    }
    if forall k :: 0 <= k < 8 ==> HasBit(a, k) ==> HasBit(b, k) {
      assert HasBit(a, 0) ==> HasBit(b, 0);
      assert HasBit(a, 1) ==> HasBit(b, 1);
      assert HasBit(a, 2) ==> HasBit(b, 2);
      assert HasBit(a, 3) ==> HasBit(b, 3);
      assert HasBit(a, 4) ==> HasBit(b, 4);
      assert HasBit(a, 5) ==> HasBit(b, 5);
      assert HasBit(a, 6) ==> HasBit(b, 6);
      assert HasBit(a, 7) ==> HasBit(b, 7);
      EightBitsDecide(a, b);
    }
    if ByteSubset(a, b) {
      forall k | 0 <= k < 8 && HasBit(a, k) ensures HasBit(b, k) { AndMeetsBits(a, b, k); }
    }
  }

  // ---------------------------------------------------------------- words of eight bytes

  predicate Within(s: bv64, p: bv64) {
    s & p == s
  }

  function Join(b0: bv8, b1: bv8, b2: bv8, b3: bv8, b4: bv8, b5: bv8, b6: bv8, b7: bv8): bv64 {
    (b0 as bv64) | ((b1 as bv64) << 8) | ((b2 as bv64) << 16) | ((b3 as bv64) << 24) |
    ((b4 as bv64) << 32) | ((b5 as bv64) << 40) | ((b6 as bv64) << 48) | ((b7 as bv64) << 56)
  }

  /** `u64::from_le_bytes` of bytes `8 * i` to `8 * i + 7`. */
  function ReadU64(m: Mask, i: nat): bv64
    requires i < 4
  {
    Join(m[8 * i], m[8 * i + 1], m[8 * i + 2], m[8 * i + 3], m[8 * i + 4], m[8 * i + 5], m[8 * i + 6], m[8 * i + 7])
  }

  lemma JoinAnd(
      a0: bv8, a1: bv8, a2: bv8, a3: bv8, a4: bv8, a5: bv8, a6: bv8, a7: bv8,
      b0: bv8, b1: bv8, b2: bv8, b3: bv8, b4: bv8, b5: bv8, b6: bv8, b7: bv8)
    ensures Join(a0, a1, a2, a3, a4, a5, a6, a7) & Join(b0, b1, b2, b3, b4, b5, b6, b7) ==
            Join(a0 & b0, a1 & b1, a2 & b2, a3 & b3, a4 & b4, a5 & b5, a6 & b6, a7 & b7)
  {
  }

  lemma JoinedBytes(a0: bv8, a1: bv8, a2: bv8, a3: bv8, a4: bv8, a5: bv8, a6: bv8, a7: bv8)
    ensures var w := Join(a0, a1, a2, a3, a4, a5, a6, a7);
            w & 0xFF == a0 as bv64 && (w >> 8) & 0xFF == a1 as bv64 &&
            (w >> 16) & 0xFF == a2 as bv64 && (w >> 24) & 0xFF == a3 as bv64 &&
            (w >> 32) & 0xFF == a4 as bv64 && (w >> 40) & 0xFF == a5 as bv64 &&
            (w >> 48) & 0xFF == a6 as bv64 && (w >> 56) & 0xFF == a7 as bv64
  {
  }

  lemma WidenInjective(a: bv8, b: bv8)
    requires a as bv64 == b as bv64
    ensures a == b
  {
    assert a == ((a as bv64) & 0xFF) as bv8;
  }

  lemma JoinInjective(
      a0: bv8, a1: bv8, a2: bv8, a3: bv8, a4: bv8, a5: bv8, a6: bv8, a7: bv8,
      b0: bv8, b1: bv8, b2: bv8, b3: bv8, b4: bv8, b5: bv8, b6: bv8, b7: bv8)
    requires Join(a0, a1, a2, a3, a4, a5, a6, a7) == Join(b0, b1, b2, b3, b4, b5, b6, b7)
    ensures a0 == b0 && a1 == b1 && a2 == b2 && a3 == b3 && a4 == b4 && a5 == b5 && a6 == b6 && a7 == b7
  {
    JoinedBytes(a0, a1, a2, a3, a4, a5, a6, a7);
    JoinedBytes(b0, b1, b2, b3, b4, b5, b6, b7);
    WidenInjective(a0, b0);
    WidenInjective(a1, b1);
    WidenInjective(a2, b2);
    WidenInjective(a3, b3);
    WidenInjective(a4, b4);
    WidenInjective(a5, b5);
    WidenInjective(a6, b6);
    WidenInjective(a7, b7);
  }

  lemma JoinedSubset(
      a0: bv8, a1: bv8, a2: bv8, a3: bv8, a4: bv8, a5: bv8, a6: bv8, a7: bv8,
      b0: bv8, b1: bv8, b2: bv8, b3: bv8, b4: bv8, b5: bv8, b6: bv8, b7: bv8)
    ensures Within(Join(a0, a1, a2, a3, a4, a5, a6, a7), Join(b0, b1, b2, b3, b4, b5, b6, b7)) <==>
            ByteSubset(a0, b0) && ByteSubset(a1, b1) && ByteSubset(a2, b2) && ByteSubset(a3, b3) &&
            ByteSubset(a4, b4) && ByteSubset(a5, b5) && ByteSubset(a6, b6) && ByteSubset(a7, b7)
  {
    JoinAnd(a0, a1, a2, a3, a4, a5, a6, a7, b0, b1, b2, b3, b4, b5, b6, b7);
    if Join(a0 & b0, a1 & b1, a2 & b2, a3 & b3, a4 & b4, a5 & b5, a6 & b6, a7 & b7) ==
       Join(a0, a1, a2, a3, a4, a5, a6, a7) {
      JoinInjective(a0 & b0, a1 & b1, a2 & b2, a3 & b3, a4 & b4, a5 & b5, a6 & b6, a7 & b7,
                    a0, a1, a2, a3, a4, a5, a6, a7);
    }
  }

  lemma EightBytes(a: Mask, b: Mask, o: nat)
    requires o <= 24
    ensures (forall k :: o <= k < o + 8 ==> ByteSubset(a[k], b[k])) <==>
            ByteSubset(a[o], b[o]) && ByteSubset(a[o + 1], b[o + 1]) && ByteSubset(a[o + 2], b[o + 2]) &&
            ByteSubset(a[o + 3], b[o + 3]) && ByteSubset(a[o + 4], b[o + 4]) && ByteSubset(a[o + 5], b[o + 5]) &&
            ByteSubset(a[o + 6], b[o + 6]) && ByteSubset(a[o + 7], b[o + 7])
  {
  }

  lemma WordSubset(a: Mask, b: Mask, i: nat)
    requires i < 4
    ensures Within(ReadU64(a, i), ReadU64(b, i)) <==>
            forall k :: 8 * i <= k < 8 * i + 8 ==> ByteSubset(a[k], b[k])
  {
    var o := 8 * i;
    JoinedSubset(a[o], a[o + 1], a[o + 2], a[o + 3], a[o + 4], a[o + 5], a[o + 6], a[o + 7],
                 b[o], b[o + 1], b[o + 2], b[o + 3], b[o + 4], b[o + 5], b[o + 6], b[o + 7]);
    EightBytes(a, b, o);
  }

  // ---------------------------------------------------------------- masks as sets

  predicate Holds(m: Mask, slot: Slot) {
    HasBit(m[slot / 8], slot % 8)
  }

  /** The bit positions of a mask. */
  function Slots(m: Mask): set<Slot> {
    set slot: Slot | 0 <= slot < 256 && Holds(m, slot)
  }

  /** `is_subset_of`: four words, each with nothing outside the parent's. */
  predicate IsSubsetOf(a: Mask, parent: Mask) {
    forall i :: 0 <= i < 4 ==> Within(ReadU64(a, i), ReadU64(parent, i))
  }

  lemma {:induction false} BytewiseSubset(a: Mask, b: Mask)
    ensures IsSubsetOf(a, b) <==> forall k :: 0 <= k < 32 ==> ByteSubset(a[k], b[k])
  {
    forall i | 0 <= i < 4
      ensures Within(ReadU64(a, i), ReadU64(b, i)) <==> forall k :: 8 * i <= k < 8 * i + 8 ==> ByteSubset(a[k], b[k])
    {
      WordSubset(a, b, i);
    }
    if IsSubsetOf(a, b) {
      forall k | 0 <= k < 32 ensures ByteSubset(a[k], b[k]) {
        var i := k / 8;
        assert Within(ReadU64(a, i), ReadU64(b, i));
      }
    }
  }

  lemma SlotInclusion(a: Mask, b: Mask, k: nat, j: nat)
    requires k < 32 && j < 8 && Slots(a) <= Slots(b) && HasBit(a[k], j)
    ensures HasBit(b[k], j)
  {
    var slot: Slot := 8 * k + j;
    assert slot / 8 == k && slot % 8 == j;
    assert slot in Slots(a);
  }

  /** The four-word test is inclusion of the 256-bit sets. */
  lemma {:induction false} SubsetIsInclusion(a: Mask, b: Mask)
    ensures IsSubsetOf(a, b) <==> Slots(a) <= Slots(b)
  {
    BytewiseSubset(a, b);
    forall k | 0 <= k < 32
      ensures ByteSubset(a[k], b[k]) <==> forall j :: 0 <= j < 8 ==> HasBit(a[k], j) ==> HasBit(b[k], j)
    {
      ByteSubsetIsInclusion(a[k], b[k]);
    }
    if IsSubsetOf(a, b) {
      forall slot | slot in Slots(a) ensures slot in Slots(b) {
        assert ByteSubset(a[slot / 8], b[slot / 8]);
      }
    }
    if Slots(a) <= Slots(b) {
      forall k | 0 <= k < 32 ensures ByteSubset(a[k], b[k]) {
        forall j | 0 <= j < 8 && HasBit(a[k], j) ensures HasBit(b[k], j) { SlotInclusion(a, b, k, j); }
      }
    }
  }

  lemma {:induction false} AndIsMeet(a: Mask, b: Mask, m: Mask)
    requires forall j :: 0 <= j < 32 ==> m[j] == a[j] & b[j]
    ensures Slots(m) == Slots(a) * Slots(b)
  {
    forall slot: Slot | true ensures Holds(m, slot) <==> Holds(a, slot) && Holds(b, slot) {
      AndMeetsBits(a[slot / 8], b[slot / 8], slot % 8);
    }
  }

  lemma {:induction false} MeetIsGreatest(a: Mask, b: Mask, m: Mask, c: Mask)
    requires Slots(m) == Slots(a) * Slots(b)
    ensures IsSubsetOf(c, m) <==> IsSubsetOf(c, a) && IsSubsetOf(c, b)
  {
    SubsetIsInclusion(c, a);
    SubsetIsInclusion(c, b);
    SubsetIsInclusion(c, m);
  }

  /** `intersect`: the intersection of the sets, and the greatest mask below both. */
  method Intersect(a: Mask, b: Mask) returns (m: Mask)
    ensures Slots(m) == Slots(a) * Slots(b)
    ensures forall c: Mask :: IsSubsetOf(c, m) <==> IsSubsetOf(c, a) && IsSubsetOf(c, b)
  {
    var mask := new bv8[32](_ => 0);
    for i := 0 to 32
      invariant forall j :: 0 <= j < i ==> mask[j] == a[j] & b[j]
    {
      mask[i] := a[i] & b[i];
    }
    m := mask[..];
    AndIsMeet(a, b, m);
    forall c: Mask | true ensures IsSubsetOf(c, m) <==> IsSubsetOf(c, a) && IsSubsetOf(c, b) {
      MeetIsGreatest(a, b, m, c);
    }
  }

  // ---------------------------------------------------------------- masks in hexadecimal

  /** One lower-case hexadecimal digit from bits `k` to `k + 3`. */
  function HexDigit(b: bv8, k: nat): Byte
    requires k <= 4
  {
    var v := (if HasBit(b, k + 3) then 8 else 0) + (if HasBit(b, k + 2) then 4 else 0) +
             (if HasBit(b, k + 1) then 2 else 0) + (if HasBit(b, k) then 1 else 0);
    if v < 10 then 48 + v else 87 + v
  }

  /** `to_hex`: two lower-case digits a byte, the high one first. */
  function ToHex(m: Mask): (t: Text)
    ensures |t| == 64 && forall i :: 0 <= i < 64 ==> 48 <= t[i] <= 57 || 97 <= t[i] <= 102
  {
    seq(64, i requires 0 <= i < 64 => HexDigit(m[i / 2], if i % 2 == 0 then 4 else 0))
  }

  /** The value of a digit in either case. */
  function HexValue(c: Byte): Option<bv8> {
    if c == 48 then Some(0) else if c == 49 then Some(1) else if c == 50 then Some(2) else if c == 51 then Some(3)
    else if c == 52 then Some(4) else if c == 53 then Some(5) else if c == 54 then Some(6) else if c == 55 then Some(7)
    else if c == 56 then Some(8) else if c == 57 then Some(9)
    else if c == 65 || c == 97 then Some(10) else if c == 66 || c == 98 then Some(11)
    else if c == 67 || c == 99 then Some(12) else if c == 68 || c == 100 then Some(13)
    else if c == 69 || c == 101 then Some(14) else if c == 70 || c == 102 then Some(15)
    else None
  }

  function HexBits(c: Byte): bv8 {
    match HexValue(c)
    case Some(v) => v
    case None => 0
  }

  function FromDigits(high: bv8, low: bv8): bv8 {
    16 * high + low
  }

  /** `from_hex`: exactly 32 bytes of two digits each. */
  function FromHex(t: Text): Result<Mask, A1Error> {
    if |t| == 64 && forall i :: 0 <= i < 64 ==> HexValue(t[i]).Some? then
      Ok(seq(32, i requires 0 <= i < 32 && |t| == 64 => FromDigits(HexBits(t[2 * i]), HexBits(t[2 * i + 1]))))
    else Err(WireFormatError)
  }

  lemma HighDigit(b: bv8)
    ensures HexValue(HexDigit(b, 4)) == Some(b / 16)
  {
    BitTable(4);
    BitTable(5);
    BitTable(6);
    BitTable(7);
  }

  lemma LowDigit(b: bv8)
    ensures HexValue(HexDigit(b, 0)) == Some(b % 16)
  {
    BitTable(0);
    BitTable(1);
    BitTable(2);
    BitTable(3);
  }

  lemma TwoDigits(b: bv8)
    ensures FromDigits(b / 16, b % 16) == b
  {
  }

  lemma ByteReadsBack(m: Mask, i: nat)
    requires i < 32
    ensures HexValue(ToHex(m)[2 * i]).Some? && HexValue(ToHex(m)[2 * i + 1]).Some?
    ensures FromDigits(HexBits(ToHex(m)[2 * i]), HexBits(ToHex(m)[2 * i + 1])) == m[i]
  {
    assert (2 * i) / 2 == i && (2 * i + 1) / 2 == i;
    assert ToHex(m)[2 * i] == HexDigit(m[i], 4) && ToHex(m)[2 * i + 1] == HexDigit(m[i], 0);
    HighDigit(m[i]);
    LowDigit(m[i]);
    TwoDigits(m[i]);
  }

  lemma DigitReadsBack(m: Mask, j: nat)
    requires j < 64
    ensures HexValue(ToHex(m)[j]).Some?
  {
    ByteReadsBack(m, j / 2);
    assert j == 2 * (j / 2) || j == 2 * (j / 2) + 1;
  }

  lemma FromHexAt(t: Text, m: Mask)
    requires |t| == 64 && forall i :: 0 <= i < 64 ==> HexValue(t[i]).Some?
    requires forall i :: 0 <= i < 32 ==> FromDigits(HexBits(t[2 * i]), HexBits(t[2 * i + 1])) == m[i]
    ensures FromHex(t) == Ok(m)
  {
    assert FromHex(t).value == m;
  }

  /** A mask written in hexadecimal reads back. */
  lemma {:induction false} HexRoundTrip(m: Mask)
    ensures FromHex(ToHex(m)) == Ok(m)
  {
    var t := ToHex(m);
    forall j | 0 <= j < 64 ensures HexValue(t[j]).Some? { DigitReadsBack(m, j); }
    forall i | 0 <= i < 32 ensures FromDigits(HexBits(t[2 * i]), HexBits(t[2 * i + 1])) == m[i] { ByteReadsBack(m, i); }
    FromHexAt(t, m);
  }

  // ---------------------------------------------------------------- building masks

  const EMPTY: Mask := seq(32, _ => 0)

  lemma EmptyHasNoSlots()
    ensures Slots(EMPTY) == {}
  {
    forall slot: Slot | true ensures !Holds(EMPTY, slot) { ZeroHasNoBit(slot % 8); }
  }

  /** `mask[slot / 8] |= 1u8 << (slot % 8)`. */
  function WithSlot(m: Mask, slot: Slot): Mask {
    m[slot / 8 := m[slot / 8] | Bit(slot % 8)]
  }

  lemma WithSlotAdds(m: Mask, slot: Slot)
    ensures Slots(WithSlot(m, slot)) == Slots(m) + {slot}
  {
    forall other: Slot | true ensures Holds(WithSlot(m, slot), other) <==> Holds(m, other) || other == slot {
      SetBitAdds(m[slot / 8], slot % 8, other % 8);
    }
  }

  function SlotsOf(names: seq<Text>, slotOf: Text -> Slot): set<Slot> {
    set n | n in names :: slotOf(n)
  }

  lemma SlotsOfGrow(names: seq<Text>, i: nat, slotOf: Text -> Slot)
    requires i < |names|
    ensures SlotsOf(names[..i + 1], slotOf) == SlotsOf(names[..i], slotOf) + {slotOf(names[i])}
    ensures i + 1 == |names| ==> names[..i + 1] == names
  {
    assert forall n :: n in names[..i + 1] <==> n in names[..i] || n == names[i];
  }

  /** The mask of a list of names, for any assignment of positions to names. */
  function MaskOf(names: seq<Text>, slotOf: Text -> Slot): (m: Mask)
    ensures Slots(m) == SlotsOf(names, slotOf)
  {
    if names == [] then
      EmptyHasNoSlots();
      EMPTY
    else
      var n := |names| - 1;
      var before := MaskOf(names[..n], slotOf);
      WithSlotAdds(before, slotOf(names[n]));
      SlotsOfGrow(names, n, slotOf);
      WithSlot(before, slotOf(names[n]))
  }

  /** The mask of one name has that one bit of that one byte. */
  lemma OneNameMask(name: Text, slotOf: Text -> Slot)
    ensures MaskOf([name], slotOf) == EMPTY[slotOf(name) / 8 := Bit(slotOf(name) % 8)]
  {
    assert [name][..0] == [] && MaskOf([], slotOf) == EMPTY;
    assert MaskOf([name], slotOf) == WithSlot(MaskOf([name][..0], slotOf), slotOf(name));
  }

  /** `from_capabilities`. */
  method FromCapabilities(names: seq<Text>, slotOf: Text -> Slot) returns (m: Mask)
    ensures m == MaskOf(names, slotOf)
    ensures Slots(m) == SlotsOf(names, slotOf)
  {
    m := EMPTY;
    for i := 0 to |names|
      invariant m == MaskOf(names[..i], slotOf)
    {
      assert names[..i + 1][..i] == names[..i];
      m := WithSlot(m, slotOf(names[i]));
    }
    assert names[..|names|] == names;
  }

  // ---------------------------------------------------------------- counting

  /** `u8::count_ones`, for the lowest `k` bits. */
  function OnesBelow(b: bv8, k: nat): nat
    requires k <= 8
  {
    if k == 0 then 0 else OnesBelow(b, k - 1) + if HasBit(b, k - 1) then 1 else 0
  }

  /** Ones of the first `n` bytes. */
  function OnesOf(m: Mask, n: nat): nat
    requires n <= 32
  {
    if n == 0 then 0 else OnesOf(m, n - 1) + OnesBelow(m[n - 1], 8)
  }

  function CapacityCount(m: Mask): nat {
    OnesOf(m, 32)
  }

  function SlotsBelow(m: Mask, limit: nat): set<Slot>
    requires limit <= 256
  {
    set slot: Slot | 0 <= slot < limit && Holds(m, slot)
  }

  lemma OneSlotMore(m: Mask, slot: Slot)
    ensures |SlotsBelow(m, slot + 1)| == |SlotsBelow(m, slot)| + if Holds(m, slot) then 1 else 0
  {
    if Holds(m, slot) {
      assert SlotsBelow(m, slot + 1) == SlotsBelow(m, slot) + {slot};
    } else {
      assert SlotsBelow(m, slot + 1) == SlotsBelow(m, slot);
    }
  }

  lemma {:induction false} OnesInByte(m: Mask, n: nat, k: nat)
    requires n < 32 && k <= 8
    ensures |SlotsBelow(m, 8 * n + k)| == |SlotsBelow(m, 8 * n)| + OnesBelow(m[n], k)
  {
    if k > 0 {
      OnesInByte(m, n, k - 1);
      var slot: Slot := 8 * n + k - 1;
      assert slot / 8 == n && slot % 8 == k - 1;
      OneSlotMore(m, slot);
    }
  }

  lemma {:induction false} OnesInBytes(m: Mask, n: nat)
    requires n <= 32
    ensures |SlotsBelow(m, 8 * n)| == OnesOf(m, n)
  {
    if n > 0 {
      OnesInBytes(m, n - 1);
      OnesInByte(m, n - 1, 8);
    } else {
      assert SlotsBelow(m, 0) == {};
    }
  }

  /** `capacity_count` is the size of the set. */
  lemma {:induction false} CountIsSize(m: Mask)
    ensures CapacityCount(m) == |Slots(m)|
  {
    OnesInBytes(m, 32);
    assert SlotsBelow(m, 256) == Slots(m);
  }

  // ---------------------------------------------------------------- the registry

  predicate Injective(slots: map<Text, Slot>) {
    forall m, n :: m in slots && n in slots && slots[m] == slots[n] ==> m == n
  }

  function NameSlots(slots: map<Text, Slot>, names: seq<Text>): set<Slot> {
    set n | n in names && n in slots :: slots[n]
  }

  predicate AllRegistered(slots: map<Text, Slot>, names: seq<Text>) {
    forall n :: n in names ==> n in slots
  }

  class CapabilityRegistry {
    var slots: map<Text, Slot>
    /** A `u8`, which wraps to zero when the last of the 256 positions is taken. */
    var next: Slot
    var count: nat

    ghost predicate Valid()
      reads this
    {
      count == |slots| <= 256 && next == count % 256 && Injective(slots) && forall n :: n in slots ==> slots[n] < count
    }

    constructor ()
      ensures Valid() && slots == map[]
    {
      slots, next, count := map[], 0, 0;
    }

    /** A known name keeps its position, a new one gets the next, and the 257th name is refused. */
    method Register(name: Text) returns (r: Result<Slot, A1Error>)
      requires Valid()
      modifies this
      ensures Valid()
      ensures r.Ok? <==> name in old(slots) || |old(slots)| < 256
      ensures r.Ok? ==> slots == old(slots)[name := r.value]
      ensures r.Ok? && name !in old(slots) ==> r.value == |old(slots)|
      ensures r.Err? || name in old(slots) ==> slots == old(slots)
    {
      if name in slots {
        return Ok(slots[name]);
      }
      if count >= 256 {
        return Err(WireFormatError);
      }
      var slot := next;
      slots := slots[name := slot];
      next := (next + 1) % 256;
      count := count + 1;
      r := Ok(slot);
    }

    method BuildMask(names: seq<Text>) returns (r: Result<Mask, A1Error>)
      ensures r.Ok? <==> AllRegistered(slots, names)
      ensures r.Ok? ==> Slots(r.value) == NameSlots(slots, names)
    {
      var m: Mask := EMPTY;
      EmptyHasNoSlots();
      for i := 0 to |names|
        invariant AllRegistered(slots, names[..i]) && Slots(m) == NameSlots(slots, names[..i])
      {
        assert forall n :: n in names[..i + 1] <==> n in names[..i] || n == names[i];
        if names[i] !in slots {
          return Err(WireFormatError);
        }
        var slot := slots[names[i]];
        WithSlotAdds(m, slot);
        assert NameSlots(slots, names[..i + 1]) == NameSlots(slots, names[..i]) + {slot};
        m := WithSlot(m, slot);
      }
      assert names[..|names|] == names;
      r := Ok(m);
    }

    /** Iterates over the registered positions in whatever order the hash map yields them. */
    method BuildFullMask() returns (m: Mask)
      ensures Slots(m) == slots.Values
    {
      m := EMPTY;
      EmptyHasNoSlots();
      var left := slots.Values;
      while left != {}
        invariant left <= slots.Values && Slots(m) == slots.Values - left
        decreases |left|
      {
        var slot :| slot in left;
        WithSlotAdds(m, slot);
        m := WithSlot(m, slot);
        left := left - {slot};
      }
    }
  }

  /** Masks built by one registry narrow exactly as the name sets do. */
  lemma {:induction false} BuiltMasksNarrowExactly(
      slots: map<Text, Slot>, a: seq<Text>, b: seq<Text>, ma: Mask, mb: Mask)
    requires Injective(slots) && AllRegistered(slots, a) && AllRegistered(slots, b)
    requires Slots(ma) == NameSlots(slots, a) && Slots(mb) == NameSlots(slots, b)
    ensures IsSubsetOf(ma, mb) <==> Elems(a) <= Elems(b)
  {
    SubsetIsInclusion(ma, mb);
    if NameSlots(slots, a) <= NameSlots(slots, b) {
      forall n | n in Elems(a) ensures n in Elems(b) { assert slots[n] in NameSlots(slots, a); }
    }
    if Elems(a) <= Elems(b) {
      forall s | s in NameSlots(slots, a) ensures s in NameSlots(slots, b) {
        var n :| n in a && n in slots && slots[n] == s;
        assert n in Elems(a);
      }
    }
  }

  lemma {:induction false} InjectiveImageSize(slots: map<Text, Slot>, names: set<Text>)
    requires Injective(slots) && names <= slots.Keys
    ensures |set n | n in names :: slots[n]| == |names|
    decreases |names|
  {
    var image := set n | n in names :: slots[n];
    if names != {} {
      var m :| m in names;
      var rest := names - {m};
      InjectiveImageSize(slots, rest);
      assert image == (set n | n in rest :: slots[n]) + {slots[m]};
    }
  }

  /** The count of a built mask is the number of distinct names. */
  lemma {:induction false} BuiltMaskCountsNames(slots: map<Text, Slot>, names: seq<Text>, m: Mask)
    requires Injective(slots) && AllRegistered(slots, names) && Slots(m) == NameSlots(slots, names)
    ensures CapacityCount(m) == |Elems(names)|
  {
    CountIsSize(m);
    InjectiveImageSize(slots, Elems(names));
    assert NameSlots(slots, names) == set n | n in Elems(names) :: slots[n];
  }
}
