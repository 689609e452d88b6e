/** LzmaDecoder.decodeDistance: a 6-bit position slot chosen by the match
    length, then, for slots 4 and up, `(slot >> 1) - 1` more bits below the
    slot's two leading bits: all of them reverse-bit-tree coded for slots
    below 14, otherwise the upper ones as direct bits and the low four with
    the align coder.
 */
module Distance {
  import opened Base
  import opened RangeCoder
  import opened BitTree

  const NumLenToPosStates: nat := 4
  const NumAlignBits: nat := 4
  const StartPosModelIndex: nat := 4
  const EndPosModelIndex: nat := 14
  const NumFullDistances: nat := 128          // 1 << (kEndPosModelIndex >> 1)
  const PosDecodersSize: nat := 115           // 1 + kNumFullDistances - kEndPosModelIndex

  /** posSlotDecoder (four 6-bit trees), posDecoders and alignDecoder */
  datatype DistCoder = DistCoder(posSlot: seq<seq<Prob>>, posDecoders: seq<Prob>, align: seq<Prob>)

  predicate Valid(dc: DistCoder) {
    && |dc.posSlot| == NumLenToPosStates
    && (forall i :: 0 <= i < NumLenToPosStates ==> |dc.posSlot[i]| == 64)
    && |dc.posDecoders| == PosDecodersSize
    && |dc.align| == 16
  }

  /** Every distance table at the neutral probability */
  predicate Fresh(dc: DistCoder) {
    && (forall i :: 0 <= i < |dc.posSlot| ==> AllInit(dc.posSlot[i]))
    && AllInit(dc.posDecoders) && AllInit(dc.align)
  }

  /** The distance tables as `init` creates them */
  function New(): (dc: DistCoder)
    ensures Valid(dc) && Fresh(dc)
  {
    DistCoder(seq(NumLenToPosStates, _ => NewProbs(64)), NewProbs(PosDecodersSize), NewProbs(16))
  }

  /** Number of bits below the two leading bits of a slot's distances */
  function DirectBits(slot: nat): nat
    requires slot >= StartPosModelIndex
  {
    slot / 2 - 1
  }

  /** `(2 | (slot & 1)) << numDirectBits`: the smallest distance of the slot */
  function SlotBase(slot: nat): nat
    requires slot >= StartPosModelIndex
  {
    (2 + slot % 2) * Pow2(DirectBits(slot))
  }

  /** A slot's smallest distance has exactly `DirectBits(slot) + 2` bits: its
      two leading bits are `1` and `slot & 1`. */
  lemma SlotBaseBits(slot: nat)
    requires slot >= StartPosModelIndex
    ensures Pow2(DirectBits(slot) + 1) <= SlotBase(slot) < Pow2(DirectBits(slot) + 2)
    ensures SlotBase(slot) / Pow2(DirectBits(slot)) == 2 + slot % 2
  {
    var p := Pow2(DirectBits(slot));
    assert Pow2(DirectBits(slot) + 2) == 4 * p;
    DivUnique(SlotBase(slot), p, 2 + slot % 2, 0);
  }

  /** `dist - posSlot`: the offset of a slot's reverse tree in posDecoders */
  function PosOffset(slot: nat): int
    requires slot >= StartPosModelIndex
  {
    SlotBase(slot) - slot
  }

  /** The reverse trees of slots 4..13 lie one after another in posDecoders,
      from index 1 up to its last index 114 (node 0 of each tree is the last
      node of the one before, which is never used). */
  lemma SlotsTile(slot: nat)
    requires StartPosModelIndex <= slot < EndPosModelIndex
    ensures PosOffset(StartPosModelIndex) == 0
    ensures slot + 1 < EndPosModelIndex ==> PosOffset(slot) + Pow2(DirectBits(slot)) == PosOffset(slot + 1) + 1
    ensures slot + 1 == EndPosModelIndex ==> PosOffset(slot) + Pow2(DirectBits(slot)) == PosDecodersSize
  {
    TileStart();
    if slot == EndPosModelIndex - 1 {
      TileLast();
    } else if slot % 2 == 0 {
      TileEven(slot);
    } else {
      TileOdd(slot);
    }
  }

  lemma TileStart()
    ensures PosOffset(StartPosModelIndex) == 0
  {
    assert DirectBits(4) == 1 && Pow2(1) == 2;
  }

  lemma TileLast()
    ensures PosOffset(EndPosModelIndex - 1) + Pow2(DirectBits(EndPosModelIndex - 1)) == PosDecodersSize
  {
    assert DirectBits(13) == 5 && SlotBase(13) == 3 * Pow2(5);
    assert Pow2(5) == 32 by { Pow2Values(); }
  }

  /** An even slot `2 << n` is followed by the odd slot `3 << n` */
  lemma TileEven(slot: nat)
    requires StartPosModelIndex <= slot && slot % 2 == 0
    ensures PosOffset(slot) + Pow2(DirectBits(slot)) == PosOffset(slot + 1) + 1
  {
    var n := DirectBits(slot);
    assert DirectBits(slot + 1) == n;
    assert SlotBase(slot) == 2 * Pow2(n) && SlotBase(slot + 1) == 3 * Pow2(n);
  }

  /** An odd slot `3 << n` is followed by the even slot `2 << (n + 1)` */
  lemma TileOdd(slot: nat)
    requires StartPosModelIndex <= slot && slot % 2 == 1
    ensures PosOffset(slot) + Pow2(DirectBits(slot)) == PosOffset(slot + 1) + 1
  {
    var n := DirectBits(slot);
    assert DirectBits(slot + 1) == n + 1;
    assert SlotBase(slot) == 3 * Pow2(n) && SlotBase(slot + 1) == 2 * Pow2(n + 1);
  }

  /** The highest set bit of a positive number */
  function Log2(d: nat): (n: nat)
    requires d >= 1
  {
    if d < 2 then 0 else 1 + Log2(d / 2)
  }

  lemma {:induction false} Log2Of(d: nat, n: nat)
    requires Pow2(n) <= d < Pow2(n + 1)
    ensures Log2(d) == n
  {
    if n > 0 {
      Log2Of(d / 2, n - 1);
    }
  }

  /** The slot an encoder assigns a distance: the distance itself below 4,
      otherwise twice the position of the leading bit plus the bit below it. */
  function SlotOf(d: nat): nat {
    if d < 4 then d
    else
      var n := Log2(d);
      2 * n + (d / Pow2(n - 1)) % 2
  }

  /** A slot's distances are exactly the distances of its `SlotBase` with any
      `DirectBits` low bits: the encoder's slot of each of them is that slot. */
  lemma SlotOfRange(slot: nat, d: nat)
    requires StartPosModelIndex <= slot && SlotBase(slot) <= d < SlotBase(slot) + Pow2(DirectBits(slot))
    ensures SlotOf(d) == slot
  {
    var n, b := slot / 2, slot % 2;
    var p := Pow2(n - 1);
    assert DirectBits(slot) == n - 1;
    assert Pow2(n) == 2 * p && Pow2(n + 1) == 4 * p;
    if b == 0 {
      assert 2 * p <= d < 3 * p;
    } else {
      assert 3 * p <= d < 4 * p;
    }
    Log2Of(d, n);
    Pow2Monotone(1, n - 1);
    assert d >= 4;
    DivRange(d, p, 2 + b);
  }

  /** The end marker's distance 0xFFFFFFFF is the last distance of the last
      slot: slot 63 with every direct and align bit set, and no other slot
      produces it. */
  lemma MarkerInLastSlot()
    ensures SlotBase(63) + Pow2(DirectBits(63)) == TWO32
    ensures SlotOf(TWO32 - 1) == 63
  {
    assert DirectBits(63) == 30;
    assert Pow2(32) == 4 * Pow2(30);
    assert Pow2(32) == TWO32 by { Pow2Values(); }
    SlotOfRange(63, TWO32 - 1);
  }

  lemma DivRange(d: nat, p: nat, q: nat)
    requires p > 0 && q * p <= d < (q + 1) * p
    ensures d / p == q
  {
    var q0 := d / p;
    if q0 < q {
      MulLe(q0 + 1, q, p);
    } else if q0 > q {
      MulLe(q + 1, q0, p);
    }
  }

  /** Every slot's distances stay below 2^32 */
  lemma SlotBelow32(slot: nat)
    requires StartPosModelIndex <= slot < 64
    ensures SlotBase(slot) + Pow2(DirectBits(slot)) <= TWO32
  {
    var n := DirectBits(slot);
    var p := Pow2(n);
    MulLe(2 + slot % 2, 3, p);
    assert SlotBase(slot) + p <= 4 * p;
    Pow2Monotone(n, 30);
    assert Pow2(32) == 4 * Pow2(30) by {
      Pow2Add(30, 2);
      assert Pow2(2) == 4;
    }
    assert Pow2(32) == TWO32 by {
      Pow2Values();
    }
  }

  /** The slots below kEndPosModelIndex code distances below
      kNumFullDistances, with trees inside posDecoders. */
  lemma SmallSlot(slot: nat)
    requires StartPosModelIndex <= slot < EndPosModelIndex
    ensures SlotBase(slot) + Pow2(DirectBits(slot)) <= NumFullDistances
    ensures 0 <= PosOffset(slot) && PosOffset(slot) + Pow2(DirectBits(slot)) <= PosDecodersSize
  {
    var n := DirectBits(slot);
    assert SlotBase(slot) + Pow2(n) <= 4 * Pow2(n);
    Pow2Monotone(n, 5);
    assert Pow2(5) == 32 by { Pow2Values(); }
    OffsetNonNegative(slot);
    OffsetBelowEnd(slot);
  }

  /** The offsets grow from 0, since every tree has at least two nodes */
  lemma {:induction false} OffsetNonNegative(slot: nat)
    requires StartPosModelIndex <= slot < EndPosModelIndex
    ensures 0 <= PosOffset(slot)
    decreases slot
  {
    if slot > StartPosModelIndex {
      OffsetNonNegative(slot - 1);
      SlotsTile(slot - 1);
      assert Pow2(DirectBits(slot - 1)) >= 1;
    } else {
      TileStart();
    }
  }

  /** Every tree ends at or before the end of posDecoders */
  lemma {:induction false} OffsetBelowEnd(slot: nat)
    requires StartPosModelIndex <= slot < EndPosModelIndex
    ensures PosOffset(slot) + Pow2(DirectBits(slot)) <= PosDecodersSize
    decreases EndPosModelIndex - slot
  {
    SlotsTile(slot);
    if slot + 1 < EndPosModelIndex {
      OffsetBelowEnd(slot + 1);
    }
  }


  /** The slots from kEndPosModelIndex on have at least two direct bits above
      the four align bits. */
  lemma LargeSlot(slot: nat)
    requires EndPosModelIndex <= slot < 64
    ensures DirectBits(slot) >= 6 && Pow2(DirectBits(slot)) == Pow2(DirectBits(slot) - 4) * 16
    ensures Pow2(NumAlignBits) == 16 && DirectBits(slot) - NumAlignBits <= 32
  {
    Pow2Add(DirectBits(slot) - 4, 4);
    Pow2Values();
  }

  /** A decoded distance with the slot it came from */
  datatype DistStep = DistStep(rc: RangeDecoder, dc: DistCoder, slot: nat, dist: U32)

  /** The low bits of a slot from 4 to 13: a reverse tree in posDecoders */
  function ModelledBits(rc: RangeDecoder, dc: DistCoder, slot: nat): (r: Result<DistStep>)
    requires Valid(dc) && StartPosModelIndex <= slot < EndPosModelIndex
    ensures r.Ok? ==> Valid(r.value.dc) && NoRegress(rc, r.value.rc) && r.value.rc.corrupted == rc.corrupted
    ensures r.Ok? ==> r.value.slot == slot && SlotOf(r.value.dist) == slot && r.value.dist < NumFullDistances
    ensures r.Ok? ==> SlotBase(slot) <= r.value.dist < SlotBase(slot) + Pow2(DirectBits(slot))
    ensures r.Ok? ==> r.value.dc.align == dc.align && r.value.dc.posSlot == dc.posSlot
    ensures r.Ok? ==> SameOutside(dc.posDecoders, r.value.dc.posDecoders, PosOffset(slot) + 1,
      PosOffset(slot) + Pow2(DirectBits(slot)))
  {
    SmallSlot(slot);
    var t :- ReverseDecode(rc, dc.posDecoders, PosOffset(slot), DirectBits(slot));
    var dist := SlotBase(slot) + t.value;
    SlotOfRange(slot, dist);
    Ok(DistStep(t.rc, dc.(posDecoders := t.probs), slot, dist))
  }

  /** The low bits of a slot from 14 on: direct bits, then four align bits.
      Each addition is `| 0`, which never wraps here. */
  function DirectAndAlign(rc: RangeDecoder, dc: DistCoder, slot: nat): (r: Result<DistStep>)
    requires Valid(dc) && EndPosModelIndex <= slot < 64
    ensures r.Ok? ==> Valid(r.value.dc) && Progress(rc, r.value.rc)
    ensures r.Ok? ==> r.value.slot == slot && SlotOf(r.value.dist) == slot
    ensures r.Ok? ==> SlotBase(slot) <= r.value.dist < SlotBase(slot) + Pow2(DirectBits(slot))
    ensures r.Ok? ==> r.value.dc.posDecoders == dc.posDecoders && r.value.dc.posSlot == dc.posSlot
  {
    var n := DirectBits(slot);
    LargeSlot(slot);
    var (rc2, direct) :- DecodeDirectBits(rc, n - NumAlignBits);
    var t :- ReverseDecode(rc2, dc.align, 0, NumAlignBits);
    ProgressChain(rc, rc2, t.rc);
    LargeDistance(slot, direct, t.value);
    var dist := Wrap(Wrap(SlotBase(slot) + direct * 16) + t.value);
    Ok(DistStep(t.rc, dc.(align := t.probs), slot, dist))
  }

  /** The distance of a large slot from its direct and align bits: the two
      `| 0` additions never wrap, and the result lies in the slot. */
  lemma LargeDistance(slot: nat, direct: nat, align: nat)
    requires EndPosModelIndex <= slot < 64 && direct < Pow2(DirectBits(slot) - NumAlignBits) && align < 16
    ensures Wrap(SlotBase(slot) + direct * 16) == SlotBase(slot) + direct * 16
    ensures var dist := SlotBase(slot) + direct * 16 + align;
      Wrap(dist) == dist && SlotBase(slot) <= dist < SlotBase(slot) + Pow2(DirectBits(slot)) && SlotOf(dist) == slot
  {
    var n := DirectBits(slot);
    LargeSlot(slot);
    SlotBelow32(slot);
    DirectBound(SlotBase(slot), direct, align, n);
    SlotOfRange(slot, SlotBase(slot) + direct * 16 + align);
  }

  /** decodeDistance(len). The result is the 32-bit pattern of the source's
      int32; the end marker's -1 is 0xFFFFFFFF. */
  function DecodeDistance(rc: RangeDecoder, dc: DistCoder, len: nat): (r: Result<DistStep>)
    requires Valid(dc)
    ensures r.Ok? ==> Valid(r.value.dc) && Progress(rc, r.value.rc)
    ensures r.Ok? ==> r.value.slot < 64 && SlotOf(r.value.dist) == r.value.slot
    ensures r.Ok? && r.value.slot < StartPosModelIndex ==> r.value.dist == r.value.slot
    ensures r.Ok? && r.value.slot >= StartPosModelIndex ==>
      SlotBase(r.value.slot) <= r.value.dist < SlotBase(r.value.slot) + Pow2(DirectBits(r.value.slot))
    ensures r.Ok? && r.value.slot < EndPosModelIndex ==> r.value.dist < NumFullDistances
    ensures r.Ok? && r.value.slot < EndPosModelIndex ==> r.value.dc.align == dc.align
    ensures r.Ok? && (r.value.slot < StartPosModelIndex || r.value.slot >= EndPosModelIndex) ==>
      r.value.dc.posDecoders == dc.posDecoders
    ensures r.Ok? && StartPosModelIndex <= r.value.slot < EndPosModelIndex ==>
      SameOutside(dc.posDecoders, r.value.dc.posDecoders, PosOffset(r.value.slot) + 1,
        PosOffset(r.value.slot) + Pow2(DirectBits(r.value.slot)))
  {
    var lenState := if len > NumLenToPosStates - 1 then NumLenToPosStates - 1 else len;
    assert Pow2(6) == 64 by { Pow2Values(); }
    var s :- BitTree.Decode(rc, dc.posSlot[lenState], 6);
    var t :- SlotTail(s.rc, dc.(posSlot := dc.posSlot[lenState := s.probs]), s.value);
    ProgressChain(rc, s.rc, t.rc);
    Ok(t)
  }

  /** What follows the slot: nothing for slots 0..3, the reverse-coded bits
      for slots 4..13, the direct and align bits above. */
  function SlotTail(rc: RangeDecoder, dc: DistCoder, slot: nat): (r: Result<DistStep>)
    requires Valid(dc) && slot < 64
    ensures r.Ok? ==> Valid(r.value.dc) && NoRegress(rc, r.value.rc) && r.value.slot == slot
    ensures r.Ok? ==> SlotOf(r.value.dist) == slot && r.value.dc.posSlot == dc.posSlot
    ensures r.Ok? && slot < StartPosModelIndex ==> r.value.dist == slot
    ensures r.Ok? && slot >= StartPosModelIndex ==>
      SlotBase(slot) <= r.value.dist < SlotBase(slot) + Pow2(DirectBits(slot))
    ensures r.Ok? && slot < EndPosModelIndex ==> r.value.dist < NumFullDistances && r.value.dc.align == dc.align
    ensures r.Ok? && (slot < StartPosModelIndex || slot >= EndPosModelIndex) ==>
      r.value.dc.posDecoders == dc.posDecoders
    ensures r.Ok? && StartPosModelIndex <= slot < EndPosModelIndex ==>
      SameOutside(dc.posDecoders, r.value.dc.posDecoders, PosOffset(slot) + 1, PosOffset(slot) + Pow2(DirectBits(slot)))
  {
    if slot < StartPosModelIndex then
      Ok(DistStep(rc, dc, slot, slot))
    else if slot < EndPosModelIndex then
      ModelledBits(rc, dc, slot)
    else
      DirectAndAlign(rc, dc, slot)
  }

  /** The direct bits and the align bits fill the low bits of a large slot */
  lemma DirectBound(base: nat, direct: nat, align: nat, n: nat)
    requires n >= 6 && direct < Pow2(n - 4) && align < 16 && Pow2(n) == Pow2(n - 4) * 16
    requires base + Pow2(n) <= TWO32
    ensures base + direct * 16 + align < base + Pow2(n)
    ensures Wrap(base + direct * 16) == base + direct * 16
    ensures Wrap(base + direct * 16 + align) == base + direct * 16 + align
  {
    MulLe(direct + 1, Pow2(n - 4), 16);
  }
}
