/** LenDecoder of LzmaSpec.js: a match length 0..271 from two choice bits and
    three bit trees (low and mid per position state, one shared high tree). */
module LengthDecoder {
  import opened Base
  import opened RangeCoder
  import BitTree

  const NumPosBitsMax: nat := 4
  const NumPosStatesMax: nat := 16     // 1 << kNumPosBitsMax
  const LowBits: nat := 3
  const HighBits: nat := 8

  datatype LenDecoder = LenDecoder(choice: seq<Prob>, low: seq<seq<Prob>>, mid: seq<seq<Prob>>, high: seq<Prob>)

  /** The table shapes `new LenDecoder()` allocates */
  predicate Valid(ld: LenDecoder) {
    && |ld.choice| == 2
    && |ld.low| == NumPosStatesMax && (forall k :: 0 <= k < NumPosStatesMax ==> |ld.low[k]| == 8)
    && |ld.mid| == NumPosStatesMax && (forall k :: 0 <= k < NumPosStatesMax ==> |ld.mid[k]| == 8)
    && |ld.high| == 256
  }

  /** Every table of the length decoder at the neutral probability */
  predicate Fresh(ld: LenDecoder) {
    && AllInit(ld.choice) && AllInit(ld.high)
    && (forall k :: 0 <= k < |ld.low| ==> AllInit(ld.low[k]))
    && (forall k :: 0 <= k < |ld.mid| ==> AllInit(ld.mid[k]))
  }

  /** `new LenDecoder()` followed by its `init` */
  function New(): (ld: LenDecoder)
    ensures Valid(ld) && Fresh(ld)
  {
    LenDecoder(NewProbs(2), seq(NumPosStatesMax, _ => NewProbs(8)), seq(NumPosStatesMax, _ => NewProbs(8)), NewProbs(256))
  }

  datatype LenStep = LenStep(rc: RangeDecoder, ld: LenDecoder, len: nat)

  /** LenDecoder.decode: choice[0] == 0 selects the low tree of `posState`
      (0..7), else choice[1] == 0 the mid tree (8..15), else the high tree
      (16..271).  Only the tables on the chosen path change. */
  function Decode(rc: RangeDecoder, ld: LenDecoder, posState: nat): (r: Result<LenStep>)
    requires Valid(ld) && posState < NumPosStatesMax
    ensures r.Ok? ==> Valid(r.value.ld) && r.value.len < 272 && Progress(rc, r.value.rc)
    ensures r.Ok? ==> r.value.rc.corrupted == rc.corrupted
    ensures r.Ok? && r.value.len < 8 ==>
      && r.value.ld.choice[1] == ld.choice[1] && r.value.ld.mid == ld.mid && r.value.ld.high == ld.high
      && (forall k :: 0 <= k < NumPosStatesMax && k != posState ==> r.value.ld.low[k] == ld.low[k])
    ensures r.Ok? && 8 <= r.value.len < 16 ==>
      && r.value.ld.low == ld.low && r.value.ld.high == ld.high
      && (forall k :: 0 <= k < NumPosStatesMax && k != posState ==> r.value.ld.mid[k] == ld.mid[k])
    ensures r.Ok? && 16 <= r.value.len ==> r.value.ld.low == ld.low && r.value.ld.mid == ld.mid
    ensures r.Ok? ==> BitTree.Bit(rc, ld.choice, 0).Ok?
    ensures r.Ok? ==> (BitTree.Bit(rc, ld.choice, 0).value.value == 0 <==> r.value.len < 8)
    ensures r.Ok? && 8 <= r.value.len ==>
      var c0 := BitTree.Bit(rc, ld.choice, 0).value;
      BitTree.Bit(c0.rc, c0.probs, 1).Ok? && (BitTree.Bit(c0.rc, c0.probs, 1).value.value == 0 <==> r.value.len < 16)
  {
    var c0 :- BitTree.Bit(rc, ld.choice, 0);
    if c0.value == 0 then
      var r :- DecodeLow(c0.rc, ld.(choice := c0.probs), posState);
      ProgressChain(rc, c0.rc, r.rc);
      Ok(r)
    else
      var c1 :- BitTree.Bit(c0.rc, c0.probs, 1);
      ProgressChain(rc, c0.rc, c1.rc);
      var r :-
        if c1.value == 0 then DecodeMid(c1.rc, ld.(choice := c1.probs), posState)
        else DecodeHigh(c1.rc, ld.(choice := c1.probs));
      ProgressChain(rc, c1.rc, r.rc);
      Ok(r)
  }

  function DecodeLow(rc: RangeDecoder, ld: LenDecoder, posState: nat): (r: Result<LenStep>)
    requires Valid(ld) && posState < NumPosStatesMax
    ensures r.Ok? ==> Valid(r.value.ld) && r.value.len < 8 && Progress(rc, r.value.rc)
    ensures r.Ok? ==> r.value.rc.corrupted == rc.corrupted
    ensures r.Ok? ==> r.value.ld.choice == ld.choice && r.value.ld.mid == ld.mid && r.value.ld.high == ld.high
    ensures r.Ok? ==> forall k :: 0 <= k < NumPosStatesMax && k != posState ==> r.value.ld.low[k] == ld.low[k]
    ensures r.Ok? ==> BitTree.Decode(rc, ld.low[posState], LowBits) == Ok(Step(r.value.rc, r.value.ld.low[posState], r.value.len))
  {
    assert Pow2(LowBits) == 8 by { Pow2Values(); }
    var t :- BitTree.Decode(rc, ld.low[posState], LowBits);
    Ok(LenStep(t.rc, ld.(low := ld.low[posState := t.probs]), t.value))
  }

  function DecodeMid(rc: RangeDecoder, ld: LenDecoder, posState: nat): (r: Result<LenStep>)
    requires Valid(ld) && posState < NumPosStatesMax
    ensures r.Ok? ==> Valid(r.value.ld) && 8 <= r.value.len < 16 && Progress(rc, r.value.rc)
    ensures r.Ok? ==> r.value.rc.corrupted == rc.corrupted
    ensures r.Ok? ==> r.value.ld.choice == ld.choice && r.value.ld.low == ld.low && r.value.ld.high == ld.high
    ensures r.Ok? ==> forall k :: 0 <= k < NumPosStatesMax && k != posState ==> r.value.ld.mid[k] == ld.mid[k]
    ensures r.Ok? ==> BitTree.Decode(rc, ld.mid[posState], LowBits) == Ok(Step(r.value.rc, r.value.ld.mid[posState], r.value.len - 8))
  {
    assert Pow2(LowBits) == 8 by { Pow2Values(); }
    var t :- BitTree.Decode(rc, ld.mid[posState], LowBits);
    Ok(LenStep(t.rc, ld.(mid := ld.mid[posState := t.probs]), 8 + t.value))
  }

  function DecodeHigh(rc: RangeDecoder, ld: LenDecoder): (r: Result<LenStep>)
    requires Valid(ld)
    ensures r.Ok? ==> Valid(r.value.ld) && 16 <= r.value.len < 272 && Progress(rc, r.value.rc)
    ensures r.Ok? ==> r.value.rc.corrupted == rc.corrupted
    ensures r.Ok? ==> r.value.ld.choice == ld.choice && r.value.ld.low == ld.low && r.value.ld.mid == ld.mid
    ensures r.Ok? ==> BitTree.Decode(rc, ld.high, HighBits) == Ok(Step(r.value.rc, r.value.ld.high, r.value.len - 16))
  {
    assert Pow2(HighBits) == 256 by { Pow2Values(); }
    var t :- BitTree.Decode(rc, ld.high, HighBits);
    Ok(LenStep(t.rc, ld.(high := t.probs), 16 + t.value))
  }
}
