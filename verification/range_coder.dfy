/** The arithmetic (range) decoder of LzmaSpec.js: `InputStream.readByte`,
    `RangeDecoder.init`, `decodeBit`, `decodeDirectBits` and `isFinishedOK`.

    The input stream is the suffix `rest` of the buffer not read yet.
    `range` and `code` hold the 32-bit patterns of the source's int32 fields.
 */
module RangeCoder {
  import opened Base

  const NumBitModelTotalBits: nat := 11
  const BitModelTotal: int := 2048       // 1 << kNumBitModelTotalBits
  const NumMoveBits: nat := 5
  const ProbInit: int := 1024            // PROB_INIT_VAL
  const TopValue: int := 0x100_0000      // kTopValue = 1 << 24

  /** An adaptive probability of a 0 bit, in units of 1/2048.  The adaptation
      never leaves (0, 2048), so the Uint16Array mask `& 0xFFFF` is a no-op. */
  type Prob = p: int | 0 < p < 2048 witness 1024

  datatype RangeDecoder = RangeDecoder(rest: seq<Byte>, range: U32, code: U32, corrupted: bool)

  /** One bit (or one integer) decoded together with the updated coder and table */
  datatype Step = Step(rc: RangeDecoder, probs: seq<Prob>, value: nat)

  /** The coder's working invariant: the code lies inside the current range and
      the range is normalised. */
  predicate Sound(rc: RangeDecoder) {
    rc.code < rc.range && rc.range >= TopValue
  }

  /** A decoding step made progress: it read a byte, or it read none and
      narrowed the range.  This is what makes the main loop terminate. */
  predicate Progress(a: RangeDecoder, b: RangeDecoder) {
    |b.rest| < |a.rest| || (|b.rest| == |a.rest| && b.range < a.range)
  }

  /** Progress or no change of the measure at all */
  predicate NoRegress(a: RangeDecoder, b: RangeDecoder) {
    |b.rest| < |a.rest| || (|b.rest| == |a.rest| && b.range <= a.range)
  }

  lemma ProgressChain(a: RangeDecoder, b: RangeDecoder, c: RangeDecoder)
    requires NoRegress(a, b) && NoRegress(b, c)
    ensures NoRegress(a, c)
    ensures Progress(a, b) || Progress(b, c) ==> Progress(a, c)
  {
  }

  /** Every probability of the table is at the neutral value */
  predicate AllInit(t: seq<Prob>) {
    forall i :: 0 <= i < |t| ==> t[i] == ProbInit
  }

  /** createProbsArray: `n` probabilities at the neutral value */
  function NewProbs(n: nat): (r: seq<Prob>)
    ensures |r| == n
    ensures forall i :: 0 <= i < n ==> r[i] == ProbInit
  {
    seq(n, _ => ProbInit)
  }

  /** InputStream.readByte: the next byte, or the end-of-file failure */
  function ReadByte(input: seq<Byte>): (r: Result<(Byte, seq<Byte>)>)
    ensures r.Ok? <==> |input| > 0
    ensures r.Ok? ==> [r.value.0] + r.value.1 == input
  {
    if |input| == 0 then Err(UnexpectedEndOfFile) else Ok((input[0], input[1..]))
  }

  /** `code = (code << 8) | b` */
  function ShiftIn(code: U32, b: Byte): U32 {
    Wrap(code * 256) + b
  }

  /** RangeDecoder.init: one byte that must be zero, then the first four code
      bytes, most significant first. */
  function Init(input: seq<Byte>): (r: Result<RangeDecoder>)
    ensures r.Ok? <==> |input| >= 5
    ensures r.Ok? ==> r.value.rest == input[5..] && r.value.range == TWO32 - 1
    ensures r.Ok? ==>
      r.value.code == (input[1] as int) * 0x100_0000 + (input[2] as int) * 0x1_0000 + (input[3] as int) * 0x100 + input[4] as int
    ensures r.Ok? ==> (r.value.corrupted <==> input[0] != 0 || r.value.code == TWO32 - 1)
    ensures r.Ok? && !r.value.corrupted ==> Sound(r.value)
  {
    if |input| < 5 then Err(UnexpectedEndOfFile)
    else
      var c1 := ShiftIn(0, input[1]);
      var c2 := ShiftIn(c1, input[2]);
      assert c2 == c1 * 256 + input[2];
      var c3 := ShiftIn(c2, input[3]);
      assert c3 == c2 * 256 + input[3];
      var code := ShiftIn(c3, input[4]);
      assert code == c3 * 256 + input[4];
      Ok(RangeDecoder(input[5..], TWO32 - 1, code, input[0] != 0 || code == TWO32 - 1))
  }

  /** isFinishedOK: the code the encoder's flush leaves behind; from there
      every further bit would decode as 0, whatever its probability. */
  predicate IsFinishedOK(rc: RangeDecoder): (r: bool)
    ensures r && rc.range >= BitModelTotal ==> forall p: Prob :: rc.code < Bound(rc.range, p)
  {
    rc.code == 0
  }

  /** If the range dropped below 2^24, shift one more input byte into the code. */
  function Normalize(rc: RangeDecoder): (r: Result<RangeDecoder>)
    ensures rc.range >= TopValue ==> r == Ok(rc)
    ensures rc.range < TopValue ==> (r.Ok? <==> |rc.rest| > 0)
    ensures r.Ok? && rc.range < TopValue ==>
      r.value.rest == rc.rest[1..] && r.value.range == 256 * rc.range
    ensures r.Ok? ==> r.value.corrupted == rc.corrupted
    ensures r.Ok? && rc.code < rc.range ==> r.value.code < r.value.range
  {
    if rc.range >= TopValue then Ok(rc)
    else
      var (b, rest) :- ReadByte(rc.rest);
      Ok(RangeDecoder(rest, rc.range * 256, Wrap(rc.code * 256) + b, rc.corrupted))
  }

  /** `(range >>> 11) * prob`: the part of the range that stands for a 0 bit */
  function Bound(range: U32, p: Prob): (b: U32)
    ensures b <= range
    ensures range >= BitModelTotal ==> 0 < b < range
    ensures range >= TopValue && 31 <= p <= 2017 ==> 31 * (range / BitModelTotal) <= b <= range - 31 * (range / BitModelTotal)
  {
    var q := range / BitModelTotal;
    MulLe(p, 2047, q);
    MulLe(1, p, q);
    MulLe(p, 2048, q);
    assert 31 <= p <= 2017 ==> 31 * q <= p * q <= 2017 * q by {
      if 31 <= p <= 2017 {
        MulLe(31, p, q);
        MulLe(p, 2017, q);
      }
    }
    p * q
  }

  /** The probability after a bit was observed: 1/32 of the distance towards
      the observed value, rounded down. */
  function UpdateProb(p: Prob, bit: nat): (q: Prob)
    ensures bit == 0 ==> p <= q && (p <= 2016 ==> p < q)
    ensures bit != 0 ==> q <= p && (p >= 32 ==> q < p)
    ensures 31 <= p <= 2017 ==> 31 <= q <= 2017
  {
    if bit == 0 then p + (BitModelTotal - p) / 32 else p - p / 32
  }

  /** The range right after the bit decision, before normalisation */
  function SplitRange(rc: RangeDecoder, p: Prob): U32 {
    var bound := Bound(rc.range, p);
    if rc.code < bound then bound else rc.range - bound
  }

  /** decodeBit: decode one bit with the adaptive probability `probs[i]`. */
  function DecodeBit(rc: RangeDecoder, probs: seq<Prob>, i: nat): (r: Result<Step>)
    requires i < |probs|
    ensures r.Err? <==> SplitRange(rc, probs[i]) < TopValue && |rc.rest| == 0
    ensures r.Ok? ==> r.value.value < 2 && (r.value.value == 0 <==> rc.code < Bound(rc.range, probs[i]))
    ensures r.Ok? ==> r.value.probs == probs[i := UpdateProb(probs[i], r.value.value)]
    ensures r.Ok? ==> r.value.rc.corrupted == rc.corrupted
    ensures r.Ok? ==> (r.value.rc.rest == rc.rest <==> SplitRange(rc, probs[i]) >= TopValue)
    ensures r.Ok? ==> r.value.rc.rest == rc.rest || r.value.rc.rest == rc.rest[1..]
    ensures r.Ok? ==> Progress(rc, r.value.rc)
    ensures r.Ok? && rc.code < rc.range ==> r.value.rc.code < r.value.rc.range
    ensures r.Ok? && Sound(rc) && 31 <= probs[i] <= 2017 ==> Sound(r.value.rc)
  {
    var p := probs[i];
    var bound := Bound(rc.range, p);
    var bit := if rc.code < bound then 0 else 1;
    var split :=
      if bit == 0 then RangeDecoder(rc.rest, bound, rc.code, rc.corrupted)
      else RangeDecoder(rc.rest, rc.range - bound, rc.code - bound, rc.corrupted);
    var rc' :- Normalize(split);
    Ok(Step(rc', probs[i := UpdateProb(p, bit)], bit))
  }

  /** One iteration of decodeDirectBits: halve the range, subtract it from the
      code, and use the sign bit of the difference as the (inverted) bit. */
  function DirectBit(rc: RangeDecoder): (r: Result<(RangeDecoder, nat)>)
    ensures r.Ok? ==> r.value.1 < 2 && Progress(rc, r.value.0)
    ensures r.Ok? && rc.code < rc.range ==> (r.value.1 == 1 <==> rc.code >= rc.range / 2)
    ensures r.Ok? && rc.code < rc.range ==> r.value.0.code < r.value.0.range || r.value.0.corrupted
    ensures r.Ok? && rc.corrupted ==> r.value.0.corrupted
    ensures r.Ok? && rc.range >= TopValue ==> r.value.0.range >= TopValue
  {
    var range := rc.range / 2;
    var (code, negative) := HalveCode(rc.code, range);
    var rc' :- Normalize(RangeDecoder(rc.rest, range, code, rc.corrupted || code == range));
    Ok((rc', if negative then 0 else 1))
  }

  /** `code -= range; t = code >> 31; code += range & t`: the sign of the
      32-bit difference tells whether the code lies below the halved range,
      and in that case the subtraction is undone. */
  function HalveCode(code: U32, range: U32): (r: (U32, bool))
    requires range < TWO31
    ensures code <= 2 * range ==> (r.1 <==> code < range)
    ensures code <= 2 * range ==> r.0 == (if code < range then code else code - range)
  {
    var diff := Wrap(code - range);
    assert code < range ==> diff == code - range + TWO32;
    var negative := diff >= TWO31;
    (if negative then Wrap(diff + range) else diff, negative)
  }

  /** The loop of decodeDirectBits with the partial result `res`:
      `res = ((res << 1) + t + 1) | 0` for each of `numBits` bits. */
  function DirectBitsFrom(rc: RangeDecoder, res: U32, numBits: nat): (r: Result<(RangeDecoder, U32)>)
    requires numBits >= 1
    ensures r.Ok? ==> Progress(rc, r.value.0)
    ensures r.Ok? && (res + 1) * Pow2(numBits) <= TWO32 ==>
      res * Pow2(numBits) <= r.value.1 < (res + 1) * Pow2(numBits)
    ensures r.Ok? && rc.corrupted ==> r.value.0.corrupted
    ensures r.Ok? && rc.range >= TopValue ==> r.value.0.range >= TopValue
    decreases numBits
  {
    var (rc', bit) :- DirectBit(rc);
    var res' := Wrap(2 * res + bit);
    var fits := (res + 1) * Pow2(numBits) <= TWO32;
    if numBits == 1 then
      if fits then DirectBitsBound(res, bit, 1, res'); Ok((rc', res'))
      else Ok((rc', res'))
    else
      var r := DirectBitsFrom(rc', res', numBits - 1);
      if r.Ok? && fits then DirectBitsBound(res, bit, numBits, r.value.1); r
      else r
  }

  /** The bounds on the final result, from the bounds one bit further on */
  lemma DirectBitsBound(res: nat, bit: nat, n: nat, v: int)
    requires bit < 2 && n >= 1 && (res + 1) * Pow2(n) <= TWO32
    requires n == 1 ==> v == Wrap(2 * res + bit)
    requires n > 1 && (Wrap(2 * res + bit) + 1) * Pow2(n - 1) <= TWO32 ==>
      Wrap(2 * res + bit) * Pow2(n - 1) <= v < (Wrap(2 * res + bit) + 1) * Pow2(n - 1)
    ensures (Wrap(2 * res + bit) + 1) * Pow2(n - 1) <= TWO32
    ensures res * Pow2(n) <= v < (res + 1) * Pow2(n)
  {
    var half := Pow2(n - 1);
    assert Pow2(n) == 2 * half;
    DirectBitsArith(res, bit, half);
  }

  /** The bounds of the partial result survive one more bit when the final
      result still fits in 32 bits. */
  lemma DirectBitsArith(res: nat, bit: nat, half: nat)
    requires bit < 2 && half >= 1 && (res + 1) * (2 * half) <= TWO32
    ensures Wrap(2 * res + bit) == 2 * res + bit
    ensures (2 * res + bit + 1) * half <= (res + 1) * (2 * half)
    ensures res * (2 * half) <= (2 * res + bit) * half
  {
    MulLe(1, half, res + 1);
    assert (res + 1) * (2 * half) == 2 * ((res + 1) * half);
    MulLe(2 * res + bit + 1, 2 * res + 2, half);
    MulLe(2 * res, 2 * res + bit, half);
  }

  /** decodeDirectBits: `numBits` equiprobable bits, most significant first */
  function DecodeDirectBits(rc: RangeDecoder, numBits: nat): (r: Result<(RangeDecoder, U32)>)
    requires numBits >= 1
    ensures r.Ok? ==> Progress(rc, r.value.0)
    ensures r.Ok? && numBits <= 32 ==> r.value.1 < Pow2(numBits)
  {
    assert numBits <= 32 ==> Pow2(numBits) <= TWO32 by {
      if numBits <= 32 {
        Pow2Monotone(numBits, 32);
        Pow2Values();
      }
    }
    DirectBitsFrom(rc, 0, numBits)
  }
}
