/** LzmaDecoder.decodeLiteral: a byte coded MSB first with one of
    `1 << (lc + lp)` tables of 0x300 probabilities.  The table is chosen by
    the low `lp` bits of the position and the high `lc` bits of the previous
    byte.  After a match (state 7 or more) the bits are first coded against
    the byte at the last match distance, with the probabilities at
    0x100..0x2FF of the table, until the first bit that differs from it.
 */
module Literal {
  import opened Base
  import opened RangeCoder
  import opened BitTree
  import opened Window

  const LitCoderSize: nat := 0x300

  /** litState: `((totalPos & ((1 << lp) - 1)) << lc) + (prevByte >> (8 - lc))`.
      The and keeps the low `lp` bits of the position even past 2^31, where
      JavaScript first truncates the number to 32 bits. */
  function LitState(totalPos: nat, prevByte: Byte, lc: nat, lp: nat): (r: nat)
    requires lc <= 8 && lp <= 4
    ensures r < Pow2(lc + lp)
  {
    LitStateBound(totalPos % Pow2(lp), prevByte / Pow2(8 - lc), prevByte, lc, lp);
    (totalPos % Pow2(lp)) * Pow2(lc) + prevByte / Pow2(8 - lc)
  }

  lemma LitStateBound(low: nat, high: nat, prevByte: Byte, lc: nat, lp: nat)
    requires lc <= 8 && low < Pow2(lp) && high == prevByte / Pow2(8 - lc)
    ensures low * Pow2(lc) + high < Pow2(lc + lp)
  {
    HighBitsBound(prevByte, lc);
    MixBound(low, high, Pow2(lp), Pow2(lc));
    Pow2Add(lp, lc);
  }

  /** The top `lc` bits of a byte are below `2^lc` */
  lemma HighBitsBound(b: Byte, lc: nat)
    requires lc <= 8
    ensures b / Pow2(8 - lc) < Pow2(lc)
  {
    Pow2Add(8 - lc, lc);
    Pow2Values();
    DivLess(b, Pow2(8 - lc), Pow2(lc));
  }

  lemma DivLess(x: nat, a: nat, b: nat)
    requires a > 0 && x < a * b
    ensures x / a < b
  {
    if x / a >= b {
      MulLe(b, x / a, a);
    }
  }

  lemma MixBound(low: nat, high: nat, pl: nat, pc: nat)
    requires low < pl && high < pc
    ensures low * pc + high < pl * pc
  {
    MulLe(low + 1, pl, pc);
  }

  /** The first probability of the table litState selects */
  function LitBase(w: OutWindow, lc: nat, lp: nat): (r: nat)
    requires Shaped(w) && lc <= 8 && lp <= 4
    ensures r + LitCoderSize <= LitCoderSize * Pow2(lc + lp)
  {
    var prevByte := if IsEmpty(w) then 0 else GetByte(w, 1);
    var s := LitState(w.totalPos, prevByte, lc, lp);
    MulLe(s + 1, Pow2(lc + lp), LitCoderSize);
    LitCoderSize * s
  }

  /** The `k` bits of the partial symbol `m` (its bits below the leading one)
      are the top `k` bits of `matchByte`. */
  predicate Agree(m: nat, k: nat, matchByte: Byte)
    requires k <= 8
  {
    m - Pow2(k) == matchByte / Pow2(8 - k)
  }

  /** Bit `7 - k` of the match byte: `(matchByte >> 7) & 1` after `k` shifts
      `matchByte <<= 1` */
  function MatchBit(matchByte: Byte, k: nat): (r: nat)
    requires k < 8
    ensures r < 2
    ensures matchByte / Pow2(7 - k) == 2 * (matchByte / Pow2(8 - k)) + r
  {
    DivStep(matchByte, 7 - k);
    (matchByte / Pow2(7 - k)) % 2
  }

  /** One more decoded bit keeps the agreement exactly when it equals the
      match bit. */
  lemma AgreeStep(m: nat, k: nat, matchByte: Byte, bit: nat)
    requires k < 8 && bit < 2 && Agree(m, k, matchByte)
    ensures Agree(2 * m + bit, k + 1, matchByte) <==> bit == MatchBit(matchByte, k)
  {
    DivStep(matchByte, 7 - k);
  }

  /** The plain loop `while (symbol < 0x100)`: the partial symbol `m` holds
      `k` decoded bits below its leading one. */
  function PlainWalk(rc: RangeDecoder, probs: seq<Prob>, base: nat, m: nat, k: nat): (r: Result<Step>)
    requires k <= 8 && Pow2(k) <= m < Pow2(k + 1) && base + 0x100 <= |probs|
    ensures r.Ok? ==> 0x100 <= r.value.value < 0x200 && r.value.value / Pow2(8 - k) == m
    ensures r.Ok? ==> SameOutside(probs, r.value.probs, base + m, base + 0x100)
    ensures r.Ok? ==> NoRegress(rc, r.value.rc) && (k < 8 ==> Progress(rc, r.value.rc))
    ensures r.Ok? ==> r.value.rc.corrupted == rc.corrupted
    decreases 8 - k
  {
    Level(m, k);
    if m >= 0x100 then
      Ok(Step(rc, probs, m))
    else
      var s :- Bit(rc, probs, base + m);
      PlainNext(m, k, s.value);
      var r := PlainWalk(s.rc, s.probs, base, 2 * m + s.value, k + 1);
      if r.Ok? then
        DivStep(r.value.value, 7 - k);
        ProgressChain(rc, s.rc, r.value.rc);
        OutsideStep(probs, s.probs, r.value.probs, base + m, base + m, base + 2 * m + s.value, base + 0x100);
        r
      else r
  }

  /** One more bit below 0x100 keeps the partial symbol at the next level */
  lemma PlainNext(m: nat, k: nat, bit: nat)
    requires k < 8 && Pow2(k) <= m < Pow2(k + 1) && bit < 2
    ensures Pow2(k + 1) <= 2 * m + bit < Pow2(k + 2)
  {
  }

  /** A partial symbol with `k` bits below its leading one reaches 0x100
      exactly after the eighth bit. */
  lemma Level(m: nat, k: nat)
    requires k <= 8 && Pow2(k) <= m < Pow2(k + 1)
    ensures m >= 0x100 <==> k == 8
    ensures m < 0x200 && (k == 8 ==> m / Pow2(0) == m)
  {
    Pow2Values();
    if k < 8 {
      Pow2Monotone(k + 1, 8);
    }
    Pow2Monotone(k + 1, 9);
    assert Pow2(9) == 0x200;
  }

  /** How the matched loop ends with the symbol `v` after `n` bits: every
      bit but the last agreed with the match byte, and unless all eight were
      decoded the last one did not. */
  predicate MatchedEnd(v: nat, n: nat, matchByte: Byte) {
    && 1 <= n <= 8 && Pow2(n) <= v < Pow2(n + 1)
    && Agree(v / 2, n - 1, matchByte)
    && (n < 8 ==> !Agree(v, n, matchByte))
  }

  /** The matched do-while loop.  It returns the symbol and the number of bits
      decoded; the loop stops at the first bit that does not agree with the
      match byte, or after the eighth.  Only the matched probabilities
      (0x100..0x2FF of the table) change. */
  function MatchedWalk(rc: RangeDecoder, probs: seq<Prob>, base: nat, matchByte: Byte, m: nat, k: nat)
    : (r: Result<(Step, nat)>)
    requires k < 8 && Pow2(k) <= m < Pow2(k + 1) && Agree(m, k, matchByte)
    requires base + LitCoderSize <= |probs|
    ensures r.Ok? ==> k < r.value.1 && MatchedEnd(r.value.0.value, r.value.1, matchByte)
    ensures r.Ok? ==> SameOutside(probs, r.value.0.probs, base + 0x100, base + LitCoderSize)
    ensures r.Ok? ==> Progress(rc, r.value.0.rc) && r.value.0.rc.corrupted == rc.corrupted
    decreases 8 - k, 1
  {
    assert m < 0x100 by { MatchedLevel(m, k); }
    var i := base + 0x100 * (1 + MatchBit(matchByte, k)) + m;
    var s :- Bit(rc, probs, i);
    var r :- MatchedNext(s, base, matchByte, m, k);
    ProgressChain(rc, s.rc, r.0.rc);
    OutsideStep(probs, s.probs, r.0.probs, i, base + 0x100, base + 0x100, base + LitCoderSize);
    Ok(r)
  }

  /** The loop condition after the bit `s.value`: stop at a disagreeing bit
      or at the eighth, otherwise go on. */
  function MatchedNext(s: Step, base: nat, matchByte: Byte, m: nat, k: nat): (r: Result<(Step, nat)>)
    requires k < 8 && Pow2(k) <= m < Pow2(k + 1) && Agree(m, k, matchByte) && s.value < 2
    requires base + LitCoderSize <= |s.probs|
    ensures r.Ok? ==> k < r.value.1 && MatchedEnd(r.value.0.value, r.value.1, matchByte)
    ensures r.Ok? ==> SameOutside(s.probs, r.value.0.probs, base + 0x100, base + LitCoderSize)
    ensures r.Ok? ==> NoRegress(s.rc, r.value.0.rc) && r.value.0.rc.corrupted == s.rc.corrupted
    decreases 8 - k, 0
  {
    if MatchBit(matchByte, k) != s.value || 2 * m + s.value >= 0x100 then
      MatchedStop(m, k, matchByte, s.value);
      Ok((s.(value := 2 * m + s.value), k + 1))
    else
      MatchedContinue(m, k, matchByte, s.value);
      MatchedWalk(s.rc, s.probs, base, matchByte, 2 * m + s.value, k + 1)
  }

  /** The loop goes on after a bit that agrees and is not the eighth */
  lemma MatchedContinue(m: nat, k: nat, matchByte: Byte, bit: nat)
    requires k < 8 && Pow2(k) <= m < Pow2(k + 1) && Agree(m, k, matchByte) && bit < 2
    requires bit == MatchBit(matchByte, k) && 2 * m + bit < 0x100
    ensures k + 1 < 8 && Pow2(k + 1) <= 2 * m + bit < Pow2(k + 2) && Agree(2 * m + bit, k + 1, matchByte)
  {
    MatchedLevel(m, k);
    assert m <= 127;
    assert k != 7 by {
      assert Pow2(7) == 128 by { Pow2Values(); }
    }
    assert Pow2(k + 1) <= 2 * m + bit < Pow2(k + 2);
    AgreeStep(m, k, matchByte, bit);
  }

  /** The loop stops after the bit `bit`, which disagrees or is the eighth */
  lemma MatchedStop(m: nat, k: nat, matchByte: Byte, bit: nat)
    requires k < 8 && Pow2(k) <= m < Pow2(k + 1) && Agree(m, k, matchByte) && bit < 2
    requires bit != MatchBit(matchByte, k) || 2 * m + bit >= 0x100
    ensures MatchedEnd(2 * m + bit, k + 1, matchByte)
  {
    MatchedLevel(m, k);
    AgreeStep(m, k, matchByte, bit);
    assert (2 * m + bit) / 2 == m;
  }

  /** A partial symbol with `k < 8` bits: its index stays inside the table,
      and the next one reaches 0x100 only after the eighth bit. */
  lemma MatchedLevel(m: nat, k: nat)
    requires k < 8 && Pow2(k) <= m < Pow2(k + 1)
    ensures m < 0x100 && Pow2(k + 1) == 2 * Pow2(k) && Pow2(k + 2) == 2 * Pow2(k + 1)
    ensures 2 * m + 1 >= 0x100 ==> k + 1 == 8
  {
    Pow2Values();
    Pow2Monotone(k + 1, 8);
    if k + 1 < 8 {
      Pow2Monotone(k + 2, 8);
    }
  }

  /** decodeLiteral(state, rep0): the plain walk alone after a literal, the
      matched walk and then the plain walk after a match or rep. */
  function DecodeLiteral(rc: RangeDecoder, probs: seq<Prob>, lc: nat, lp: nat, w: OutWindow, state: nat, rep0: nat)
    : (r: Result<Step>)
    requires Shaped(w) && rep0 < w.size && lc <= 8 && lp <= 4
    requires |probs| == LitCoderSize * Pow2(lc + lp)
    ensures r.Ok? ==> r.value.value < 256
    ensures r.Ok? ==> Progress(rc, r.value.rc) && r.value.rc.corrupted == rc.corrupted
    ensures r.Ok? ==> SameOutside(probs, r.value.probs, LitBase(w, lc, lp) + 1, LitBase(w, lc, lp) + LitCoderSize)
    ensures r.Ok? && state < 7 ==> SameOutside(probs, r.value.probs, LitBase(w, lc, lp) + 1, LitBase(w, lc, lp) + 0x100)
  {
    Pow2Values();
    var base := LitBase(w, lc, lp);
    if state >= 7 then
      var matched :- MatchedWalk(rc, probs, base, GetByte(w, rep0 + 1), 1, 0);
      var (s, k) := matched;
      var t :- PlainWalk(s.rc, s.probs, base, s.value, k);
      ProgressChain(rc, s.rc, t.rc);
      Ok(Step(t.rc, t.probs, t.value - 0x100))
    else
      var t :- PlainWalk(rc, probs, base, 1, 0);
      Ok(Step(t.rc, t.probs, t.value - 0x100))
  }
}
