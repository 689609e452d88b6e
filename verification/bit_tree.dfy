/** Bit-tree decoding (LzmaSpec.js `BitTreeDecoder` and `bitTreeReverseDecode`):
    an integer of `numBits` bits is decoded bit by bit, each bit with the
    probability at the current tree node `m`, which starts at 1 and becomes
    `2 * m + bit`.
 */
module BitTree {
  import opened Base
  import opened RangeCoder

  /** `b` is `a` with at most the entries in [lo, hi) changed */
  predicate SameOutside(a: seq<Prob>, b: seq<Prob>, lo: int, hi: int) {
    |a| == |b| && forall j :: 0 <= j < |a| && !(lo <= j < hi) ==> a[j] == b[j]
  }

  /** A walk that updates one probability inside `[lo, hi)` and then keeps
      everything outside a narrower range keeps everything outside `[lo, hi)`. */
  lemma OutsideStep(a: seq<Prob>, b: seq<Prob>, c: seq<Prob>, i: int, lo: int, lo2: int, hi: int)
    requires SameOutside(a, b, i, i + 1) && lo <= i < hi && lo <= lo2
    requires SameOutside(b, c, lo2, hi)
    ensures SameOutside(a, c, lo, hi)
  {
  }

  /** decodeBit as the walks use it: only the bit, the one probability it
      adapts and the progress of the range decoder matter there. */
  function Bit(rc: RangeDecoder, probs: seq<Prob>, i: nat): (r: Result<Step>)
    requires i < |probs|
    ensures r.Ok? ==> r.value.value < 2 && SameOutside(probs, r.value.probs, i, i + 1)
    ensures r.Ok? ==> Progress(rc, r.value.rc) && r.value.rc.corrupted == rc.corrupted
  {
    DecodeBit(rc, probs, i)
  }

  /** The MSB-first walk of BitTreeDecoder.decode from node `m` at depth `level`;
      the value is the final node. */
  function Walk(rc: RangeDecoder, probs: seq<Prob>, m: nat, level: nat, numBits: nat): (r: Result<Step>)
    requires level <= numBits && Pow2(level) <= m < Pow2(level + 1) && Pow2(numBits) <= |probs|
    ensures r.Ok? ==> Pow2(numBits) <= r.value.value < Pow2(numBits + 1)
    ensures r.Ok? ==> r.value.value / Pow2(numBits - level) == m
    ensures r.Ok? ==> SameOutside(probs, r.value.probs, 1, Pow2(numBits))
    ensures r.Ok? ==> NoRegress(rc, r.value.rc) && (level < numBits ==> Progress(rc, r.value.rc))
    ensures r.Ok? ==> r.value.rc.corrupted == rc.corrupted
    decreases numBits - level
  {
    if level == numBits then Ok(Step(rc, probs, m))
    else
      Pow2Monotone(level + 1, numBits);
      var s :- Bit(rc, probs, m);
      var r := Walk(s.rc, s.probs, 2 * m + s.value, level + 1, numBits);
      if r.Ok? then
        ProgressChain(rc, s.rc, r.value.rc);
        DivStep(r.value.value, numBits - level - 1);
        r
      else r
  }

  /** BitTreeDecoder.decode over the tree `probs` (node 0 is unused) */
  function Decode(rc: RangeDecoder, probs: seq<Prob>, numBits: nat): (r: Result<Step>)
    requires Pow2(numBits) <= |probs|
    ensures r.Ok? ==> r.value.value < Pow2(numBits)
    ensures r.Ok? ==> SameOutside(probs, r.value.probs, 1, Pow2(numBits))
    ensures r.Ok? ==> NoRegress(rc, r.value.rc) && (numBits > 0 ==> Progress(rc, r.value.rc))
    ensures r.Ok? ==> r.value.rc.corrupted == rc.corrupted
  {
    var s :- Walk(rc, probs, 1, 0, numBits);
    Ok(Step(s.rc, s.probs, s.value - Pow2(numBits)))
  }

  /** The loop of bitTreeReverseDecode at bit `level`: node `m`, and the
      `level` low bits decoded so far in `symbol`. */
  function ReverseWalk(rc: RangeDecoder, probs: seq<Prob>, offset: nat, m: nat, level: nat, numBits: nat, symbol: nat)
    : (r: Result<Step>)
    requires level <= numBits && Pow2(level) <= m < Pow2(level + 1) && symbol < Pow2(level)
    requires offset + Pow2(numBits) <= |probs|
    ensures r.Ok? ==> symbol <= r.value.value < Pow2(numBits)
    ensures r.Ok? ==> r.value.value % Pow2(level) == symbol
    ensures r.Ok? ==> SameOutside(probs, r.value.probs, offset + 1, offset + Pow2(numBits))
    ensures r.Ok? ==> NoRegress(rc, r.value.rc) && (level < numBits ==> Progress(rc, r.value.rc))
    ensures r.Ok? ==> r.value.rc.corrupted == rc.corrupted
    decreases numBits - level
  {
    if level == numBits then
      DivUnique(symbol, Pow2(level), 0, symbol);
      Ok(Step(rc, probs, symbol))
    else
      Pow2Monotone(level + 1, numBits);
      var s :- Bit(rc, probs, offset + m);
      // symbol |= bit << level
      var symbol' := if s.value == 0 then symbol else symbol + Pow2(level);
      var r := ReverseWalk(s.rc, s.probs, offset, 2 * m + s.value, level + 1, numBits, symbol');
      if r.Ok? then
        ProgressChain(rc, s.rc, r.value.rc);
        LowBitsKept(r.value.value, symbol, symbol', level);
        r
      else r
  }

  /** Setting bit `level` (or not) leaves the bits below it alone */
  lemma LowBitsKept(v: nat, symbol: nat, symbol': nat, level: nat)
    requires symbol < Pow2(level) && (symbol' == symbol || symbol' == symbol + Pow2(level))
    requires v % Pow2(level + 1) == symbol'
    ensures v % Pow2(level) == symbol
  {
    var p := Pow2(level);
    ModStep(v, level);
    if symbol' == symbol {
      DivUnique(symbol', p, 0, symbol);
    } else {
      DivUnique(symbol', p, 1, symbol);
    }
  }

  /** bitTreeReverseDecode: `numBits` bits, least significant first, with the
      tree stored at `probs[offset + 1 .. offset + 2^numBits - 1]` */
  function ReverseDecode(rc: RangeDecoder, probs: seq<Prob>, offset: nat, numBits: nat): (r: Result<Step>)
    requires offset + Pow2(numBits) <= |probs|
    ensures r.Ok? ==> r.value.value < Pow2(numBits)
    ensures r.Ok? ==> SameOutside(probs, r.value.probs, offset + 1, offset + Pow2(numBits))
    ensures r.Ok? ==> NoRegress(rc, r.value.rc) && (numBits > 0 ==> Progress(rc, r.value.rc))
    ensures r.Ok? ==> r.value.rc.corrupted == rc.corrupted
  {
    ReverseWalk(rc, probs, offset, 1, 0, numBits, 0)
  }

  /** The first bit BitTreeDecoder.decode reads (at node 1) is the most
      significant bit of the value. */
  lemma DecodeMsbFirst(rc: RangeDecoder, probs: seq<Prob>, numBits: nat)
    requires Pow2(numBits) <= |probs| && numBits > 0 && Decode(rc, probs, numBits).Ok?
    ensures Bit(rc, probs, 1).Ok?
    ensures Decode(rc, probs, numBits).value.value / Pow2(numBits - 1) == Bit(rc, probs, 1).value.value
  {
    var s := Bit(rc, probs, 1).value;
    var w := Walk(s.rc, s.probs, 2 + s.value, 1, numBits).value;
    assert Decode(rc, probs, numBits).value.value == w.value - Pow2(numBits);
    TopBitAfterLead(w.value, Pow2(numBits - 1), s.value);
  }

  /** A node with leading bits `1b` above `p`: removing the leading one
      leaves `b` on top. */
  lemma TopBitAfterLead(v: nat, p: nat, b: nat)
    requires p > 0 && b < 2 && v / p == 2 + b
    ensures v >= 2 * p && (v - 2 * p) / p == b
  {
    var rem := v % p;
    assert v == (2 + b) * p + rem;
    DivUnique(v - 2 * p, p, b, rem);
  }

  /** The first bit bitTreeReverseDecode reads (at node 1) is the least
      significant bit of the value. */
  lemma ReverseDecodeLsbFirst(rc: RangeDecoder, probs: seq<Prob>, offset: nat, numBits: nat)
    requires offset + Pow2(numBits) <= |probs| && numBits > 0 && ReverseDecode(rc, probs, offset, numBits).Ok?
    ensures Bit(rc, probs, offset + 1).Ok?
    ensures ReverseDecode(rc, probs, offset, numBits).value.value % 2 == Bit(rc, probs, offset + 1).value.value
  {
    var s := Bit(rc, probs, offset + 1).value;
    assert Pow2(1) == 2;
    var symbol' := if s.value == 0 then 0 else 1;
    assert ReverseDecode(rc, probs, offset, numBits) == ReverseWalk(s.rc, s.probs, offset, 2 + s.value, 1, numBits, symbol');
  }
}
