/** LzmaDecoder of LzmaSpec.js: the probability model (`init`), the decoder
    fields (`create`), and one iteration of the main loop of `decode`.

    Each iteration decodes one packet: a literal, a short rep (one byte from
    the last distance), a rep match (a length with one of the four last
    distances), a simple match (a length and a new distance), or the end
    marker.  `Step` follows the branches of the loop body in the order the
    source takes them; `Run` is the loop.
 */
module Decoder {
  import opened Base
  import opened RangeCoder
  import LengthDecoder
  import opened Window
  import LzmaState
  import opened Literal
  import Distance

  const NumPosBitsMax: nat := 4
  const MatchMinLen: nat := 2
  const MaxDecodeBitsCalls: nat := 48

  /** Every adaptive probability the decoder owns */
  datatype Probs = Probs(
    lit: seq<Prob>, dist: Distance.DistCoder,
    isMatch: seq<Prob>, isRep: seq<Prob>, isRepG0: seq<Prob>, isRepG1: seq<Prob>, isRepG2: seq<Prob>,
    isRep0Long: seq<Prob>, len: LengthDecoder.LenDecoder, repLen: LengthDecoder.LenDecoder)

  predicate ProbsValid(p: Probs, lc: nat, lp: nat) {
    && |p.lit| == LitCoderSize * Pow2(lc + lp)
    && Distance.Valid(p.dist)
    && |p.isMatch| == LzmaState.NumStates * 16 && |p.isRep0Long| == LzmaState.NumStates * 16
    && |p.isRep| == LzmaState.NumStates && |p.isRepG0| == LzmaState.NumStates && |p.isRepG1| == LzmaState.NumStates && |p.isRepG2| == LzmaState.NumStates
    && LengthDecoder.Valid(p.len) && LengthDecoder.Valid(p.repLen)
  }

  /** Every probability the decoder owns at the neutral value */
  predicate ProbsFresh(p: Probs) {
    && AllInit(p.lit) && Distance.Fresh(p.dist)
    && AllInit(p.isMatch) && AllInit(p.isRep) && AllInit(p.isRepG0) && AllInit(p.isRepG1) && AllInit(p.isRepG2)
    && AllInit(p.isRep0Long) && LengthDecoder.Fresh(p.len) && LengthDecoder.Fresh(p.repLen)
  }

  /** LzmaDecoder.init: every table at the neutral probability */
  function InitProbs(lc: nat, lp: nat): (p: Probs)
    ensures ProbsValid(p, lc, lp) && ProbsFresh(p)
  {
    Probs(NewProbs(LitCoderSize * Pow2(lc + lp)), Distance.New(),
      NewProbs(LzmaState.NumStates * 16), NewProbs(LzmaState.NumStates), NewProbs(LzmaState.NumStates), NewProbs(LzmaState.NumStates), NewProbs(LzmaState.NumStates),
      NewProbs(LzmaState.NumStates * 16), LengthDecoder.New(), LengthDecoder.New())
  }

  /** The four most recent match distances (zero-based, as `rep0..rep3`) */
  datatype Reps = Reps(rep0: nat, rep1: nat, rep2: nat, rep3: nat)

  function RepList(r: Reps): seq<nat> {
    [r.rep0, r.rep1, r.rep2, r.rep3]
  }

  datatype Decoder = Decoder(
    lc: nat, lp: nat, pb: nat, dictSize: nat, markerIsMandatory: bool,
    rc: RangeDecoder, win: OutWindow, probs: Probs, reps: Reps, state: LzmaState.State, leftToUnpack: Option<nat>)

  /** A stored distance: inside the dictionary, and reaching back to a byte
      already written, except for the zero distances the decoder starts with. */
  predicate RepOk(w: OutWindow, dictSize: nat, rep: nat) {
    rep < dictSize && (rep < w.totalPos || rep == 0)
  }

  predicate RepsOk(w: OutWindow, dictSize: nat, r: Reps) {
    RepOk(w, dictSize, r.rep0) && RepOk(w, dictSize, r.rep1) && RepOk(w, dictSize, r.rep2) && RepOk(w, dictSize, r.rep3)
  }

  /** The decoder invariant */
  predicate Valid(d: Decoder) {
    && d.lc <= 8 && d.lp <= 4 && d.pb <= NumPosBitsMax
    && Window.Valid(d.win) && d.win.size == d.dictSize
    && ProbsValid(d.probs, d.lc, d.lp)
    && RepsOk(d.win, d.dictSize, d.reps)
  }

  /** What one iteration decoded.  `Rep(i, len)` copies `len` bytes from the
      distance `rep<i>`; `Match(rep0, len)` from the new distance `rep0`. */
  datatype Packet = Lit(b: Byte) | ShortRep | Rep(index: nat, len: nat) | Match(rep0: nat, len: nat)

  function KindOf(p: Packet): LzmaState.Kind {
    match p
    case Lit(_) => LzmaState.Literal
    case ShortRep => LzmaState.ShortRep
    case Rep(_, _) => LzmaState.Rep
    case Match(_, _) => LzmaState.Match
  }

  /** Number of bytes a packet appends */
  function Length(p: Packet): nat {
    match p
    case Lit(_) => 1
    case ShortRep => 1
    case Rep(_, len) => len
    case Match(_, len) => len
  }

  /** The distance list after a packet: a rep moves the distance it used to
      the front, a match pushes its distance and drops the oldest. */
  function RepsAfter(reps: seq<nat>, p: Packet): (r: seq<nat>)
    requires |reps| == 4 && (p.Rep? ==> p.index < 4)
    ensures |r| == 4
  {
    match p
    case Lit(_) => reps
    case ShortRep => reps
    case Rep(i, _) => Promoted(reps, i)
    case Match(rep0, _) => Pushed(reps, rep0)
  }

  /** Move-to-front of entry `i` */
  function Promoted(reps: seq<nat>, i: nat): seq<nat>
    requires i < |reps|
  {
    [reps[i]] + reps[..i] + reps[i + 1..]
  }

  /** Push in front, dropping the last entry */
  function Pushed(reps: seq<nat>, rep0: nat): seq<nat>
    requires |reps| == 4
  {
    [rep0] + reps[..3]
  }

  /** The rep branch's reassignments `dist = rep<i>; ...; rep1 = rep0; rep0 = dist` */
  function PromoteRep(r: Reps, index: nat): (r': Reps)
    requires index < 4
    ensures RepList(r') == Promoted(RepList(r), index)
  {
    if index == 0 then r
    else
      var dist := if index == 1 then r.rep1 else if index == 2 then r.rep2 else r.rep3;
      var rep3 := if index == 3 then r.rep2 else r.rep3;
      var rep2 := if index >= 2 then r.rep1 else r.rep2;
      Reps(dist, r.rep0, rep2, rep3)
  }

  /** `leftToUnpack -= n`; an undefined size stays undefined */
  function Consume(left: Option<nat>, n: nat): Option<nat>
    requires left.Some? ==> n <= left.value
  {
    if left.Some? then Some(left.value - n) else None
  }

  datatype Res = ResError | ResFinishedWithMarker | ResFinishedWithoutMarker | ResNotComplete

  /** A loop iteration either continues with the packet it decoded or ends
      the loop with a result (`atMarker` tells whether it read the end
      marker).  When the loop returns, the source does not store its local
      state, reps and size counter back, so a stopped decoder keeps the ones
      it started the iteration with. */
  datatype Outcome = Continue(d: Decoder, packet: Packet) | Stop(d: Decoder, res: Res, atMarker: bool)

  predicate SameConfig(a: Decoder, b: Decoder) {
    a.lc == b.lc && a.lp == b.lp && a.pb == b.pb && a.dictSize == b.dictSize && a.markerIsMandatory == b.markerIsMandatory
  }

  /** `d'` is `d` after the packet `p`: the state machine took the packet's
      kind, the distances were rotated as the packet says, the window grew by
      the packet's length and the size counter shrank by it, never below zero. */
  predicate Follows(d: Decoder, d': Decoder, p: Packet) {
    && SameConfig(d, d')
    && d'.state == LzmaState.Update(d.state, KindOf(p))
    && (p.Rep? ==> p.index < 4)
    && RepList(d'.reps) == RepsAfter(RepList(d.reps), p)
    && 1 <= Length(p)
    && d'.win.totalPos == d.win.totalPos + Length(p)
    && (d.leftToUnpack.None? ==> d'.leftToUnpack.None?)
    && (d.leftToUnpack.Some? ==>
         Length(p) <= d.leftToUnpack.value && d'.leftToUnpack == Some(d.leftToUnpack.value - Length(p)))
  }

  /** A stopped iteration kept the configuration and the stored fields */
  predicate Halted(d: Decoder, d': Decoder) {
    && SameConfig(d, d') && d'.state == d.state && d'.reps == d.reps && d'.leftToUnpack == d.leftToUnpack
    && d'.win.totalPos >= d.win.totalPos
  }

  /** What every branch function promises about its outcome */
  predicate Sound(d: Decoder, o: Outcome) {
    && Valid(o.d)
    && NoRegress(d.rc, o.d.rc)
    && (o.Continue? ==> Follows(d, o.d, o.packet))
    && (o.Stop? ==> Halted(d, o.d))
  }

  /** Distances a copy may use next: inside the dictionary and at most the
      number of bytes written (checkDistance's bound) */
  predicate Reachable(d: Decoder, reps: Reps) {
    && reps.rep0 < d.dictSize && reps.rep0 <= d.win.totalPos
    && reps.rep1 < d.dictSize && reps.rep1 <= d.win.totalPos
    && reps.rep2 < d.dictSize && reps.rep2 <= d.win.totalPos
    && reps.rep3 < d.dictSize && reps.rep3 <= d.win.totalPos
  }

  /** What a packet appends to the output: the literal, the byte `rep0 + 1`
      back, or `len` bytes copied one by one from `rep0 + 1` back (so a copy
      may overlap the bytes it produces). */
  predicate Emits(w: OutWindow, w': OutWindow, p: Packet, rep0: nat) {
    && Shaped(w) && Shaped(w')
    && match p
       case Lit(b) => Output(w') == Output(w) + [b]
       case ShortRep => rep0 < |Output(w)| && Output(w') == Output(w) + [Output(w)[|Output(w)| - 1 - rep0]]
       case Rep(_, len) => IsCopyOf(w, w', rep0 + 1, len)
       case Match(_, len) => IsCopyOf(w, w', rep0 + 1, len)
  }

  /** The output after one packet, from the output before it and the
      distance `rep0` the packet leaves in front of the list */
  function Apply(o: seq<Byte>, p: Packet, rep0: nat): seq<Byte> {
    match p
    case Lit(b) => o + [b]
    case ShortRep => o + [Lookback(o, rep0 + 1)]
    case Rep(_, len) => SeqCopy(o, rep0 + 1, len)
    case Match(_, len) => SeqCopy(o, rep0 + 1, len)
  }

  lemma EmitsApply(w: OutWindow, w': OutWindow, p: Packet, rep0: nat)
    requires Emits(w, w', p, rep0)
    ensures Output(w') == Apply(Output(w), p, rep0)
  {
  }

  /** `w'` is `w` with every pending byte written out and nothing produced */
  predicate FlushedSame(w: OutWindow, w': OutWindow) {
    Shaped(w) && IsFlushed(w') && Output(w') == Output(w)
  }

  /** What every branch of a pass promises about its outcome: the decoder
      invariant and the packet accounting (`Sound`), the bytes a packet
      appends, and that a pass stops only on an error or at the end marker,
      which flushes the window and counts as a clean finish exactly when the
      range decoder's code is zero. */
  predicate Settled(d: Decoder, o: Outcome) {
    && Sound(d, o)
    && (o.Continue? ==> Emits(d.win, o.d.win, o.packet, o.d.reps.rep0))
    && (o.Stop? ==> o.res == ResError || (o.res == ResFinishedWithMarker && o.atMarker))
    && (o.Stop? && o.atMarker ==>
          FlushedSame(d.win, o.d.win) &&
          (o.res == ResFinishedWithMarker <==> IsFinishedOK(o.d.rc)))
  }

  /** Every byte produced has reached the output stream */
  predicate IsFlushed(w: OutWindow) {
    Shaped(w) && w.out == Output(w)
  }

  /** The copy at the end of a rep or match branch:
      `len += kMatchMinLen`, the clamp to `leftToUnpack` (which copies what
      is left and then reports the error), `copyMatch(rep0 + 1, len)`. */
  function CopyPacket(d: Decoder, reps: Reps, state: LzmaState.State, len: nat, index: Option<nat>): (r: Result<Outcome>)
    requires Valid(d) && Reachable(d, reps) && d.leftToUnpack != Some(0)
    requires index.Some? ==> index.value < 4 && RepList(reps) == Promoted(RepList(d.reps), index.value)
    requires index.None? ==> RepList(reps) == Pushed(RepList(d.reps), reps.rep0)
    requires state == LzmaState.Update(d.state, if index.Some? then LzmaState.Rep else LzmaState.Match)
    ensures r.Ok? && Sound(d, r.value)
    ensures r.value.Continue? ==> r.value.packet == PacketOf(index, reps.rep0, len + MatchMinLen)
    ensures r.value.Stop? ==> r.value.res == ResError && !r.value.atMarker
    ensures r.value.Stop? ==> d.leftToUnpack.Some? && d.leftToUnpack.value < len + MatchMinLen
    ensures r.value.Stop? ==> r.value.d.win.totalPos == d.win.totalPos + d.leftToUnpack.value
    ensures r.value.Continue? ==> Emits(d.win, r.value.d.win, r.value.packet, reps.rep0)
  {
    if d.leftToUnpack.Some? && d.leftToUnpack.value < len + MatchMinLen then Ok(ClampedCopy(d, reps.rep0 + 1))
    else Ok(FullCopy(d, reps, state, len + MatchMinLen, index))
  }

  /** The clamp: the `leftToUnpack` bytes still expected are copied, then the
      iteration reports the error. */
  function ClampedCopy(d: Decoder, dist: nat): (o: Outcome)
    requires Valid(d) && 1 <= dist <= d.win.totalPos + 1 && dist <= d.dictSize && d.leftToUnpack.Some?
    ensures Sound(d, o) && o.Stop? && o.res == ResError && !o.atMarker
    ensures o.d.win.totalPos == d.win.totalPos + d.leftToUnpack.value
  {
    var w := CopyMatch(d.win, dist, d.leftToUnpack.value);
    CopyMatchValid(d.win, dist, d.leftToUnpack.value);
    Regrow(d, w, d.reps, d.state, d.leftToUnpack);
    HaltSound(d, d.(win := w), ResError, false);
    Stop(d.(win := w), ResError, false)
  }

  /** The whole match is copied and the decoder takes the new distances and
      state. */
  function FullCopy(d: Decoder, reps: Reps, state: LzmaState.State, full: nat, index: Option<nat>): (o: Outcome)
    requires Valid(d) && Reachable(d, reps) && full >= 1
    requires d.leftToUnpack.Some? ==> full <= d.leftToUnpack.value
    requires index.Some? ==> index.value < 4 && RepList(reps) == Promoted(RepList(d.reps), index.value)
    requires index.None? ==> RepList(reps) == Pushed(RepList(d.reps), reps.rep0)
    requires state == LzmaState.Update(d.state, if index.Some? then LzmaState.Rep else LzmaState.Match)
    ensures Sound(d, o) && o.Continue?
    ensures o.packet == PacketOf(index, reps.rep0, full)
    ensures Emits(d.win, o.d.win, o.packet, reps.rep0)
  {
    AdvanceValid(d, reps, state, full);
    AdvanceOutput(d, reps, state, full, index);
    CopyFollows(d, Advance(d, reps, state, full), index, full);
    FollowsSound(d, Advance(d, reps, state, full), PacketOf(index, reps.rep0, full));
    Continue(Advance(d, reps, state, full), PacketOf(index, reps.rep0, full))
  }

  /** The packet a copy decoded: a rep with its index, or a match with its
      new distance */
  function PacketOf(index: Option<nat>, rep0: nat, len: nat): (p: Packet)
    ensures (p.Rep? || p.Match?) && p.len == len
  {
    if index.Some? then Rep(index.value, len) else Match(rep0, len)
  }

  /** The decoder after copying `full` bytes from the distance `reps.rep0` */
  function Advance(d: Decoder, reps: Reps, state: LzmaState.State, full: nat): (r: Decoder)
    requires Shaped(d.win) && reps.rep0 < d.win.size
    requires d.leftToUnpack.Some? ==> full <= d.leftToUnpack.value
    ensures r.win == CopyMatch(d.win, reps.rep0 + 1, full)
  {
    d.(win := CopyMatch(d.win, reps.rep0 + 1, full), reps := reps, state := state,
       leftToUnpack := Consume(d.leftToUnpack, full))
  }

  lemma AdvanceValid(d: Decoder, reps: Reps, state: LzmaState.State, full: nat)
    requires Valid(d) && Reachable(d, reps) && full >= 1
    requires d.leftToUnpack.Some? ==> full <= d.leftToUnpack.value
    ensures Valid(Advance(d, reps, state, full))
  {
    CopyMatchValid(d.win, reps.rep0 + 1, full);
    Regrow(d, CopyMatch(d.win, reps.rep0 + 1, full), reps, state, Consume(d.leftToUnpack, full));
  }

  lemma AdvanceOutput(d: Decoder, reps: Reps, state: LzmaState.State, full: nat, index: Option<nat>)
    requires Valid(d) && Reachable(d, reps)
    requires d.leftToUnpack.Some? ==> full <= d.leftToUnpack.value
    ensures Emits(d.win, Advance(d, reps, state, full).win, PacketOf(index, reps.rep0, full), reps.rep0)
  {
    CopyEmits(d.win, PacketOf(index, reps.rep0, full), reps.rep0);
  }

  /** copyMatch from a distance inside the dictionary appends the LZ77 copy */
  lemma CopyEmits(w: OutWindow, p: Packet, rep0: nat)
    requires Window.Valid(w) && (p.Rep? || p.Match?) && rep0 < w.size
    ensures Emits(w, CopyMatch(w, rep0 + 1, p.len), p, rep0)
  {
    CopyMatchCopies(w, rep0 + 1, p.len);
  }

  lemma HaltSound(d: Decoder, d': Decoder, res: Res, atMarker: bool)
    requires Valid(d') && NoRegress(d.rc, d'.rc) && Halted(d, d')
    ensures Sound(d, Stop(d', res, atMarker))
  {
  }

  lemma FollowsSound(d: Decoder, d': Decoder, p: Packet)
    requires Valid(d') && NoRegress(d.rc, d'.rc) && Follows(d, d', p)
    ensures Sound(d, Continue(d', p))
  {
  }

  lemma CopyFollows(d: Decoder, d': Decoder, index: Option<nat>, full: nat)
    requires SameConfig(d, d') && full >= 1
    requires index.Some? ==> index.value < 4 && RepList(d'.reps) == Promoted(RepList(d.reps), index.value)
    requires index.None? ==> RepList(d'.reps) == Pushed(RepList(d.reps), d'.reps.rep0)
    requires d'.state == LzmaState.Update(d.state, if index.Some? then LzmaState.Rep else LzmaState.Match)
    requires d'.win.totalPos == d.win.totalPos + full
    requires d.leftToUnpack.Some? ==> full <= d.leftToUnpack.value
    requires d'.leftToUnpack == Consume(d.leftToUnpack, full)
    ensures Follows(d, d', PacketOf(index, d'.reps.rep0, full))
  {
  }

  /** The invariant survives a window that grew and distances it can serve */
  lemma Regrow(d: Decoder, w: OutWindow, reps: Reps, state: LzmaState.State, left: Option<nat>)
    requires Valid(d) && Window.Valid(w) && w.size == d.win.size && w.totalPos >= d.win.totalPos
    requires RepsOk(d.win, d.dictSize, reps) || (Reachable(d, reps) && w.totalPos > d.win.totalPos)
    ensures Valid(d.(win := w, reps := reps, state := state, leftToUnpack := left))
  {
  }
  /** `d1` is `d` with more of the iteration's bits read: the coder moved on
      and probabilities adapted, a flush may have written pending bytes out,
      but nothing the packet accounting sees has changed. */
  predicate Passes(d: Decoder, d1: Decoder) {
    && SameConfig(d, d1) && d1.state == d.state && d1.reps == d.reps && d1.leftToUnpack == d.leftToUnpack
    && NoRegress(d.rc, d1.rc)
    && Shaped(d.win) && Shaped(d1.win) && d1.win.totalPos == d.win.totalPos && Output(d1.win) == Output(d.win)
  }

  /** What an outcome of a branch promises about the decoder the branch
      started from carries back to the start of the iteration. */
  lemma Lift(d: Decoder, d1: Decoder, o: Outcome)
    requires Valid(d) && Passes(d, d1) && Sound(d1, o)
    ensures Sound(d, o)
    ensures Progress(d.rc, d1.rc) ==> Progress(d.rc, o.d.rc)
    ensures o.Continue? && Emits(d1.win, o.d.win, o.packet, o.d.reps.rep0) ==> Emits(d.win, o.d.win, o.packet, o.d.reps.rep0)
    ensures o.Stop? && FlushedSame(d1.win, o.d.win) ==> FlushedSame(d.win, o.d.win)
  {
    ProgressChain(d.rc, d1.rc, o.d.rc);
  }

  /** What a branch that copies bytes promises: `Sound`, the bytes it
      appends, and that it stops only on an error. */
  predicate Copied(d: Decoder, o: Outcome) {
    && Sound(d, o)
    && (o.Continue? ==> Emits(d.win, o.d.win, o.packet, o.d.reps.rep0))
    && (o.Stop? ==> o.res == ResError && !o.atMarker)
  }

  lemma LiftCopied(d: Decoder, d1: Decoder, o: Outcome)
    requires Valid(d) && Passes(d, d1) && Copied(d1, o)
    ensures Copied(d, o)
    ensures Progress(d.rc, d1.rc) ==> Progress(d.rc, o.d.rc)
  {
    Lift(d, d1, o);
  }

  lemma CopiedSettled(d: Decoder, o: Outcome)
    requires Copied(d, o)
    ensures Settled(d, o)
  {
  }

  /** The one-bit flags of the decoder, each a table indexed by the state
      (and, for two of them, the position state) */
  datatype Flag = IsMatch | IsRep | IsRepG0 | IsRepG1 | IsRepG2 | IsRep0Long

  function Table(p: Probs, f: Flag): seq<Prob> {
    match f
    case IsMatch => p.isMatch
    case IsRep => p.isRep
    case IsRepG0 => p.isRepG0
    case IsRepG1 => p.isRepG1
    case IsRepG2 => p.isRepG2
    case IsRep0Long => p.isRep0Long
  }

  function WithTable(p: Probs, f: Flag, t: seq<Prob>): Probs {
    match f
    case IsMatch => p.(isMatch := t)
    case IsRep => p.(isRep := t)
    case IsRepG0 => p.(isRepG0 := t)
    case IsRepG1 => p.(isRepG1 := t)
    case IsRepG2 => p.(isRepG2 := t)
    case IsRep0Long => p.(isRep0Long := t)
  }

  /** `rangeDec.decodeBit(<flag table>, i)` inside the main loop */
  function FlagBit(d: Decoder, f: Flag, i: nat): (r: Result<(Decoder, nat)>)
    requires Valid(d) && i < |Table(d.probs, f)|
    ensures r.Ok? ==> Valid(r.value.0) && Passes(d, r.value.0) && r.value.0.win == d.win && r.value.1 < 2
    ensures r.Ok? ==> Progress(d.rc, r.value.0.rc)
    ensures r.Ok? ==> (r.value.1 == 0 <==> d.rc.code < Bound(d.rc.range, Table(d.probs, f)[i]))
  {
    var s :- DecodeBit(d.rc, Table(d.probs, f), i);
    Ok((d.(rc := s.rc, probs := WithTable(d.probs, f, s.probs)), s.value))
  }

  /** `outWindow.totalPos & ((1 << pb) - 1)` */
  function PosState(d: Decoder): (r: nat)
    requires d.pb <= NumPosBitsMax
    ensures r < 16 && r < Pow2(d.pb)
  {
    Pow2Monotone(d.pb, NumPosBitsMax);
    Pow2Values();
    d.win.totalPos % Pow2(d.pb)
  }

  /** The literal branch: the size counter must not be exhausted; the byte is
      decoded, written, and the state records a literal. */
  function LiteralPacket(d: Decoder): (r: Result<Outcome>)
    requires Valid(d)
    ensures r.Ok? ==> Settled(d, r.value)
    ensures r.Ok? && r.value.Stop? ==> r.value.res == ResError && !r.value.atMarker && r.value.d == d
    ensures r.Ok? && r.value.Stop? <==> d.leftToUnpack == Some(0)
    ensures r.Ok? && r.value.Continue? ==> r.value.packet.Lit? && Emits(d.win, r.value.d.win, r.value.packet, r.value.d.reps.rep0)
  {
    if d.leftToUnpack == Some(0) then Ok(Stop(d, ResError, false))
    else
      var s :- DecodeLiteral(d.rc, d.probs.lit, d.lc, d.lp, d.win, d.state, d.reps.rep0);
      Ok(PutLiteral(d, s.rc, s.probs, s.value))
  }

  /** `outWindow.putByte(b); state = updateState_Literal(state); leftToUnpack--` */
  function PutLiteral(d: Decoder, rc: RangeDecoder, lit: seq<Prob>, b: Byte): (o: Outcome)
    requires Valid(d) && d.leftToUnpack != Some(0) && |lit| == |d.probs.lit| && NoRegress(d.rc, rc)
    ensures Sound(d, o) && o.Continue? && o.packet == Lit(b)
    ensures Emits(d.win, o.d.win, o.packet, o.d.reps.rep0)
  {
    var left := Consume(d.leftToUnpack, 1);
    var w := PutByte(d.win, b);
    PutByteValid(d.win, b);
    PutByteOutput(d.win, b);
    var d' := d.(rc := rc, probs := d.probs.(lit := lit), win := w,
                 state := LzmaState.UpdateLiteral(d.state), leftToUnpack := left);
    Regrow(d, w, d.reps, d'.state, left);
    OneByteFollows(d, d', Lit(b));
    FollowsSound(d, d', Lit(b));
    Continue(d', Lit(b))
  }

  /** A literal or short rep appends one byte and keeps the distances */
  lemma OneByteFollows(d: Decoder, d': Decoder, p: Packet)
    requires p.Lit? || p.ShortRep?
    requires SameConfig(d, d') && d'.reps == d.reps && d'.state == LzmaState.Update(d.state, KindOf(p))
    requires d'.win.totalPos == d.win.totalPos + 1
    requires d.leftToUnpack != Some(0) && d'.leftToUnpack == Consume(d.leftToUnpack, 1)
    ensures Follows(d, d', p)
  {
  }

  /** The short rep: one byte from distance `rep0 + 1` */
  function ShortRepPacket(d: Decoder): (o: Outcome)
    requires Valid(d) && d.leftToUnpack != Some(0) && !IsEmpty(d.win)
    ensures Sound(d, o) && o.Continue? && o.packet == ShortRep
    ensures Emits(d.win, o.d.win, o.packet, o.d.reps.rep0)
  {
    var w := PutByte(d.win, GetByte(d.win, d.reps.rep0 + 1));
    ShortRepEmits(d.win, d.reps.rep0);
    var d' := d.(win := w, state := LzmaState.UpdateShortRep(d.state), leftToUnpack := Consume(d.leftToUnpack, 1));
    Regrow(d, w, d.reps, d'.state, d'.leftToUnpack);
    OneByteFollows(d, d', ShortRep);
    FollowsSound(d, d', ShortRep);
    Continue(d', ShortRep)
  }

  /** The byte at distance `rep0 + 1` is the one `rep0` places before the
      last byte of the output, and putting it back appends it. */
  lemma ShortRepEmits(w: OutWindow, rep0: nat)
    requires Window.Valid(w) && !IsEmpty(w) && rep0 < w.size && (rep0 < w.totalPos || rep0 == 0)
    ensures Window.Valid(PutByte(w, GetByte(w, rep0 + 1)))
    ensures Emits(w, PutByte(w, GetByte(w, rep0 + 1)), ShortRep, rep0)
  {
    IsEmptyMeaning(w);
    GetByteMeaning(w, rep0 + 1);
    var b := GetByte(w, rep0 + 1);
    PutByteValid(w, b);
    PutByteOutput(w, b);
  }

  /** A rep match with distance `rep<index>`: the distances are reordered,
      the length comes from the rep length decoder. */
  function LongRep(d: Decoder, index: nat, posState: nat): (r: Result<Outcome>)
    requires Valid(d) && index < 4 && posState < 16 && d.leftToUnpack != Some(0) && !IsEmpty(d.win)
    ensures r.Ok? ==> Copied(d, r.value) && Progress(d.rc, r.value.d.rc)
    ensures r.Ok? && r.value.Continue? ==> r.value.packet.Rep? && r.value.packet.index == index
  {
    var l :- LengthDecoder.Decode(d.rc, d.probs.repLen, posState);
    RepCopy(d, l.rc, l.ld, l.len, index)
  }

  /** `state = updateState_Rep(state)` and the copy, once the rep length is
      decoded */
  function RepCopy(d: Decoder, rc: RangeDecoder, repLen: LengthDecoder.LenDecoder, len: nat, index: nat): (r: Result<Outcome>)
    requires Valid(d) && index < 4 && d.leftToUnpack != Some(0) && !IsEmpty(d.win)
    requires LengthDecoder.Valid(repLen) && Progress(d.rc, rc)
    ensures r.Ok? ==> Copied(d, r.value) && Progress(d.rc, r.value.d.rc)
    ensures r.Ok? && r.value.Continue? ==> r.value.packet.Rep? && r.value.packet.index == index
  {
    var d1 := d.(rc := rc, probs := d.probs.(repLen := repLen));
    var reps := PromoteRep(d.reps, index);
    RepsReachable(d, index);
    var o := CopyPacket(d1, reps, LzmaState.UpdateRep(d1.state), len, Some(index));
    Lift(d, d1, o.value);
    o
  }

  /** With bytes written, every stored distance reaches into the output */
  lemma RepsReachable(d: Decoder, index: nat)
    requires Valid(d) && index < 4 && !IsEmpty(d.win)
    ensures Reachable(d, PromoteRep(d.reps, index))
    ensures d.reps.rep0 < d.win.totalPos
  {
    IsEmptyMeaning(d.win);
  }

  /** The rep branch: the size counter and an empty window are errors; then
      isRepG0 picks rep0 (or the short rep) or one of the older distances. */
  function RepPacket(d: Decoder, posState: nat): (r: Result<Outcome>)
    requires Valid(d) && posState < 16
    ensures r.Ok? ==> Copied(d, r.value)
    ensures r.Ok? && r.value.Continue? ==> (r.value.packet.Rep? || r.value.packet.ShortRep?)
    ensures d.leftToUnpack == Some(0) || IsEmpty(d.win) ==> r == Ok(Stop(d, ResError, false))
  {
    if d.leftToUnpack == Some(0) then Ok(Stop(d, ResError, false))
    else if IsEmpty(d.win) then Ok(Stop(d, ResError, false))
    else
      var b :- FlagBit(d, IsRepG0, d.state);
      var o := if b.1 == 0 then Rep0Packet(b.0, posState) else OlderRep(b.0, posState);
      if o.Ok? then LiftCopied(d, b.0, o.value); o else o
  }

  /** isRep0Long: a single byte (short rep) or a rep match with rep0 */
  function Rep0Packet(d: Decoder, posState: nat): (r: Result<Outcome>)
    requires Valid(d) && posState < 16 && d.leftToUnpack != Some(0) && !IsEmpty(d.win)
    ensures r.Ok? ==> Copied(d, r.value)
    ensures r.Ok? && r.value.Continue? ==> r.value.packet.ShortRep? || (r.value.packet.Rep? && r.value.packet.index == 0)
  {
    var b :- FlagBit(d, IsRep0Long, d.state * 16 + posState);
    var o := if b.1 == 0 then Ok(ShortRepPacket(b.0)) else LongRep(b.0, 0, posState);
    if o.Ok? then LiftCopied(d, b.0, o.value); o else o
  }

  /** isRepG1 and isRepG2: a rep match with rep1, rep2 or rep3 */
  function OlderRep(d: Decoder, posState: nat): (r: Result<Outcome>)
    requires Valid(d) && posState < 16 && d.leftToUnpack != Some(0) && !IsEmpty(d.win)
    ensures r.Ok? ==> Copied(d, r.value)
    ensures r.Ok? && r.value.Continue? ==> r.value.packet.Rep? && 1 <= r.value.packet.index < 4
  {
    var b1 :- FlagBit(d, IsRepG1, d.state);
    if b1.1 == 0 then
      var o := LongRep(b1.0, 1, posState);
      if o.Ok? then LiftCopied(d, b1.0, o.value); o else o
    else
      var b2 :- FlagBit(b1.0, IsRepG2, d.state);
      var o := LongRep(b2.0, if b2.1 == 0 then 2 else 3, posState);
      if o.Ok? then LiftCopied(b1.0, b2.0, o.value); LiftCopied(d, b1.0, o.value); o else o
  }
  /** `this.outWindow.flush()` on the decoder */
  function FlushAll(d: Decoder): (d': Decoder)
    requires Valid(d)
    ensures Valid(d') && Passes(d, d') && d'.rc == d.rc && IsFlushed(d'.win)
  {
    FlushKeeps(d);
    d.(win := Flush(d.win))
  }

  lemma FlushKeeps(d: Decoder)
    requires Valid(d)
    ensures Valid(d.(win := Flush(d.win))) && Passes(d, d.(win := Flush(d.win))) && IsFlushed(Flush(d.win))
  {
  }

  /** The check the source makes before a new distance is used, with the
      distance compared as the unsigned 32-bit number it was decoded as:
      beyond the dictionary, or beyond the bytes written before the window
      first wrapped. */
  predicate DistanceRejected(w: OutWindow, dictSize: nat, dist: U32): (r: bool)
    ensures Window.Valid(w) ==> (r <==> dist >= dictSize || (w.totalPos < dist && !w.isFull))
  {
    dist >= dictSize || !CheckDistance(w, dist)
  }

  /** A distance the check accepts can be stored and copied from */
  lemma AcceptedReachable(d: Decoder, dist: U32)
    requires Valid(d) && !DistanceRejected(d.win, d.dictSize, dist)
    ensures Reachable(d, Reps(dist, d.reps.rep0, d.reps.rep1, d.reps.rep2))
  {
    CheckDistanceMeaning(d.win, dist);
  }

  /** The match branch: a length, then a distance.  The all-ones distance is
      the end marker; otherwise the size counter must not be exhausted and the
      distance must pass the check, and the new distance is pushed. */
  function MatchPacket(d: Decoder, posState: nat): (r: Result<Outcome>)
    requires Valid(d) && posState < 16
    ensures r.Ok? ==> Settled(d, r.value)
    ensures r.Ok? && r.value.Continue? ==> r.value.packet.Match?
  {
    var l :- LengthDecoder.Decode(d.rc, d.probs.len, posState);
    var t :- Distance.DecodeDistance(l.rc, d.probs.dist, l.len);
    ProgressChain(d.rc, l.rc, t.rc);
    MatchEnd(d, t.rc, l.ld, t.dc, l.len, t.dist)
  }

  /** What the match branch does once length and distance are decoded */
  function MatchEnd(d: Decoder, rc: RangeDecoder, lenDec: LengthDecoder.LenDecoder, dc: Distance.DistCoder,
                    len: nat, dist: U32): (r: Result<Outcome>)
    requires Valid(d) && LengthDecoder.Valid(lenDec) && Distance.Valid(dc) && NoRegress(d.rc, rc)
    ensures r.Ok? ==> Settled(d, r.value)
    ensures r.Ok? && r.value.Continue? ==> r.value.packet == Match(dist, len + MatchMinLen)
    ensures r.Ok? && r.value.Continue? ==> !DistanceRejected(d.win, d.dictSize, dist)
    ensures r.Ok? && r.value.Stop? ==> (r.value.atMarker <==> dist == TWO32 - 1)
  {
    var d1 := d.(rc := rc, probs := d.probs.(len := lenDec, dist := dc));
    if dist == TWO32 - 1 then
      Ok(AtMarker(d, d1))
    else if d.leftToUnpack == Some(0) || DistanceRejected(d.win, d.dictSize, dist) then
      HaltSound(d, d1, ResError, false);
      Ok(Stop(d1, ResError, false))
    else
      Ok(AcceptedMatch(d, d1, len, dist))
  }

  /** A match whose distance passed the checks: push it and copy */
  function AcceptedMatch(d: Decoder, d1: Decoder, len: nat, dist: U32): (o: Outcome)
    requires Valid(d) && Valid(d1) && SameConfig(d, d1) && NoRegress(d.rc, d1.rc)
    requires d1.win == d.win && d1.state == d.state && d1.reps == d.reps && d1.leftToUnpack == d.leftToUnpack
    requires d.leftToUnpack != Some(0) && !DistanceRejected(d.win, d.dictSize, dist)
    ensures Settled(d, o) && (o.Stop? ==> !o.atMarker)
    ensures o.Continue? ==> o.packet == Match(dist, len + MatchMinLen)
  {
    AcceptedReachable(d1, dist);
    var o := CopyPacket(d1, Reps(dist, d.reps.rep0, d.reps.rep1, d.reps.rep2), LzmaState.UpdateMatch(d.state), len, None);
    Lift(d, d1, o.value);
    o.value
  }

  /** The end marker: flush, then report a clean finish when the code is zero */
  function AtMarker(d: Decoder, d1: Decoder): (o: Outcome)
    requires Valid(d) && Valid(d1) && SameConfig(d, d1) && NoRegress(d.rc, d1.rc)
    requires d1.win == d.win && d1.state == d.state && d1.reps == d.reps && d1.leftToUnpack == d.leftToUnpack
    ensures Settled(d, o) && o.Stop? && o.atMarker
  {
    var d2 := FlushAll(d1);
    HaltSound(d, d2, if IsFinishedOK(d1.rc) then ResFinishedWithMarker else ResError, true);
    Stop(d2, if IsFinishedOK(d1.rc) then ResFinishedWithMarker else ResError, true)
  }

  /** Settled outcomes of a branch carry back to the start of the pass */
  lemma LiftSettled(d: Decoder, d1: Decoder, o: Outcome)
    requires Valid(d) && Passes(d, d1) && Settled(d1, o)
    ensures Settled(d, o)
    ensures Progress(d.rc, d1.rc) ==> Progress(d.rc, o.d.rc)
  {
    Lift(d, d1, o);
  }

  /** isRep: a rep or short rep, or a match */
  function RepOrMatch(d: Decoder, posState: nat): (r: Result<Outcome>)
    requires Valid(d) && posState < 16
    ensures r.Ok? ==> Settled(d, r.value) && Progress(d.rc, r.value.d.rc)
    ensures r.Ok? && r.value.Continue? ==> !r.value.packet.Lit?
  {
    var b :- FlagBit(d, IsRep, d.state);
    if b.1 != 0 then RepSide(d, b.0, posState) else MatchSide(d, b.0, posState)
  }

  /** isRep was 1: the rep branch, seen from the start of the pass */
  function RepSide(d: Decoder, d1: Decoder, posState: nat): (r: Result<Outcome>)
    requires Valid(d) && Valid(d1) && Passes(d, d1) && Progress(d.rc, d1.rc) && posState < 16
    ensures r.Ok? ==> Settled(d, r.value) && Progress(d.rc, r.value.d.rc)
    ensures r.Ok? && r.value.Continue? ==> !r.value.packet.Lit?
  {
    var o :- RepPacket(d1, posState);
    LiftCopied(d, d1, o);
    CopiedSettled(d, o);
    Ok(o)
  }

  /** isRep was 0: the match branch, seen from the start of the pass */
  function MatchSide(d: Decoder, d1: Decoder, posState: nat): (r: Result<Outcome>)
    requires Valid(d) && Valid(d1) && Passes(d, d1) && Progress(d.rc, d1.rc) && posState < 16
    ensures r.Ok? ==> Settled(d, r.value) && Progress(d.rc, r.value.d.rc)
    ensures r.Ok? && r.value.Continue? ==> !r.value.packet.Lit?
  {
    var o :- MatchPacket(d1, posState);
    LiftSettled(d, d1, o);
    Ok(o)
  }

  /** isMatch: a literal, or one of the other packets */
  function NextPacket(d: Decoder): (r: Result<Outcome>)
    requires Valid(d)
    ensures r.Ok? ==> Settled(d, r.value) && Progress(d.rc, r.value.d.rc)
  {
    var posState := PosState(d);
    var b :- FlagBit(d, IsMatch, d.state * 16 + posState);
    if b.1 == 0 then
      var o :- LiteralPacket(b.0);
      LiftSettled(d, b.0, o);
      Ok(o)
    else
      var o :- RepOrMatch(b.0, posState);
      LiftSettled(d, b.0, o);
      Ok(o)
  }

  /** One pass of the main loop of `decode(notFinal)`: the input reserve
      check, then the rest of the pass. */
  function Iteration(d: Decoder, notFinal: bool): (r: Result<Outcome>)
    requires Valid(d)
    ensures r.Ok? ==> Sound(d, r.value)
    ensures r.Ok? && r.value.Continue? ==> Progress(d.rc, r.value.d.rc) && Emits(d.win, r.value.d.win, r.value.packet, r.value.d.reps.rep0)
    ensures notFinal && |d.rc.rest| < MaxDecodeBitsCalls ==> r == Ok(Stop(FlushAll(d), ResNotComplete, false))
    ensures r.Ok? && r.value.Stop? && r.value.res == ResNotComplete ==> notFinal && |d.rc.rest| < MaxDecodeBitsCalls
    ensures (!(notFinal && |d.rc.rest| < MaxDecodeBitsCalls) &&
             d.leftToUnpack == Some(0) && !d.markerIsMandatory && IsFinishedOK(d.rc)) ==>
      r == Ok(Stop(FlushAll(d), ResFinishedWithoutMarker, false))
    ensures r.Ok? && r.value.Stop? && r.value.res == ResFinishedWithoutMarker ==>
      d.leftToUnpack == Some(0) && !d.markerIsMandatory && IsFinishedOK(d.rc) && r.value.d.rc == d.rc
    ensures r.Ok? && r.value.Stop? && r.value.res == ResFinishedWithMarker ==> r.value.atMarker && IsFinishedOK(r.value.d.rc)
    ensures r.Ok? && r.value.Stop? && r.value.res != ResError ==>
      FlushedSame(d.win, r.value.d.win)
  {
    if notFinal && |d.rc.rest| < MaxDecodeBitsCalls then
      var d' := FlushAll(d);
      HaltSound(d, d', ResNotComplete, false);
      Ok(Stop(d', ResNotComplete, false))
    else EndCheck(d)
  }

  /** `if (leftToUnpack === 0 && !markerIsMandatory)`: flush, and stop when
      the range decoder finished cleanly; otherwise decode a packet (which
      may still be the end marker). */
  function EndCheck(d: Decoder): (r: Result<Outcome>)
    requires Valid(d)
    ensures r.Ok? ==> Sound(d, r.value)
    ensures r.Ok? && r.value.Continue? ==> Progress(d.rc, r.value.d.rc) && Emits(d.win, r.value.d.win, r.value.packet, r.value.d.reps.rep0)
    ensures r.Ok? && r.value.Stop? ==> r.value.res != ResNotComplete
    ensures d.leftToUnpack == Some(0) && !d.markerIsMandatory && IsFinishedOK(d.rc) ==>
      r == Ok(Stop(FlushAll(d), ResFinishedWithoutMarker, false))
    ensures r.Ok? && r.value.Stop? && r.value.res == ResFinishedWithoutMarker ==>
      d.leftToUnpack == Some(0) && !d.markerIsMandatory && IsFinishedOK(d.rc) && r.value.d.rc == d.rc
    ensures r.Ok? && r.value.Stop? && r.value.res == ResFinishedWithMarker ==> r.value.atMarker && IsFinishedOK(r.value.d.rc)
    ensures r.Ok? && r.value.Stop? && r.value.res != ResError ==>
      FlushedSame(d.win, r.value.d.win)
  {
    if d.leftToUnpack == Some(0) && !d.markerIsMandatory then
      var d' := FlushAll(d);
      if IsFinishedOK(d.rc) then
        HaltSound(d, d', ResFinishedWithoutMarker, false);
        Ok(Stop(d', ResFinishedWithoutMarker, false))
      else
        var o :- NextPacket(d');
        Lift(d, d', o);
        Ok(o)
    else NextPacket(d)
  }
  /** How a run of the loop ended, with the packets it decoded in order */
  datatype Ending = Ending(d: Decoder, res: Res, packets: seq<Packet>)

  function Kinds(ps: seq<Packet>): seq<LzmaState.Kind>
    decreases |ps|
  {
    if |ps| == 0 then [] else [KindOf(ps[0])] + Kinds(ps[1..])
  }

  function TotalLength(ps: seq<Packet>): nat
    decreases |ps|
  {
    if |ps| == 0 then 0 else Length(ps[0]) + TotalLength(ps[1..])
  }

  predicate IndicesOk(ps: seq<Packet>) {
    forall i :: 0 <= i < |ps| && ps[i].Rep? ==> ps[i].index < 4
  }

  /** The distance list after the packets `ps` */
  function RepsAfterAll(reps: seq<nat>, ps: seq<Packet>): (r: seq<nat>)
    requires |reps| == 4 && IndicesOk(ps)
    ensures |r| == 4
    decreases |ps|
  {
    if |ps| == 0 then reps else RepsAfterAll(RepsAfter(reps, ps[0]), ps[1..])
  }

  /** The output after the packets `ps`, from the output `o` and the
      distance list `reps` before them: the LZ77 expansion of the packets */
  function Expand(o: seq<Byte>, reps: seq<nat>, ps: seq<Packet>): seq<Byte>
    requires |reps| == 4 && IndicesOk(ps)
    decreases |ps|
  {
    if |ps| == 0 then o
    else
      var r := RepsAfter(reps, ps[0]);
      Expand(Apply(o, ps[0], r[0]), r, ps[1..])
  }

  /** `e` is what the loop reached from `d` through the packets it lists:
      the state machine and the distance list replayed over the packets, the
      size counter lowered by their lengths and, unless the loop stopped on
      an error, the window grown by their lengths. */
  predicate Summarises(d: Decoder, e: Ending) {
    && Valid(e.d) && SameConfig(d, e.d) && IndicesOk(e.packets)
    && e.d.state == LzmaState.Replay(d.state, Kinds(e.packets))
    && RepList(e.d.reps) == RepsAfterAll(RepList(d.reps), e.packets)
    && (d.leftToUnpack.None? ==> e.d.leftToUnpack.None?)
    && (d.leftToUnpack.Some? ==>
          e.d.leftToUnpack.Some? && e.d.leftToUnpack.value + TotalLength(e.packets) == d.leftToUnpack.value)
    && (e.res != ResError ==> e.d.win.totalPos == d.win.totalPos + TotalLength(e.packets))
    && (e.res != ResError ==> Shaped(d.win) && Output(e.d.win) == Expand(Output(d.win), RepList(d.reps), e.packets))
  }

  /** A packet in front of a summarised run */
  lemma Chain(d: Decoder, o: Outcome, e: Ending)
    requires o.Continue? && Sound(d, o) && Summarises(o.d, e)
    requires Emits(d.win, o.d.win, o.packet, o.d.reps.rep0)
    ensures Summarises(d, Ending(e.d, e.res, [o.packet] + e.packets))
  {
    var ps := [o.packet] + e.packets;
    assert ps[1..] == e.packets;
    assert forall i :: 1 <= i < |ps| ==> ps[i] == e.packets[i - 1];
    if e.res != ResError {
      EmitsApply(d.win, o.d.win, o.packet, o.d.reps.rep0);
      ExpandFront(Output(d.win), RepList(d.reps), o.packet, e.packets);
    }
  }

  lemma ExpandFront(o: seq<Byte>, reps: seq<nat>, p: Packet, ps: seq<Packet>)
    requires |reps| == 4 && (p.Rep? ==> p.index < 4) && IndicesOk(ps)
    ensures IndicesOk([p] + ps)
    ensures Expand(o, reps, [p] + ps) == Expand(Apply(o, p, RepsAfter(reps, p)[0]), RepsAfter(reps, p), ps)
  {
    assert ([p] + ps)[1..] == ps;
    assert forall i :: 0 <= i < |ps| ==> ps[i] == ([p] + ps)[i + 1];
  }

  /** The stopping outcome of a pass, as a run with no packets */
  lemma Stopped(d: Decoder, o: Outcome)
    requires o.Stop? && Sound(d, o) && (o.res != ResError ==> FlushedSame(d.win, o.d.win))
    ensures Summarises(d, Ending(o.d, o.res, []))
  {
  }

  /** decode(notFinal): passes until one stops.  Every continuing pass made
      the range decoder progress, which bounds the number of passes. */
  function Decode(d: Decoder, notFinal: bool): (r: Result<Ending>)
    requires Valid(d)
    ensures r.Ok? ==> Summarises(d, r.value)
    ensures r.Ok? && !notFinal ==> r.value.res != ResNotComplete
    ensures r.Ok? && r.value.res != ResError ==> IsFlushed(r.value.d.win)
    ensures r.Ok? && r.value.res == ResFinishedWithoutMarker ==>
      r.value.d.leftToUnpack == Some(0) && !d.markerIsMandatory && IsFinishedOK(r.value.d.rc)
    ensures r.Ok? && r.value.res == ResFinishedWithMarker ==> IsFinishedOK(r.value.d.rc)
    decreases |d.rc.rest|, d.rc.range
  {
    var o :- Iteration(d, notFinal);
    if o.Stop? then
      Stopped(d, o);
      Ok(Ending(o.d, o.res, []))
    else
      var e :- Decode(o.d, notFinal);
      Chain(d, o, e);
      Ok(Ending(e.d, e.res, [o.packet] + e.packets))
  }
}
