/** The distance check of the match branch of LzmaDecoder.decode and the
    cursor arithmetic of OutWindow.copyMatch, both on the plain numbers the
    source computes with.

    decodeDistance returns an int32, so a distance of 2^31 or more arrives
    as a negative `rep0`.  The check `rep0 >= dictSize ||
    !outWindow.checkDistance(rep0)` compares it as signed and lets it pass.
    copyMatch(rep0 + 1, len) then starts its read cursor ahead of the write
    cursor, at `pos - (rep0 + 1)`.  Beyond the end of the buffer its outer
    loop never ends; inside the buffer the copy ends but reads bytes from
    ahead of the cursor, not the ones the distance names.  The decoder model
    (`Decoder.DistanceRejected`) compares the distance unsigned and rejects
    all of these.
 */
module SignedDistance {
  import opened Base
  import opened Window
  import MatchCopy
  import Decoder

  /** `rep0 >= dictSize || !outWindow.checkDistance(rep0)` with `rep0` the
      int32 the distance pattern `dist` denotes */
  predicate RejectedAsWritten(w: OutWindow, dictSize: nat, dist: U32) {
    Signed(dist) >= dictSize || !CheckDistance(w, Signed(dist))
  }

  /** Below 2^31 the signed and the unsigned check agree */
  lemma AgreeBelowHalf(w: OutWindow, dictSize: nat, dist: U32)
    requires dist < TWO31
    ensures RejectedAsWritten(w, dictSize, dist) <==> Decoder.DistanceRejected(w, dictSize, dist)
  {
  }

  /** Every distance from 2^31 up, the end marker aside, passes the check as
      written and fails the unsigned one.  (The source's dictSize is an int32
      of at least 4096, so it is below 2^31.) */
  lemma NegativePasses(w: OutWindow, dictSize: nat, dist: U32)
    requires TWO31 <= dist < TWO32 - 1 && dictSize < TWO31
    ensures !RejectedAsWritten(w, dictSize, dist)
    ensures Decoder.DistanceRejected(w, dictSize, dist)
  {
  }

  /** The three loop variables of copyMatch */
  datatype Cursors = Cursors(pos: int, getPos: int, left: int)

  /** `getPos = dist <= pos ? pos - dist : size - dist + pos` */
  function StartGetPos(pos: int, size: int, dist: int): (g: int)
    ensures dist <= pos ==> g + dist == pos
    ensures dist > pos ==> g + dist == pos + size
  {
    if dist <= pos then pos - dist else size - dist + pos
  }

  /** One pass of the outer loop on the cursors: the chunk is the least of
      `left`, `size - pos` and `size - getPos`; the inner `for` copies it when
      it is positive and does nothing otherwise; a cursor that reached `size`
      restarts at 0; `left -= chunk`. */
  function CopyRoundAsWritten(size: int, c: Cursors): (r: Cursors)
  {
    var chunk := MatchCopy.Min(MatchCopy.Min(c.left, size - c.pos), size - c.getPos);
    var moved := if chunk > 0 then chunk else 0;
    var pos := if c.pos + moved == size then 0 else c.pos + moved;
    var getPos := if c.getPos + moved == size then 0 else c.getPos + moved;
    Cursors(pos, getPos, c.left - chunk)
  }

  /** `while (left > 0)` for at most `fuel` passes: the cursors it ends
      with, or `None` when it is still running after `fuel` passes */
  function CopyLoopAsWritten(size: int, c: Cursors, fuel: nat): (r: Option<Cursors>)
    ensures r.Some? ==> r.value.left <= 0
    decreases fuel
  {
    if c.left <= 0 then Some(c)
    else if fuel == 0 then None
    else CopyLoopAsWritten(size, CopyRoundAsWritten(size, c), fuel - 1)
  }

  /** With the read cursor beyond the end of the buffer every chunk is
      negative: nothing is copied and `left` grows, so the loop runs for
      ever. */
  lemma {:induction false} ReadBeyondEndNeverStops(size: int, c: Cursors, fuel: nat)
    requires 0 <= c.pos < size < c.getPos && c.left > 0
    ensures CopyLoopAsWritten(size, c, fuel).None?
    decreases fuel
  {
    if fuel > 0 {
      var c' := CopyRoundAsWritten(size, c);
      assert c' == Cursors(c.pos, c.getPos, c.left + c.getPos - size);
      ReadBeyondEndNeverStops(size, c', fuel - 1);
    }
  }

  /** With both cursors inside the buffer every chunk copies at least one
      byte and no more than are left, so the loop ends after at most `left`
      passes with nothing left over. */
  lemma {:induction false} InsideBufferStops(size: int, c: Cursors, fuel: nat)
    requires 0 <= c.pos < size && 0 <= c.getPos < size && 0 <= c.left <= fuel
    ensures CopyLoopAsWritten(size, c, fuel).Some?
    ensures CopyLoopAsWritten(size, c, fuel).value.left == 0
    decreases fuel
  {
    if c.left > 0 {
      var c' := CopyRoundAsWritten(size, c);
      assert 1 <= c.left - c'.left <= c.left;
      InsideBufferStops(size, c', fuel - 1);
    }
  }

  /** On a window, one pass on the cursors moves them exactly as a round of
      the chunked copy does. */
  lemma RoundCursors(cur: OutWindow, getPos: nat, left: nat)
    requires Shaped(cur) && getPos < cur.size && left > 0
    ensures
      var r := MatchCopy.Round(cur, getPos, left);
      CopyRoundAsWritten(cur.size, Cursors(cur.pos, getPos, left)) == Cursors(r.0.pos, r.1, left - r.2)
  {
  }

  /** Every negative distance other than the marker: the check as written
      lets it through, the read cursor starts ahead of the write cursor, and
      copyMatch never ends when that cursor lies beyond the buffer, while it
      ends, copying from ahead of the cursor, when the cursor lies inside. */
  lemma NegativeDistanceOutcome(w: OutWindow, dictSize: nat, dist: U32, len: nat, fuel: nat)
    requires Window.Valid(w) && w.size == dictSize && dictSize < TWO31 && len >= 1
    requires TWO31 <= dist < TWO32 - 1
    ensures !RejectedAsWritten(w, dictSize, dist) && Decoder.DistanceRejected(w, dictSize, dist)
    ensures
      var g := StartGetPos(w.pos, w.size, Signed(dist) + 1);
      && w.pos < g
      && (w.size < g ==> CopyLoopAsWritten(w.size, Cursors(w.pos, g, len), fuel).None?)
      && (g < w.size && len <= fuel ==>
            var e := CopyLoopAsWritten(w.size, Cursors(w.pos, g, len), fuel);
            e.Some? && e.value.left == 0)
  {
    NegativePasses(w, dictSize, dist);
    var g := StartGetPos(w.pos, w.size, Signed(dist) + 1);
    if w.size < g {
      ReadBeyondEndNeverStops(w.size, Cursors(w.pos, g, len), fuel);
    } else if g < w.size && len <= fuel {
      InsideBufferStops(w.size, Cursors(w.pos, g, len), fuel);
    }
  }

  /** The match whose distance decodes to 0x80000000 (slot 62 with every
      further bit zero): the check as written lets it through on any window
      that still has fewer than 2^31 - 1 cells after the cursor, and
      `copyMatch(rep0 + 1, len)` never returns. */
  lemma HalfRangeDistanceHangs(w: OutWindow, dictSize: nat, len: nat, fuel: nat)
    requires Window.Valid(w) && w.size == dictSize && dictSize < TWO31 && len >= 1
    requires w.size - w.pos < TWO31 - 1
    ensures !RejectedAsWritten(w, dictSize, TWO31) && Decoder.DistanceRejected(w, dictSize, TWO31)
    ensures CopyLoopAsWritten(w.size, Cursors(w.pos, StartGetPos(w.pos, w.size, Signed(TWO31) + 1), len), fuel).None?
  {
    ReadBeyondEndNeverStops(w.size, Cursors(w.pos, StartGetPos(w.pos, w.size, Signed(TWO31) + 1), len), fuel);
  }
}
