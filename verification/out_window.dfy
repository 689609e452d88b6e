/** OutWindow of LzmaSpec.js: the circular dictionary buffer of `size` bytes,
    its write cursor `pos`, the "has wrapped" flag `isFull`, the flush cursor
    `writePos`, the byte counter `totalPos`, and the output stream `out` that
    `flush` appends to (OutputStream is an append-only byte sequence here).
 */
module Window {
  import opened Base

  datatype OutWindow = OutWindow(
    buf: seq<Byte>, pos: nat, size: nat, isFull: bool, writePos: nat, totalPos: nat, out: seq<Byte>)

  /** Cursor bookkeeping that every window operation keeps */
  predicate Shaped(w: OutWindow) {
    && w.size >= 1 && |w.buf| == w.size && w.pos < w.size && w.writePos <= w.pos
    && w.totalPos == |w.out| + w.pos - w.writePos
  }

  /** Everything produced so far: what was flushed, then what is pending */
  function Output(w: OutWindow): seq<Byte>
    requires Shaped(w)
  {
    w.out + w.buf[w.writePos..w.pos]
  }

  /** The buffer index `dist` bytes behind the cursor (getByte's index) */
  function Behind(w: OutWindow, dist: nat): nat
    requires Shaped(w) && dist <= w.size
  {
    if dist <= w.pos then w.pos - dist else w.size - dist + w.pos
  }

  /** The window invariant: the buffer holds the last `size` bytes of the
      output, and before the first wrap the unwritten cells are still zero. */
  predicate Valid(w: OutWindow) {
    && Shaped(w)
    && (!w.isFull ==> w.totalPos == w.pos)
    && (w.isFull ==> w.totalPos >= w.size)
    && (forall d :: 1 <= d <= w.size && d <= w.totalPos ==> w.buf[Behind(w, d)] == Output(w)[w.totalPos - d])
    && (!w.isFull ==> forall j :: w.pos <= j < w.size ==> w.buf[j] == 0)
  }

  /** OutWindow.create: a zeroed buffer of `dictSize` bytes */
  function Create(dictSize: nat): (w: OutWindow)
    requires dictSize >= 1
    ensures Valid(w) && w.size == dictSize && Output(w) == [] && w.totalPos == 0
  {
    OutWindow(seq(dictSize, _ => 0), 0, dictSize, false, 0, 0, [])
  }

  /** flush on a buffer whose cursor may stand at `size` (inside putByte) */
  function FlushRaw(w: OutWindow): (r: OutWindow)
    requires w.writePos <= w.pos <= w.size == |w.buf|
    ensures r.buf == w.buf && r.pos == w.pos && r.size == w.size && r.isFull == w.isFull
    ensures r.totalPos == w.totalPos && r.writePos <= r.pos
    ensures w.pos < w.size ==> r.writePos == w.pos && r.out == w.out + w.buf[w.writePos..w.pos]
    ensures w.pos == w.size && w.writePos < w.pos ==> r.writePos == 0 && r.out == w.out + w.buf[w.writePos..]
  {
    if w.writePos < w.pos then
      w.(out := w.out + w.buf[w.writePos..w.pos], writePos := if w.pos == w.size then 0 else w.pos)
    else w
  }

  /** OutWindow.flush: move the pending bytes to the output stream */
  function Flush(w: OutWindow): (r: OutWindow)
    requires Valid(w)
    ensures Valid(r) && Output(r) == Output(w) && r.out == Output(w)
    ensures r.buf == w.buf && r.pos == w.pos && r.size == w.size && r.isFull == w.isFull && r.totalPos == w.totalPos
  {
    var r := FlushRaw(w);
    assert r.buf[r.writePos..r.pos] == [];
    SameContent(w, r);
    r
  }

  /** Bookkeeping changes that leave the produced bytes alone keep the invariant */
  lemma SameContent(w: OutWindow, r: OutWindow)
    requires Valid(w) && Shaped(r) && Output(r) == Output(w)
    requires r.buf == w.buf && r.pos == w.pos && r.size == w.size && r.isFull == w.isFull
    ensures Valid(r)
  {
    forall d | 1 <= d <= r.size && d <= r.totalPos
      ensures r.buf[Behind(r, d)] == Output(r)[r.totalPos - d]
    {
      assert Behind(r, d) == Behind(w, d);
    }
  }

  /** OutWindow.getByte: on a valid window, the byte `dist` positions back in
      the output, or a still-zero cell before the first wrap. */
  function GetByte(w: OutWindow, dist: nat): (b: Byte)
    requires Shaped(w) && dist <= w.size
    ensures Valid(w) && 1 <= dist <= w.totalPos ==> b == Output(w)[|Output(w)| - dist]
    ensures Valid(w) && !w.isFull && w.totalPos < dist ==> b == 0
  {
    w.buf[Behind(w, dist)]
  }

  lemma GetByteMeaning(w: OutWindow, dist: nat)
    requires Valid(w) && dist <= w.size
    ensures 1 <= dist <= w.totalPos ==> GetByte(w, dist) == Output(w)[|Output(w)| - dist]
    ensures !w.isFull && w.totalPos < dist ==> GetByte(w, dist) == 0
    ensures 1 <= dist ==> GetByte(w, dist) == Lookback(Output(w), dist)
  {
  }

  /** OutWindow.putByte: the byte is appended to the output; the cursor
      restarts and the window counts as full when it reaches the end. */
  function PutByte(w: OutWindow, b: Byte): (r: OutWindow)
    requires Shaped(w)
    ensures Shaped(r) && r.size == w.size && r.totalPos == w.totalPos + 1
    ensures r.buf == w.buf[w.pos := b]
    ensures r.isFull <==> w.isFull || w.pos + 1 == w.size
    ensures r.pos == if w.pos + 1 == w.size then 0 else w.pos + 1
  {
    var w1 := w.(totalPos := w.totalPos + 1, buf := w.buf[w.pos := b], pos := w.pos + 1);
    if w1.pos == w.size then Rewind(w1) else w1
  }

  /** putByte appends its byte to the output */
  lemma PutByteOutput(w: OutWindow, b: Byte)
    requires Shaped(w)
    ensures Output(PutByte(w, b)) == Output(w) + [b]
  {
    var w1 := w.(totalPos := w.totalPos + 1, buf := w.buf[w.pos := b], pos := w.pos + 1);
    assert w1.out + w1.buf[w1.writePos..w1.pos] == Output(w) + [b];
  }

  /** putByte keeps the window invariant */
  lemma PutByteValid(w: OutWindow, b: Byte)
    requires Valid(w)
    ensures Valid(PutByte(w, b))
  {
    PutByteOutput(w, b);
    PutKeepsRecent(w, b, PutByte(w, b));
  }

  /** The wrap inside putByte: flush, then restart the cursor and set isFull */
  function Rewind(w: OutWindow): (r: OutWindow)
    requires w.writePos < w.pos == w.size == |w.buf|
    ensures Shaped(r) || w.totalPos != |w.out| + w.pos - w.writePos
    ensures r.writePos == 0 && r.pos == 0 && r.isFull && r.buf == w.buf && r.size == w.size && r.totalPos == w.totalPos
    ensures r.out + r.buf[r.writePos..r.pos] == w.out + w.buf[w.writePos..w.pos]
  {
    var f := FlushRaw(w);
    OutWindow(f.buf, 0, f.size, true, 0, f.totalPos, f.out)
  }

  lemma PutKeepsRecent(w: OutWindow, b: Byte, r: OutWindow)
    requires Valid(w) && Shaped(r) && r.size == w.size && r.totalPos == w.totalPos + 1
    requires r.pos == (if w.pos + 1 == w.size then 0 else w.pos + 1)
    requires r.buf == w.buf[w.pos := b]
    requires r.isFull <==> w.isFull || w.pos + 1 == w.size
    requires Output(r) == Output(w) + [b]
    ensures Valid(r)
  {
    forall d | 1 <= d <= r.size && d <= r.totalPos
      ensures r.buf[Behind(r, d)] == Output(r)[r.totalPos - d]
    {
      if d == 1 {
        assert Behind(r, d) == w.pos;
      } else {
        assert Behind(r, d) == Behind(w, d - 1);
        assert Behind(w, d - 1) != w.pos;
      }
    }
  }

  /** The sequential meaning of OutWindow.copyMatch: `len` times
      `putByte(getByte(dist))`. */
  function CopyMatch(w: OutWindow, dist: nat, len: nat): (r: OutWindow)
    requires Shaped(w) && 1 <= dist <= w.size
    ensures Shaped(r) && r.size == w.size && r.totalPos == w.totalPos + len
    decreases len
  {
    if len == 0 then w else CopyMatch(PutByte(w, GetByte(w, dist)), dist, len - 1)
  }

  /** copyMatch appends `len` bytes to the output and leaves the rest alone */
  lemma {:induction false} CopyMatchOutput(w: OutWindow, dist: nat, len: nat)
    requires Shaped(w) && 1 <= dist <= w.size
    ensures |Output(CopyMatch(w, dist, len))| == |Output(w)| + len
    ensures Output(CopyMatch(w, dist, len))[..|Output(w)|] == Output(w)
    decreases len
  {
    if len > 0 {
      var w1 := PutByte(w, GetByte(w, dist));
      PutByteOutput(w, GetByte(w, dist));
      CopyMatchOutput(w1, dist, len - 1);
      CopyUnfold(w, dist, len);
      var o := Output(CopyMatch(w1, dist, len - 1));
      assert o[..|Output(w)|] == o[..|Output(w1)|][..|Output(w)|];
    }
  }

  /** copyMatch keeps the window invariant */
  lemma {:induction false} CopyMatchValid(w: OutWindow, dist: nat, len: nat)
    requires Valid(w) && 1 <= dist <= w.size
    ensures Valid(CopyMatch(w, dist, len))
    decreases len
  {
    if len > 0 {
      PutByteValid(w, GetByte(w, dist));
      CopyMatchValid(PutByte(w, GetByte(w, dist)), dist, len - 1);
      CopyValidStep(w, dist, len);
    }
  }

  lemma CopyUnfold(w: OutWindow, dist: nat, len: nat)
    requires Shaped(w) && 1 <= dist <= w.size && len > 0
    ensures CopyMatch(w, dist, len) == CopyMatch(PutByte(w, GetByte(w, dist)), dist, len - 1)
  {
  }

  lemma CopyValidStep(w: OutWindow, dist: nat, len: nat)
    requires Valid(w) && 1 <= dist <= w.size && len > 0
    requires Valid(CopyMatch(PutByte(w, GetByte(w, dist)), dist, len - 1))
    ensures Valid(CopyMatch(w, dist, len))
  {
    CopyUnfold(w, dist, len);
  }

  /** The byte `dist` positions from the end of the output, reading the
      zeros the buffer starts with in front of the first byte written */
  function Lookback(o: seq<Byte>, dist: nat): Byte
    requires 1 <= dist
  {
    if dist <= |o| then o[|o| - dist] else 0
  }

  /** LZ77 copy on the output itself: `len` times, append the byte `dist`
      positions from the end. */
  function SeqCopy(o: seq<Byte>, dist: nat, len: nat): (r: seq<Byte>)
    requires 1 <= dist
    ensures |r| == |o| + len && r[..|o|] == o
    decreases len
  {
    if len == 0 then o
    else
      var r := SeqCopy(o + [Lookback(o, dist)], dist, len - 1);
      assert r[..|o|] == r[..|o| + 1][..|o|];
      r
  }

  /** copyMatch appends to the output exactly what the LZ77 copy appends,
      the distance reaching into the zeros before the first byte included. */
  lemma {:induction false} CopyMatchIsSeqCopy(w: OutWindow, dist: nat, len: nat)
    requires Valid(w) && 1 <= dist <= w.size
    ensures Output(CopyMatch(w, dist, len)) == SeqCopy(Output(w), dist, len)
    decreases len
  {
    if len > 0 {
      var g := GetByte(w, dist);
      PutByteValid(w, g);
      GetByteMeaning(w, dist);
      CopyMatchIsSeqCopy(PutByte(w, g), dist, len - 1);
      SeqCopyLink(w, dist, len);
    }
  }

  /** `w'` holds the output of `w` followed by the LZ77 copy of `len` bytes
      from the distance `dist` */
  predicate IsCopyOf(w: OutWindow, w': OutWindow, dist: nat, len: nat) {
    && Shaped(w) && Shaped(w') && 1 <= dist
    && Output(w') == SeqCopy(Output(w), dist, len)
  }

  /** CopyMatchIsSeqCopy, stated with `IsCopyOf` */
  lemma CopyMatchCopies(w: OutWindow, dist: nat, len: nat)
    requires Valid(w) && 1 <= dist <= w.size
    ensures IsCopyOf(w, CopyMatch(w, dist, len), dist, len)
  {
    CopyMatchIsSeqCopy(w, dist, len);
  }

  /** The induction step of CopyMatchIsSeqCopy, without the window invariant */
  lemma SeqCopyLink(w: OutWindow, dist: nat, len: nat)
    requires Shaped(w) && 1 <= dist <= w.size && len > 0
    requires GetByte(w, dist) == Lookback(Output(w), dist)
    requires
      var w1 := PutByte(w, GetByte(w, dist));
      Output(CopyMatch(w1, dist, len - 1)) == SeqCopy(Output(w1), dist, len - 1)
    ensures Output(CopyMatch(w, dist, len)) == SeqCopy(Output(w), dist, len)
  {
    var g := GetByte(w, dist);
    var w1 := PutByte(w, g);
    PutByteOutput(w, g);
    CopyUnfold(w, dist, len);
    SeqCopyStep(Output(w), dist, len, g);
  }

  lemma SeqCopyStep(o: seq<Byte>, dist: nat, len: nat, g: Byte)
    requires 1 <= dist && len > 0 && g == Lookback(o, dist)
    ensures SeqCopy(o, dist, len) == SeqCopy(o + [g], dist, len - 1)
  {
  }

  /** Every byte the LZ77 copy appends repeats the byte `dist` positions
      before it; the copy may overlap the bytes it produces. */
  lemma {:induction false} SeqCopyRepeats(o: seq<Byte>, dist: nat, len: nat)
    requires 1 <= dist <= |o|
    ensures Repeats(SeqCopy(o, dist, len), |o|, dist)
    decreases len
  {
    if len > 0 {
      var o1 := o + [Lookback(o, dist)];
      var r := SeqCopy(o1, dist, len - 1);
      SeqCopyRepeats(o1, dist, len - 1);
      assert r[..|o1|] == o1;
      forall i, j | 0 <= i && |o| <= j < |r| && i + dist == j
        ensures r[j] == r[i]
      {
        if j == |o| {
          assert r[j] == o1[j] && r[i] == o1[i];
        }
      }
    }
  }

  /** LZ77 self-reference: from `start` on, every byte repeats the byte `dist`
      positions earlier. */
  ghost predicate Repeats(o: seq<Byte>, start: nat, dist: nat)
    requires dist <= start
  {
    forall i, j {:trigger o[i], o[j]} :: 0 <= i && start <= j < |o| && i + dist == j ==> o[j] == o[i]
  }

  /** OutWindow.checkDistance */
  predicate CheckDistance(w: OutWindow, dist: int): (r: bool)
    ensures Valid(w) ==> (r <==> dist <= w.totalPos || w.isFull)
  {
    dist <= w.pos || w.isFull
  }

  /** OutWindow.isEmpty */
  predicate IsEmpty(w: OutWindow): (r: bool)
    ensures Valid(w) ==> (r <==> |Output(w)| == 0)
  {
    w.pos == 0 && !w.isFull
  }

  /** checkDistance accepts exactly the distances not beyond the bytes written,
      until the buffer has wrapped once, and every distance afterwards. */
  lemma CheckDistanceMeaning(w: OutWindow, dist: int)
    requires Valid(w)
    ensures CheckDistance(w, dist) <==> dist <= w.totalPos || w.isFull
  {
  }

  /** isEmpty holds exactly before the first byte */
  lemma IsEmptyMeaning(w: OutWindow)
    requires Valid(w)
    ensures IsEmpty(w) <==> w.totalPos == 0
  {
  }

  /** getByte after putByte: the new byte is at distance 1 and every older
      byte moved one further back. */
  lemma GetAfterPut(w: OutWindow, b: Byte, dist: nat)
    requires Valid(w) && 1 <= dist <= w.size
    ensures GetByte(PutByte(w, b), 1) == b
    ensures 2 <= dist ==> GetByte(PutByte(w, b), dist) == GetByte(w, dist - 1)
  {
    var r := PutByte(w, b);
    PutByteValid(w, b);
    assert Behind(r, 1) == w.pos;
    if 2 <= dist {
      assert Behind(r, dist) == Behind(w, dist - 1);
    }
  }
}
