/** OutWindow.copyMatch as the source writes it: whole chunks copied inside the
    buffer, each chunk bounded by the match length left and by the distance of
    the write and the read cursors to the end of the buffer. The two loops of
    the source are written as two recursive functions. */
module MatchCopy {
  import opened Base
  import opened Window

  function Min(a: int, b: int): int {
    if a <= b then a else b
  }

  /** The read cursor `getPos` stands `dist` bytes behind the write cursor */
  predicate ReadsBehind(getPos: nat, pos: nat, size: nat, dist: nat) {
    getPos + dist == pos || getPos + dist == pos + size
  }

  /** One iteration of the inner loop: `buffer[pos++] = buffer[getPos++]`.
      The model advances `totalPos` with every byte, where the source adds
      `len` once at the end; the totals agree when the copy is done. */
  function CopyOneRaw(cur: OutWindow, getPos: nat): (r: OutWindow)
    requires cur.pos < |cur.buf| && getPos < |cur.buf|
    ensures r.buf == cur.buf[cur.pos := cur.buf[getPos]] && r.pos == cur.pos + 1
  {
    cur.(totalPos := cur.totalPos + 1, buf := cur.buf[cur.pos := cur.buf[getPos]], pos := cur.pos + 1)
  }

  /** The inner loop: `chunk` bytes copied, neither cursor crossing the end */
  function CopyChunk(cur: OutWindow, getPos: nat, chunk: nat): (r: OutWindow)
    requires cur.pos + chunk <= |cur.buf| && getPos + chunk <= |cur.buf|
    ensures r.pos == cur.pos + chunk && |r.buf| == |cur.buf| && r.size == cur.size
    ensures r.writePos == cur.writePos && r.out == cur.out && r.isFull == cur.isFull
    ensures r.totalPos == cur.totalPos + chunk
    decreases chunk
  {
    if chunk == 0 then cur else CopyChunk(CopyOneRaw(cur, getPos), getPos + 1, chunk - 1)
  }

  /** One iteration of the outer loop: copy a chunk, then wrap the write
      cursor (flushing) and the read cursor when they reach the end. Returns
      the window, the read cursor and the chunk length. */
  function Round(cur: OutWindow, getPos: nat, left: nat): (r: (OutWindow, nat, nat))
    requires Shaped(cur) && getPos < cur.size && left > 0
    ensures Shaped(r.0) && r.0.size == cur.size && r.1 < cur.size && 1 <= r.2 <= left
    ensures r.0.totalPos == cur.totalPos + r.2
  {
    var chunk := Min(Min(left, cur.size - cur.pos), cur.size - getPos);
    var c := CopyChunk(cur, getPos, chunk);
    var c' := if c.pos == c.size then FlushRaw(c).(pos := 0, isFull := true) else c;
    var g := if getPos + chunk == cur.size then 0 else getPos + chunk;
    (c', g, chunk)
  }

  /** The outer loop, until no byte is left */
  function CopyRounds(cur: OutWindow, dist: nat, getPos: nat, left: nat): (r: OutWindow)
    requires Shaped(cur) && 1 <= dist <= cur.size && getPos < cur.size
    ensures Shaped(r) && r.size == cur.size && r.totalPos == cur.totalPos + left
    decreases left
  {
    if left == 0 then cur
    else
      var next := Round(cur, getPos, left);
      CopyRounds(next.0, dist, next.1, left - next.2)
  }

  /** OutWindow.copyMatch: the read cursor starts `dist` bytes behind */
  function CopyMatchChunked(w: OutWindow, dist: nat, len: nat): (r: OutWindow)
    requires Shaped(w) && 1 <= dist <= w.size
    ensures Shaped(r) && r.size == w.size && r.totalPos == w.totalPos + len
  {
    CopyRounds(w, dist, Behind(w, dist), len)
  }

  /** The chunked copy produces exactly the window of `len` sequential
      `putByte(getByte(dist))` calls, flushes and overlap included. */
  lemma ChunkedIsSequential(w: OutWindow, dist: nat, len: nat)
    requires Shaped(w) && 1 <= dist <= w.size
    ensures CopyMatchChunked(w, dist, len) == CopyMatch(w, dist, len)
  {
    RoundsAreSequential(w, dist, Behind(w, dist), len);
  }

  lemma {:induction false} RoundsAreSequential(cur: OutWindow, dist: nat, getPos: nat, left: nat)
    requires Shaped(cur) && 1 <= dist <= cur.size
    requires getPos < cur.size && ReadsBehind(getPos, cur.pos, cur.size, dist)
    ensures CopyRounds(cur, dist, getPos, left) == CopyMatch(cur, dist, left)
    decreases left
  {
    if left > 0 {
      var next := Round(cur, getPos, left);
      RoundIsSequential(cur, dist, getPos, left);
      RoundsAreSequential(next.0, dist, next.1, left - next.2);
      CopyCompose(cur, dist, next.2, left - next.2, left);
    }
  }

  /** One outer iteration copies `chunk` bytes and keeps the read cursor
      `dist` bytes behind the write cursor. */
  lemma RoundIsSequential(cur: OutWindow, dist: nat, getPos: nat, left: nat)
    requires Shaped(cur) && 1 <= dist <= cur.size && left > 0
    requires getPos < cur.size && ReadsBehind(getPos, cur.pos, cur.size, dist)
    ensures var next := Round(cur, getPos, left);
      next.0 == CopyMatch(cur, dist, next.2) && ReadsBehind(next.1, next.0.pos, next.0.size, dist)
  {
    var chunk := Min(Min(left, cur.size - cur.pos), cur.size - getPos);
    var c := CopyChunk(cur, getPos, chunk);
    ChunkIsSequential(cur, dist, getPos, chunk);
    if c.pos == c.size {
      RewindFlushes(c);
    }
    RoundReadsBehind(cur, dist, getPos, left);
  }

  /** Both cursors advance by the chunk and wrap at the end of the buffer */
  lemma RoundReadsBehind(cur: OutWindow, dist: nat, getPos: nat, left: nat)
    requires Shaped(cur) && 1 <= dist <= cur.size && left > 0
    requires getPos < cur.size && ReadsBehind(getPos, cur.pos, cur.size, dist)
    ensures var next := Round(cur, getPos, left); ReadsBehind(next.1, next.0.pos, next.0.size, dist)
  {
  }

  /** Copying `a` bytes and then `b` bytes is copying `a + b` bytes */
  lemma {:induction false} CopyCompose(w: OutWindow, dist: nat, a: nat, b: nat, total: nat)
    requires Shaped(w) && 1 <= dist <= w.size && total == a + b
    ensures CopyMatch(CopyMatch(w, dist, a), dist, b) == CopyMatch(w, dist, total)
    decreases a
  {
    if a > 0 {
      var w1 := PutByte(w, GetByte(w, dist));
      CopyCompose(w1, dist, a - 1, b, total - 1);
      CopyUnfold(w, dist, a);
      CopyUnfold(w, dist, total);
    }
  }

  lemma {:induction false} ChunkIsSequential(cur: OutWindow, dist: nat, getPos: nat, chunk: nat)
    requires Shaped(cur) && 1 <= dist <= cur.size
    requires ReadsBehind(getPos, cur.pos, cur.size, dist)
    requires cur.pos + chunk <= cur.size && getPos + chunk <= cur.size
    ensures cur.pos + chunk < cur.size ==> CopyChunk(cur, getPos, chunk) == CopyMatch(cur, dist, chunk)
    ensures cur.pos + chunk == cur.size ==> Rewind(CopyChunk(cur, getPos, chunk)) == CopyMatch(cur, dist, chunk)
    decreases chunk
  {
    if chunk > 0 {
      var next := CopyOneRaw(cur, getPos);
      ChunkUnfold(cur, getPos, chunk);
      CopyOne(cur, dist, getPos);
      CopyUnfold(cur, dist, chunk);
      if cur.pos + 1 < cur.size {
        ChunkIsSequential(next, dist, getPos + 1, chunk - 1);
      } else {
        assert chunk == 1;
      }
    }
  }

  lemma ChunkUnfold(cur: OutWindow, getPos: nat, chunk: nat)
    requires cur.pos + chunk <= |cur.buf| && getPos + chunk <= |cur.buf| && chunk > 0
    ensures CopyChunk(cur, getPos, chunk) == CopyChunk(CopyOneRaw(cur, getPos), getPos + 1, chunk - 1)
  {
  }

  /** One iteration of the inner loop is one putByte(getByte(dist)) */
  lemma CopyOne(cur: OutWindow, dist: nat, getPos: nat)
    requires Shaped(cur) && 1 <= dist <= cur.size
    requires getPos < cur.size && ReadsBehind(getPos, cur.pos, cur.size, dist)
    ensures cur.pos + 1 < cur.size ==> CopyOneRaw(cur, getPos) == PutByte(cur, GetByte(cur, dist))
    ensures cur.pos + 1 == cur.size ==> Rewind(CopyOneRaw(cur, getPos)) == PutByte(cur, GetByte(cur, dist))
  {
    assert Behind(cur, dist) == getPos;
  }

  /** The flush at the end of the buffer, written out as the source does */
  lemma RewindFlushes(cur: OutWindow)
    requires cur.writePos < cur.pos == cur.size == |cur.buf|
    ensures Rewind(cur) == FlushRaw(cur).(pos := 0, isFull := true)
  {
  }
}
