/** decodeLzma of LzmaSpec.js: read the 13-byte header, create the decoder,
    run the main loop once with `notFinal` false, and turn its result code
    into the decoded bytes or an error.
 */
module Lzma {
  import opened Base
  import opened Header
  import RangeCoder
  import Window
  import LzmaState
  import opened Decoder

  /** LzmaDecoder.create: a zeroed window of `dictSize` bytes, every table at
      the neutral probability, the range decoder started on the bytes after
      the header, distances and state zero, and the size counter at the
      declared size (the end marker is mandatory when there is none). */
  function Create(h: StreamHeader): (r: Result<Decoder>)
    requires h.props.lc < 9 && h.props.lp < 5 && h.props.pb < 5 && h.props.dictSize >= DicMin
    ensures r.Err? <==> |h.rest| < 5
    ensures r.Err? ==> r.error == UnexpectedEndOfFile
    ensures r.Ok? ==> Valid(r.value) && Window.Output(r.value.win) == [] && r.value.win.totalPos == 0
    ensures r.Ok? ==> r.value.state == 0 && RepList(r.value.reps) == [0, 0, 0, 0]
    ensures r.Ok? ==> r.value.leftToUnpack == h.unpackSize && (r.value.markerIsMandatory <==> h.unpackSize.None?)
    ensures r.Ok? ==> r.value.rc.rest == h.rest[5..] && r.value.rc.range == TWO32 - 1
  {
    var rc :- RangeCoder.Init(h.rest);
    Ok(Decoder(h.props.lc, h.props.lp, h.props.pb, h.props.dictSize, h.unpackSize.None?,
      rc, Window.Create(h.props.dictSize), InitProbs(h.props.lc, h.props.lp), Reps(0, 0, 0, 0), 0, h.unpackSize))
  }

  /** The decoder decodeLzma runs */
  function Start(input: seq<Byte>): (r: Result<Decoder>)
    ensures |input| < HeaderSize ==> r == Err(UnexpectedEndOfFile)
    ensures |input| >= HeaderSize && input[0] >= 225 ==> r == Err(IncorrectProperties)
    ensures |input| >= HeaderSize && input[0] < 225 ==> (r.Err? <==> |input| < HeaderSize + 5)
    ensures r.Err? ==> r.error == UnexpectedEndOfFile || r.error == IncorrectProperties
    ensures r.Ok? ==> Valid(r.value) && Window.Output(r.value.win) == [] && r.value.win.totalPos == 0
    ensures r.Ok? ==> r.value.state == 0 && RepList(r.value.reps) == [0, 0, 0, 0]
    ensures r.Ok? ==> r.value.leftToUnpack == UnpackSize(input[..HeaderSize])
    ensures r.Ok? ==> (r.value.markerIsMandatory <==> r.value.leftToUnpack.None?)
  {
    var h :- ReadHeader(input);
    Create(h)
  }

  /** `lzmaDecoder.decode(false)` on the started decoder */
  function Run(input: seq<Byte>): (r: Result<Ending>)
    ensures r.Ok? ==> Start(input).Ok? && Summarises(Start(input).value, r.value)
    ensures r.Ok? ==> r.value.res != ResNotComplete
  {
    var d :- Start(input);
    Decode(d, false)
  }

  /** The result handling of decodeLzma, with the branch for a clean finish
      without the end marker returning the output like the one with it. */
  function Finish(e: Ending, unpackSize: Option<nat>): (r: Result<seq<Byte>>)
    ensures r.Ok? <==> (e.res == ResFinishedWithoutMarker ||
      (e.res == ResFinishedWithMarker && (unpackSize.Some? ==> |e.d.win.out| == unpackSize.value)))
    ensures r.Ok? ==> r.value == e.d.win.out
    ensures e.res == ResError ==> r == Err(DecodingError)
    ensures e.res == ResNotComplete ==> r == Err(NotComplete)
  {
    match e.res
    case ResError => Err(DecodingError)
    case ResNotComplete => Err(NotComplete)
    case ResFinishedWithMarker =>
      if unpackSize.Some? && |e.d.win.out| != unpackSize.value then Err(EndMarkerBeforeSize) else Ok(e.d.win.out)
    case ResFinishedWithoutMarker => Ok(e.d.win.out)
  }

  /** The result handling as written: the last `else` also catches
      LZMA_RES_FINISHED_WITHOUT_MARKER and throws "Internal Error". */
  function FinishAsWritten(e: Ending, unpackSize: Option<nat>): (r: Result<seq<Byte>>)
    ensures e.res != ResFinishedWithoutMarker ==> r == Finish(e, unpackSize)
    ensures e.res == ResFinishedWithoutMarker ==> r == Err(InternalError)
  {
    if e.res == ResFinishedWithoutMarker then Err(InternalError) else Finish(e, unpackSize)
  }

  /** decodeLzma.  The bytes it returns are the LZ77 expansion of the
      packets the loop decoded, from an empty output and four zero
      distances; there are as many as the header declares, and with no
      declared size the stream ended with the end marker. */
  function DecodeLzma(input: seq<Byte>): (r: Result<seq<Byte>>)
    ensures |input| < HeaderSize ==> r == Err(UnexpectedEndOfFile)
    ensures |input| >= HeaderSize && input[0] >= 225 ==> r == Err(IncorrectProperties)
    ensures |input| >= HeaderSize && input[0] < 225 && |input| < HeaderSize + 5 ==> r == Err(UnexpectedEndOfFile)
    ensures r.Ok? ==> Run(input).Ok?
    ensures r.Ok? ==> r.value == Expand([], [0, 0, 0, 0], Run(input).value.packets)
    ensures r.Ok? ==> |r.value| == TotalLength(Run(input).value.packets)
    ensures r.Ok? && UnpackSize(input[..HeaderSize]).Some? ==> |r.value| == UnpackSize(input[..HeaderSize]).value
    ensures r.Ok? && UnpackSize(input[..HeaderSize]).None? ==> Run(input).value.res == ResFinishedWithMarker
    ensures r.Ok? ==> Run(input).value.d.state == LzmaState.Run(Kinds(Run(input).value.packets))
  {
    var e :- Run(input);
    var d := Start(input).value;
    var r := Finish(e, d.leftToUnpack);
    if r.Ok? then
      FinishedOutput(d, e);
      LzmaState.ReplayFromStart(Kinds(e.packets));
      r
    else r
  }

  /** What a clean finish leaves in the output stream */
  lemma FinishedOutput(d: Decoder, e: Ending)
    requires Valid(d) && Window.Output(d.win) == [] && d.win.totalPos == 0 && RepList(d.reps) == [0, 0, 0, 0]
    requires (d.markerIsMandatory <==> d.leftToUnpack.None?)
    requires Summarises(d, e) && (e.res == ResFinishedWithMarker || e.res == ResFinishedWithoutMarker)
    requires IsFlushed(e.d.win)
    requires e.res == ResFinishedWithoutMarker ==> e.d.leftToUnpack == Some(0) && !d.markerIsMandatory
    ensures e.d.win.out == Expand([], [0, 0, 0, 0], e.packets)
    ensures |e.d.win.out| == TotalLength(e.packets)
    ensures e.res == ResFinishedWithoutMarker ==> |e.d.win.out| == d.leftToUnpack.value
    ensures d.leftToUnpack.None? ==> e.res == ResFinishedWithMarker
  {
  }

  /** decodeLzma as written: the same run, with the result handling that
      rejects a clean finish without the end marker. */
  function DecodeLzmaAsWritten(input: seq<Byte>): (r: Result<seq<Byte>>)
    ensures Run(input).Ok? && Run(input).value.res != ResFinishedWithoutMarker ==> r == DecodeLzma(input)
    ensures Run(input).Err? ==> r == DecodeLzma(input)
  {
    var e :- Run(input);
    FinishAsWritten(e, Start(input).value.leftToUnpack)
  }

  /** Every stream whose declared size is reached without an end marker is
      decoded by the corrected result handling and rejected as written. */
  lemma WithoutMarkerRejected(input: seq<Byte>)
    requires Run(input).Ok? && Run(input).value.res == ResFinishedWithoutMarker
    ensures DecodeLzma(input).Ok?
    ensures DecodeLzmaAsWritten(input) == Err(InternalError)
  {
  }

  /** The smallest such stream: properties 0x5D, a 4 KiB dictionary, a
      declared size of zero, and a range coder whose code is zero. */
  const EmptyStream: seq<Byte> := [0x5D, 0, 0x10, 0, 0, 0, 0, 0, 0, 0, 0, 0, 0, 0, 0, 0, 0, 0]

  lemma EmptyStreamAsWritten()
    ensures DecodeLzma(EmptyStream) == Ok([])
    ensures DecodeLzmaAsWritten(EmptyStream) == Err(InternalError)
  {
    var d := EmptyStreamStart();
    EmptyStreamRun(d);
    WithoutMarkerRejected(EmptyStream);
  }

  /** The decoder for the empty stream has nothing left to decode and a
      zero code */
  lemma EmptyStreamStart() returns (d: Decoder)
    ensures Start(EmptyStream) == Ok(d)
    ensures d.leftToUnpack == Some(0) && !d.markerIsMandatory && RangeCoder.IsFinishedOK(d.rc)
  {
    EmptyStreamSize();
    d := Start(EmptyStream).value;
  }

  lemma EmptyStreamSize()
    ensures UnpackSize(EmptyStream[..HeaderSize]) == Some(0)
  {
    var header := EmptyStream[..HeaderSize];
    ZerosLittleEndian(8);
    assert forall i :: 5 <= i < 13 ==> header[i] == EmptyStream[i] == 0;
    assert header[5..13] == [0, 0, 0, 0, 0, 0, 0, 0];
    assert seq(8, _ => 0) == [0, 0, 0, 0, 0, 0, 0, 0];
    UnpackSizeRoundTrip(0, header);
  }

  lemma EmptyStreamRun(d: Decoder)
    requires Start(EmptyStream) == Ok(d)
    requires d.leftToUnpack == Some(0) && !d.markerIsMandatory && RangeCoder.IsFinishedOK(d.rc)
    ensures Run(EmptyStream) == Ok(Ending(FlushAll(d), ResFinishedWithoutMarker, []))
  {
    assert Iteration(d, false) == Ok(Stop(FlushAll(d), ResFinishedWithoutMarker, false));
  }

  lemma {:induction false} ZerosLittleEndian(k: nat)
    ensures ToLittleEndian(0, k) == seq(k, _ => 0)
  {
    if k > 0 {
      ZerosLittleEndian(k - 1);
    }
  }

  /** A number whose low byte is zero starts with a zero byte */
  lemma LowByteZero(n: nat, k: nat)
    ensures ToLittleEndian(256 * n, k + 1) == [0] + ToLittleEndian(n, k)
  {
  }

  /** The declared size as decodeLzma computes it folds bytes 4..7 onto
      bytes 0..3: a size of 2^32 reads as 1. */
  lemma SizeAsWrittenFolds(header: seq<Byte>)
    requires |header| == HeaderSize
    requires header[5..13] == [0, 0, 0, 0, 1, 0, 0, 0]
    ensures UnpackSize(header) == Some(TWO32)
    ensures UnpackSizeAsWritten(header) == Some(1)
  {
    SizeIsTwo32(header);
    SizeAsWrittenIsOne(header);
  }

  lemma SizeIsTwo32(header: seq<Byte>)
    requires |header| == HeaderSize
    requires header[5..13] == [0, 0, 0, 0, 1, 0, 0, 0]
    ensures UnpackSize(header) == Some(TWO32)
  {
    ZerosLittleEndian(3);
    assert ToLittleEndian(1, 4) == [1, 0, 0, 0];
    LowByteZero(1, 4);
    LowByteZero(0x100, 5);
    LowByteZero(0x1_0000, 6);
    LowByteZero(0x100_0000, 7);
    assert ToLittleEndian(TWO32, 8) == [0, 0, 0, 0, 1, 0, 0, 0];
    assert TWO32 < Pow2(64) - 1 by { Pow2Add(32, 32); Pow2Values(); }
    UnpackSizeRoundTrip(TWO32, header);
  }

  lemma SizeAsWrittenIsOne(header: seq<Byte>)
    requires |header| == HeaderSize
    requires header[5..13] == [0, 0, 0, 0, 1, 0, 0, 0]
    ensures UnpackSizeAsWritten(header) == Some(1)
  {
    assert header[5] == 0 && header[9] == 1 && header[6] == 0 && header[10] == 0;
    assert header[7] == 0 && header[11] == 0 && header[8] == 0 && header[12] == 0;
    assert Or(0, 1) == 1 && Or(0, 0) == 0;
    assert UnpackSize(header).Some? by { assert header[5] != 0xFF; }
  }
}
