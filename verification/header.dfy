/** The 13-byte header of an .lzma stream (LzmaSpec.js `decodeProperties`
    and the header part of `decodeLzma`): one properties byte packing lc, lp
    and pb, a 32-bit little-endian dictionary size, and a 64-bit
    little-endian uncompressed size whose all-ones value means "unknown,
    the end marker is mandatory".
 */
module Header {
  import opened Base

  const HeaderSize: nat := 13
  const DicMin: nat := 4096          // LZMA_DIC_MIN = 1 << 12

  datatype Properties = Properties(lc: nat, lp: nat, pb: nat, dictSizeInProperties: int, dictSize: nat)

  /** Little-endian number of a byte string */
  function FromLittleEndian(s: seq<Byte>): (r: nat)
    ensures r < Pow2(8 * |s|)
  {
    if |s| == 0 then 0
    else
      var rest := FromLittleEndian(s[1..]);
      assert Pow2(8 * |s|) == 256 * Pow2(8 * (|s| - 1)) by {
        Pow2Add(8, 8 * (|s| - 1));
        Pow2Values();
      }
      s[0] + 256 * rest
  }

  /** The `k` low bytes of `n`, least significant first */
  function ToLittleEndian(n: nat, k: nat): (s: seq<Byte>)
    ensures |s| == k
  {
    if k == 0 then [] else [n % 256] + ToLittleEndian(n / 256, k - 1)
  }

  lemma {:induction false} LittleEndianRoundTrip(n: nat, k: nat)
    requires n < Pow2(8 * k)
    ensures FromLittleEndian(ToLittleEndian(n, k)) == n
  {
    if k > 0 {
      Pow2Add(8, 8 * (k - 1));
      Pow2Values();
      LittleEndianRoundTrip(n / 256, k - 1);
      var s := ToLittleEndian(n, k);
      assert s[1..] == ToLittleEndian(n / 256, k - 1);
    }
  }

  /** decodeProperties. The dictionary size is assembled with `|=` and `<<`,
      so it is an int32: a top byte of 0x80 or more gives a negative value,
      which the LZMA_DIC_MIN clamp turns into 4096. */
  function DecodeProperties(header: seq<Byte>): (r: Result<Properties>)
    requires |header| >= 5
    ensures r.Err? <==> header[0] >= 225
    ensures r.Err? ==> r.error == IncorrectProperties
    ensures r.Ok? ==> r.value.lc < 9 && r.value.lp < 5 && r.value.pb < 5
    ensures r.Ok? ==> r.value.lc + 9 * r.value.lp + 45 * r.value.pb == header[0]
    ensures r.Ok? ==> r.value.dictSize >= DicMin
    ensures r.Ok? && header[4] < 0x80 ==>
      r.value.dictSizeInProperties == FromLittleEndian(header[1..5]) &&
      r.value.dictSize == (if FromLittleEndian(header[1..5]) < DicMin then DicMin else FromLittleEndian(header[1..5]))
    ensures r.Ok? && header[4] >= 0x80 ==> r.value.dictSizeInProperties < 0 && r.value.dictSize == DicMin
  {
    var d := header[0];
    if d >= 9 * 5 * 5 then Err(IncorrectProperties)
    else
      var lc := d % 9;
      var d' := d / 9;
      var field := header[1] as int + 0x100 * header[2] as int + 0x1_0000 * header[3] as int + 0x100_0000 * header[4] as int;
      assert field == FromLittleEndian(header[1..5]) by {
        LittleEndian4(header[1..5]);
      }
      var dictSizeInProperties := Signed(field);
      var dictSize := if dictSizeInProperties < DicMin then DicMin else dictSizeInProperties;
      Ok(Properties(lc, d' % 5, d' / 5, dictSizeInProperties, dictSize))
  }

  lemma LittleEndian4(s: seq<Byte>)
    requires |s| == 4
    ensures FromLittleEndian(s) == s[0] as int + 0x100 * s[1] as int + 0x1_0000 * s[2] as int + 0x100_0000 * s[3] as int
  {
    var t3, t2, t1 := s[3..], s[2..], s[1..];
    assert t3[1..] == [];
    assert FromLittleEndian(t3) == s[3];
    assert t2[1..] == t3;
    assert FromLittleEndian(t2) == s[2] + 256 * FromLittleEndian(t3);
    assert t1[1..] == t2;
    assert FromLittleEndian(t1) == s[1] + 256 * FromLittleEndian(t2);
    assert s[1..] == t1;
  }

  /** The properties byte a encoder writes for lc, lp and pb */
  function EncodeProperties(lc: nat, lp: nat, pb: nat): nat {
    (pb * 5 + lp) * 9 + lc
  }

  /** Every admissible (lc, lp, pb) survives a trip through the properties
      byte, and the byte is one decodeProperties accepts. */
  lemma PropertiesRoundTrip(lc: nat, lp: nat, pb: nat, header: seq<Byte>)
    requires lc < 9 && lp < 5 && pb < 5
    requires |header| >= 5 && header[0] == EncodeProperties(lc, lp, pb)
    ensures DecodeProperties(header).Ok?
    ensures DecodeProperties(header).value.lc == lc
    ensures DecodeProperties(header).value.lp == lp
    ensures DecodeProperties(header).value.pb == pb
  {
  }

  /** The loop of decodeLzma that sets `unpackSizeDefined`: some size byte
      differs from 0xFF. */
  function SizeDefined(sizeBytes: seq<Byte>): (r: bool)
    ensures r <==> exists i :: 0 <= i < |sizeBytes| && sizeBytes[i] != 0xFF
  {
    if |sizeBytes| == 0 then false
    else if sizeBytes[0] != 0xFF then true
    else
      var r := SizeDefined(sizeBytes[1..]);
      assert forall i :: 1 <= i < |sizeBytes| ==> sizeBytes[1..][i - 1] == sizeBytes[i];
      r
  }

  /** The size field is undefined (end marker mandatory) exactly when it
      holds the largest 64-bit value. */
  lemma {:induction false} UndefinedIsAllOnes(sizeBytes: seq<Byte>)
    ensures !SizeDefined(sizeBytes) <==> FromLittleEndian(sizeBytes) == Pow2(8 * |sizeBytes|) - 1
  {
    if |sizeBytes| > 0 {
      var t := sizeBytes[1..];
      UndefinedIsAllOnes(t);
      Pow2Add(8, 8 * |t|);
      Pow2Values();
      assert SizeDefined(sizeBytes) == (sizeBytes[0] != 0xFF || SizeDefined(t));
    }
  }

  /** The uncompressed size: `None` when the end marker is mandatory,
      otherwise the 64-bit little-endian field. */
  function UnpackSize(header: seq<Byte>): (r: Option<nat>)
    requires |header| >= HeaderSize
    ensures r.None? <==> forall i :: 5 <= i < 13 ==> header[i] == 0xFF
    ensures r.Some? ==> r.value < Pow2(64) - 1
  {
    var field := header[5..13];
    assert forall i :: 5 <= i < 13 ==> field[i - 5] == header[i];
    UndefinedIsAllOnes(field);
    if SizeDefined(field) then Some(FromLittleEndian(field)) else None
  }

  /** Every size below 2^64 - 1 written into a header comes back */
  lemma UnpackSizeRoundTrip(n: nat, header: seq<Byte>)
    requires n < Pow2(64) - 1
    requires |header| >= HeaderSize && header[5..13] == ToLittleEndian(n, 8)
    ensures UnpackSize(header) == Some(n)
  {
    LittleEndianRoundTrip(n, 8);
    UndefinedIsAllOnes(header[5..13]);
  }

  /** Bitwise or of two bytes */
  function Or(a: Byte, b: Byte): Byte {
    ((a as bv8) | (b as bv8)) as int
  }

  /** The size as decodeLzma computes it: `unpackSize |= b << (8 * i)` on an
      int32, where a shift count of 32..56 is taken modulo 32, so bytes 4..7
      are or-ed onto bytes 0..3 and byte 3 carries the sign. */
  function UnpackSizeAsWritten(header: seq<Byte>): (r: Option<int>)
    requires |header| >= HeaderSize
    ensures r.None? <==> UnpackSize(header).None?
    ensures r.Some? ==> -TWO31 <= r.value < TWO31
  {
    if UnpackSize(header).None? then None
    else
      Some(Signed(Or(header[5], header[9]) as int + 0x100 * Or(header[6], header[10]) as int
        + 0x1_0000 * Or(header[7], header[11]) as int + 0x100_0000 * Or(header[8], header[12]) as int))
  }

  /** The header fields decodeLzma reads before creating the decoder */
  datatype StreamHeader = StreamHeader(props: Properties, unpackSize: Option<nat>, rest: seq<Byte>)

  /** The 13 header bytes are read first (a short stream fails with the
      end-of-file error), then the properties are checked. */
  function ReadHeader(input: seq<Byte>): (r: Result<StreamHeader>)
    ensures |input| < HeaderSize ==> r == Err(UnexpectedEndOfFile)
    ensures |input| >= HeaderSize && input[0] >= 225 ==> r == Err(IncorrectProperties)
    ensures |input| >= HeaderSize && input[0] < 225 ==> r.Ok?
    ensures r.Ok? ==> r.value.rest == input[HeaderSize..] && r.value.props.dictSize >= DicMin
    ensures r.Ok? ==> r.value.props.lc < 9 && r.value.props.lp < 5 && r.value.props.pb < 5
    ensures r.Ok? ==> r.value.unpackSize == UnpackSize(input[..HeaderSize])
    ensures r.Ok? ==> (r.value.unpackSize.None? <==> forall i :: 5 <= i < 13 ==> input[i] == 0xFF)
  {
    if |input| < HeaderSize then Err(UnexpectedEndOfFile)
    else
      var props :- DecodeProperties(input[..HeaderSize]);
      Ok(StreamHeader(props, UnpackSize(input[..HeaderSize]), input[HeaderSize..]))
  }
}
