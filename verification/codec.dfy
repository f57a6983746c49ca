/** The LSB codec of main.cpp: `insertData` behind the capacity check of `main`
    (main.cpp:25-87, 198-208) and `retrieveData` (main.cpp:89-175), as pure
    functions on a pixel buffer.

    Wire layout after the mode flag in bit 0 of byte 0: the marker "MSGSTART",
    the 64-bit file size, the extension field (the extension's characters
    after its leading '.', then a 0 byte) and the file bytes; every value is
    cut into `mode`-bit groups, lowest bits first, one group per non-alpha
    byte. */
module Codec {
  import opened Arith
  import opened Wrappers
  import opened Channel
  import opened Cursor
  import opened BitStream
  import opened Fields
  import opened Capacity

  /** The marker "MSGSTART" (main.cpp:5), as ASCII codes. */
  const Marker: seq<byte> := [0x4D, 0x53, 0x47, 0x53, 0x54, 0x41, 0x52, 0x54]

  /** '.', the start of every recovered extension (main.cpp:97). */
  const Dot: byte := 0x2E

  type Channels = c: nat | c >= 1 witness 1

  /** A decoded image: its bytes, channel-interleaved, and its channel count. */
  datatype Image = Image(pixels: seq<bv8>, channels: Channels)

  /** `size_no_alpha()`: the bytes that are not alpha. */
  function SizeNoAlpha(img: Image): (n: nat)
    ensures n <= |img.pixels|
  {
    NonAlphaCount(0, |img.pixels|, img.channels)
  }

  /** The file to hide: `extension()` (empty, or starting with '.') and the
      file's bytes. */
  datatype Payload = Payload(ext: seq<byte>, data: seq<byte>)

  /** The extension without its leading '.'. */
  function ExtChars(ext: seq<byte>): (r: seq<byte>)
    ensures |ext| > 0 ==> |r| == |ext| - 1
  {
    if |ext| == 0 then [] else ext[1..]
  }

  /** The extension a retrieval reports: '.' followed by the stored characters. */
  function RecoveredExt(ext: seq<byte>): (r: seq<byte>)
    ensures |ext| > 0 && ext[0] == Dot ==> r == ext
    ensures |r| >= 1 && r[0] == Dot
  {
    [Dot] + ExtChars(ext)
  }

  // ---------------------------------------------------------------- extension field

  /** main.cpp:34, 65 as written: the bytes of `extension() + '\0'` from index
      1 on. For an empty extension this is empty: no terminator is stored. */
  function ExtFieldAsWritten(ext: seq<byte>): (r: seq<byte>)
    ensures ext == [] ==> r == []
    ensures ext != [] ==> r == ExtField(ext)
  {
    (ext + [0])[1..]
  }

  /** The extension field with its terminator always present: the characters
      after the '.', then 0. */
  function ExtField(ext: seq<byte>): (r: seq<byte>)
    ensures |r| >= 1 && r[|r| - 1] == 0 && r[..|r| - 1] == ExtChars(ext)
    ensures |ext| > 0 ==> |r| == |ext|
  {
    if |ext| == 0 then [0] else ext[1..] + [0]
  }

  // ---------------------------------------------------------------- embedding

  /** The groups written after the mode flag, in order. */
  function Stream(m: Mode, field: seq<byte>, data: seq<byte>): (gs: seq<nat>)
    ensures GroupsValid(gs, m)
  {
    var a := ByteGroups(Marker, m);
    var b := Groups(|data|, SizeGroups(m), m);
    var c := ByteGroups(field, m);
    var d := ByteGroups(data, m);
    assert GroupsValid(b, m);
    GroupsValidAppend(a, b, m);
    GroupsValidAppend(a + b, c, m);
    GroupsValidAppend(a + b + c, d, m);
    a + b + c + d
  }

  lemma GroupsValidAppend(x: seq<nat>, y: seq<nat>, m: Mode)
    requires GroupsValid(x, m) && GroupsValid(y, m)
    ensures GroupsValid(x + y, m)
  {
    forall k | 0 <= k < |x + y|
      ensures (x + y)[k] < Radix(m)
    {
      if k >= |x| {
        assert (x + y)[k] == y[k - |x|];
      }
    }
  }

  /** The stream takes `8/mode` groups per byte of marker, size field,
      extension field and file. */
  lemma StreamLength(m: Mode, field: seq<byte>, data: seq<byte>)
    ensures |Stream(m, field, data)| == StreamBytes(|data|, |field|) * GroupsPerByte(m)
  {
    var g := GroupsPerByte(m);
    var n := StreamBytes(|data|, |field|);
    assert n == 16 + |field| + |data|;
    assert |Stream(m, field, data)| == 8 * g + SizeGroups(m) + |field| * g + |data| * g;
    assert SizeGroups(m) == 8 * g;
    assert n * g == 16 * g + |field| * g + |data| * g;
  }

  /** The whole stream fits in the image after byte 0, at `m` bits per
      non-alpha byte. */
  predicate StreamFits(pixels: seq<bv8>, ch: Channels, m: Mode, field: seq<byte>, data: seq<byte>)
  {
    |pixels| >= 1 && FitsAt(m, |data|, NonAlphaCount(0, |pixels|, ch), |field|)
  }

  /** `insertData` once the mode is fixed: set the mode flag in byte 0
      (main.cpp:42), then write the stream from cursor 1 (main.cpp:44-84). */
  function Embed(pixels: seq<bv8>, ch: Channels, m: Mode, field: seq<byte>, data: seq<byte>): (r: seq<bv8>)
    requires StreamFits(pixels, ch, m, field, data)
    ensures |r| == |pixels|
    ensures r[0] == SetModeFlag(pixels[0], m)
    ensures forall i :: Advance(1, |Stream(m, field, data)|, ch) <= i < |pixels| ==> r[i] == pixels[i]
  {
    FitsIffRoom(pixels, ch, m, field, data);
    WriteGroups(pixels[0 := SetModeFlag(pixels[0], m)], 1, Stream(m, field, data), ch, m)
  }

  /** The image has room for the stream exactly when the cursor, writing the
      whole stream from byte 1, stays inside the image. */
  lemma FitsIffRoom(pixels: seq<bv8>, ch: Channels, m: Mode, field: seq<byte>, data: seq<byte>)
    requires |pixels| >= 1
    ensures StreamFits(pixels, ch, m, field, data)
        <==> Advance(1, |Stream(m, field, data)|, ch) <= |pixels|
  {
    var n := |Stream(m, field, data)|;
    var sna := NonAlphaCount(0, |pixels|, ch);
    assert FitsAt(m, |data|, sna, |field|) <==> n <= sna - 1 by {
      StreamLength(m, field, data);
    }
    FirstNotAlpha(|pixels|, ch);
    WritesFit(1, n, |pixels|, ch);
  }

  /** Outcome of inserting a file. */
  datatype Inserted = TooLarge | Embedded(pixels: seq<bv8>, mode: Mode)

  /** The insert branch of `main` (main.cpp:198-208) with `insertData`: reject
      a file that does not fit at 2 bits per byte, otherwise pick the mode and
      embed. Uses the corrected capacity check, mode threshold and extension
      field. */
  function Insert(img: Image, p: Payload): (r: Inserted)
    requires |p.ext| < 255
    ensures r.TooLarge? <==> !FitsAt(2, |p.data|, SizeNoAlpha(img), |ExtField(p.ext)|)
    ensures r.Embedded? ==> |r.pixels| == |img.pixels|
    ensures r.Embedded? ==> (r.mode == 1 <==> FitsAt(1, |p.data|, SizeNoAlpha(img), |ExtField(p.ext)|))
  {
    var sna := SizeNoAlpha(img);
    var field := ExtField(p.ext);
    if !CapacityCheck(|p.data|, sna, |field|) then TooLarge
    else
      var m := SelectMode(|p.data|, sna, |field|);
      SelectedModeFits(|p.data|, sna, |field|);
      Embedded(Embed(img.pixels, img.channels, m, field, p.data), m)
  }

  // ---------------------------------------------------------------- retrieval

  /** Result of reading the marker. */
  datatype MarkerRead = Matched(next: nat) | Mismatch | Overrun

  /** main.cpp:103-118: read the marker characters from character `k` on and
      stop at the first one that differs. */
  function MatchMarker(buf: seq<bv8>, c: nat, ch: Channels, m: Mode, k: nat): (r: MarkerRead)
    requires k <= |Marker|
    decreases |Marker| - k
  {
    if k == |Marker| then Matched(c)
    else
      match ReadByte(buf, c, ch, m)
      case None => Overrun
      case Some((b, c2)) => if b != Marker[k] then Mismatch else MatchMarker(buf, c2, ch, m, k + 1)
  }

  /** main.cpp:130-144: append characters to `acc` until a 0 character, or
      until the cursor has reached the end of the buffer before a character. */
  function ReadExt(buf: seq<bv8>, c: nat, ch: Channels, m: Mode, acc: seq<byte>): (r: Option<(seq<byte>, nat)>)
    ensures r.Some? ==> |acc| <= |r.value.0| && r.value.0[..|acc|] == acc && 0 !in r.value.0[|acc|..]
    decreases |buf| - c
  {
    if c >= |buf| then Some((acc, c))
    else
      match ReadByte(buf, c, ch, m)
      case None => None
      case Some((b, c2)) =>
        if b == 0 then Some((acc, c2))
        else
          var r := ReadExt(buf, c2, ch, m, acc + [b]);
          if r.Some? then
            assert r.value.0[|acc|..] == [b] + r.value.0[|acc| + 1..];
            r
          else r
  }

  /** Outcome of a retrieval. `ReadPastEnd` stands for the reads of
      main.cpp:100-127 and 158-172, which have no bounds check. */
  datatype Retrieved = NoData | Corrupted | Extracted(ext: seq<byte>, data: seq<byte>) | ReadPastEnd

  /** `retrieveData` (main.cpp:89-175), with the corrected length check. */
  function Retrieve(img: Image): (r: Retrieved)
    ensures r.Extracted? ==> |r.ext| >= 1 && r.ext[0] == Dot && 0 !in r.ext[1..]
    ensures r.Extracted? ==>
      (|img.pixels| >= 1 && 1 <= |r.data|
       && LengthCheck(|r.data|, SizeNoAlpha(img), |r.ext|, DecodeMode(img.pixels[0])))
  {
    var buf := img.pixels;
    if |buf| == 0 then ReadPastEnd
    else
      var m := DecodeMode(buf[0]);
      match MatchMarker(buf, 1, img.channels, m, 0)
      case Overrun => ReadPastEnd
      case Mismatch => NoData
      case Matched(c1) => RetrieveAfterMarker(img, m, c1)
  }

  /** main.cpp:120-175, once the marker has matched with the cursor at `c1`:
      the size, the extension, the length check and the file bytes. */
  function RetrieveAfterMarker(img: Image, m: Mode, c1: nat): (r: Retrieved)
    ensures r != NoData
    ensures r.Extracted? ==> |r.ext| >= 1 && r.ext[0] == Dot && 0 !in r.ext[1..]
    ensures r.Extracted? ==> 1 <= |r.data| && LengthCheck(|r.data|, SizeNoAlpha(img), |r.ext|, m)
  {
    var buf, ch := img.pixels, img.channels;
    match ReadValue(buf, c1, SizeGroups(m), ch, m)
    case None => ReadPastEnd
    case Some((size, c2)) =>
      match ReadExt(buf, c2, ch, m, [Dot])
      case None => ReadPastEnd
      case Some((ext, c3)) =>
        assert ext[0] == ext[..1][0] == Dot;
        if !LengthCheck(size, SizeNoAlpha(img), |ext|, m) then Corrupted
        else
          match ReadBytes(buf, c3, size, ch, m)
          case None => ReadPastEnd
          case Some(data) => Extracted(ext, data)
  }
}
