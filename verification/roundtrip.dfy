/** The insert/retrieve round trip: an image produced by `insertData` gives
    back, through `retrieveData`, the extension and the bytes that went in;
    and a size that passes the length check of `retrieveData` can always be
    read to the end. */
module RoundTrip {
  import opened Arith
  import opened Wrappers
  import opened Channel
  import opened Cursor
  import opened BitStream
  import opened Fields
  import opened Capacity
  import opened Codec
  import opened CodecProps

  /** A marker carried at `c` is matched, and the cursor stands after it. */
  lemma CarriedMarkerMatches(buf: seq<bv8>, c: nat, ch: Channels, m: Mode)
    requires Carries(buf, c, Marker, ch, m)
    ensures MatchMarker(buf, c, ch, m, 0) == Matched(Advance(c, |ByteGroups(Marker, m)|, ch))
  {
    assert Marker[0..] == Marker;
    CarriesIffReadBytes(buf, c, Marker, ch, m);
    MatchMarkerSpec(buf, c, ch, m, 0, Marker);
    MatchedMarkerCarried(buf, c, ch, m, 0);
  }

  /** Retrieval from an embedded image finds the mode and the marker, and goes
      on right after the marker. */
  lemma EmbedRetrieveHeader(pixels: seq<bv8>, ch: Channels, m: Mode, field: seq<byte>, data: seq<byte>)
    requires StreamFits(pixels, ch, m, field, data)
    ensures var img := Image(Embed(pixels, ch, m, field, data), ch);
      Retrieve(img) == RetrieveAfterMarker(img, m, Advance(1, |ByteGroups(Marker, m)|, ch))
  {
    EmbedMode(pixels, ch, m, field, data);
    EmbedCarriesMarker(pixels, ch, m, field, data);
    CarriedMarkerMatches(Embed(pixels, ch, m, field, data), 1, ch, m);
  }

  /** After the marker, retrieval reads back a size and the extension field
      and file bytes that follow it, provided the length check lets the size
      through. */
  lemma AfterMarkerReadsBack(buf: seq<bv8>, ch: Channels, m: Mode, c1: nat, chars: seq<byte>, data: seq<byte>)
    requires 0 !in chars && 1 <= |data|
    requires ReadValue(buf, c1, SizeGroups(m), ch, m) == Some((|data| as nat, Advance(c1, SizeGroups(m), ch)))
    requires Carries(buf, Advance(c1, SizeGroups(m), ch), chars + [0] + data, ch, m)
    requires FitsAt(m, |data|, NonAlphaCount(0, |buf|, ch), |chars| + 1)
    ensures RetrieveAfterMarker(Image(buf, ch), m, c1) == Extracted([Dot] + chars, data)
  {
    var c2 := Advance(c1, SizeGroups(m), ch);
    var field := chars + [0];
    var c3 := Advance(c2, |ByteGroups(field, m)|, ch);
    assert ReadExt(buf, c2, ch, m, [Dot]) == Some(([Dot] + chars, c3)) by {
      ReadExtCarried(buf, c2, ch, m, [Dot], chars, data);
    }
    assert ReadBytes(buf, c3, |data|, ch, m) == Some(data) by {
      CarriesSplit(buf, c2, field, data, ch, m);
      CarriesReadBytes(buf, c3, data, ch, m);
    }
    assert LengthCheck(|data|, SizeNoAlpha(Image(buf, ch)), |[Dot] + chars|, m);
  }

  /** After the marker, an embedded image carries the size, then the
      extension field and the file. */
  lemma EmbedRetrievePayload(pixels: seq<bv8>, ch: Channels, m: Mode, chars: seq<byte>, data: seq<byte>)
    requires 0 !in chars && 1 <= |data| < U64
    requires StreamFits(pixels, ch, m, chars + [0], data)
    ensures var img := Image(Embed(pixels, ch, m, chars + [0], data), ch);
      RetrieveAfterMarker(img, m, Advance(1, |ByteGroups(Marker, m)|, ch)) == Extracted([Dot] + chars, data)
  {
    var e := Embed(pixels, ch, m, chars + [0], data);
    EmbedSizeReadsBack(pixels, ch, m, chars + [0], data);
    EmbedPayloadAfterSize(pixels, ch, m, chars + [0], data);
    assert FitsAt(m, |data|, NonAlphaCount(0, |e|, ch), |chars| + 1);
    AfterMarkerReadsBack(e, ch, m, Advance(1, |ByteGroups(Marker, m)|, ch), chars, data);
  }

  /** The size written after the marker reads back as the file's length. */
  lemma EmbedSizeReadsBack(pixels: seq<bv8>, ch: Channels, m: Mode, field: seq<byte>, data: seq<byte>)
    requires |data| < U64 && StreamFits(pixels, ch, m, field, data)
    ensures var c1 := Advance(1, |ByteGroups(Marker, m)|, ch);
      ReadValue(Embed(pixels, ch, m, field, data), c1, SizeGroups(m), ch, m)
        == Some((|data| as nat, Advance(c1, SizeGroups(m), ch)))
  {
    EmbedCarriesSize(pixels, ch, m, field, data);
    ReadSizeBack(Embed(pixels, ch, m, field, data), Advance(1, |ByteGroups(Marker, m)|, ch), |data|, ch, m);
  }

  /** The field and the file follow the size's groups. */
  lemma EmbedPayloadAfterSize(pixels: seq<bv8>, ch: Channels, m: Mode, field: seq<byte>, data: seq<byte>)
    requires StreamFits(pixels, ch, m, field, data)
    ensures var c1 := Advance(1, |ByteGroups(Marker, m)|, ch);
      Carries(Embed(pixels, ch, m, field, data), Advance(c1, SizeGroups(m), ch), field + data, ch, m)
  {
    EmbedCarriesPayload(pixels, ch, m, field, data);
    AdvanceAdd(1, |ByteGroups(Marker, m)|, SizeGroups(m), ch);
  }

  /** Embedding the extension characters (with their terminator) and a
      non-empty file of fewer than 2^64 bytes, in a mode with room for them,
      and then retrieving gives back '.' + the characters and the file. */
  lemma EmbedRetrieve(pixels: seq<bv8>, ch: Channels, m: Mode, chars: seq<byte>, data: seq<byte>)
    requires 0 !in chars && 1 <= |data| < U64
    requires FitsAt(m, |data|, NonAlphaCount(0, |pixels|, ch), |chars| + 1)
    ensures StreamFits(pixels, ch, m, chars + [0], data)
    ensures Retrieve(Image(Embed(pixels, ch, m, chars + [0], data), ch)) == Extracted([Dot] + chars, data)
  {
    FitsIffRoom(pixels, ch, m, chars + [0], data);
    EmbedRetrieveHeader(pixels, ch, m, chars + [0], data);
    EmbedRetrievePayload(pixels, ch, m, chars, data);
  }

  /** main.cpp:198-208 followed by main.cpp:210-216: whatever `insertData`
      hides is what `retrieveData` finds, the extension normalised to start
      with '.'. The file is non-empty (file.cpp:28-29) and its extension has
      no 0 character. */
  lemma InsertRetrieve(img: Image, p: Payload)
    requires |p.ext| < 255 && 0 !in ExtChars(p.ext)
    requires 1 <= |p.data| < U64
    requires FitsAt(2, |p.data|, SizeNoAlpha(img), |ExtField(p.ext)|)
    ensures Insert(img, p).Embedded?
    ensures Retrieve(Image(Insert(img, p).pixels, img.channels)) == Extracted(RecoveredExt(p.ext), p.data)
  {
    InsertIsEmbed(img, p);
    var field := ExtField(p.ext);
    var chars := ExtChars(p.ext);
    assert field == chars + [0] by {
      assert field == field[..|field| - 1] + [field[|field| - 1]];
    }
    EmbedRetrieve(img.pixels, img.channels, Insert(img, p).mode, chars, p.data);
  }

  /** An accepted insertion is the embedding of the extension field and the
      file in the chosen mode. */
  lemma InsertIsEmbed(img: Image, p: Payload)
    requires |p.ext| < 255 && FitsAt(2, |p.data|, SizeNoAlpha(img), |ExtField(p.ext)|)
    ensures Insert(img, p).Embedded?
    ensures StreamFits(img.pixels, img.channels, Insert(img, p).mode, ExtField(p.ext), p.data)
    ensures Insert(img, p).pixels == Embed(img.pixels, img.channels, Insert(img, p).mode, ExtField(p.ext), p.data)
  {
    var m := Insert(img, p).mode;
    assert FitsAt(m, |p.data|, SizeNoAlpha(img), |ExtField(p.ext)|);
    FitsIffRoom(img.pixels, img.channels, m, ExtField(p.ext), p.data);
  }

  /** Inserting never touches an alpha byte (main.cpp:47-48 and the like). */
  lemma InsertKeepsAlpha(img: Image, p: Payload)
    requires |p.ext| < 255 && FitsAt(2, |p.data|, SizeNoAlpha(img), |ExtField(p.ext)|)
    ensures Insert(img, p).Embedded?
    ensures forall i :: 0 <= i < |img.pixels| && IsAlpha(i, img.channels) ==> Insert(img, p).pixels[i] == img.pixels[i]
  {
    InsertIsEmbed(img, p);
    EmbedKeepsAlpha(img.pixels, img.channels, Insert(img, p).mode, ExtField(p.ext), p.data);
  }

  /** Inserting changes at most the `mode` low bits of any byte. */
  lemma InsertKeepsHighBits(img: Image, p: Payload)
    requires |p.ext| < 255 && FitsAt(2, |p.data|, SizeNoAlpha(img), |ExtField(p.ext)|)
    ensures Insert(img, p).Embedded?
    ensures var r := Insert(img, p);
      forall i :: 0 <= i < |img.pixels| ==> r.pixels[i] & !Mask(r.mode) == img.pixels[i] & !Mask(r.mode)
  {
    InsertIsEmbed(img, p);
    EmbedKeepsHighBits(img.pixels, img.channels, Insert(img, p).mode, ExtField(p.ext), p.data);
  }

  // ---------------------------------------------------------------- findings

  /** Whatever follows the size field is read as the extension: a first byte
      other than 0 there makes the recovered extension longer than '.'. */
  lemma ExtensionReadsOn(buf: seq<bv8>, ch: Channels, m: Mode, c1: nat, rest: seq<byte>)
    requires |rest| > 0 && rest[0] != 0
    requires Carries(buf, Advance(c1, SizeGroups(m), ch), rest, ch, m)
    ensures var r := RetrieveAfterMarker(Image(buf, ch), m, c1);
      r.Extracted? ==> |r.ext| >= 2
  {
    var c2 := Advance(c1, SizeGroups(m), ch);
    CarriesHead(buf, c2, rest, ch, m);
    ReadExtContinues(buf, c2, ch, m, [Dot]);
  }

  /** main.cpp:34, 65 as written store no terminator for a file without an
      extension: the file's first byte is then taken for an extension
      character, and the empty extension is never recovered. */
  lemma EmptyExtensionAsWritten(pixels: seq<bv8>, ch: Channels, m: Mode, data: seq<byte>)
    requires StreamFits(pixels, ch, m, ExtFieldAsWritten([]), data)
    requires |data| > 0 && data[0] != 0
    ensures var r := Retrieve(Image(Embed(pixels, ch, m, ExtFieldAsWritten([]), data), ch));
      r.Extracted? ==> r.ext != RecoveredExt([])
  {
    var field := ExtFieldAsWritten([]);
    var e := Embed(pixels, ch, m, field, data);
    var c1 := Advance(1, |ByteGroups(Marker, m)|, ch);
    EmbedRetrieveHeader(pixels, ch, m, field, data);
    assert Carries(e, Advance(c1, SizeGroups(m), ch), data, ch, m) by {
      EmbedCarriesPayload(pixels, ch, m, field, data);
      AdvanceAdd(1, |ByteGroups(Marker, m)|, SizeGroups(m), ch);
      assert field + data == data;
    }
    ExtensionReadsOn(e, ch, m, c1, data);
  }

  /** Reading an extension after its '.' consumes at most one character's
      worth of bytes per character of the result. */
  lemma ReadExtFromDot(buf: seq<bv8>, c: nat, ch: Channels, m: Mode, ext: seq<byte>, c2: nat)
    requires c <= |buf| && ReadExt(buf, c, ch, m, [Dot]) == Some((ext, c2))
    ensures c <= c2 <= |buf| && NonAlphaCount(c, c2, ch) <= |ext| * GroupsPerByte(m)
  {
    ReadExtConsumes(buf, c, ch, m, [Dot]);
    assert |ext| - |[Dot]| + 1 == |ext|;
  }

  /** With the corrected length check of main.cpp:147, a size that passes can
      always be read to the end: once the marker, the size and the extension
      have been read, retrieval extracts the file and never reads past the
      image. */
  lemma CheckedSizeIsReadable(img: Image, c1: nat, size: nat, c2: nat, ext: seq<byte>, c3: nat)
    requires |img.pixels| >= 1
    requires MatchMarker(img.pixels, 1, img.channels, DecodeMode(img.pixels[0]), 0) == Matched(c1)
    requires ReadValue(img.pixels, c1, SizeGroups(DecodeMode(img.pixels[0])), img.channels, DecodeMode(img.pixels[0])) == Some((size, c2))
    requires ReadExt(img.pixels, c2, img.channels, DecodeMode(img.pixels[0]), [Dot]) == Some((ext, c3))
    requires LengthCheck(size, SizeNoAlpha(img), |ext|, DecodeMode(img.pixels[0]))
    ensures Retrieve(img).Extracted?
  {
    var buf, ch, m := img.pixels, img.channels, DecodeMode(img.pixels[0]);
    assert ReadBytes(buf, c3, size, ch, m).Some? by {
      HeaderCount(buf, ch, m, c1, size, c2);
      ReadExtFromDot(buf, c2, ch, m, ext, c3);
      assert FitsAt(m, size, NonAlphaCount(0, |buf|, ch), |ext|);
      RoomForFile(buf, ch, m, c2, c3, |ext|, size);
    }
  }

  /** A matched marker and a size read take `16` bytes' worth of groups after
      byte 0. */
  lemma HeaderCount(buf: seq<bv8>, ch: Channels, m: Mode, c1: nat, size: nat, c2: nat)
    requires MatchMarker(buf, 1, ch, m, 0) == Matched(c1)
    requires ReadValue(buf, c1, SizeGroups(m), ch, m) == Some((size, c2))
    ensures 1 <= c2 <= |buf| && NonAlphaCount(1, c2, ch) == 16 * GroupsPerByte(m)
  {
    var g := GroupsPerByte(m);
    assert c1 == Advance(1, 8 * g, ch) by {
      MatchedMarkerCarried(buf, 1, ch, m, 0);
      assert Marker[0..] == Marker;
    }
    assert c2 == Advance(c1, 8 * g, ch) && c2 <= |buf| by {
      assert ReadGroups(buf, c1, SizeGroups(m), ch, m).Some?;
    }
    AdvanceCountsNonAlpha(1, 8 * g, ch);
    AdvanceCountsNonAlpha(c1, 8 * g, ch);
    NonAlphaCountSplit(1, c1, c2, ch);
  }

  /** The cursor arithmetic behind the length check: after byte 0, the marker
      and the size field (16 bytes' worth of groups) and an extension field of
      at most `extLen` bytes' worth, a stream that fits leaves room for the
      file. */
  lemma RoomForFile(buf: seq<bv8>, ch: Channels, m: Mode, c2: nat, c3: nat, extLen: nat, size: nat)
    requires 1 <= c2 <= c3 <= |buf|
    requires NonAlphaCount(1, c2, ch) == 16 * GroupsPerByte(m)
    requires NonAlphaCount(c2, c3, ch) <= extLen * GroupsPerByte(m)
    requires FitsAt(m, size, NonAlphaCount(0, |buf|, ch), extLen)
    ensures Advance(c3, size * GroupsPerByte(m), ch) <= |buf|
  {
    var sna := NonAlphaCount(0, |buf|, ch);
    assert sna == 1 + 16 * GroupsPerByte(m) + NonAlphaCount(c2, c3, ch) + NonAlphaCount(c3, |buf|, ch) by {
      FirstNotAlpha(|buf|, ch);
      NonAlphaCountSplit(1, c2, |buf|, ch);
      NonAlphaCountSplit(c2, c3, |buf|, ch);
    }
    RoomAfter(m, size, sna, extLen, NonAlphaCount(c2, c3, ch), NonAlphaCount(c3, |buf|, ch));
    WritesFit(c3, size * GroupsPerByte(m), |buf|, ch);
  }
}
