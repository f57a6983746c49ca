/** What the codec guarantees: the header gates of `retrieveData`, what
    `insertData` leaves alone, and the insert/retrieve round trip. */
module CodecProps {
  import opened Arith
  import opened Wrappers
  import opened Channel
  import opened Cursor
  import opened BitStream
  import opened Fields
  import opened Capacity
  import opened Codec

  // ---------------------------------------------------------------- marker

  /** With the remaining marker characters readable, the marker check matches
      exactly when they spell the rest of "MSGSTART", and otherwise reports a
      mismatch (main.cpp:103-118). */
  lemma {:induction false} MatchMarkerSpec(buf: seq<bv8>, c: nat, ch: Channels, m: Mode, k: nat, bs: seq<byte>)
    requires k <= |Marker| && ReadBytes(buf, c, |Marker| - k, ch, m) == Some(bs)
    ensures MatchMarker(buf, c, ch, m, k) != Overrun
    ensures MatchMarker(buf, c, ch, m, k).Matched? <==> bs == Marker[k..]
    decreases |Marker| - k
  {
    if k < |Marker| {
      var c2 := Advance(c, GroupsPerByte(m), ch);
      assert ReadByte(buf, c, ch, m) == Some((bs[0], c2))
          && ReadBytes(buf, c2, |Marker| - (k + 1), ch, m) == Some(bs[1..]) by {
        CarriesIffReadBytes(buf, c, bs, ch, m);
        CarriesHead(buf, c, bs, ch, m);
        CarriesIffReadBytes(buf, c2, bs[1..], ch, m);
      }
      SeqCons(Marker, k);
      SeqCons(bs, 0);
      if bs[0] == Marker[k] {
        MatchMarkerSpec(buf, c2, ch, m, k + 1, bs[1..]);
      }
    }
  }

  lemma SeqSnocCons<T>(a: seq<T>, z: T, rest: seq<T>)
    requires |a| > 0
    ensures a + [z] == [a[0]] + (a[1..] + [z])
    ensures (a + [z] + rest)[0] == a[0] && (a + [z] + rest)[1..] == a[1..] + [z] + rest
  {
  }

  lemma SeqShiftHead<T>(a: seq<T>, b: seq<T>)
    requires |b| > 0
    ensures a + [b[0]] + b[1..] == a + b
  {
  }

  lemma SeqCons<T>(s: seq<T>, k: nat)
    requires k < |s|
    ensures s[k..] == [s[k]] + s[k + 1..]
  {
  }

  /** A matched marker was really there, and the cursor stands right after it. */
  lemma {:induction false} MatchedMarkerCarried(buf: seq<bv8>, c: nat, ch: Channels, m: Mode, k: nat)
    requires k <= |Marker| && MatchMarker(buf, c, ch, m, k).Matched?
    ensures Carries(buf, c, Marker[k..], ch, m)
    ensures MatchMarker(buf, c, ch, m, k).next == Advance(c, |ByteGroups(Marker[k..], m)|, ch)
    decreases |Marker| - k
  {
    if k < |Marker| {
      var g := GroupsPerByte(m);
      var c2 := ReadByte(buf, c, ch, m).value.1;
      var tail := ByteGroups(Marker[k + 1..], m);
      MatchedMarkerCarried(buf, c2, ch, m, k + 1);
      assert MatchMarker(buf, c, ch, m, k) == MatchMarker(buf, c2, ch, m, k + 1);
      assert c2 == Advance(c, g, ch);
      SeqCons(Marker, k);
      CarriesCons(buf, c, Marker[k], Marker[k + 1..], ch, m);
      assert |ByteGroups(Marker[k..], m)| == g + |tail| by {
        ByteGroupsAppend([Marker[k]], Marker[k + 1..], m);
      }
      AdvanceAdd(c, g, |tail|, ch);
    }
  }

  /** When the marker's bytes lie inside the image, retrieval reports "no
      data" exactly when they are not "MSGSTART" (main.cpp:114-117). */
  lemma RetrieveNoDataIffNoMarker(img: Image)
    requires |img.pixels| >= 1
    requires Advance(1, |Marker| * GroupsPerByte(DecodeMode(img.pixels[0])), img.channels) <= |img.pixels|
    ensures Retrieve(img) == NoData
        <==> ReadBytes(img.pixels, 1, |Marker|, img.channels, DecodeMode(img.pixels[0])) != Some(Marker)
  {
    var bs := ReadBytes(img.pixels, 1, |Marker|, img.channels, DecodeMode(img.pixels[0])).value;
    MatchMarkerSpec(img.pixels, 1, img.channels, DecodeMode(img.pixels[0]), 0, bs);
    assert Marker[0..] == Marker;
  }

  /** Whatever retrieval extracts comes from an image that carries the marker. */
  lemma ExtractedHasMarker(img: Image)
    requires Retrieve(img).Extracted?
    ensures |img.pixels| >= 1
    ensures ReadBytes(img.pixels, 1, |Marker|, img.channels, DecodeMode(img.pixels[0])) == Some(Marker)
  {
    var m := DecodeMode(img.pixels[0]);
    MatchedMarkerCarried(img.pixels, 1, img.channels, m, 0);
    assert Marker[0..] == Marker;
    CarriesIffReadBytes(img.pixels, 1, Marker, img.channels, m);
  }

  /** A header whose size fails the length check, a size of 0 included,
      ends retrieval as corrupted, before any file byte is read
      (main.cpp:147-150). */
  lemma RetrieveCorrupted(img: Image, c1: nat, size: nat, c2: nat, ext: seq<byte>, c3: nat)
    requires |img.pixels| >= 1
    requires MatchMarker(img.pixels, 1, img.channels, DecodeMode(img.pixels[0]), 0) == Matched(c1)
    requires ReadValue(img.pixels, c1, SizeGroups(DecodeMode(img.pixels[0])), img.channels, DecodeMode(img.pixels[0]))
          == Some((size, c2))
    requires ReadExt(img.pixels, c2, img.channels, DecodeMode(img.pixels[0]), [Dot]) == Some((ext, c3))
    requires !LengthCheck(size, SizeNoAlpha(img), |ext|, DecodeMode(img.pixels[0]))
    ensures Retrieve(img) == Corrupted
  {
  }

  // ---------------------------------------------------------------- extension

  /** An extension field carried at the cursor is read back: the characters
      before the 0 are appended, and the cursor stops after the 0
      (main.cpp:130-144). */
  lemma {:induction false} ReadExtCarried(buf: seq<bv8>, c: nat, ch: Channels, m: Mode, acc: seq<byte>, chars: seq<byte>, rest: seq<byte>)
    requires 0 !in chars
    requires Carries(buf, c, chars + [0] + rest, ch, m)
    ensures ReadExt(buf, c, ch, m, acc) == Some((acc + chars, Advance(c, |ByteGroups(chars + [0], m)|, ch)))
    decreases |chars|
  {
    var g := GroupsPerByte(m);
    var all := chars + [0] + rest;
    var c2 := Advance(c, g, ch);
    CarriesHead(buf, c, all, ch, m);
    if |chars| == 0 {
      ReadExtStops(buf, c, ch, m, acc);
      ByteGroupsCons(0, [], m);
      assert chars + [0] == [0] + [];
      assert acc + chars == acc;
    } else {
      var tail := chars[1..] + [0];
      SeqSnocCons(chars, 0, rest);
      ReadExtContinues(buf, c, ch, m, acc);
      ReadExtCarried(buf, c2, ch, m, acc + [chars[0]], chars[1..], rest);
      ByteGroupsCons(chars[0], tail, m);
      AdvanceAdd(c, g, |ByteGroups(tail, m)|, ch);
      SeqShiftHead(acc, chars);
    }
  }

  /** A 0 character at the cursor ends the extension. */
  lemma ReadExtStops(buf: seq<bv8>, c: nat, ch: Channels, m: Mode, acc: seq<byte>)
    requires c < |buf| && ReadByte(buf, c, ch, m).Some? && ReadByte(buf, c, ch, m).value.0 == 0
    ensures ReadExt(buf, c, ch, m, acc) == Some((acc, ReadByte(buf, c, ch, m).value.1))
  {
  }

  /** Any other character is appended and reading goes on. */
  lemma ReadExtContinues(buf: seq<bv8>, c: nat, ch: Channels, m: Mode, acc: seq<byte>)
    requires c < |buf| && ReadByte(buf, c, ch, m).Some? && ReadByte(buf, c, ch, m).value.0 != 0
    ensures ReadExt(buf, c, ch, m, acc)
         == ReadExt(buf, ReadByte(buf, c, ch, m).value.1, ch, m, acc + [ReadByte(buf, c, ch, m).value.0])
  {
  }

  /** What the extension loop consumes: at most one character more than it
      appends (the 0 that ends it), and never beyond the buffer. */
  lemma ReadExtConsumes(buf: seq<bv8>, c: nat, ch: Channels, m: Mode, acc: seq<byte>)
    requires c <= |buf| && ReadExt(buf, c, ch, m, acc).Some?
    ensures var (e, c2) := ReadExt(buf, c, ch, m, acc).value;
      c <= c2 <= |buf| && NonAlphaCount(c, c2, ch) <= (|e| - |acc| + 1) * GroupsPerByte(m)
    decreases |buf| - c
  {
    var g := GroupsPerByte(m);
    var (e, c2) := ReadExt(buf, c, ch, m, acc).value;
    if c < |buf| {
      var (b, c1) := ReadByte(buf, c, ch, m).value;
      assert c1 <= |buf| by {
        assert ReadGroups(buf, c, g, ch, m).Some?;
      }
      AdvanceCountsNonAlpha(c, g, ch);
      if b != 0 {
        ReadExtContinues(buf, c, ch, m, acc);
        ReadExtConsumes(buf, c1, ch, m, acc + [b]);
        NonAlphaCountSplit(c, c1, c2, ch);
        assert (|e| - |acc| - 1 + 1) * g + g == (|e| - |acc| + 1) * g;
      }
    }
  }

  // ---------------------------------------------------------------- embedding

  /** The stream, cut at its fields: marker, size, then extension field and
      file together. */
  lemma StreamParts(m: Mode, field: seq<byte>, data: seq<byte>)
    ensures var s, a, b := Stream(m, field, data), |ByteGroups(Marker, m)|, SizeGroups(m);
      a + b <= |s|
      && s[..a] == ByteGroups(Marker, m)
      && s[a..a + b] == Groups(|data|, b, m)
      && s[a + b..] == ByteGroups(field + data, m)
  {
    var x, y := ByteGroups(Marker, m), Groups(|data|, SizeGroups(m), m);
    var z, w := ByteGroups(field, m), ByteGroups(data, m);
    assert Stream(m, field, data) == x + y + z + w;
    ConcatParts(x, y, z, w);
    ByteGroupsAppend(field, data, m);
  }

  lemma ConcatAssoc<T>(x: seq<T>, y: seq<T>, z: seq<T>, w: seq<T>)
    ensures x + y + z + w == (x + y) + (z + w)
  {
  }

  lemma ConcatParts<T>(x: seq<T>, y: seq<T>, z: seq<T>, w: seq<T>)
    ensures var s := x + y + z + w;
      s[..|x|] == x && s[|x|..|x| + |y|] == y && s[|x| + |y|..] == z + w
  {
    var s := x + y + z + w;
    assert s == x + (y + (z + w));
    assert s[|x|..] == y + (z + w);
  }

  /** After embedding, byte 0 decodes to the mode used (main.cpp:42, 100). */
  lemma EmbedMode(pixels: seq<bv8>, ch: Channels, m: Mode, field: seq<byte>, data: seq<byte>)
    requires StreamFits(pixels, ch, m, field, data)
    ensures DecodeMode(Embed(pixels, ch, m, field, data)[0]) == m
  {
    ModeFlagRoundTrip(pixels[0], m);
  }

  /** After embedding, the marker is read back from cursor 1. */
  lemma EmbedCarriesMarker(pixels: seq<bv8>, ch: Channels, m: Mode, field: seq<byte>, data: seq<byte>)
    requires StreamFits(pixels, ch, m, field, data)
    ensures Carries(Embed(pixels, ch, m, field, data), 1, Marker, ch, m)
  {
    FitsIffRoom(pixels, ch, m, field, data);
    var s := Stream(m, field, data);
    StreamParts(m, field, data);
    ReadAfterWrite(pixels[0 := SetModeFlag(pixels[0], m)], 1, s, 0, |ByteGroups(Marker, m)|, ch, m);
    assert s[0..|ByteGroups(Marker, m)|] == s[..|ByteGroups(Marker, m)|];
  }

  /** After embedding, the 64-bit size groups follow the marker. */
  lemma EmbedCarriesSize(pixels: seq<bv8>, ch: Channels, m: Mode, field: seq<byte>, data: seq<byte>)
    requires StreamFits(pixels, ch, m, field, data)
    ensures ReadGroups(Embed(pixels, ch, m, field, data), Advance(1, |ByteGroups(Marker, m)|, ch), SizeGroups(m), ch, m)
         == Some(Groups(|data|, SizeGroups(m), m))
  {
    FitsIffRoom(pixels, ch, m, field, data);
    StreamParts(m, field, data);
    ReadAfterWrite(pixels[0 := SetModeFlag(pixels[0], m)], 1, Stream(m, field, data), |ByteGroups(Marker, m)|, SizeGroups(m), ch, m);
  }

  /** After embedding, the extension field and the file bytes follow the size. */
  lemma EmbedCarriesPayload(pixels: seq<bv8>, ch: Channels, m: Mode, field: seq<byte>, data: seq<byte>)
    requires StreamFits(pixels, ch, m, field, data)
    ensures Carries(Embed(pixels, ch, m, field, data), Advance(1, |ByteGroups(Marker, m)| + SizeGroups(m), ch), field + data, ch, m)
  {
    FitsIffRoom(pixels, ch, m, field, data);
    var h := ByteGroups(Marker, m) + Groups(|data|, SizeGroups(m), m);
    assert Stream(m, field, data) == h + ByteGroups(field + data, m) by {
      ByteGroupsAppend(field, data, m);
      ConcatAssoc(ByteGroups(Marker, m), Groups(|data|, SizeGroups(m), m), ByteGroups(field, m), ByteGroups(data, m));
    }
    WrittenTailCarried(pixels[0 := SetModeFlag(pixels[0], m)], 1, h, field + data, ch, m);
  }

  /** Embedding touches no alpha byte (main.cpp:47-48, 57-58, 67-68, 78-79). */
  lemma EmbedKeepsAlpha(pixels: seq<bv8>, ch: Channels, m: Mode, field: seq<byte>, data: seq<byte>)
    requires StreamFits(pixels, ch, m, field, data)
    ensures forall i :: 0 <= i < |pixels| && IsAlpha(i, ch) ==> Embed(pixels, ch, m, field, data)[i] == pixels[i]
  {
    FitsIffRoom(pixels, ch, m, field, data);
    ZeroNotAlpha(ch);
    WriteKeepsAlpha(pixels[0 := SetModeFlag(pixels[0], m)], 1, Stream(m, field, data), ch, m);
  }

  /** Embedding changes only the low `mode` bits of any byte
      (main.cpp:42, 50, 60, 70, 81). */
  lemma EmbedKeepsHighBits(pixels: seq<bv8>, ch: Channels, m: Mode, field: seq<byte>, data: seq<byte>)
    requires StreamFits(pixels, ch, m, field, data)
    ensures forall i :: 0 <= i < |pixels| ==> Embed(pixels, ch, m, field, data)[i] & !Mask(m) == pixels[i] & !Mask(m)
  {
    FitsIffRoom(pixels, ch, m, field, data);
    ModeFlagKeepsHighBits(pixels[0], m);
    WriteKeepsHighBits(pixels[0 := SetModeFlag(pixels[0], m)], 1, Stream(m, field, data), ch, m);
  }
}
