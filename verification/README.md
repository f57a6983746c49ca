# PixelHide in Dafny

PixelHide hides a file in the least significant bits of an image's pixel bytes.
This project models the core of the program and proves it correct:

- **The LSB codec.** `insertData` and `retrieveData` in main.cpp are modelled together with the two
  size checks around them: the capacity check of `main` and the mode threshold.
- **The file framing.** The path constructor of `File` appends the extension and a 0 byte, reversed,
  after the content. The buffer constructor splits such a buffer again.
- **The key file layout.** `Key::generateKey` writes `key_size + 16` bytes. `Key::Key` reads them
  back as a 16-byte IV followed by the key.

The pixel buffer is a `seq<bv8>` interleaved by channel, together with its channel count. A cursor
walks the buffer from byte 1. When the channel count is even, the cursor steps over the alpha byte
of every pixel (the last channel).

Every value is cut into `mode`-bit groups, lowest bits first. Each group goes into the low `mode`
bits of the next byte the cursor stops at. The mode is 1 or 2 and is kept in bit 0 of byte 0.

The stream written after the mode flag holds, in order:

1. the marker "MSGSTART";
2. the 64-bit file size;
3. the extension field: the extension's characters after its '.', then a 0 byte;
4. the file bytes.

The modules follow the layers of the program:

| module | file | contents |
|---|---|---|
| `Wrappers` | wrappers.dfy | the shared `Option` and `Result` outcome types |
| `Arith` | arith.dfy | bytes, powers of two, `uint64_t` wrap-around, division facts |
| `Channel` | channel.dfy | the mode, the bit mask, reading and writing the low bits of one byte, the mode flag |
| `Cursor` | cursor.dfy | the alpha test, the cursor bump, the `k`-th write position, counting non-alpha bytes |
| `BitStream` | bitstream.dfy | splitting values into groups and joining them again; writing and reading group runs along the cursor |
| `Fields` | fields.dfy | reading whole characters, byte runs and the size field; "the buffer carries these bytes from here" |
| `Capacity` | capacity.dfy | the three size checks of main.cpp, each as written (with `uint64_t` wrap-around) and corrected |
| `Codec` | codec.dfy | `Insert` and `Retrieve` as functions |
| `CodecProps` | codec_props.dfy | what embedding writes and what the retrieval steps read |
| `RoundTrip` | roundtrip.dfy | insert-then-retrieve, and the findings about the extension field and the length check |
| `InsertLoop` | insert_loop.dfy | the write loop of `insertData` as a method, proved equal to the functional embedding |
| `Framing` | framing.dfy | packing and unpacking the `File` trailer |
| `KeyFile` | keyfile.dfy | key generation and key loading |

The codec uses the corrected forms of the three size checks; see "## Findings". Where no `uint64_t`
subtraction wraps, each corrected check is tied to the one written: the capacity checks decide alike
(`Capacity.CapacityCheckAgrees`), the mode thresholds pick the same mode whenever the written one picks
a mode that holds the stream (`Capacity.ModeAgreesWhereItFits`), and every size the corrected length
check accepts is accepted as written (`Capacity.LengthCheckStricter`). Retrieval reports one of four
outcomes:

- `NoData`: the marker does not match.
- `Corrupted`: the size is 0 or fails the length check.
- `Extracted(ext, data)`: the recovered extension and file bytes.
- `ReadPastEnd`: one of the unchecked reads of `retrieveData` would leave the buffer.

## Model

| member | source | states |
|---|---|---|
| Channel.SetLow | main.cpp:50 | the written byte reads back as the group in its low `mode` bits, and its other `8 - mode` bits are those of the old byte |
| Channel.ModeFlagRoundTrip | main.cpp:42 | the mode read back by `(byte & 1) + 1` (main.cpp:100) is the mode written, and bits 1-7 of byte 0 are kept |
| Cursor.Skip | main.cpp:47-48 | the bumped cursor is never on an alpha byte, and it moves only when it was on one, by exactly one |
| Cursor.SlotsIncrease | main.cpp:47-51 | later writes land at strictly higher positions, so no byte is written twice |
| Cursor.AdvanceCountsNonAlpha | main.cpp:46-52 | `n` writes consume exactly `n` non-alpha bytes |
| Cursor.WritesFit | main.cpp:44-84 | `n` writes stay inside the buffer exactly when at least `n` non-alpha bytes are left |
| BitStream.ValueRoundTrip | main.cpp:106-111 | a value of at most `m*n` bits split into `n` groups is rebuilt exactly by OR-ing the groups at shifts `0, m, 2m, ...` |
| BitStream.JoinThenSplit | main.cpp:106-111 | joining valid groups and splitting the result again gives the same groups |
| BitStream.UngroupByteGroups | main.cpp:161-171 | bytes split into `8/mode` groups each are rebuilt exactly by the per-byte join |
| BitStream.WriteSetsSlots | main.cpp:46-51 | after a run of writes, the `k`-th cursor position holds the `k`-th group in its low bits |
| BitStream.WriteKeepsAlpha | main.cpp:47-48 | a run of writes leaves every alpha byte unchanged |
| BitStream.WriteKeepsHighBits | main.cpp:50 | a run of writes changes only the low `mode` bits of any byte |
| BitStream.ReadAfterWrite | main.cpp:106-111 | any window of written groups is read back from the cursor position the writer had reached there |
| Fields.ReadSizeBack | main.cpp:121-127 | a 64-bit size written as `64/mode` groups is read back as the same size, with the cursor after the field |
| Fields.CarriesIffReadBytes | main.cpp:158-172 | the buffer carries bytes from a cursor exactly when reading that many bytes there returns them |
| Capacity.SelectMode | main.cpp:36-39 | mode 1 is chosen exactly when the whole stream fits at 1 bit per non-alpha byte after byte 0 |
| Capacity.SelectedModeFits | main.cpp:38 | after the capacity check has passed, the chosen mode holds the whole stream |
| Capacity.ModeAgreesWhereItFits | main.cpp:36-39 | where the subtractions do not wrap and the mode the code picks holds the stream, the threshold as written and the corrected one pick the same mode |
| Capacity.SelectModeMonotone | main.cpp:36-39 | a smaller file never needs a higher mode |
| Capacity.CapacityCheck | main.cpp:200-201 | a file is accepted exactly when the whole stream fits at 2 bits per non-alpha byte after byte 0 |
| Capacity.CapacityCheckAgrees | main.cpp:200 | where no `uint64_t` subtraction wraps, the check as written decides like the corrected one |
| Capacity.LengthCheck | main.cpp:147-150 | a size read from the header passes exactly when it is positive and the stream it announces fits in the image at the decoded mode |
| Capacity.LengthCheckStricter | main.cpp:147-150 | every size the corrected length check lets through also passes the check as written |
| Codec.Insert | main.cpp:198-208 | a file is refused exactly when it does not fit at 2 bits per byte; otherwise the image keeps its length and mode 1 is used exactly when it suffices |
| Codec.ReadExt | main.cpp:130-144 | the extension read extends the characters collected so far with non-zero characters only |
| Codec.Retrieve | main.cpp:89-175 | an extracted extension starts with '.' and holds no 0 byte after it; an extraction only happens for a positive size that passes the length check at the decoded mode |
| CodecProps.MatchMarkerSpec | main.cpp:103-118 | when the marker bytes are readable, the marker check matches exactly when they are "MSGSTART" |
| CodecProps.RetrieveNoDataIffNoMarker | main.cpp:114-117 | when the marker's bytes lie inside the image, retrieval reports no data exactly when they do not read back as "MSGSTART" |
| CodecProps.ExtractedHasMarker | main.cpp:103-118 | every extraction comes from an image whose marker bytes read back as "MSGSTART" |
| CodecProps.RetrieveCorrupted | main.cpp:147-150 | once the marker matched and the size and extension were read, a size of 0 or one failing the length check ends retrieval as corrupted |
| CodecProps.MatchedMarkerCarried | main.cpp:103-118 | a matched marker was carried by the image, and the cursor stands right after it |
| CodecProps.ReadExtCarried | main.cpp:130-144 | a carried extension field is read back as its characters, with the cursor just past the 0 byte |
| CodecProps.ReadExtConsumes | main.cpp:130-144 | the extension loop consumes at most one character's bytes more than it keeps |
| CodecProps.EmbedMode | main.cpp:42 | after embedding, byte 0 decodes to the mode used |
| CodecProps.EmbedCarriesMarker | main.cpp:44-53 | after embedding, the image carries the marker from cursor 1 |
| CodecProps.EmbedCarriesSize | main.cpp:55-62 | after embedding, the size field's groups follow the marker |
| CodecProps.EmbedCarriesPayload | main.cpp:64-84 | after embedding, the extension field and the file bytes follow the size field |
| CodecProps.EmbedKeepsAlpha | main.cpp:44-84 | embedding leaves every alpha byte unchanged |
| CodecProps.EmbedKeepsHighBits | main.cpp:41-84 | embedding changes only the low `mode` bits of any byte, byte 0 included |
| RoundTrip.CarriedMarkerMatches | main.cpp:103-118 | a carried marker is matched, and the cursor stands right after it |
| RoundTrip.EmbedSizeReadsBack | main.cpp:55-62 | the 64-bit size written after the marker reads back, at the same cursor, as the file's length |
| RoundTrip.EmbedPayloadAfterSize | main.cpp:64-84 | right after the size field's groups, an embedded image carries the extension field followed by the file bytes |
| RoundTrip.EmbedRetrieve | main.cpp:89-175 | embedding an extension field and at least one file byte that fit, then retrieving, yields '.' plus those characters and the same file bytes |
| RoundTrip.InsertRetrieve | main.cpp:25-175 | a file that passes the capacity check is inserted, and retrieval then extracts the same file bytes and the extension with its '.' |
| RoundTrip.InsertIsEmbed | main.cpp:198-208 | a file that passes the capacity check is inserted as the embedding of the terminated extension field and the file in the chosen mode |
| RoundTrip.InsertKeepsAlpha | main.cpp:47-48 | inserting a file that passes the capacity check leaves every alpha byte of the image unchanged |
| RoundTrip.InsertKeepsHighBits | main.cpp:50 | inserting a file that passes the capacity check changes only the low `mode` bits of any byte |
| RoundTrip.CheckedSizeIsReadable | main.cpp:147-172 | once a size passes the corrected length check, reading the file bytes stays inside the image and retrieval extracts |
| RoundTrip.ExtensionReadsOn | main.cpp:130-144 | when the byte after the size field is not 0, a successful retrieval reports an extension of at least one character after the '.' |
| RoundTrip.EmptyExtensionAsWritten | main.cpp:65 | with the field as written, a file without extension whose first byte is not 0 is not recovered with an empty extension |
| InsertLoop.WriteRun | main.cpp:44-84 | the cursor loop writes exactly the functional group run, and the cursor ends where that run ends |
| InsertLoop.InsertData | main.cpp:25-87 | the imperative `insertData` produces exactly the functional embedding |
| Framing.Pack | file.cpp:18-44 | an empty file is refused; otherwise the buffer is the content, then a 0 byte, then the extension backwards, with length content + extension + 1 |
| Framing.ScanBack | file.cpp:54-65 | the backward scan fails exactly when no 0 byte lies before the start index; otherwise it stops at the last 0 byte and gathers the bytes after it in reverse |
| Framing.Unpack | file.cpp:46-70 | an empty buffer or one without a 0 byte is refused; otherwise the buffer is the content, a 0 byte and the reversed extension, and the extension holds no 0 byte |
| Framing.FramedUnpacks | file.cpp:46-67 | a content, a 0 byte and a reversed 0-free extension unpack into exactly that content and extension |
| Framing.PackUnpack | file.cpp:31-67 | unpacking a packed file gives back its content and its extension, when the extension has no 0 byte |
| Framing.UnpackPack | file.cpp:31-67 | packing the parts of an unpacked buffer rebuilds the buffer, when the content is not empty |
| Framing.UnframeUnique | file.cpp:54-67 | a content, a 0 byte and a reversed 0-free extension can be put together in only one way |
| KeyFile.GenerateKey | file.cpp:88-117 | key sizes other than 16, 24 and 32 are refused; otherwise `key_size + 16` bytes are written, the `i`-th being the generator's `i`-th draw |
| KeyFile.LoadKey | file.cpp:119-138 | a key file shorter than `16 + key_size` is refused; otherwise the IV is its first 16 bytes and the key the following `key_size` |
| KeyFile.GenerateThenLoad | file.cpp:88-138 | a generated key file loads with the same key size, giving the first 16 drawn bytes as IV and the next ones as key |

## Left out

- Image decoding, encoding and saving (image.cpp, image.hpp, image.h) are not part of this model. An image is its pixel bytes and its channel count.
- `size_no_alpha()` is declared but defined in no file. The model takes it to be the number of non-alpha bytes, which is what the cursor's alpha skip implies.
- `image.filename()` is declared but defined in no file. It only names the output file, which is not modelled.
- The file system is not modelled: opening and reading files, `File::save`, the `retrieved/` and `keys/` directories, and the output file of `retrieveData` (main.cpp:152-155, 174). `Framing` and `KeyFile` work on the bytes alone.
- The random generator of `Key::generateKey` (file.cpp:104-110) becomes the parameter `draw`.
- Command-line parsing, usage text and console messages of `main` (main.cpp:177-227) are not modelled. The messages become the outcomes `TooLarge`, `NoData` and `Corrupted`.
- Encryption is left out: the key branches of `main` are empty (main.cpp:203-206, 213-216).
- main.cpp is written against another revision of `File`, with `extension()` and a two-argument constructor (main.cpp:34, 153) that file.cpp lacks. The codec takes the file as a `Payload` of extension and data bytes, and the framing of file.cpp is a separate layer.
- The `uint64_t` cursor and loop counters are unbounded integers. They cannot wrap for any buffer that fits in memory.
- Codec.Insert: requires an extension shorter than 255 bytes. For a longer one, the `uint8_t` counter of main.cpp:65 wraps and the loop does not end.
- Codec.Insert: uses the corrected capacity check, mode threshold and extension field. The as-written forms are separate members (see "## Findings").
- Codec.Retrieve: uses the corrected length check. Its outcome `ReadPastEnd` stands for every read the source makes past the buffer, which is undefined behaviour in C++.
- RoundTrip.InsertRetrieve: requires at least one file byte, because `File` refuses empty files (file.cpp:28-29). It requires fewer than 2^64 bytes because the size field is 64 bits wide. It also requires the extension to hold no 0 byte, which no path extension can.
- RoundTrip.EmbedRetrieve: has the same requirements as `RoundTrip.InsertRetrieve`, for the same reasons.
- Framing.Unpack: a buffer without a 0 byte is refused with `NoTerminator`. In the source, the unsigned scan of file.cpp:58 would run off the buffer instead.
- KeyFile.LoadKey: like `Key::Key`, it does not check the key size against 16, 24 and 32. It checks only that the key file is long enough.

## Findings

| source | as written | input that shows it | evidently intended | confidence | as-written member | corrected member |
|---|---|---|---|---|---|---|
| main.cpp:38 | the mode threshold divides the usable byte count by `sizeof(uint8_t)`, which is 1 | a 200-byte file with extension ".txt" and 1001 non-alpha bytes: mode 1 is kept and the capacity check as written passes, yet mode 1 needs 8 * 220 = 1760 bytes | divide by 8 bits per byte, so that mode 1 is kept only when the stream fits in it | not executed | Capacity.ModeAsWrittenOverflows | Capacity.SelectedModeFits |
| main.cpp:200 | `size_no_alpha() - 1` and the later subtractions are done in `uint64_t` and wrap on small images | a 1-byte file with extension ".txt" and an image with one non-alpha byte: the bound wraps to nearly 2^64 and the file is accepted | refuse every file whose stream does not fit | not executed | Capacity.TinyImageAcceptedAsWritten | Capacity.CapacityCheck |
| main.cpp:147 | the length check bounds the size by the usable byte count, without dividing by `8 / mode` | size 900 with extension ".txt", 1001 non-alpha bytes and mode 1: the check passes, and reading the file bytes runs past the image | bound the size by what the image can hold at `mode` bits per byte | not executed | Capacity.LengthCheckAsWrittenTooLoose | RoundTrip.CheckedSizeIsReadable |
| main.cpp:65 | the extension field is `extension() + '\0'` from index 1, so a file without extension stores no 0 byte | a file without extension whose first byte is not 0: retrieval reads the file bytes as the extension | always store the terminating 0 byte | not executed | RoundTrip.EmptyExtensionAsWritten | RoundTrip.InsertRetrieve |
