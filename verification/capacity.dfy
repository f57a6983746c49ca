/** The size arithmetic of main.cpp: the mode threshold of `insertData`
    (main.cpp:36-39), the capacity check in `main` (main.cpp:200-201) and the
    length sanity check of `retrieveData` (main.cpp:147-150). Each is given as
    written, with the `uint64_t` wrap-around spelled out, and in corrected
    form; the corrected forms are the ones the codec uses. */
module Capacity {
  import opened Arith
  import opened Channel

  /** `headerMarker.length()` for "MSGSTART". */
  const MarkerLen: nat := 8
  /** `sizeof(uint64_t)`, the size field. */
  const SizeFieldLen: nat := 8

  /** Bytes of hidden stream after the mode flag: marker, size field,
      extension field and file data. */
  function StreamBytes(fileSize: nat, fieldLen: nat): nat
  {
    MarkerLen + SizeFieldLen + fieldLen + fileSize
  }

  /** The stream fits in the non-alpha bytes after byte 0 at `m` bits per byte:
      `sna` is the number of non-alpha bytes of the image. */
  predicate FitsAt(m: Mode, fileSize: nat, sna: nat, fieldLen: nat)
  {
    StreamBytes(fileSize, fieldLen) * GroupsPerByte(m) <= sna - 1
  }

  /** Whatever fits in mode 1 fits in mode 2. */
  lemma FitsMonotone(fileSize: nat, sna: nat, fieldLen: nat)
    requires FitsAt(1, fileSize, sna, fieldLen)
    ensures FitsAt(2, fileSize, sna, fieldLen)
  {
  }

  /** What a fitting stream leaves for the file: once byte 0, the marker, the
      size field and at most `fieldLen` characters' worth of bytes are used,
      the rest of the image holds the file at `m` bits per byte. */
  lemma RoomAfter(m: Mode, fileSize: nat, sna: nat, fieldLen: nat, used: nat, rest: nat)
    requires FitsAt(m, fileSize, sna, fieldLen)
    requires sna == 1 + (MarkerLen + SizeFieldLen) * GroupsPerByte(m) + used + rest
    requires used <= fieldLen * GroupsPerByte(m)
    ensures fileSize * GroupsPerByte(m) <= rest
  {
  }

  // ---------------------------------------------------------------- mode

  /** main.cpp:38 as written: `(size_no_alpha() - 1) / sizeof(uint8_t) - 8 - 8
      - extension().length()` in `uint64_t`; it divides by 1 where 8 bits per
      byte were meant. */
  function ModeThresholdAsWritten(sna: nat, extLen: nat): nat
  {
    Wrap64(Wrap64(Wrap64(Wrap64(sna - 1) / 1 - MarkerLen) - SizeFieldLen) - extLen)
  }

  /** main.cpp:36-39 as written. */
  function ModeAsWritten(fileSize: nat, sna: nat, extLen: nat): (m: Mode)
    ensures m == 2 <==> fileSize > ModeThresholdAsWritten(sna, extLen)
  {
    if fileSize > ModeThresholdAsWritten(sna, extLen) then 2 else 1
  }

  /** The threshold as written keeps mode 1 for a 200-byte file in an image with
      1001 usable bytes, although mode 1 needs 8 * 220 = 1760 of them; the
      capacity check of main.cpp:200 lets that file through. */
  lemma ModeAsWrittenOverflows()
    ensures ModeAsWritten(200, 1001, 4) == 1
    ensures CapacityCheckAsWritten(200, 1001, 4)
    ensures !FitsAt(1, 200, 1001, 4)
  {
  }

  /** main.cpp:38 corrected: the usable byte count is divided by 8 bits, in
      exact arithmetic. Mode 1 is chosen exactly when the stream fits in it. */
  function SelectMode(fileSize: nat, sna: nat, fieldLen: nat): (m: Mode)
    ensures m == 1 <==> FitsAt(1, fileSize, sna, fieldLen)
  {
    FloorDivBound(StreamBytes(fileSize, fieldLen), sna - 1, 8);
    if fileSize > (sna - 1) / 8 - MarkerLen - SizeFieldLen - fieldLen then 2 else 1
  }

  /** Mode selection is monotone: a smaller file never needs more bits. */
  lemma SelectModeMonotone(small: nat, large: nat, sna: nat, fieldLen: nat)
    requires small <= large && SelectMode(large, sna, fieldLen) == 1
    ensures SelectMode(small, sna, fieldLen) == 1
  {
    MulMono(GroupsPerByte(1), StreamBytes(small, fieldLen), StreamBytes(large, fieldLen));
  }

  /** Once a file has passed the capacity check, the mode chosen for it holds
      the whole stream: the property the threshold of main.cpp:38 is for. */
  lemma SelectedModeFits(fileSize: nat, sna: nat, fieldLen: nat)
    requires CapacityCheck(fileSize, sna, fieldLen)
    ensures FitsAt(SelectMode(fileSize, sna, fieldLen), fileSize, sna, fieldLen)
  {
    if SelectMode(fileSize, sna, fieldLen) == 1 {
      FitsMonotone(fileSize, sna, fieldLen);
    }
  }

  /** Where the subtractions of main.cpp:38 do not wrap and the mode the code
      picks does hold the stream, the threshold as written and the corrected
      one pick the same mode. `extLen` counts the '.', as `extension()` does;
      the corrected field holds the characters after it and a 0, which is as
      long. */
  lemma ModeAgreesWhereItFits(fileSize: nat, sna: nat, extLen: nat)
    requires 1 <= extLen && 1 <= sna && sna - 1 < U64
    requires MarkerLen + SizeFieldLen + extLen <= sna - 1
    requires FitsAt(ModeAsWritten(fileSize, sna, extLen), fileSize, sna, extLen)
    ensures ModeAsWritten(fileSize, sna, extLen) == SelectMode(fileSize, sna, extLen)
  {
  }

  // ---------------------------------------------------------------- capacity

  /** main.cpp:200 as written: the file is accepted unless it is larger than
      `2 * (size_no_alpha() - 1) / 8 - 8 - 8 - extension().length()`, all in
      `uint64_t`. */
  function CapacityCheckAsWritten(fileSize: nat, sna: nat, extLen: nat): bool
  {
    !(fileSize > Wrap64(Wrap64(Wrap64(Wrap64(2 * Wrap64(sna - 1)) / 8 - MarkerLen) - SizeFieldLen) - extLen))
  }

  /** On a one-byte image the subtraction wraps to nearly 2^64, and a file that
      cannot possibly fit is accepted. */
  lemma TinyImageAcceptedAsWritten()
    ensures CapacityCheckAsWritten(1, 1, 4)
    ensures !FitsAt(2, 1, 1, 4)
  {
  }

  /** main.cpp:200 in exact arithmetic: accepted exactly when the stream fits
      at 2 bits per byte. */
  function CapacityCheck(fileSize: nat, sna: nat, fieldLen: nat): (ok: bool)
    ensures ok <==> FitsAt(2, fileSize, sna, fieldLen)
  {
    FloorDivBound(StreamBytes(fileSize, fieldLen), 2 * (sna - 1), 8);
    fileSize <= 2 * (sna - 1) / 8 - MarkerLen - SizeFieldLen - fieldLen
  }

  /** Where nothing wraps, the check as written and the corrected one agree. */
  lemma CapacityCheckAgrees(fileSize: nat, sna: nat, extLen: nat)
    requires 1 <= sna && 2 * (sna - 1) < U64
    requires MarkerLen + SizeFieldLen + extLen <= 2 * (sna - 1) / 8
    ensures CapacityCheckAsWritten(fileSize, sna, extLen) == CapacityCheck(fileSize, sna, extLen)
  {
  }

  // ---------------------------------------------------------------- retrieval

  /** main.cpp:147 as written: the size is rejected when it is 0 or larger than
      `size_no_alpha() - 1 - 8 - 8 - extension.length()` in `uint64_t`; the
      division by `8 / mode` is missing. */
  function LengthCheckAsWritten(size: nat, sna: nat, extLen: nat): bool
  {
    !(size < 1 || size > Wrap64(Wrap64(Wrap64(Wrap64(sna - 1) - MarkerLen) - SizeFieldLen) - extLen))
  }

  /** The check as written accepts a size of 900 bytes read from an image with
      1001 usable bytes in mode 1, where at most 105 payload bytes can have been
      stored; extracting it reads past the image. */
  lemma LengthCheckAsWrittenTooLoose()
    ensures LengthCheckAsWritten(900, 1001, 4)
    ensures !FitsAt(1, 900, 1001, 4)
    ensures !LengthCheck(900, 1001, 4, 1)
  {
  }

  /** The corrected check is stricter than the one written: every size it
      lets through also passes main.cpp:147 as written, wherever
      `size_no_alpha()` is a `uint64_t`. */
  lemma LengthCheckStricter(size: nat, sna: nat, extLen: nat, m: Mode)
    requires sna < U64 && LengthCheck(size, sna, extLen, m)
    ensures LengthCheckAsWritten(size, sna, extLen)
  {
  }

  /** main.cpp:147 corrected: the bound of `size_no_alpha() - 1` usable bytes
      at `mode` bits each. A size passes exactly when it is positive and the
      whole stream it announces fits in the image. */
  function LengthCheck(size: nat, sna: nat, fieldLen: nat, m: Mode): (ok: bool)
    ensures ok <==> 1 <= size && FitsAt(m, size, sna, fieldLen)
  {
    FloorDivBound(StreamBytes(size, fieldLen), (sna - 1) * m, 8);
    1 <= size && size <= (sna - 1) * m / 8 - MarkerLen - SizeFieldLen - fieldLen
  }
}
