/** Operations on a single pixel byte: the low `mode` bits carry hidden data,
    the remaining high bits belong to the picture (main.cpp:42, 50, 100, 110). */
module Channel {
  import opened Arith

  /** Number of least-significant bits used per pixel byte: 1 or 2. */
  type Mode = m: nat | m == 1 || m == 2 witness 1

  /** `(1 << mode) - 1`, the mask selecting the data bits of a pixel byte. */
  function Mask(m: Mode): (r: bv8)
    ensures r as int == Pow2(m) - 1
  {
    if m == 1 then 1 else 3
  }

  /** Number of `mode`-bit groups an 8-bit value is split into:
      the iterations of `for (j = 0; j < 8; j += mode)`. */
  function GroupsPerByte(m: Mode): (g: nat)
    ensures g * m == 8
  {
    if m == 1 then 8 else 4
  }

  /** Largest group value plus one. */
  function Radix(m: Mode): (r: nat)
    ensures r == Pow2(m)
    ensures r == 2 * m
  {
    if m == 1 then 2 else 4
  }

  /** The data bits of a pixel byte: `imgData[i] & ((1 << mode) - 1)`, as a
      number. */
  function GetLow(b: bv8, m: Mode): (r: nat)
    ensures r < Radix(m)
  {
    ToSmall(b & Mask(m))
  }

  /** Overwrite the data bits of a pixel byte with `g`:
      `(~((1 << mode) - 1) & imgData[i]) | g`. */
  function SetLow(b: bv8, m: Mode, g: nat): (r: bv8)
    requires g < Radix(m)
    ensures GetLow(r, m) == g
    ensures r & !Mask(m) == b & !Mask(m)
  {
    (!Mask(m) & b) | FromSmall(g)
  }

  /** A value below 4 as a number (a table, so that proofs avoid the
      bit-vector-to-integer conversion). */
  function ToSmall(x: bv8): (r: nat)
    requires x <= 3
    ensures r < 4 && FromSmall(r) == x
  {
    if x == 0 then 0 else if x == 1 then 1 else if x == 2 then 2 else 3
  }

  /** A number below 4 as a byte. */
  function FromSmall(g: nat): (r: bv8)
    requires g < 4
    ensures r <= 3
    ensures g < 2 ==> r <= 1
  {
    if g == 0 then 0 else if g == 1 then 1 else if g == 2 then 2 else 3
  }

  /** main.cpp:42 stores `mode - 1` in bit 0 of pixel byte 0. */
  function SetModeFlag(b: bv8, m: Mode): (r: bv8)
    ensures r & 0xFE == b & 0xFE
  {
    SetLow(b, 1, m - 1)
  }

  /** main.cpp:100 reads the mode back as `(imgData[0] & 1) + 1`. */
  function DecodeMode(b: bv8): Mode
  {
    GetLow(b, 1) + 1
  }

  /** The mode flag round-trips and the other seven bits of byte 0 are kept. */
  lemma ModeFlagRoundTrip(b: bv8, m: Mode)
    ensures DecodeMode(SetModeFlag(b, m)) == m
    ensures SetModeFlag(b, m) & 0xFE == b & 0xFE
  {
  }

  /** The high bits kept by a mode-2 write include those kept by a mode-1 write:
      writing the flag bit leaves every bit above the low `m` bits intact. */
  lemma ModeFlagKeepsHighBits(b: bv8, m: Mode)
    ensures SetModeFlag(b, m) & !Mask(m) == b & !Mask(m)
  {
    var r := SetModeFlag(b, m);
    assert r & 0xFE == b & 0xFE;
    assert !Mask(m) == (!Mask(m)) & 0xFE;
    calc {
      r & !Mask(m);
      r & ((!Mask(m)) & 0xFE);
      (r & 0xFE) & !Mask(m);
      (b & 0xFE) & !Mask(m);
      b & ((!Mask(m)) & 0xFE);
      b & !Mask(m);
    }
  }
}
