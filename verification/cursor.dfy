/** The alpha-skipping write cursor of main.cpp. Before every data write the
    cursor is bumped past the alpha lane (main.cpp:47-48, 57-58, 67-68, 78-79,
    107-108, 122-123, 133-134, 163-164), the byte under it is used, and it
    moves one step on (main.cpp:51, 61, 71, 82). */
module Cursor {
  import opened Arith

  /** main.cpp:47: with an even channel count the last channel of each pixel
      is alpha and is never written. */
  predicate IsAlpha(i: nat, ch: nat)
    requires ch >= 1
  {
    ch % 2 == 0 && i % ch == ch - 1
  }

  /** Byte 0 is never alpha, so the mode flag never lands on an alpha byte. */
  lemma ZeroNotAlpha(ch: nat)
    requires ch >= 1
    ensures !IsAlpha(0, ch)
  {
  }

  /** After an alpha byte comes the first channel of the next pixel. */
  lemma AlphaFollowedByColour(i: nat, ch: nat)
    requires ch >= 1 && IsAlpha(i, ch)
    ensures !IsAlpha(i + 1, ch)
  {
    DivModUnique(i, ch, i / ch, ch - 1);
    DivModUnique(i + 1, ch, i / ch + 1, 0);
  }

  /** The bump of main.cpp:47-48: skip the byte under the cursor if it is alpha. */
  function Skip(i: nat, ch: nat): (r: nat)
    requires ch >= 1
    ensures !IsAlpha(r, ch)
    ensures r == i || (IsAlpha(i, ch) && r == i + 1)
  {
    if IsAlpha(i, ch) then
      AlphaFollowedByColour(i, ch);
      i + 1
    else i
  }

  /** The cursor after `n` writes that started with the cursor at `c`. */
  function Advance(c: nat, n: nat, ch: nat): (r: nat)
    requires ch >= 1
    ensures c + n <= r <= c + 2 * n
  {
    if n == 0 then c else Skip(Advance(c, n - 1, ch), ch) + 1
  }

  /** The byte that receives the `k`-th write (counting from 0). */
  function Slot(c: nat, k: nat, ch: nat): (r: nat)
    requires ch >= 1
    ensures Advance(c, k, ch) <= r < Advance(c, k + 1, ch)
    ensures !IsAlpha(r, ch)
  {
    Skip(Advance(c, k, ch), ch)
  }

  /** Writing `a` then `b` groups moves the cursor as writing `a + b` does. */
  lemma {:induction false} AdvanceAdd(c: nat, a: nat, b: nat, ch: nat)
    requires ch >= 1
    ensures Advance(c, a + b, ch) == Advance(Advance(c, a, ch), b, ch)
    decreases b
  {
    if b > 0 {
      AdvanceAdd(c, a, b - 1, ch);
    }
  }

  /** The `k`-th write after `a` writes is the `(a + k)`-th write overall. */
  lemma SlotShift(c: nat, a: nat, k: nat, ch: nat)
    requires ch >= 1
    ensures Slot(Advance(c, a, ch), k, ch) == Slot(c, a + k, ch)
  {
    AdvanceAdd(c, a, k, ch);
  }

  lemma {:induction false} AdvanceMono(c: nat, a: nat, b: nat, ch: nat)
    requires ch >= 1 && a <= b
    ensures Advance(c, a, ch) <= Advance(c, b, ch)
    decreases b - a
  {
    if a < b {
      AdvanceMono(c, a, b - 1, ch);
    }
  }

  /** The cursor strictly increases, so no byte is written twice. */
  lemma SlotsIncrease(c: nat, k: nat, j: nat, ch: nat)
    requires ch >= 1 && k < j
    ensures Slot(c, k, ch) < Slot(c, j, ch)
  {
    AdvanceMono(c, k + 1, j, ch);
  }

  /** Number of non-alpha indices in `[lo, hi)`. */
  function NonAlphaCount(lo: nat, hi: nat, ch: nat): (r: nat)
    requires ch >= 1
    ensures lo <= hi ==> r <= hi - lo
    decreases hi - lo
  {
    if lo >= hi then 0
    else (if IsAlpha(lo, ch) then 0 else 1) + NonAlphaCount(lo + 1, hi, ch)
  }

  /** Byte 0 is never alpha. */
  lemma FirstNotAlpha(len: nat, ch: nat)
    requires ch >= 1 && len >= 1
    ensures NonAlphaCount(0, len, ch) == 1 + NonAlphaCount(1, len, ch)
  {
    ZeroNotAlpha(ch);
  }

  lemma {:induction false} NonAlphaCountSplit(lo: nat, mid: nat, hi: nat, ch: nat)
    requires ch >= 1 && lo <= mid <= hi
    ensures NonAlphaCount(lo, hi, ch) == NonAlphaCount(lo, mid, ch) + NonAlphaCount(mid, hi, ch)
    decreases mid - lo
  {
    if lo < mid {
      NonAlphaCountSplit(lo + 1, mid, hi, ch);
    }
  }

  /** `n` writes consume exactly the first `n` non-alpha bytes at or after the
      start: between the start and the final cursor there are exactly `n`
      non-alpha bytes, and all the other bytes in that window are alpha. */
  lemma {:induction false} AdvanceCountsNonAlpha(c: nat, n: nat, ch: nat)
    requires ch >= 1
    ensures NonAlphaCount(c, Advance(c, n, ch), ch) == n
    decreases n
  {
    if n > 0 {
      var a := Advance(c, n - 1, ch);
      var s := Skip(a, ch);
      AdvanceCountsNonAlpha(c, n - 1, ch);
      NonAlphaCountSplit(c, a, s + 1, ch);
      assert NonAlphaCount(a, s + 1, ch) == 1 by {
        if s == a {
          assert NonAlphaCount(a + 1, a + 1, ch) == 0;
        } else {
          assert NonAlphaCount(s + 1, s + 1, ch) == 0;
          assert NonAlphaCount(s, s + 1, ch) == 1;
        }
      }
    }
  }

  /** `n` writes starting at cursor `c` stay inside a buffer of `len` bytes
      exactly when that stretch of the buffer has at least `n` non-alpha bytes. */
  lemma WritesFit(c: nat, n: nat, len: nat, ch: nat)
    requires ch >= 1 && c <= len
    ensures Advance(c, n, ch) <= len <==> n <= NonAlphaCount(c, len, ch)
  {
    var e := Advance(c, n, ch);
    AdvanceCountsNonAlpha(c, n, ch);
    if e <= len {
      NonAlphaCountSplit(c, e, len, ch);
    } else {
      // the last write lands at or beyond `len`, so `[c, len)` holds at most n - 1
      var last := Slot(c, n - 1, ch);
      assert e == last + 1;
      NonAlphaCountSplit(c, len, last, ch);
      NonAlphaCountSplit(c, last, e, ch);
      assert NonAlphaCount(last, e, ch) == 1 by {
        assert NonAlphaCount(e, e, ch) == 0;
      }
    }
  }
}
