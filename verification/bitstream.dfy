/** A stream of `mode`-bit groups written to, and read from, successive cursor
    slots of a pixel buffer. Every field of the hidden message is such a
    stream: an 8-bit value becomes `8/mode` groups (main.cpp:46-51, 77-83), the
    64-bit size becomes `64/mode` groups (main.cpp:56-62), lowest bits first;
    reading ORs each group back in at the same shift (main.cpp:106-111,
    121-127, 161-171). */
module BitStream {
  import opened Arith
  import opened Wrappers
  import opened Channel
  import opened Cursor

  /** `n` groups of `m` bits of `v`, lowest first: group `k` is
      `(v >> (m*k)) & ((1 << m) - 1)`. */
  function Groups(v: nat, n: nat, m: Mode): (gs: seq<nat>)
    ensures |gs| == n
    ensures forall k :: 0 <= k < n ==> gs[k] < Radix(m)
  {
    seq(n, k requires 0 <= k < n => (v / Pow2(m * k)) % Pow2(m))
  }

  /** Reassemble groups, lowest first: `acc |= g << j` for `j = 0, m, 2m, ...`.
      The groups occupy disjoint bit ranges, so OR and addition agree. */
  function Join(gs: seq<nat>, m: Mode): nat
  {
    if |gs| == 0 then 0
    else Join(gs[..|gs| - 1], m) + gs[|gs| - 1] * Pow2(m * (|gs| - 1))
  }

  predicate GroupsValid(gs: seq<nat>, m: Mode)
  {
    forall k :: 0 <= k < |gs| ==> gs[k] < Radix(m)
  }

  /** Joining the first `n` groups of `v` gives back the low `m*n` bits of `v`. */
  lemma {:induction false} JoinGroups(v: nat, n: nat, m: Mode)
    ensures Join(Groups(v, n, m), m) == v % Pow2(m * n)
    decreases n
  {
    if n == 0 {
    } else {
      var gs := Groups(v, n, m);
      assert gs[..n - 1] == Groups(v, n - 1, m);
      JoinGroups(v, n - 1, m);
      var b := Pow2(m * (n - 1));
      Pow2Add(m * (n - 1), m);
      assert m * n == m * (n - 1) + m;
      ModMul(v, b, Pow2(m));
      assert gs[n - 1] == (v / b) % Pow2(m);
    }
  }

  /** Per-value round trip: a value of at most `m*n` bits is rebuilt exactly. */
  lemma ValueRoundTrip(v: nat, n: nat, m: Mode)
    requires v < Pow2(m * n)
    ensures Join(Groups(v, n, m), m) == v
  {
    var p := Pow2(m * n);
    JoinGroups(v, n, m);
    assert v % p == v by {
      DivModUnique(v, p, 0, v);
    }
  }

  /** `n` valid groups never join to a value of more than `m*n` bits. */
  lemma {:induction false} JoinBound(gs: seq<nat>, m: Mode)
    requires GroupsValid(gs, m)
    ensures Join(gs, m) < Pow2(m * |gs|)
    decreases |gs|
  {
    if |gs| > 0 {
      var n := |gs|;
      var b := Pow2(m * (n - 1));
      var g := gs[n - 1];
      var q := Radix(m);
      JoinBound(gs[..n - 1], m);
      assert Join(gs, m) == Join(gs[..n - 1], m) + g * b;
      MulMono(b, g, q - 1);
      assert g * b <= b * (q - 1);
      assert b * (q - 1) == b * q - b;
      Pow2Add(m * (n - 1), m);
      assert m * n == m * (n - 1) + m;
      assert Pow2(m * n) == b * q;
    }
  }

  /** The value of one 8-bit field read back as `8/mode` groups. */
  lemma JoinByteBound(gs: seq<nat>, m: Mode)
    requires GroupsValid(gs, m) && |gs| == GroupsPerByte(m)
    ensures Join(gs, m) < 256
  {
    JoinBound(gs, m);
    assert m * |gs| == 8;
  }

  /** Join is the inverse of splitting in the other direction as well: valid
      groups are recovered from the value they join to. */
  lemma JoinThenSplit(gs: seq<nat>, m: Mode)
    requires GroupsValid(gs, m)
    ensures Groups(Join(gs, m), |gs|, m) == gs
  {
    var n := |gs|;
    var v := Join(gs, m);
    forall k | 0 <= k < n
      ensures Groups(v, n, m)[k] == gs[k]
    {
      JoinDigit(gs, k, m);
    }
  }

  /** Group `k` of a joined value is `gs[k]`. */
  lemma {:induction false} JoinDigit(gs: seq<nat>, k: nat, m: Mode)
    requires GroupsValid(gs, m) && k < |gs|
    ensures (Join(gs, m) / Pow2(m * k)) % Pow2(m) == gs[k]
    decreases |gs|
  {
    var n := |gs|;
    var pre := gs[..n - 1];
    var g := gs[n - 1];
    var b := Pow2(m * (n - 1));
    var lo := Join(pre, m);
    assert Join(gs, m) == lo + g * b;
    if k == n - 1 {
      assert (lo + g * b) / Pow2(m * k) % Pow2(m) == g by {
        JoinBound(pre, m);
        TopDigit(lo, g, b, Pow2(m));
      }
    } else {
      assert pre[k] == gs[k];
      assert (lo + g * b) / Pow2(m * k) % Pow2(m) == lo / Pow2(m * k) % Pow2(m) by {
        // the top group sits wholly above group k
        var e := HigherPosition(m, k, n - 1);
        LowDigit(lo, g, Pow2(m * k), Pow2(m), Pow2(e));
      }
      JoinDigit(pre, k, m);
    }
  }

  /** Position `m*j` of a group above group `k` is `m*k + m + e` for some `e`. */
  lemma HigherPosition(m: Mode, k: nat, j: nat) returns (e: nat)
    requires k < j
    ensures Pow2(m * j) == Pow2(m * k) * Pow2(m) * Pow2(e)
  {
    e := m * j - m * (k + 1);
    assert m * (k + 1) == m * k + m;
    Pow2Add(m * k, m);
    Pow2Add(m * (k + 1), e);
  }

  /** The groups of a byte sequence: each byte as `8/mode` groups, in order. */
  function ByteGroups(bs: seq<byte>, m: Mode): (gs: seq<nat>)
    ensures |gs| == |bs| * GroupsPerByte(m)
    ensures GroupsValid(gs, m)
  {
    if |bs| == 0 then []
    else Groups(bs[0], GroupsPerByte(m), m) + ByteGroups(bs[1..], m)
  }

  lemma ByteGroupsCons(b: byte, bs: seq<byte>, m: Mode)
    ensures ByteGroups([b] + bs, m) == Groups(b, GroupsPerByte(m), m) + ByteGroups(bs, m)
  {
    assert ([b] + bs)[1..] == bs;
  }

  lemma {:induction false} ByteGroupsAppend(a: seq<byte>, b: seq<byte>, m: Mode)
    ensures ByteGroups(a + b, m) == ByteGroups(a, m) + ByteGroups(b, m)
    decreases |a|
  {
    if |a| > 0 {
      assert (a + b)[1..] == a[1..] + b;
      ByteGroupsAppend(a[1..], b, m);
    } else {
      assert a + b == b;
    }
  }

  /** Rebuild `n` bytes from `n * (8/mode)` groups. */
  function Ungroup(gs: seq<nat>, n: nat, m: Mode): (bs: seq<byte>)
    requires GroupsValid(gs, m)
    requires |gs| == n * GroupsPerByte(m)
    ensures |bs| == n
    decreases n
  {
    var g := GroupsPerByte(m);
    if n == 0 then []
    else
      JoinByteBound(gs[..g], m);
      assert |gs[g..]| == (n - 1) * g;
      [Join(gs[..g], m) as byte] + Ungroup(gs[g..], n - 1, m)
  }

  /** Bytes split into groups are rebuilt exactly. */
  lemma {:induction false} UngroupByteGroups(bs: seq<byte>, m: Mode)
    ensures Ungroup(ByteGroups(bs, m), |bs|, m) == bs
    decreases |bs|
  {
    if |bs| > 0 {
      var g := GroupsPerByte(m);
      var gs := ByteGroups(bs, m);
      var head := Groups(bs[0], g, m);
      assert gs == head + ByteGroups(bs[1..], m);
      assert gs[..g] == head;
      assert gs[g..] == ByteGroups(bs[1..], m);
      assert Join(head, m) == bs[0] by {
        Pow2Byte(m);
        ValueRoundTrip(bs[0], g, m);
      }
      UngroupByteGroups(bs[1..], m);
    }
  }

  lemma Pow2Byte(m: Mode)
    ensures Pow2(m * GroupsPerByte(m)) == 256
  {
    assert m * GroupsPerByte(m) == 8;
    Pow2Word();
  }

  /** Groups regrouped into bytes and split again are unchanged. */
  lemma {:induction false} ByteGroupsUngroup(gs: seq<nat>, n: nat, m: Mode)
    requires GroupsValid(gs, m) && |gs| == n * GroupsPerByte(m)
    ensures ByteGroups(Ungroup(gs, n, m), m) == gs
    decreases n
  {
    if n > 0 {
      var g := GroupsPerByte(m);
      var bs := Ungroup(gs, n, m);
      assert |gs[g..]| == (n - 1) * g;
      JoinThenSplit(gs[..g], m);
      ByteGroupsUngroup(gs[g..], n - 1, m);
      assert bs[1..] == Ungroup(gs[g..], n - 1, m);
      assert gs == gs[..g] + gs[g..];
    }
  }

  /** Write groups `gs` at the successive cursor slots starting at cursor `c`. */
  function WriteGroups(buf: seq<bv8>, c: nat, gs: seq<nat>, ch: nat, m: Mode): (r: seq<bv8>)
    requires ch >= 1 && GroupsValid(gs, m)
    requires Advance(c, |gs|, ch) <= |buf|
    ensures |r| == |buf|
    ensures forall i :: 0 <= i < |buf| && (i < c || Advance(c, |gs|, ch) <= i) ==> r[i] == buf[i]
    decreases |gs|
  {
    if |gs| == 0 then buf
    else
      var n := |gs|;
      AdvanceMono(c, n - 1, n, ch);
      var w := WriteGroups(buf, c, gs[..n - 1], ch, m);
      var p := Slot(c, n - 1, ch);
      w[p := SetLow(w[p], m, gs[n - 1])]
  }

  /** The last write of `WriteGroups`, peeled off. */
  lemma WriteGroupsLast(buf: seq<bv8>, c: nat, gs: seq<nat>, ch: nat, m: Mode)
    requires ch >= 1 && GroupsValid(gs, m) && |gs| > 0
    requires Advance(c, |gs|, ch) <= |buf|
    ensures Advance(c, |gs| - 1, ch) <= |buf|
    ensures WriteGroups(buf, c, gs, ch, m)
         == var w := WriteGroups(buf, c, gs[..|gs| - 1], ch, m);
            var p := Slot(c, |gs| - 1, ch);
            w[p := SetLow(w[p], m, gs[|gs| - 1])]
  {
    AdvanceMono(c, |gs| - 1, |gs|, ch);
  }

  /** Slot `k` carries group `k` afterwards. */
  lemma {:induction false} WriteSetsSlots(buf: seq<bv8>, c: nat, gs: seq<nat>, ch: nat, m: Mode)
    requires ch >= 1 && GroupsValid(gs, m)
    requires Advance(c, |gs|, ch) <= |buf|
    ensures forall k :: 0 <= k < |gs| ==> Slot(c, k, ch) < |buf| && GetLow(WriteGroups(buf, c, gs, ch, m)[Slot(c, k, ch)], m) == gs[k]
    decreases |gs|
  {
    if |gs| > 0 {
      var n := |gs|;
      var pre := gs[..n - 1];
      WriteGroupsLast(buf, c, gs, ch, m);
      WriteSetsSlots(buf, c, pre, ch, m);
      var w := WriteGroups(buf, c, pre, ch, m);
      var r := WriteGroups(buf, c, gs, ch, m);
      var p := Slot(c, n - 1, ch);
      forall k | 0 <= k < n
        ensures Slot(c, k, ch) < |buf| && GetLow(r[Slot(c, k, ch)], m) == gs[k]
      {
        if k < n - 1 {
          SlotsIncrease(c, k, n - 1, ch);
          assert r[Slot(c, k, ch)] == w[Slot(c, k, ch)];
          assert GetLow(w[Slot(c, k, ch)], m) == pre[k];
        }
      }
    }
  }

  /** Alpha bytes are never written. */
  lemma {:induction false} WriteKeepsAlpha(buf: seq<bv8>, c: nat, gs: seq<nat>, ch: nat, m: Mode)
    requires ch >= 1 && GroupsValid(gs, m)
    requires Advance(c, |gs|, ch) <= |buf|
    ensures forall i :: 0 <= i < |buf| && IsAlpha(i, ch) ==> WriteGroups(buf, c, gs, ch, m)[i] == buf[i]
    decreases |gs|
  {
    if |gs| > 0 {
      WriteGroupsLast(buf, c, gs, ch, m);
      WriteKeepsAlpha(buf, c, gs[..|gs| - 1], ch, m);
    }
  }

  /** Only the low `m` bits of any byte change. */
  lemma {:induction false} WriteKeepsHighBits(buf: seq<bv8>, c: nat, gs: seq<nat>, ch: nat, m: Mode)
    requires ch >= 1 && GroupsValid(gs, m)
    requires Advance(c, |gs|, ch) <= |buf|
    ensures forall i :: 0 <= i < |buf| ==> WriteGroups(buf, c, gs, ch, m)[i] & !Mask(m) == buf[i] & !Mask(m)
    decreases |gs|
  {
    if |gs| > 0 {
      WriteGroupsLast(buf, c, gs, ch, m);
      WriteKeepsHighBits(buf, c, gs[..|gs| - 1], ch, m);
    }
  }

  /** Read `n` groups from the successive cursor slots starting at cursor `c`;
      `None` when a slot lies beyond the buffer. */
  function ReadGroups(buf: seq<bv8>, c: nat, n: nat, ch: nat, m: Mode): (r: Option<seq<nat>>)
    requires ch >= 1
    ensures r.Some? <==> n == 0 || Advance(c, n, ch) <= |buf|
    ensures r.Some? ==> |r.value| == n && GroupsValid(r.value, m)
  {
    if n == 0 || Advance(c, n, ch) <= |buf| then
      Some(seq(n, k requires 0 <= k < n => SlotGroup(buf, c, k, n, ch, m)))
    else None
  }

  /** The data bits of the `k`-th cursor slot, one of `n` slots that fit. */
  function SlotGroup(buf: seq<bv8>, c: nat, k: nat, n: nat, ch: nat, m: Mode): (g: nat)
    requires ch >= 1 && k < n && Advance(c, n, ch) <= |buf|
    ensures Slot(c, k, ch) < |buf| && g == GetLow(buf[Slot(c, k, ch)], m)
  {
    AdvanceMono(c, k + 1, n, ch);
    GetLow(buf[Slot(c, k, ch)], m)
  }

  /** The `k`-th group read is the data bits of the `k`-th cursor slot. */
  lemma ReadGroupsAt(buf: seq<bv8>, c: nat, n: nat, ch: nat, m: Mode)
    requires ch >= 1 && ReadGroups(buf, c, n, ch, m).Some?
    ensures forall k :: 0 <= k < n ==> Slot(c, k, ch) < |buf| && ReadGroups(buf, c, n, ch, m).value[k] == GetLow(buf[Slot(c, k, ch)], m)
  {
    var r := ReadGroups(buf, c, n, ch, m).value;
    forall k | 0 <= k < n
      ensures Slot(c, k, ch) < |buf| && r[k] == GetLow(buf[Slot(c, k, ch)], m)
    {
      assert r[k] == SlotGroup(buf, c, k, n, ch, m);
    }
  }

  /** Reading `a + b` groups is reading `a` groups and then `b` more from
      where the cursor stopped. */
  lemma ReadGroupsSplit(buf: seq<bv8>, c: nat, a: nat, b: nat, ch: nat, m: Mode)
    requires ch >= 1
    requires ReadGroups(buf, c, a + b, ch, m).Some?
    ensures ReadGroups(buf, c, a, ch, m).Some?
    ensures ReadGroups(buf, Advance(c, a, ch), b, ch, m).Some?
    ensures ReadGroups(buf, c, a + b, ch, m).value
         == ReadGroups(buf, c, a, ch, m).value + ReadGroups(buf, Advance(c, a, ch), b, ch, m).value
  {
    var c2 := Advance(c, a, ch);
    AdvanceAdd(c, a, b, ch);
    AdvanceMono(c, a, a + b, ch);
    if a + b > 0 {
      assert Advance(c, a + b, ch) <= |buf|;
    }
    ReadGroupsAt(buf, c, a + b, ch, m);
    ReadGroupsAt(buf, c, a, ch, m);
    ReadGroupsAt(buf, c2, b, ch, m);
    var all := ReadGroups(buf, c, a + b, ch, m).value;
    var x := ReadGroups(buf, c, a, ch, m).value;
    var y := ReadGroups(buf, c2, b, ch, m).value;
    forall j | 0 <= j < a + b
      ensures all[j] == (x + y)[j]
    {
      if j >= a {
        SlotShift(c, a, j - a, ch);
      }
    }
    assert all == x + y;
  }

  /** Two consecutive reads make one read of their total length. */
  lemma ReadGroupsConcat(buf: seq<bv8>, c: nat, a: nat, b: nat, ch: nat, m: Mode)
    requires ch >= 1
    requires ReadGroups(buf, c, a, ch, m).Some?
    requires ReadGroups(buf, Advance(c, a, ch), b, ch, m).Some?
    ensures ReadGroups(buf, c, a + b, ch, m).Some?
    ensures ReadGroups(buf, c, a + b, ch, m).value
         == ReadGroups(buf, c, a, ch, m).value + ReadGroups(buf, Advance(c, a, ch), b, ch, m).value
  {
    AdvanceAdd(c, a, b, ch);
    AdvanceMono(c, a, a + b, ch);
    if a + b > 0 {
      assert Advance(c, a + b, ch) <= |buf|;
    }
    ReadGroupsSplit(buf, c, a, b, ch, m);
  }

  /** What was written is what is read: any window of the written groups is
      read back from the cursor position the writer had reached there. */
  lemma ReadAfterWrite(buf: seq<bv8>, c: nat, gs: seq<nat>, o: nat, n: nat, ch: nat, m: Mode)
    requires ch >= 1 && GroupsValid(gs, m)
    requires Advance(c, |gs|, ch) <= |buf|
    requires o + n <= |gs|
    ensures ReadGroups(WriteGroups(buf, c, gs, ch, m), Advance(c, o, ch), n, ch, m) == Some(gs[o..o + n])
  {
    var w := WriteGroups(buf, c, gs, ch, m);
    var c2 := Advance(c, o, ch);
    AdvanceAdd(c, o, n, ch);
    AdvanceMono(c, o + n, |gs|, ch);
    WriteSetsSlots(buf, c, gs, ch, m);
    ReadGroupsAt(w, c2, n, ch, m);
    var r := ReadGroups(w, c2, n, ch, m).value;
    forall k | 0 <= k < n
      ensures r[k] == gs[o + k]
    {
      SlotShift(c, o, k, ch);
      assert r[k] == GetLow(w[Slot(c2, k, ch)], m);
    }
    assert r == gs[o..o + n];
  }
}
