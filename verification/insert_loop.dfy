/** `insertData` (main.cpp:25-87) as the loop it is: a cursor that bumps past
    alpha bytes and writes one group into the low bits of each byte it stops
    at. The loop computes exactly the functional `Embed`. */
module InsertLoop {
  import opened Arith
  import opened Wrappers
  import opened Channel
  import opened Cursor
  import opened BitStream
  import opened Codec

  /** The write loops of main.cpp:45-84 over a run of groups: returns the
      buffer and the final cursor. */
  method WriteRun(buf: seq<bv8>, c: nat, gs: seq<nat>, ch: Channels, m: Mode) returns (out: seq<bv8>, cur: nat)
    requires GroupsValid(gs, m) && Advance(c, |gs|, ch) <= |buf|
    ensures out == WriteGroups(buf, c, gs, ch, m)
    ensures cur == Advance(c, |gs|, ch)
  {
    out, cur := buf, c;
    var k := 0;
    while k < |gs|
      invariant 0 <= k <= |gs|
      invariant cur == Advance(c, k, ch) && cur <= |buf|
      invariant GroupsValid(gs[..k], m)
      invariant out == WriteGroups(buf, c, gs[..k], ch, m) && |out| == |buf|
    {
      if IsAlpha(cur, ch) {
        cur := cur + 1;
      }
      assert cur == Slot(c, k, ch) && Advance(c, k + 1, ch) == cur + 1 by {
        CursorStep(c, k, ch);
      }
      WriteStep(buf, c, gs, k, ch, m);
      out := out[cur := SetLow(out[cur], m, gs[k])];
      cur := cur + 1;
      k := k + 1;
    }
    assert gs[..|gs|] == gs;
  }

  /** One more turn of the loop: group `k` lands in slot `k`, ... */
  lemma WriteStep(buf: seq<bv8>, c: nat, gs: seq<nat>, k: nat, ch: Channels, m: Mode)
    requires GroupsValid(gs, m) && Advance(c, |gs|, ch) <= |buf| && k < |gs|
    ensures GroupsValid(gs[..k + 1], m) && Advance(c, k + 1, ch) <= |buf|
    ensures WriteGroups(buf, c, gs[..k + 1], ch, m)
         == var w := WriteGroups(buf, c, gs[..k], ch, m);
            w[Slot(c, k, ch) := SetLow(w[Slot(c, k, ch)], m, gs[k])]
  {
    var p := gs[..k + 1];
    AdvanceMono(c, k + 1, |gs|, ch);
    assert GroupsValid(p, m) by {
      assert forall j :: 0 <= j < |p| ==> p[j] == gs[j];
    }
    assert p[..k] == gs[..k] && p[k] == gs[k] && |p| == k + 1;
    WriteGroupsLast(buf, c, p, ch, m);
  }

  /** ... and the cursor moves just past that slot. */
  lemma CursorStep(c: nat, k: nat, ch: Channels)
    ensures Advance(c, k + 1, ch) == Slot(c, k, ch) + 1
  {
  }

  /** `insertData` once the mode is chosen: the mode flag into byte 0
      (main.cpp:42), then the whole stream from cursor 1. */
  method InsertData(pixels: seq<bv8>, ch: Channels, m: Mode, field: seq<byte>, data: seq<byte>) returns (out: seq<bv8>)
    requires StreamFits(pixels, ch, m, field, data)
    ensures out == Embed(pixels, ch, m, field, data)
  {
    FitsIffRoom(pixels, ch, m, field, data);
    out := pixels[0 := SetModeFlag(pixels[0], m)];
    var cur;
    out, cur := WriteRun(out, 1, Stream(m, field, data), ch, m);
  }
}
