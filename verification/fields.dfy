/** Reading whole fields back from a pixel buffer: an 8-bit character
    (main.cpp:104-112, 131-139, 159-171) or the 64-bit size (main.cpp:121-127),
    each read as `mode`-bit groups from successive cursor slots. */
module Fields {
  import opened Arith
  import opened Wrappers
  import opened Channel
  import opened Cursor
  import opened BitStream

  /** Groups making up the 64-bit size field: `for (j = 0; j < 64; j += mode)`. */
  function SizeGroups(m: Mode): (n: nat)
    ensures n == 8 * GroupsPerByte(m)
    ensures m * n == 64
  {
    if m == 1 then 64 else 32
  }

  /** Read an `n`-group value at cursor `c`: the value and the cursor after it. */
  function ReadValue(buf: seq<bv8>, c: nat, n: nat, ch: nat, m: Mode): (r: Option<(nat, nat)>)
    requires ch >= 1
    ensures r.Some? <==> ReadGroups(buf, c, n, ch, m).Some?
    ensures r.Some? ==> r.value.1 == Advance(c, n, ch) && r.value.0 < Pow2(m * n)
  {
    match ReadGroups(buf, c, n, ch, m)
    case None => None
    case Some(gs) =>
      JoinBound(gs, m);
      Some((Join(gs, m), Advance(c, n, ch)))
  }

  /** Read one character at cursor `c`. */
  function ReadByte(buf: seq<bv8>, c: nat, ch: nat, m: Mode): (r: Option<(byte, nat)>)
    requires ch >= 1
    ensures r.Some? ==> r.value.1 == Advance(c, GroupsPerByte(m), ch) && c < r.value.1
  {
    match ReadValue(buf, c, GroupsPerByte(m), ch, m)
    case None => None
    case Some((v, c2)) =>
      Pow2Byte(m);
      Some((v as byte, c2))
  }

  /** Read `n` bytes starting at cursor `c`. */
  function ReadBytes(buf: seq<bv8>, c: nat, n: nat, ch: nat, m: Mode): (r: Option<seq<byte>>)
    requires ch >= 1
    ensures r.Some? ==> |r.value| == n
  {
    match ReadGroups(buf, c, n * GroupsPerByte(m), ch, m)
    case None => None
    case Some(gs) => Some(Ungroup(gs, n, m))
  }

  /** The buffer holds the bytes `bs` from cursor `c` on. */
  predicate Carries(buf: seq<bv8>, c: nat, bs: seq<byte>, ch: nat, m: Mode)
    requires ch >= 1
  {
    ReadGroups(buf, c, |ByteGroups(bs, m)|, ch, m) == Some(ByteGroups(bs, m))
  }

  /** Bytes written as the last part of a group run are carried from where
      the writer reached them. */
  lemma WrittenTailCarried(buf: seq<bv8>, c: nat, h: seq<nat>, bs: seq<byte>, ch: nat, m: Mode)
    requires ch >= 1 && GroupsValid(h + ByteGroups(bs, m), m)
    requires Advance(c, |h + ByteGroups(bs, m)|, ch) <= |buf|
    ensures Carries(WriteGroups(buf, c, h + ByteGroups(bs, m), ch, m), Advance(c, |h|, ch), bs, ch, m)
  {
    var g := ByteGroups(bs, m);
    assert (h + g)[|h|..|h| + |g|] == g by {
      ConcatRight(h, g);
    }
    ReadAfterWrite(buf, c, h + g, |h|, |g|, ch, m);
  }

  lemma ConcatRight<T>(x: seq<T>, y: seq<T>)
    ensures (x + y)[|x|..|x| + |y|] == y
  {
  }

  /** Bytes carried from `c` on are read back by `ReadBytes`. */
  lemma CarriesReadBytes(buf: seq<bv8>, c: nat, bs: seq<byte>, ch: nat, m: Mode)
    requires ch >= 1 && Carries(buf, c, bs, ch, m)
    ensures ReadBytes(buf, c, |bs|, ch, m) == Some(bs)
  {
    UngroupByteGroups(bs, m);
  }

  /** Groups read as one run are read as its two parts: the first part from
      the same cursor, ... */
  lemma ReadRunLeft(buf: seq<bv8>, c: nat, x: seq<nat>, y: seq<nat>, ch: nat, m: Mode)
    requires ch >= 1 && ReadGroups(buf, c, |x| + |y|, ch, m) == Some(x + y)
    ensures ReadGroups(buf, c, |x|, ch, m) == Some(x)
  {
    ReadGroupsSplit(buf, c, |x|, |y|, ch, m);
    var u := ReadGroups(buf, c, |x|, ch, m).value;
    var v := ReadGroups(buf, Advance(c, |x|, ch), |y|, ch, m).value;
    ConcatCancel(u, v, x, y);
  }

  /** ... and the second part from where the first left the cursor. */
  lemma ReadRunRight(buf: seq<bv8>, c: nat, x: seq<nat>, y: seq<nat>, ch: nat, m: Mode)
    requires ch >= 1 && ReadGroups(buf, c, |x| + |y|, ch, m) == Some(x + y)
    ensures ReadGroups(buf, Advance(c, |x|, ch), |y|, ch, m) == Some(y)
  {
    ReadGroupsSplit(buf, c, |x|, |y|, ch, m);
    var u := ReadGroups(buf, c, |x|, ch, m).value;
    var v := ReadGroups(buf, Advance(c, |x|, ch), |y|, ch, m).value;
    ConcatCancel(u, v, x, y);
  }

  lemma ConcatCancel<T>(u: seq<T>, v: seq<T>, x: seq<T>, y: seq<T>)
    requires u + v == x + y && |u| == |x|
    ensures u == x && v == y
  {
    assert u == (u + v)[..|u|];
    assert v == (u + v)[|u|..];
  }

  /** A carried sequence splits into its two parts. */
  lemma CarriesSplit(buf: seq<bv8>, c: nat, a: seq<byte>, b: seq<byte>, ch: nat, m: Mode)
    requires ch >= 1 && Carries(buf, c, a + b, ch, m)
    ensures Carries(buf, c, a, ch, m)
    ensures Carries(buf, Advance(c, |ByteGroups(a, m)|, ch), b, ch, m)
  {
    var ga, gb := ByteGroups(a, m), ByteGroups(b, m);
    assert ReadGroups(buf, c, |ga| + |gb|, ch, m) == Some(ga + gb) by {
      ByteGroupsAppend(a, b, m);
      assert |ga + gb| == |ga| + |gb|;
    }
    assert Carries(buf, c, a, ch, m) by {
      ReadRunLeft(buf, c, ga, gb, ch, m);
    }
    ReadRunRight(buf, c, ga, gb, ch, m);
  }

  /** The first carried byte is read by `ReadByte`, and the rest is carried
      from where that read stopped. */
  lemma CarriesHead(buf: seq<bv8>, c: nat, bs: seq<byte>, ch: nat, m: Mode)
    requires ch >= 1 && |bs| > 0 && Carries(buf, c, bs, ch, m)
    ensures c < |buf|
    ensures ReadByte(buf, c, ch, m) == Some((bs[0], Advance(c, GroupsPerByte(m), ch)))
    ensures Carries(buf, Advance(c, GroupsPerByte(m), ch), bs[1..], ch, m)
  {
    var g := GroupsPerByte(m);
    assert bs == [bs[0]] + bs[1..];
    CarriesSplit(buf, c, [bs[0]], bs[1..], ch, m);
    assert |ByteGroups([bs[0]], m)| == g;
    assert ByteGroups([bs[0]], m) == Groups(bs[0], g, m) by {
      assert [bs[0]][1..] == [];
    }
    Pow2Byte(m);
    ValueRoundTrip(bs[0], g, m);
  }

  /** A byte read at `c` followed by bytes carried from where it stopped:
      the whole is carried from `c`. */
  lemma CarriesCons(buf: seq<bv8>, c: nat, b: byte, rest: seq<byte>, ch: nat, m: Mode)
    requires ch >= 1
    requires ReadByte(buf, c, ch, m).Some? && ReadByte(buf, c, ch, m).value.0 == b
    requires Carries(buf, ReadByte(buf, c, ch, m).value.1, rest, ch, m)
    ensures Carries(buf, c, [b] + rest, ch, m)
  {
    var g := GroupsPerByte(m);
    var gs := ReadGroups(buf, c, g, ch, m).value;
    assert Join(gs, m) == b;
    assert Groups(b, g, m) == gs by {
      JoinThenSplit(gs, m);
    }
    assert ByteGroups([b], m) == gs by {
      assert [b][1..] == [];
    }
    ReadGroupsConcat(buf, c, g, |ByteGroups(rest, m)|, ch, m);
    assert ([b] + rest)[1..] == rest;
    assert ByteGroups([b] + rest, m) == gs + ByteGroups(rest, m);
  }

  /** Being carried is being read back by `ReadBytes`. */
  lemma CarriesIffReadBytes(buf: seq<bv8>, c: nat, bs: seq<byte>, ch: nat, m: Mode)
    requires ch >= 1
    ensures Carries(buf, c, bs, ch, m) <==> ReadBytes(buf, c, |bs|, ch, m) == Some(bs)
  {
    if Carries(buf, c, bs, ch, m) {
      CarriesReadBytes(buf, c, bs, ch, m);
    }
    if ReadBytes(buf, c, |bs|, ch, m) == Some(bs) {
      var gs := ReadGroups(buf, c, |bs| * GroupsPerByte(m), ch, m).value;
      ByteGroupsUngroup(gs, |bs|, m);
    }
  }

  /** A 64-bit value written as `64/mode` groups is read back exactly. */
  lemma ReadSizeBack(buf: seq<bv8>, c: nat, size: nat, ch: nat, m: Mode)
    requires ch >= 1 && size < U64
    requires ReadGroups(buf, c, SizeGroups(m), ch, m) == Some(Groups(size, SizeGroups(m), m))
    ensures ReadValue(buf, c, SizeGroups(m), ch, m) == Some((size, Advance(c, SizeGroups(m), ch)))
  {
    Pow2Word();
    ValueRoundTrip(size, SizeGroups(m), m);
  }
}
