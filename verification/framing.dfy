/** The byte framing of `File` (file.cpp:18-70): the path constructor appends
    the extension and a 0 byte, reversed, after the file's content; the buffer
    constructor scans back from the end to the 0 byte to split the buffer
    into content and extension again. Paths, streams and the file system are
    not modelled; only the bytes are. */
module Framing {
  import opened Arith
  import opened Wrappers

  /** The `runtime_error`s the `File` constructors throw. */
  datatype FileError =
    | EmptyFile      // file.cpp:28-29
    | EmptyBuffer    // file.cpp:49-52
    | NoTerminator   // file.cpp:58: no 0 byte; the unsigned scan would run off the buffer

  /** The sequence read back to front. */
  function Reverse<T>(s: seq<T>): (r: seq<T>)
    ensures |r| == |s|
    ensures forall k :: 0 <= k < |s| ==> r[k] == s[|s| - 1 - k]
  {
    if |s| == 0 then [] else Reverse(s[1..]) + [s[0]]
  }

  lemma {:induction false} ReverseReverse<T>(s: seq<T>)
    ensures Reverse(Reverse(s)) == s
  {
    var r := Reverse(Reverse(s));
    assert forall k :: 0 <= k < |s| ==> r[k] == Reverse(s)[|s| - 1 - k] == s[k];
  }

  /** The path constructor (file.cpp:18-44) on a file's content and its path
      extension (empty, or starting with '.'): the content, then
      `extension + '\0'` written back to front. */
  function Pack(content: seq<byte>, ext: seq<byte>): (r: Result<seq<byte>, FileError>)
    ensures r.Err? <==> |content| == 0
    ensures r.Err? ==> r.error == EmptyFile
    ensures r.Ok? ==> |r.value| == |content| + |ext| + 1
    ensures r.Ok? ==> r.value[..|content|] == content
    ensures r.Ok? ==> r.value[|content|] == 0
    ensures r.Ok? ==> forall k :: 0 <= k < |ext| ==> r.value[|r.value| - 1 - k] == ext[k]
  {
    if |content| == 0 then Err(EmptyFile)
    else
      var trailer := Reverse(ext + [0]);
      assert trailer[0] == 0;
      Ok(content + trailer)
  }

  /** A buffer split back into the file's content and its extension. */
  datatype Unpacked = Unpacked(content: seq<byte>, ext: seq<byte>)

  /** file.cpp:54-65: read backwards from index `i - 1`, appending each byte to
      `acc` until a 0 byte. Gives the index of that 0 byte and the bytes
      gathered. */
  function ScanBack(buf: seq<byte>, i: nat, acc: seq<byte>): (r: Result<(nat, seq<byte>), FileError>)
    requires i <= |buf|
    ensures r.Err? <==> 0 !in buf[..i]
    ensures r.Err? ==> r.error == NoTerminator
    ensures r.Ok? ==> r.value.0 < i && buf[r.value.0] == 0 && 0 !in buf[r.value.0 + 1..i]
    ensures r.Ok? ==> r.value.1 == acc + Reverse(buf[r.value.0 + 1..i])
    decreases i
  {
    if i == 0 then Err(NoTerminator)
    else if buf[i - 1] == 0 then
      assert buf[i..i] == [];
      Ok((i - 1, acc))
    else
      var r := ScanBack(buf, i - 1, acc + [buf[i - 1]]);
      assert buf[..i] == buf[..i - 1] + [buf[i - 1]];
      if r.Ok? then
        var n := r.value.0;
        assert buf[n + 1..i] == buf[n + 1..i - 1] + [buf[i - 1]];
        ReverseSnoc(buf[n + 1..i - 1], buf[i - 1]);
        r
      else r
  }

  lemma ReverseSnoc<T>(s: seq<T>, x: T)
    ensures Reverse(s + [x]) == [x] + Reverse(s)
  {
    var a, b := Reverse(s + [x]), [x] + Reverse(s);
    assert forall k :: 0 <= k < |a| ==> a[k] == b[k];
  }

  /** The buffer constructor (file.cpp:46-70): reject an empty buffer, then
      the content is everything before the last 0 byte (`original_size_`,
      file.cpp:67) and the extension is what follows it, read backwards. */
  function Unpack(buf: seq<byte>): (r: Result<Unpacked, FileError>)
    ensures r.Err? <==> |buf| == 0 || 0 !in buf
    ensures r.Err? ==> r.error == (if |buf| == 0 then EmptyBuffer else NoTerminator)
    ensures r.Ok? ==> buf == r.value.content + [0] + Reverse(r.value.ext) && 0 !in r.value.ext
  {
    if |buf| == 0 then Err(EmptyBuffer)
    else
      assert buf[..|buf|] == buf;
      match ScanBack(buf, |buf|, [])
      case Err(e) => Err(e)
      case Ok((n, ext)) =>
        ScanWhole(buf, n, ext);
        Ok(Unpacked(buf[..n], ext))
  }

  /** A backward scan over the whole buffer splits it at its last 0 byte. */
  lemma ScanWhole(buf: seq<byte>, n: nat, ext: seq<byte>)
    requires ScanBack(buf, |buf|, []) == Ok((n, ext))
    ensures n < |buf| && buf == buf[..n] + [0] + Reverse(ext) && 0 !in ext
  {
    var tail := buf[n + 1..];
    assert tail == buf[n + 1..|buf|];
    assert ext == Reverse(tail) by {
      assert [] + Reverse(tail) == Reverse(tail);
    }
    ReverseExcludes(tail, 0);
    ReverseReverse(tail);
    SplitAt(buf, n);
  }

  lemma ReverseExcludes<T>(s: seq<T>, x: T)
    requires x !in s
    ensures x !in Reverse(s)
  {
    var r := Reverse(s);
    forall k | 0 <= k < |r|
      ensures r[k] != x
    {
      assert r[k] == s[|s| - 1 - k];
    }
  }

  lemma SplitAt<T>(s: seq<T>, n: nat)
    requires n < |s|
    ensures s == s[..n] + [s[n]] + s[n + 1..]
  {
  }

  /** Unpacking a packed file gives back its content and extension when the
      extension has no 0 byte. */
  lemma PackUnpack(content: seq<byte>, ext: seq<byte>)
    requires |content| > 0 && 0 !in ext
    ensures Pack(content, ext).Ok?
    ensures Unpack(Pack(content, ext).value) == Ok(Unpacked(content, ext))
  {
    assert Pack(content, ext).value == content + [0] + Reverse(ext) by {
      ReverseSnoc(ext, 0);
    }
    FramedUnpacks(content, ext);
  }

  /** A content, a 0 byte and a reversed 0-free extension unpack into that
      content and extension. */
  lemma FramedUnpacks(content: seq<byte>, ext: seq<byte>)
    requires 0 !in ext
    ensures Unpack(content + [0] + Reverse(ext)) == Ok(Unpacked(content, ext))
  {
    var buf := content + [0] + Reverse(ext);
    assert buf[|content|] == 0;
    var u := Unpack(buf).value;
    UnframeUnique(content, ext, u.content, u.ext);
  }

  /** Packing the parts of an unpacked buffer rebuilds the buffer, provided
      the content is not empty (an empty one is refused by the path
      constructor). */
  lemma UnpackPack(buf: seq<byte>)
    requires Unpack(buf).Ok? && |Unpack(buf).value.content| > 0
    ensures Pack(Unpack(buf).value.content, Unpack(buf).value.ext) == Ok(buf)
  {
    var u := Unpack(buf).value;
    ReverseSnoc(u.ext, 0);
    assert u.content + Reverse(u.ext + [0]) == u.content + [0] + Reverse(u.ext);
  }

  /** A content, a 0 byte and a 0-free reversed extension can be put together
      in only one way. */
  lemma UnframeUnique(c1: seq<byte>, e1: seq<byte>, c2: seq<byte>, e2: seq<byte>)
    requires 0 !in e1 && 0 !in e2
    requires c1 + [0] + Reverse(e1) == c2 + [0] + Reverse(e2)
    ensures c1 == c2 && e1 == e2
  {
    var s := c1 + [0] + Reverse(e1);
    LastZero(c1, e1);
    LastZero(c2, e2);
    assert |c1| == |c2|;
    assert c1 == s[..|c1|] == c2;
    assert Reverse(e1) == s[|c1| + 1..] == Reverse(e2);
    ReverseReverse(e1);
    ReverseReverse(e2);
  }

  /** In a framed buffer the 0 byte after the content is the last one. */
  lemma LastZero(c: seq<byte>, e: seq<byte>)
    requires 0 !in e
    ensures var s := c + [0] + Reverse(e);
      s[|c|] == 0 && forall j :: |c| < j < |s| ==> s[j] != 0
  {
    var s := c + [0] + Reverse(e);
    forall j | |c| < j < |s|
      ensures s[j] != 0
    {
      assert s[j] == Reverse(e)[j - |c| - 1] == e[|e| - 1 - (j - |c| - 1)];
    }
  }
}
