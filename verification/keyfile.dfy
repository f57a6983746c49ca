/** The key file layout of `Key` (file.cpp:88-138): `key_size + 16` random
    bytes, read back as a 16-byte initialisation vector followed by the key.
    The random generator becomes a parameter: `draw(i)` is the `i`-th byte it
    yields. */
module KeyFile {
  import opened Arith
  import opened Wrappers

  /** `iv_size_`, fixed at 16 (file.cpp:119). */
  const IvSize: nat := 16

  /** The `runtime_error`s the `Key` class throws. */
  datatype KeyError =
    | InvalidKeySize // file.cpp:90-91
    | KeyTooShort    // file.cpp:128-129

  /** file.cpp:90: AES-128, AES-192 or AES-256 key lengths. */
  predicate ValidKeySize(keySize: byte)
  {
    keySize == 16 || keySize == 24 || keySize == 32
  }

  /** `Key::generateKey` without the file system: check the size, then draw
      `key_size + 16` bytes (file.cpp:90-114). */
  function GenerateKey(keySize: byte, draw: nat -> byte): (r: Result<seq<byte>, KeyError>)
    ensures r.Err? <==> !ValidKeySize(keySize)
    ensures r.Err? ==> r.error == InvalidKeySize
    ensures r.Ok? ==> |r.value| == IvSize + keySize
    ensures r.Ok? ==> forall i :: 0 <= i < |r.value| ==> r.value[i] == draw(i)
  {
    if !ValidKeySize(keySize) then Err(InvalidKeySize)
    else Ok(seq(keySize + IvSize, i requires 0 <= i => draw(i)))
  }

  /** What a `Key` holds once loaded. */
  datatype KeyMaterial = KeyMaterial(iv: seq<byte>, key: seq<byte>)

  /** The `Key` constructor on the key file's bytes (file.cpp:119-138): a file
      shorter than `16 + key_size` is refused; otherwise the first 16 bytes
      are the IV and the next `key_size` bytes the key. The constructor itself
      does not check that `key_size` is 16, 24 or 32. */
  function LoadKey(file: seq<byte>, keySize: byte): (r: Result<KeyMaterial, KeyError>)
    ensures r.Err? <==> |file| < IvSize + keySize
    ensures r.Err? ==> r.error == KeyTooShort
    ensures r.Ok? ==> |r.value.iv| == IvSize && |r.value.key| == keySize
    ensures r.Ok? ==> r.value.iv + r.value.key == file[..IvSize + keySize]
  {
    if |file| < IvSize + keySize then Err(KeyTooShort)
    else
      var iv, key := file[..IvSize], file[IvSize..IvSize + keySize];
      assert iv + key == file[..IvSize + keySize];
      Ok(KeyMaterial(iv, key))
  }

  /** A generated key file loads with the same key size, and yields the
      generator's first 16 bytes as the IV and the following ones as the key. */
  lemma GenerateThenLoad(keySize: byte, draw: nat -> byte)
    requires ValidKeySize(keySize)
    ensures GenerateKey(keySize, draw).Ok?
    ensures var m := LoadKey(GenerateKey(keySize, draw).value, keySize);
      m.Ok?
      && (forall i :: 0 <= i < IvSize ==> m.value.iv[i] == draw(i))
      && (forall i :: 0 <= i < keySize ==> m.value.key[i] == draw(IvSize + i))
  {
    var file := GenerateKey(keySize, draw).value;
    var m := LoadKey(file, keySize).value;
    forall i | 0 <= i < keySize
      ensures m.key[i] == draw(IvSize + i)
    {
      assert m.key[i] == (m.iv + m.key)[IvSize + i] == file[IvSize + i];
    }
    forall i | 0 <= i < IvSize
      ensures m.iv[i] == draw(i)
    {
      assert m.iv[i] == (m.iv + m.key)[i] == file[i];
    }
  }
}
