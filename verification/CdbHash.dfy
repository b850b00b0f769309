/** The cdb hash function (cdb/cdb_hash.c). */
module CdbHash {
  import opened Words

  /** Byte strings whose length fits the `unsigned int` the C interface takes. */
  type Bytes = s: seq<byte> | |s| < 0x1_0000_0000

  const HASH_START: uint32 := 5381

  /** h += h << 5, then exclusive or with one byte. */
  function HashAdd(h: uint32, c: byte): uint32
  {
    HashAddFits(Wrap(h + Wrap(h * 32)), c);
    BitXor(Wrap(h + Wrap(h * 32)), c)
  }

  lemma HashAddFits(h: uint32, c: byte)
    ensures BitXor(h, c) < TWO32
  {
    Pow2Of32();
    XorStaysInWidth(h, c, 32);
  }

  lemma Pow2Of32()
    ensures Pow2(32) == TWO32
  {
    assert Pow2(8) == 256;
    assert Pow2(16) == 0x1_0000;
    assert Pow2(24) == 0x100_0000;
  }

  /** The hash of a whole key, as a fold over its bytes. */
  function Hash(key: seq<byte>): uint32
  {
    if key == [] then HASH_START else HashAdd(Hash(key[..|key| - 1]), key[|key| - 1])
  }

  /** What the hash is: it starts at 5381, and each byte is mixed by exclusive or into 33 times the hash so far. */
  lemma {:induction false} HashLaw(key: seq<byte>, c: byte)
    ensures Hash([]) == 5381
    ensures BitXor(Hash(key + [c]), c) == 33 * Hash(key) % 0x1_0000_0000
  {
    var h := Hash(key);
    assert (key + [c])[..|key|] == key;
    WrapSum(h * 32, h);
    assert h + Wrap(h * 32) == Wrap(h * 32) + h && h * 32 + h == 33 * h;
    XorTwice(Wrap(33 * h), c);
  }

  /** `cdb_hash`: one pass over the key with a running value. */
  method ComputeHash(buf: seq<byte>) returns (h: uint32)
    ensures h == Hash(buf)
  {
    h := HASH_START;
    var i := 0;
    while i < |buf|
      invariant 0 <= i <= |buf|
      invariant h == Hash(buf[..i])
    {
      assert buf[..i + 1][..i] == buf[..i];
      h := HashAdd(h, buf[i]);
      i := i + 1;
    }
    assert buf[..i] == buf;
  }
}
