/** Fixed-width words as the C code stores them: bytes, 32-bit unsigned integers,
    their little-endian form, and the bit operations the code applies to them. */
module Words {

  const TWO32: int := 0x1_0000_0000

  type byte = b: int | 0 <= b < 256
  type uint32 = u: int | 0 <= u < 0x1_0000_0000

  /** The value a 32-bit register holds after an unbounded result x. */
  function Wrap(x: int): uint32 { x % TWO32 }

  lemma WrapSmall(x: uint32)
    ensures Wrap(x) == x
  {
  }

  lemma WrapSum(a: int, b: int)
    ensures Wrap(Wrap(a) + b) == Wrap(a + b) && Wrap(Wrap(a) - Wrap(b)) == Wrap(a - b)
  {
    var i, k := a / TWO32, b / TWO32;
    assert a == i * TWO32 + Wrap(a) && b == k * TWO32 + Wrap(b);
    WrapMultiple(a + b, Wrap(a) + b, i);
    WrapMultiple(a - b, Wrap(a) - Wrap(b), i - k);
  }

  lemma WrapMultiple(x: int, y: int, k: int)
    requires x == y + k * TWO32
    ensures Wrap(x) == Wrap(y)
  {
    DivisionIsUnique(x, TWO32, y / TWO32 + k, y % TWO32);
  }

  /** Byte i of u, least significant first. */
  function ByteOf(u: nat, i: nat): byte {
    if i == 0 then u % 256 else ByteOf(u / 256, i - 1)
  }

  /** Little-endian form: the bytes that `*(uint32*)s = u` leaves on the target machine. */
  function Pack(u: uint32): (s: seq<byte>)
    ensures |s| == 4
  {
    seq(4, (i: nat) => ByteOf(u, i))
  }

  function Unpack(s: seq<byte>): uint32
    requires |s| == 4
  {
    s[0] as int + s[1] as int * 0x100 + s[2] as int * 0x1_0000 + s[3] as int * 0x100_0000
  }

  lemma PackIs(u: uint32)
    ensures Pack(u) == [u % 256, u / 0x100 % 256, u / 0x1_0000 % 256, u / 0x100_0000]
  {
    var a, b, c := u / 256, u / 256 / 256, u / 256 / 256 / 256;
    assert ByteOf(u, 1) == ByteOf(a, 0);
    assert ByteOf(u, 2) == ByteOf(a, 1) == ByteOf(b, 0);
    assert ByteOf(u, 3) == ByteOf(a, 2) == ByteOf(b, 1) == ByteOf(c, 0);
  }

  lemma UnpackPack(u: uint32)
    ensures Unpack(Pack(u)) == u
  {
    PackIs(u);
    var a, b := u / 0x100, u / 0x1_0000;
    assert b == a / 0x100 && u / 0x100_0000 == b / 0x100;
  }

  lemma PackUnpack(s: seq<byte>)
    requires |s| == 4
    ensures Pack(Unpack(s)) == s
  {
    var u := Unpack(s);
    PackIs(u);
    assert u / 0x100 == s[1] as int + s[2] as int * 0x100 + s[3] as int * 0x1_0000;
    assert u / 0x1_0000 == s[2] as int + s[3] as int * 0x100;
  }

  /** `uint32_pack` written with shifts: one byte per step of a shrinking local. */
  method PackByShifts(a: array<byte>, at: nat, value: uint32)
    requires at + 4 <= a.Length
    modifies a
    ensures a[at..at + 4] == Pack(value)
    ensures a[..at] == old(a[..at]) && a[at + 4..] == old(a[at + 4..])
  {
    var u := value;
    a[at] := u % 256;
    u := u / 256;
    a[at + 1] := u % 256;
    u := u / 256;
    a[at + 2] := u % 256;
    a[at + 3] := u / 256;
    PackIs(value);
  }

  /** `uint32_unpack` written with shifts: the accumulator never overflows. */
  method UnpackByShifts(s: seq<byte>) returns (result: uint32)
    requires |s| == 4
    ensures Pack(result) == s
  {
    result := s[3];
    result := Wrap(result * 256);
    result := result + s[2];
    result := Wrap(result * 256);
    result := result + s[1];
    result := Wrap(result * 256);
    result := result + s[0];
    PackUnpack(s);
  }

  // Bit operations, defined bit by bit on naturals

  function BitXor(a: nat, b: nat): nat {
    if a == 0 && b == 0 then 0 else 2 * BitXor(a / 2, b / 2) + (a + b) % 2
  }

  function BitAnd(a: nat, b: nat): nat {
    if a == 0 || b == 0 then 0 else 2 * BitAnd(a / 2, b / 2) + (if a % 2 == 1 && b % 2 == 1 then 1 else 0)
  }

  function Pow2(k: nat): (p: nat)
    ensures p > 0
  {
    if k == 0 then 1 else 2 * Pow2(k - 1)
  }

  /** Bit k of x. */
  function Bit(x: nat, k: nat): (b: nat)
    ensures b < 2
  {
    x / Pow2(k) % 2
  }

  lemma {:induction false} BitHalved(x: nat, k: nat)
    requires k > 0
    ensures Bit(x, k) == Bit(x / 2, k - 1)
  {
    HalvedRemainder(x, Pow2(k - 1));
  }

  lemma XorHalves(a: nat, b: nat)
    ensures BitXor(a, b) / 2 == BitXor(a / 2, b / 2) && BitXor(a, b) % 2 == (a + b) % 2
  {
  }

  /** Exclusive or, bit by bit: set where exactly one operand is. */
  lemma {:induction false} XorBit(a: nat, b: nat, k: nat)
    ensures Bit(BitXor(a, b), k) == 1 <==> Bit(a, k) != Bit(b, k)
    decreases k
  {
    hide BitXor, Bit;
    XorHalves(a, b);
    if k > 0 {
      BitHalved(a, k);
      BitHalved(b, k);
      BitHalved(BitXor(a, b), k);
      XorBit(a / 2, b / 2, k - 1);
    } else {
      LowBit(a);
      LowBit(b);
      LowBit(BitXor(a, b));
    }
  }

  lemma LowBit(x: nat)
    ensures Bit(x, 0) == x % 2
  {
    assert Pow2(0) == 1;
  }

  /** And, bit by bit: set where both operands are. */
  lemma {:induction false} AndBit(a: nat, b: nat, k: nat)
    ensures Bit(BitAnd(a, b), k) == 1 <==> Bit(a, k) == 1 && Bit(b, k) == 1
  {
    if a == 0 || b == 0 {
      assert BitAnd(a, b) == 0;
      ZeroBit(k);
    } else if k > 0 {
      BitHalved(a, k);
      BitHalved(b, k);
      BitHalved(BitAnd(a, b), k);
      assert BitAnd(a, b) / 2 == BitAnd(a / 2, b / 2);
      AndBit(a / 2, b / 2, k - 1);
    } else {
      assert Pow2(0) == 1;
    }
  }

  lemma ZeroBit(k: nat)
    ensures Bit(0, k) == 0
  {
    DivisionIsUnique(0, Pow2(k), 0, 0);
  }

  /** Exclusive or undoes itself. */
  lemma {:induction false} XorTwice(x: nat, c: nat)
    ensures BitXor(BitXor(x, c), c) == x
    decreases x + c
  {
    hide BitXor;
    var y := BitXor(x, c);
    XorHalves(x, c);
    XorHalves(y, c);
    if x + c > 0 {
      XorTwice(x / 2, c / 2);
      SameHalves(BitXor(y, c), x, y, c);
    } else {
      assert BitXor(0, 0) == 0 by { XorNothing(); }
    }
  }

  lemma XorNothing()
    ensures BitXor(0, 0) == 0
  {
  }

  lemma SameHalves(z: nat, x: nat, y: nat, c: nat)
    requires z / 2 == x / 2 && z % 2 == (y + c) % 2 && y % 2 == (x + c) % 2
    ensures z == x
  {
    assert (y + c) % 2 == (y % 2 + c) % 2 == (x + c + c) % 2 == x % 2;
  }

  /** u >> k: k halvings. */
  function ShiftRight(u: nat, k: nat): nat {
    if k == 0 then u else ShiftRight(u / 2, k - 1)
  }

  lemma {:induction false} ShiftDivides(u: nat, k: nat)
    ensures ShiftRight(u, k) == u / Pow2(k)
  {
    if k > 0 {
      ShiftDivides(u / 2, k - 1);
      HalvedRemainder(u, Pow2(k - 1));
    }
  }

  /** Exclusive or never leaves the width of its operands. */
  lemma {:induction false} XorStaysInWidth(a: nat, b: nat, k: nat)
    requires a < Pow2(k) && b < Pow2(k)
    ensures BitXor(a, b) < Pow2(k)
  {
    if k > 0 && (a > 0 || b > 0) {
      XorStaysInWidth(a / 2, b / 2, k - 1);
    }
  }

  /** Masking with 2^k - 1 keeps the remainder modulo 2^k. */
  lemma {:induction false} MaskIsRemainder(k: nat, h: nat)
    ensures BitAnd(Pow2(k) - 1, h) == h % Pow2(k)
  {
    if h == 0 {
      DivisionIsUnique(0, Pow2(k), 0, 0);
    } else if k == 0 {
      assert Pow2(k) == 1;
    } else {
      MaskIsRemainder(k - 1, h / 2);
      MaskStep(Pow2(k - 1), h);
    }
  }

  lemma MaskStep(p: nat, h: nat)
    requires p > 0 && h > 0
    requires BitAnd(p - 1, h / 2) == h / 2 % p
    ensures BitAnd(2 * p - 1, h) == h % (2 * p)
  {
    HalvedRemainder(h, p);
    assert (2 * p - 1) / 2 == p - 1;
  }

  lemma HalvedRemainder(h: nat, p: nat)
    requires p > 0
    ensures h % (2 * p) == 2 * (h / 2 % p) + h % 2 && h / (2 * p) == h / 2 / p
  {
    var q, r := h / 2 / p, h / 2 % p;
    assert h == q * (2 * p) + (2 * r + h % 2);
    DivisionIsUnique(h, 2 * p, q, 2 * r + h % 2);
  }

  /** Division with remainder is unique. */
  lemma DivisionIsUnique(x: int, d: int, q: int, r: int)
    requires 0 <= r < d && x == q * d + r
    ensures x % d == r && x / d == q
  {
    var q', r' := x / d, x % d;
    assert x == q' * d + r';
    AtLeastOnce(q' - q, d);
    AtLeastOnce(q - q', d);
    assert (q' - q) * d == r - r' && (q - q') * d == r' - r;
  }

  lemma AtLeastOnce(k: int, d: int)
    requires d > 0
    ensures k >= 1 ==> k * d >= d
  {
    if k >= 1 { assert (k - 1) * d >= 0; }
  }
}
